/**
 Running statistics over a sequence of sale totals (integer cents): the
 reference definitions against which the bucket fold is checked, and the
 algebra behind the raw-moment variance formula used by the report.
 */
module Statistics {

  /** Sum of the totals, accumulated in input order. */
  function Sum(ts: seq<int>): int
  {
    if |ts| == 0 then 0 else Sum(ts[..|ts| - 1]) + ts[|ts| - 1]
  }

  /** Sum of the squared totals, accumulated in input order. */
  function SumSquares(ts: seq<int>): int
  {
    if |ts| == 0 then 0 else SumSquares(ts[..|ts| - 1]) + ts[|ts| - 1] * ts[|ts| - 1]
  }

  /** The largest total: an element of `ts` that no element exceeds. */
  function Largest(ts: seq<int>): (m: int)
    requires |ts| > 0
    ensures m in ts
    ensures forall i :: 0 <= i < |ts| ==> ts[i] <= m
  {
    if |ts| == 1 then ts[0]
    else
      var prefix := Largest(ts[..|ts| - 1]);
      if prefix < ts[|ts| - 1] then ts[|ts| - 1] else prefix
  }

  /** The smallest total: an element of `ts` that no element undercuts. */
  function Smallest(ts: seq<int>): (m: int)
    requires |ts| > 0
    ensures m in ts
    ensures forall i :: 0 <= i < |ts| ==> m <= ts[i]
  {
    if |ts| == 1 then ts[0]
    else
      var prefix := Smallest(ts[..|ts| - 1]);
      if ts[|ts| - 1] < prefix then ts[|ts| - 1] else prefix
  }

  /** The square of a count. */
  function Sq(n: int): int
  {
    n * n
  }

  /** Every total in `ts` is the same. */
  predicate AllEqual(ts: seq<int>)
  {
    forall i, j :: 0 <= i < |ts| && 0 <= j < |ts| ==> ts[i] == ts[j]
  }

  /** Sum of the squared distances of the totals in `ts` from `t`. */
  function Deviation(ts: seq<int>, t: int): int
  {
    if |ts| == 0 then 0
    else Deviation(ts[..|ts| - 1], t) + (ts[|ts| - 1] - t) * (ts[|ts| - 1] - t)
  }

  /** Sum of the squared differences over all pairs of positions i < j. */
  function Spread(ts: seq<int>): int
  {
    if |ts| == 0 then 0
    else Spread(ts[..|ts| - 1]) + Deviation(ts[..|ts| - 1], ts[|ts| - 1])
  }

  lemma {:induction false} DeviationExpanded(ts: seq<int>, t: int)
    ensures Deviation(ts, t) == SumSquares(ts) - 2 * t * Sum(ts) + |ts| * t * t
  {
    if |ts| > 0 {
      var init, x := ts[..|ts| - 1], ts[|ts| - 1];
      DeviationExpanded(init, t);
      var n, s, q := |init|, Sum(init), SumSquares(init);
      assert Deviation(ts, t) == Deviation(init, t) + (x - t) * (x - t);
      assert Sum(ts) == s + x && SumSquares(ts) == q + x * x && |ts| == n + 1;
      ExpandDeviationStep(n, s, q, x, t);
    }
  }

  lemma ExpandDeviationStep(n: int, s: int, q: int, x: int, t: int)
    ensures q - 2 * t * s + n * t * t + (x - t) * (x - t)
         == (q + x * x) - 2 * t * (s + x) + (n + 1) * t * t
  {
    assert (x - t) * (x - t) == x * x - 2 * t * x + t * t;
    assert (n + 1) * t * t == n * t * t + t * t;
    assert 2 * t * (s + x) == 2 * t * s + 2 * t * x;
  }

  /** The raw-moment numerator n * (sum of squares) - sum^2 is the pairwise spread. */
  lemma {:induction false} SpreadIdentity(ts: seq<int>)
    ensures |ts| * SumSquares(ts) - Sum(ts) * Sum(ts) == Spread(ts)
  {
    if |ts| > 0 {
      var init, x := ts[..|ts| - 1], ts[|ts| - 1];
      var n, s, q := |init|, Sum(init), SumSquares(init);
      SpreadIdentity(init);
      DeviationExpanded(init, x);
      assert Spread(ts) == Spread(init) + Deviation(init, x);
      assert Sum(ts) == s + x && SumSquares(ts) == q + x * x && |ts| == n + 1;
      ExpandSpreadStep(n, s, q, x);
    }
  }

  lemma ExpandSpreadStep(n: int, s: int, q: int, x: int)
    ensures (n + 1) * (q + x * x) - (s + x) * (s + x)
         == (n * q - s * s) + (q - 2 * x * s + n * x * x)
  {
    assert (n + 1) * (q + x * x) == n * q + q + n * x * x + x * x;
    assert (s + x) * (s + x) == s * s + 2 * x * s + x * x;
  }

  lemma {:induction false} DeviationZero(ts: seq<int>, t: int)
    ensures Deviation(ts, t) >= 0
    ensures Deviation(ts, t) == 0 <==> forall i :: 0 <= i < |ts| ==> ts[i] == t
  {
    if |ts| > 0 {
      var init, x := ts[..|ts| - 1], ts[|ts| - 1];
      DeviationZero(init, t);
      assert (x - t) * (x - t) >= 0;
      assert (x - t) * (x - t) == 0 <==> x == t;
      if Deviation(ts, t) == 0 {
        forall i | 0 <= i < |ts| ensures ts[i] == t {
          if i < |init| { assert ts[i] == init[i]; }
        }
      }
      if forall i :: 0 <= i < |ts| ==> ts[i] == t {
        assert forall i :: 0 <= i < |init| ==> init[i] == ts[i];
      }
    }
  }

  /** The spread is never negative, and it vanishes exactly when all totals agree. */
  lemma {:induction false} SpreadZero(ts: seq<int>)
    ensures Spread(ts) >= 0
    ensures Spread(ts) == 0 <==> AllEqual(ts)
  {
    if |ts| > 0 {
      var init, x := ts[..|ts| - 1], ts[|ts| - 1];
      SpreadZero(init);
      DeviationZero(init, x);
      if Spread(ts) == 0 {
        assert forall i :: 0 <= i < |ts| ==> ts[i] == x by {
          forall i | 0 <= i < |ts| ensures ts[i] == x {
            if i < |init| { assert ts[i] == init[i]; }
          }
        }
      }
      if AllEqual(ts) {
        assert forall i :: 0 <= i < |init| ==> init[i] == ts[i];
        assert forall i :: 0 <= i < |init| ==> init[i] == x;
      }
    }
  }

  /** The sum lies between n times the smallest and n times the largest total. */
  lemma {:induction false} SumBetweenExtremes(ts: seq<int>)
    requires |ts| > 0
    ensures |ts| * Smallest(ts) <= Sum(ts) <= |ts| * Largest(ts)
  {
    if |ts| > 1 {
      var init, x := ts[..|ts| - 1], ts[|ts| - 1];
      SumBetweenExtremes(init);
      var lo, hi := Smallest(ts), Largest(ts);
      assert lo <= Smallest(init) && lo <= x;
      assert Largest(init) <= hi && x <= hi;
      assert Sum(ts) == Sum(init) + x && |ts| == |init| + 1;
      ScaleBound(|init|, lo, Smallest(init));
      ScaleBound(|init|, Largest(init), hi);
    }
  }

  lemma ScaleBound(n: nat, a: int, b: int)
    requires a <= b
    ensures n * a <= n * b
    ensures (n + 1) * a == n * a + a
    ensures (n + 1) * b == n * b + b
  {
  }
}
