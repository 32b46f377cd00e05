/**
 The map key the source actually uses is the text `${year}-${month}`. Keying
 buckets by the (year, month) pair instead is sound because that text is
 injective whenever the month has no sign, which holds for every calendar
 month (1 to 12) and for every year, negative ones included.
 */
module KeyText {
  import opened Aggregation

  predicate IsDigit(c: char)
  {
    '0' <= c <= '9'
  }

  predicate AllDigits(s: string)
  {
    forall i :: 0 <= i < |s| ==> IsDigit(s[i])
  }

  function DigitChar(d: int): (c: char)
    requires 0 <= d <= 9
    ensures IsDigit(c) && c as int - '0' as int == d
  {
    (d + '0' as int) as char
  }

  /** Decimal digits of `n`, most significant first, without leading zeros. */
  function Digits(n: nat): (s: string)
    ensures |s| >= 1 && AllDigits(s)
    decreases n
  {
    if n < 10 then [DigitChar(n)] else Digits(n / 10) + [DigitChar(n % 10)]
  }

  /**
   How a template literal renders an integral number whose magnitude is below
   10^21; from there on JavaScript switches to exponent form ("1e+21"). Every
   year `getFullYear` can return (magnitude at most 275760) and every month is
   far inside that range.
   */
  function NumberText(i: int): string
  {
    if i < 0 then "-" + Digits(-i) else Digits(i)
  }

  /** The bucket key as the source builds it. */
  function KeyText(year: int, month: int): string
  {
    NumberText(year) + "-" + NumberText(month)
  }

  function ParseDigits(s: string): nat
    requires AllDigits(s)
  {
    if |s| == 0 then 0
    else ParseDigits(s[..|s| - 1]) * 10 + (s[|s| - 1] as int - '0' as int)
  }

  /** Reads back a text produced by NumberText. */
  function ParseNumber(s: string): int
    requires |s| > 0
    requires s[0] == '-' ==> AllDigits(s[1..])
    requires s[0] != '-' ==> AllDigits(s)
  {
    if s[0] == '-' then -(ParseDigits(s[1..]) as int) else ParseDigits(s)
  }

  lemma {:induction false} DigitsRoundTrip(n: nat)
    ensures ParseDigits(Digits(n)) == n
    decreases n
  {
    if n >= 10 {
      DigitsRoundTrip(n / 10);
      var s := Digits(n);
      assert s[..|s| - 1] == Digits(n / 10);
    }
  }

  /** NumberText is undone by ParseNumber, so it is injective. */
  lemma NumberRoundTrip(i: int)
    ensures |NumberText(i)| > 0
    ensures NumberText(i)[0] == '-' <==> i < 0
    ensures NumberText(i)[0] == '-' ==> AllDigits(NumberText(i)[1..])
    ensures NumberText(i)[0] != '-' ==> AllDigits(NumberText(i))
    ensures ParseNumber(NumberText(i)) == i
  {
    if i < 0 {
      DigitsRoundTrip(-i);
      assert NumberText(i)[1..] == Digits(-i);
    } else {
      DigitsRoundTrip(i);
      assert IsDigit(Digits(i)[0]);
    }
  }

  /** Splitting `a + "-" + b` with digit-only `b` recovers `a` and `b`. */
  lemma SplitAtLastDash(a: string, b: string, a': string, b': string)
    requires AllDigits(b) && AllDigits(b')
    requires a + "-" + b == a' + "-" + b'
    ensures a == a' && b == b'
  {
    var s := a + "-" + b;
    if |b| < |b'| {
      CharAt(a, b, |s| - |b| - 1);
      CharAt(a', b', |s| - |b| - 1);
      assert false;
    } else if |b'| < |b| {
      CharAt(a, b, |s| - |b'| - 1);
      CharAt(a', b', |s| - |b'| - 1);
      assert false;
    }
    assert a == s[..|a|] && a' == (a' + "-" + b')[..|a'|];
    assert b == s[|a| + 1..] && b' == (a' + "-" + b')[|a'| + 1..];
  }

  /** The character at position `p` of `a + "-" + b`. */
  lemma CharAt(a: string, b: string, p: int)
    ensures p == |a| ==> (a + "-" + b)[p] == '-'
    ensures |a| < p < |a| + 1 + |b| ==> (a + "-" + b)[p] == b[p - |a| - 1]
  {
  }

  /** Distinct (year, month) pairs with unsigned months get distinct keys. */
  lemma KeyTextInjective(y1: int, m1: int, y2: int, m2: int)
    requires m1 >= 0 && m2 >= 0
    ensures KeyText(y1, m1) == KeyText(y2, m2) <==> y1 == y2 && m1 == m2
  {
    if KeyText(y1, m1) == KeyText(y2, m2) {
      SplitAtLastDash(NumberText(y1), NumberText(m1), NumberText(y2), NumberText(m2));
      NumberRoundTrip(y1);
      NumberRoundTrip(y2);
      NumberRoundTrip(m1);
      NumberRoundTrip(m2);
    }
  }

  /**
   Grouping records by the text key and grouping them by the pair agree:
   two records share a text key exactly when they share a (year, month).
   */
  lemma TextKeyGroupsLikePair(r1: Record, r2: Record)
    requires r1.month >= 0 && r2.month >= 0
    ensures KeyText(r1.year, r1.month) == KeyText(r2.year, r2.month) <==> KeyOf(r1) == KeyOf(r2)
  {
    KeyTextInjective(r1.year, r1.month, r2.year, r2.month);
  }
}
