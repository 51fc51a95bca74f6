/** What a printed decimal denotes: the number made of its digits, and the place of its point. */
module PrintedValues {
  import opened Decimals
  import opened Limbs
  import opened NumberText
  import opened Printer
  import DecimalAdd
  import DecimalShift

  /** `v * 10^k`, rounded down. */
  function Moved(v: nat, k: int): nat {
    if k >= 0 then (MulNonNeg(v, Pow10(k)); v * Pow10(k)) else (CutSize(v, 0 - k, 0); Cut(v, 0 - k))
  }

  lemma ZerosValue(k: nat)
    ensures Value(ZeroDigits(k)) == 0
  {
    PowPositive(k);
    DigitsOfZero(k);
    ValueOfDigits(0, k);
  }

  lemma PowPositive(k: nat)
    ensures Pow10(k) > 0
  {
  }

  /** The first `k` digits of a mantissa, with zeros after the last one. */
  lemma LeadingPlaces(v: nat, n: nat, k: nat)
    requires v < Pow10(n)
    ensures Value(Places(v, n, 0, k)) == Moved(v, k - n)
  {
    hide Pow10, Value, DigitsOf, Place, Cut;
    PlacesAll(v, n);
    if k <= n {
      var q := Cut(v, n - k);
      CutSize(v, n - k, k);
      DigitsSplit(v, k, n - k);
      PlacesSplit(v, n, 0, k, n);
      SameFront(Places(v, n, 0, k), Places(v, n, k, n), DigitsOf(q, k), DigitsOf(v, n - k));
      ValueOfDigits(q, k);
      CutZeroDigits(v);
    } else {
      PlacesSplit(v, n, 0, n, k);
      ZerosAfter(v, n, k);
      ValueConcat(DigitsOf(v, n), ZeroDigits(k - n));
      ValueOfDigits(v, n);
      ZerosValue(k - n);
    }
  }

  lemma CutZeroDigits(v: nat)
    ensures Cut(v, 0) == v && v * Pow10(0) == v
  {
    PowZero();
  }

  lemma SameFront(a: Text, b: Text, c: Text, d: Text)
    requires a + b == c + d && |a| == |c|
    ensures a == c && b == d
  {
    assert (a + b)[..|a|] == a && (c + d)[..|c|] == c;
    assert (a + b)[|a|..] == b && (c + d)[|c|..] == d;
  }

  lemma ZerosAfter(v: nat, n: nat, k: nat)
    requires n <= k
    ensures Places(v, n, n, k) == ZeroDigits(k - n)
  {
    forall i | 0 <= i < k - n
      ensures Places(v, n, n, k)[i] == ZERO
    {
      PlacePastEnd(v, n, n + i);
    }
  }

  lemma PlacesAreDigits(v: nat, n: nat, a: nat, b: nat)
    requires a <= b
    ensures AllDigits(Places(v, n, a, b))
  {
    forall i | 0 <= i < b - a
      ensures IsDigit(Places(v, n, a, b)[i])
    {
      assert 0 <= Place(v, n, a + i) < 10;
    }
  }

  // ----- Digits around a point -----

  /** A text of digits with a point before the last `m` of them, when `m` is not zero. */
  predicate Pointed(s: Text, m: nat) {
    if m == 0 then AllDigits(s)
    else m < |s| && s[|s| - m - 1] == 46 && AllDigits(s[..|s| - m - 1]) && AllDigits(s[|s| - m..])
  }

  /** The number that its digits make. */
  function Denoted(s: Text, m: nat): int
    requires Pointed(s, m)
  {
    if m == 0 then Value(s) else Value(s[..|s| - m - 1] + s[|s| - m..])
  }

  lemma PointedParts(a: Text, b: Text, m: nat)
    requires AllDigits(a) && AllDigits(b) && |b| == m
    ensures var s := if m == 0 then a else a + ([POINT] + b);
            Pointed(s, m) && Denoted(s, m) == Value(a + b)
  {
    hide Value, AllDigits;
    if m > 0 {
      AroundPoint(a, b, a + ([POINT] + b));
    } else {
      assert a + b == a;
    }
  }

  lemma AroundPoint(a: Text, b: Text, s: Text)
    requires s == a + ([POINT] + b)
    ensures |s| == |a| + 1 + |b| && s[|a|] == POINT && s[..|a|] == a && s[|a| + 1..] == b
  {
  }

  /** The body of a number: `n` digits, the point, and `m` digits make the mantissa, moved by `n + m - dn`
      digits and cut. */
  lemma BodyDenotes(v: nat, dn: nat, n: int, m: nat)
    requires v < Pow10(dn)
    ensures var s := Body(v, dn, 0, n, m);
            Pointed(s, m) && Denoted(s, m) == Moved(v, n + m - dn)
    ensures |Body(v, dn, 0, n, m)| == (if n > 0 then n else 0) + if m > 0 then 1 + m else 0
  {
    hide Value, Places, ZeroDigits, Pointed, Denoted, Moved, Pow10;
    var whole: nat, gap: nat := if n > 0 then n else 0, if n >= 0 then 0 else if -n < m then -n else m;
    BodyParts(v, dn, n, m, whole, gap);
    var a, b := Places(v, dn, 0, whole), ZeroDigits(gap) + Places(v, dn, whole, whole + m - gap);
    PlacesAreDigits(v, dn, 0, whole);
    PlacesAreDigits(v, dn, whole, whole + m - gap);
    PointedParts(a, b, m);
    FractionText(gap, Places(v, dn, whole, whole + m - gap));
    if n >= 0 {
      NoGap(Places(v, dn, whole, whole + m));
      PlacesSplit(v, dn, 0, whole, whole + m);
      LeadingPlaces(v, dn, whole + m);
    } else {
      NoPlaces(v, dn, b);
      LeadingPlaces(v, dn, m - gap);
      ValueConcat(ZeroDigits(gap), Places(v, dn, 0, m - gap));
      ZerosValue(gap);
      if gap == m {
        NothingLeft(v, dn, n + m - dn);
      }
    }
  }

  lemma FractionText(gap: nat, p: Text)
    ensures [POINT] + ZeroDigits(gap) + p == [POINT] + (ZeroDigits(gap) + p)
    ensures AllDigits(p) ==> AllDigits(ZeroDigits(gap) + p)
  {
  }

  lemma NoGap(p: Text)
    ensures ZeroDigits(0) + p == p
  {
  }

  lemma NoPlaces(v: nat, n: nat, b: Text)
    ensures Places(v, n, 0, 0) == [] && Places(v, n, 0, 0) + b == b
  {
  }

  /** A mantissa moved down by all of its digits or more. */
  lemma NothingLeft(v: nat, n: nat, k: int)
    requires v < Pow10(n) && k <= 0 - n
    ensures Moved(v, k) == Moved(v, 0 - n) == 0
  {
    hide Pow10, Cut;
    PowMono(n, 0 - k);
    CutUnique(v, 0 - k, 0, v);
    CutUnique(v, n, 0, v);
    if n == 0 {
      PowZero();
    }
  }

  // ----- Decimals -----

  /** The text of a nonzero decimal without an exponent denotes `v * 10^e`, rounded down to `m` digits after
      the point. */
  lemma PlainDenotes(d: Num, whole: int, m: nat)
    requires Normalized(d) && d.n > 0
    ensures var s := Plain(d, whole, m);
            d.v >= 0 && Pointed(s, m) && Denoted(s, m) == Moved(d.v, d.e + m)
  {
    hide Body, Value, Pow10, Digits, Moved, Pointed, Denoted;
    DecimalAdd.NormalizedDigits(d);
    var s := Body(d.v, d.n, 0, d.n + d.e, m);
    BodyDenotes(d.v, d.n, d.n + d.e, m);
    if whole > 0 && d.n + d.e <= 0 {
      ZeroInFront(s, m);
    } else {
      assert [] + s == s;
    }
  }

  /** The text has as many digits before the point as the number, or a single zero when a whole part is asked
      for and the number has none; and `m` digits after it. */
  lemma PlainLength(d: Num, whole: int, m: nat)
    requires Normalized(d) && d.n > 0
    ensures var n := d.n + d.e;
      |Plain(d, whole, m)| == (if n > 0 then n else if whole > 0 then 1 else 0) + (if m > 0 then 1 + m else 0)
  {
    hide Body, Value, Pow10, Digits, Moved, Pointed, Denoted;
    DecimalAdd.NormalizedDigits(d);
    BodyDenotes(d.v, d.n, d.n + d.e, m);
  }

  lemma ZeroInFront(s: Text, m: nat)
    requires Pointed(s, m)
    ensures Pointed([ZERO] + s, m) && Denoted([ZERO] + s, m) == Denoted(s, m)
  {
    hide Value;
    var t := [ZERO] + s;
    if m == 0 {
      ZeroDigit(s);
    } else {
      var a, b := s[..|s| - m - 1], s[|s| - m..];
      assert t[..|t| - m - 1] == [ZERO] + a && t[|t| - m..] == b;
      assert ([ZERO] + a) + b == [ZERO] + (a + b);
      ZeroDigit(a + b);
    }
  }

  lemma ZeroDigit(s: Text)
    ensures Value([ZERO] + s) == Value(s)
  {
    ValueConcat([ZERO], s);
    assert Value([ZERO]) == 10 * Value([]) + 0;
  }

  /** The text of zero: a zero if a whole part is asked for, `m` zeros behind a point, and `e+0`. */
  lemma ZeroLength(d: Num, whole: int, m: nat, exp: bool)
    requires Normalized(d) && d.n == 0
    ensures var s := Printed(d, whole, m, exp);
      && |s| == (if whole > 0 then 1 else 0) + (if m > 0 then 1 + m else 0) + (if exp then 3 else 0)
      && (if whole > 0 then s[0] == 48 else m > 0 ==> s[0] == 46)
  {
  }

  /** With an exponent: the digits denote the mantissa cut to `whole + m` digits, and the exponent that is
      printed makes up for it. */
  lemma ScientificDenotes(d: Num, whole: int, m: nat)
    requires Normalized(d) && d.n > 0
    ensures var s := Body(d.v, d.n, 0, whole, m);
            && d.v >= 0 && Pointed(s, m) && Denoted(s, m) == Moved(d.v, whole + m - d.n)
            && Scientific(d, whole, m) == s + ExponentText(d.e + m - (whole + m - d.n))
  {
    hide Body, Value, Pow10, Digits, Moved, Pointed, Denoted;
    DecimalAdd.NormalizedDigits(d);
    BodyDenotes(d.v, d.n, whole, m);
  }

  /** The question mark stands for exactly those numbers that have more digits before the point than asked
      for. */
  lemma QuestionIff(d: Num, whole: int, m: nat)
    requires Normalized(d) && d.n > 0 && whole >= MIN_EXPONENT
    ensures d.e >= MIN_EXPONENT
    ensures Printed(d, whole, m, false) == [63] <==>
      DecimalAdd.Magnitude(d) >= Pow10(whole - MIN_EXPONENT)
  {
    hide Pow10, Digits, Plain, DecimalAdd.Magnitude;
    DecimalAdd.NormalizedDigits(d);
    Reaches(d);
    if whole >= d.n + d.e {
      assert (SignText(d.sign) + Plain(d, whole, m))[0] == SignText(d.sign)[0] != QUESTION_MARK;
      PowMono(d.n + d.e - MIN_EXPONENT, whole - MIN_EXPONENT);
    } else {
      PowMono(whole - MIN_EXPONENT, d.n + d.e - 1 - MIN_EXPONENT);
    }
  }

  lemma Reaches(d: Num)
    requires Normalized(d) && d.n > 0
    ensures d.e >= MIN_EXPONENT
    ensures Pow10(d.n + d.e - 1 - MIN_EXPONENT) <= DecimalAdd.Magnitude(d) < Pow10(d.n + d.e - MIN_EXPONENT)
  {
    hide Pow10, Digits;
    DecimalAdd.NormalizedDigits(d);
    DecimalAdd.ScaleUpBelow(d.v, d.n, d.e);
    PowAdd(d.n - 1, d.e - MIN_EXPONENT);
    MulLe(DecimalAdd.Unit(d.e), Pow10(d.n - 1), d.v);
  }
}
