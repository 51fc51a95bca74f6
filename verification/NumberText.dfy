/** Numbers as text: sequences of ASCII codes. */
module NumberText {
  import opened Limbs

  type Text = seq<int>

  const ZERO := 48
  const SPACE := 32
  const PLUS := 43
  const MINUS := 45
  const POINT := 46
  const QUESTION_MARK := 63
  const LETTER_E := 101

  predicate IsDigit(c: int) {
    ZERO <= c < ZERO + 10
  }

  predicate AllDigits(s: Text) {
    forall i :: 0 <= i < |s| ==> IsDigit(s[i])
  }

  /** The number that a string of digits denotes. */
  function Value(s: Text): int {
    if |s| == 0 then 0 else 10 * Value(s[..|s| - 1]) + (s[|s| - 1] - ZERO)
  }

  /** The `k` lowest digits of `v`, most significant first. */
  function DigitsOf(v: nat, k: nat): (s: Text)
    ensures |s| == k && AllDigits(s)
  {
    if k == 0 then [] else DigitsOf(v / 10, k - 1) + [ZERO + v % 10]
  }

  /** A natural number in decimal notation without leading zeros. */
  function Numeral(v: nat): (s: Text) {
    DigitsOf(v, if v == 0 then 1 else Digits(v))
  }

  function ZeroDigits(k: nat): (s: Text)
    ensures |s| == k && AllDigits(s)
  {
    seq(k, _ => ZERO)
  }

  lemma SmallPowers()
    ensures Pow10(0) == 1 && Pow10(1) == 10 && Pow10(2) == 100 && Pow10(3) == 1000 && Pow10(4) == 10000
  {
    assert Pow10(4) == 10 * Pow10(3) == 100 * Pow10(2) == 1000 * Pow10(1);
  }

  lemma {:induction false} ValueOfDigits(v: nat, k: nat)
    requires v < Pow10(k)
    ensures Value(DigitsOf(v, k)) == v
  {
    if k > 0 {
      ValueOfDigits(v / 10, k - 1);
      var s := DigitsOf(v, k);
      assert s[..|s| - 1] == DigitsOf(v / 10, k - 1);
    } else {
      PowZero();
    }
  }

  lemma {:induction false} ValueConcat(a: Text, b: Text)
    ensures Value(a + b) == Value(a) * Pow10(|b|) + Value(b)
  {
    if |b| == 0 {
      PowZero();
      assert a + b == a;
    } else {
      var b' := b[..|b| - 1];
      ValueConcat(a, b');
      assert (a + b)[..|a + b| - 1] == a + b';
      ScaleTen(Value(a), Pow10(|b'|));
    }
  }

  lemma ScaleTen(x: int, p: int)
    ensures 10 * (x * p) == x * (10 * p)
  {
  }

  lemma {:induction false} ValueBounds(s: Text)
    requires AllDigits(s)
    ensures 0 <= Value(s) < Pow10(|s|)
  {
    if |s| > 0 {
      ValueBounds(s[..|s| - 1]);
    } else {
      PowZero();
    }
  }

  lemma {:induction false} ValuePrefix(s: Text, k: nat)
    requires AllDigits(s) && k <= |s|
    ensures Value(s[..k]) <= Value(s)
  {
    if k < |s| {
      ValuePrefix(s[..|s| - 1], k);
      assert s[..|s| - 1][..k] == s[..k];
      ValueBounds(s[..|s| - 1]);
    } else {
      assert s[..k] == s;
    }
  }

  /** The digit of weight 10^j, found by cutting. */
  lemma {:induction false} DigitAt(v: nat, k: nat, i: nat)
    requires i < k
    ensures DigitsOf(v, k)[i] == ZERO + Cut(v, k - 1 - i) % 10
  {
    if i == k - 1 {
      PowZero();
    } else {
      DigitAt(v / 10, k - 1, i);
      CutCut(v, 1, k - 2 - i);
      assert Pow10(1) == 10 * Pow10(0) == 10;
      assert Cut(v, 1) == v / 10;
    }
  }

  /** Digits in two parts. */
  lemma {:induction false} DigitsSplit(v: nat, a: nat, b: nat)
    ensures Cut(v, b) >= 0 && DigitsOf(v, a + b) == DigitsOf(Cut(v, b), a) + DigitsOf(v, b)
  {
    CutSize(v, b, 0);
    var s, t := DigitsOf(v, a + b), DigitsOf(Cut(v, b), a) + DigitsOf(v, b);
    forall i | 0 <= i < a + b ensures s[i] == t[i] {
      DigitAt(v, a + b, i);
      if i < a {
        DigitAt(Cut(v, b), a, i);
        CutCut(v, b, a - 1 - i);
      } else {
        DigitAt(v, b, i - a);
      }
    }
  }

  /** The lowest digits of any number denote its remainder. */
  lemma {:induction false} ValueOfLow(v: nat, k: nat)
    ensures Value(DigitsOf(v, k)) == Low(v, k)
  {
    hide Pow10, IsDiv, Cut, Low;
    if k > 0 {
      ValueOfLow(v / 10, k - 1);
      var s := DigitsOf(v, k);
      assert s[..|s| - 1] == DigitsOf(v / 10, k - 1);
      CutIsDiv(v / 10, k - 1);
      TenMore(v, Pow10(k - 1), Cut(v / 10, k - 1), Low(v / 10, k - 1));
      NextPower(k);
      CutUnique(v, k, Cut(v / 10, k - 1), 10 * Low(v / 10, k - 1) + v % 10);
    } else {
      NoLow(v);
    }
  }

  lemma NoLow(v: nat)
    ensures Low(v, 0) == 0
  {
  }

  lemma NextPower(k: nat)
    requires k > 0
    ensures Pow10(k) == 10 * Pow10(k - 1)
  {
  }

  lemma TenMore(v: nat, p: int, q: int, r: int)
    requires IsDiv(v / 10, p, q, r)
    ensures IsDiv(v, 10 * p, q, 10 * r + v % 10)
  {
    assert (10 * p) * q == 10 * (p * q);
  }

  /** The notation of a number denotes it, in digits of the codes 48 to 57, and starts with a zero only for zero. */
  lemma NumeralCanonical(v: nat)
    ensures var s := Numeral(v);
      && |s| > 0 && (forall i :: 0 <= i < |s| ==> 48 <= s[i] <= 57) && Value(s) == v
      && (if v == 0 then s == [48] else s[0] != 48)
  {
    hide Pow10, IsDiv, Cut, Low, Digits;
    DigitsBounds(v);
    if v == 0 {
      assert DigitsOf(0, 1) == [48];
    } else {
      var k := Digits(v);
      PowZero();
      CutSize(v, k - 1, 1);
      CutSize(v, k - 1, 0);
      NextPower(1);
      ValueOfDigits(v, k);
      DigitAt(v, k, 0);
    }
  }

  // ----- The digits of a mantissa -----

  /** Digit `k` from the top of a mantissa `v` of `n` digits; zeros follow the last one. */
  function Place(v: nat, n: nat, k: nat): (d: int)
    ensures 0 <= d < 10
  {
    if k < n then Cut(v, n - 1 - k) % 10 else 0
  }

  function Places(v: nat, n: nat, a: nat, b: nat): (s: Text)
    requires a <= b
    ensures |s| == b - a
  {
    seq(b - a, i requires 0 <= i < b - a => ZERO + Place(v, n, a + i))
  }

  lemma PlacesAll(v: nat, n: nat)
    ensures Places(v, n, 0, n) == DigitsOf(v, n)
  {
    forall i | 0 <= i < n ensures Places(v, n, 0, n)[i] == DigitsOf(v, n)[i] {
      DigitAt(v, n, i);
    }
  }

  lemma PlacesSplit(v: nat, n: nat, a: nat, b: nat, c: nat)
    requires a <= b <= c
    ensures Places(v, n, a, c) == Places(v, n, a, b) + Places(v, n, b, c)
  {
  }
}
