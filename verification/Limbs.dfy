/** Limb arithmetic shared by the decimal routines: a mantissa is a little-endian
    sequence of limbs in base 10000 and stands for the natural number `Val`. */
module Limbs {
  const BASE: int := 10000
  const PARTS: int := 10
  const POSITIONS: int := 40

  predicate AllLimbs(s: seq<int>) {
    forall i :: 0 <= i < |s| ==> 0 <= s[i] < BASE
  }

  function Val(s: seq<int>): int {
    if |s| == 0 then 0 else s[0] + BASE * Val(s[1..])
  }

  function Pow10(k: nat): (p: nat)
    ensures p >= 1
  {
    if k == 0 then 1 else 10 * Pow10(k - 1)
  }

  /** Number of decimal digits of `v`, zero for zero. */
  function Digits(v: nat): nat {
    if v == 0 then 0 else 1 + Digits(v / 10)
  }

  lemma ValEmpty(s: seq<int>)
    requires |s| == 0
    ensures Val(s) == 0
  {
  }

  lemma {:induction false} PowAdd(a: nat, b: nat)
    ensures Pow10(a + b) == Pow10(a) * Pow10(b)
  {
    if a > 0 {
      PowAdd(a - 1, b);
      assert Pow10(a + b) == 10 * Pow10(a - 1 + b);
    }
  }

  lemma PowZero()
    ensures Pow10(0) == 1
  {
  }

  lemma PowLimb(k: nat)
    ensures Pow10(4 * k + 4) == BASE * Pow10(4 * k)
  {
    PowAdd(4, 4 * k);
    assert Pow10(4) == 10 * Pow10(3) == 100 * Pow10(2) == 1000 * Pow10(1) == 10000;
  }

  lemma {:induction false} PowMono(a: nat, b: nat)
    requires a <= b
    ensures Pow10(a) <= Pow10(b)
  {
    if a < b {
      PowMono(a, b - 1);
    }
  }

  lemma {:induction false} ValBounds(s: seq<int>)
    requires AllLimbs(s)
    ensures 0 <= Val(s) < Pow10(4 * |s|)
  {
    if |s| > 0 {
      ValBounds(s[1..]);
      PowLimb(|s| - 1);
    }
  }

  lemma {:induction false} ValConcat(a: seq<int>, b: seq<int>)
    ensures Val(a + b) == Val(a) + Pow10(4 * |a|) * Val(b)
  {
    if |a| == 0 {
      assert a + b == b;
    } else {
      ValConcat(a[1..], b);
      assert (a + b)[1..] == a[1..] + b;
      PowLimb(|a| - 1);
      Assoc(BASE, Pow10(4 * |a| - 4), Val(b));
    }
  }

  lemma Assoc(a: int, b: int, c: int)
    ensures a * (b * c) == (a * b) * c
  {
  }

  lemma ValSplit(s: seq<int>, k: nat)
    requires k <= |s|
    ensures Val(s) == Val(s[..k]) + Pow10(4 * k) * Val(s[k..])
  {
    assert s == s[..k] + s[k..];
    ValConcat(s[..k], s[k..]);
  }

  lemma ValAppend(s: seq<int>, x: int)
    ensures Val(s + [x]) == Val(s) + Pow10(4 * |s|) * x
  {
    assert Val([x]) == x + BASE * Val([x][1..]) == x;
    hide Val, Pow10;
    ValConcat(s, [x]);
  }

  lemma ValSnoc(s: seq<int>, k: nat)
    requires k < |s|
    ensures Val(s[..k + 1]) == Val(s[..k]) + Pow10(4 * k) * s[k]
  {
    assert s[..k + 1] == s[..k] + [s[k]];
    ValAppend(s[..k], s[k]);
  }

  /** Writing one limb changes the value by that limb's change times its weight. */
  lemma ValUpdate(s: seq<int>, i: nat, x: int)
    requires i < |s|
    ensures Val(s[i := x]) == Val(s) + Pow10(4 * i) * (x - s[i])
  {
    hide Val, Pow10;
    var t := s[i := x];
    assert t[..i] == s[..i] && t[i + 1..] == s[i + 1..];
    ValSplit(s, i + 1);
    ValSplit(t, i + 1);
    ValSnoc(s, i);
    ValSnoc(t, i);
  }

  lemma {:induction false} ValZeros(s: seq<int>)
    requires forall i :: 0 <= i < |s| ==> s[i] == 0
    ensures Val(s) == 0
  {
    if |s| > 0 {
      ValZeros(s[1..]);
    }
  }

  /** Equal values of equal length have equal limbs. */
  lemma {:induction false} ValInjective(a: seq<int>, b: seq<int>)
    requires AllLimbs(a) && AllLimbs(b) && |a| == |b|
    requires Val(a) == Val(b)
    ensures a == b
  {
    if |a| > 0 {
      SameQuotient(BASE, Val(a[1..]), a[0], Val(b[1..]), b[0]);
      ValInjective(a[1..], b[1..]);
      assert a == [a[0]] + a[1..] && b == [b[0]] + b[1..];
    }
  }

  /** `v` without its `k` lowest decimal digits. */
  function Cut(v: int, k: nat): int {
    v / Pow10(k)
  }

  /** The `k` lowest decimal digits of `v`. */
  function Low(v: int, k: nat): int {
    v % Pow10(k)
  }

  /** `q` and `r` are the quotient and remainder of `a` by `b`. */
  predicate IsDiv(a: int, b: int, q: int, r: int) {
    0 <= r < b && a == b * q + r
  }

  lemma DivUnique(a: int, b: int, q: int, r: int)
    requires b > 0 && IsDiv(a, b, q, r)
    ensures a / b == q && a % b == r
  {
    SameQuotient(b, a / b, a % b, q, r);
  }

  /** Dividing twice is dividing by the product. */
  lemma DivCompose(a: int, b: int, c: int, bc: int, q: int, r: int, q': int, r': int)
    requires IsDiv(a, b, q, r) && IsDiv(q, c, q', r') && bc == b * c
    ensures IsDiv(a, bc, q', b * r' + r)
  {
    assert b * q == b * (c * q') + b * r';
    Assoc(b, c, q');
    MulLe(b, r', c - 1);
  }

  lemma CutIsDiv(v: int, k: nat)
    ensures IsDiv(v, Pow10(k), Cut(v, k), Low(v, k))
  {
    hide Pow10;
  }

  lemma CutUnique(v: int, k: nat, q: int, r: int)
    requires IsDiv(v, Pow10(k), q, r)
    ensures Cut(v, k) == q && Low(v, k) == r
  {
    hide Pow10;
    DivUnique(v, Pow10(k), q, r);
  }

  lemma IsDivOf(a: int, b: int)
    requires b > 0
    ensures IsDiv(a, b, a / b, a % b)
  {
  }

  /** Cutting twice is cutting once. */
  lemma CutCut(v: int, a: nat, b: nat)
    ensures Cut(v, a + b) == Cut(Cut(v, a), b)
  {
    hide IsDiv, Cut, Low, Pow10;
    var q := Cut(v, a);
    CutIsDiv(v, a);
    CutIsDiv(q, b);
    PowAdd(a, b);
    DivCompose(v, Pow10(a), Pow10(b), Pow10(a + b), q, Low(v, a), Cut(q, b), Low(q, b));
    CutUnique(v, a + b, Cut(q, b), Pow10(a) * Low(q, b) + Low(v, a));
  }

  /** Cutting keeps the order of magnitude. */
  lemma CutSize(v: int, a: nat, b: nat)
    ensures v < Pow10(a + b) <==> Cut(v, a) < Pow10(b)
    ensures v >= 0 ==> Cut(v, a) >= 0
  {
    hide Pow10, Cut, Low, IsDiv;
    PowAdd(a, b);
    CutIsDiv(v, a);
    QuotientOrder(v, Pow10(a), Cut(v, a), Low(v, a), Pow10(b));
    QuotientSign(v, Pow10(a), Cut(v, a), Low(v, a));
  }

  /** Scaling up a value of `a` digits by `x` more keeps it within `a + x` digits. */
  lemma ScaledFits(w: int, a: nat, x: nat)
    requires 0 <= w < Pow10(a)
    ensures 0 <= w * Pow10(x) < Pow10(a + x) && Low(w * Pow10(x), a + x) == w * Pow10(x)
    ensures w * Pow10(x) >= w
  {
    hide Pow10, Cut, Low;
    PowAdd(a, x);
    MulLe(Pow10(x), w + 1, Pow10(a));
    MulNonNeg(w, Pow10(x));
    MulLe(w, 1, Pow10(x));
    CutUnique(w * Pow10(x), a + x, 0, w * Pow10(x));
  }

  lemma QuotientSign(v: int, p: int, q: int, r: int)
    requires IsDiv(v, p, q, r)
    ensures v >= 0 ==> q >= 0
    ensures q * p <= v < (q + 1) * p
  {
    if q < 0 {
      MulLe(p, q, -1);
    }
  }

  lemma QuotientOrder(v: int, p: int, q: int, r: int, b: int)
    requires IsDiv(v, p, q, r)
    ensures (v < p * b) == (q < b)
  {
    if q < b {
      MulLe(p, q + 1, b);
    } else {
      MulLe(p, b, q);
    }
  }

  lemma SplitDiv(s: seq<int>, k: nat)
    requires AllLimbs(s) && k <= |s|
    ensures IsDiv(Val(s), Pow10(4 * k), Val(s[k..]), Val(s[..k]))
  {
    assert AllLimbs(s[..k]);
    hide Val, Pow10;
    ValSplit(s, k);
    ValBounds(s[..k]);
  }

  /** The limbs from `k` on hold the quotient by their weight. */
  lemma ValDrop(s: seq<int>, k: nat)
    requires AllLimbs(s) && k <= |s|
    ensures Val(s[k..]) == Cut(Val(s), 4 * k)
  {
    hide Val, Pow10, IsDiv, Cut, Low;
    SplitDiv(s, k);
    CutUnique(Val(s), 4 * k, Val(s[k..]), Val(s[..k]));
  }

  /** A limb read off the value. */
  lemma LimbAt(s: seq<int>, k: nat)
    requires AllLimbs(s) && k < |s|
    ensures s[k] == Cut(Val(s), 4 * k) % BASE
  {
    var t := s[k..];
    assert t[1..] == s[k + 1..] && Val(t) == t[0] + BASE * Val(t[1..]);
    hide Pow10, Val, Cut;
    DivUnique(Val(t), BASE, Val(t[1..]), s[k]);
    ValDrop(s, k);
  }

  lemma QuotientZero(a: int, b: int, q: int, r: int)
    requires IsDiv(a, b, q, r) && 0 <= q
    ensures (a < b) == (q == 0) && (q == 0 ==> a == r)
  {
    if q > 0 {
      MulLe(b, 1, q);
    }
  }

  /** A window of limbs that reaches to the top of the value. */
  lemma Window(s: seq<int>, i: nat, j: nat)
    requires AllLimbs(s) && i <= j <= |s| && Val(s) < Pow10(4 * j)
    ensures Val(s[i..j]) == Cut(Val(s), 4 * i) && Val(s[..j]) == Val(s)
  {
    var t := s[..j];
    assert AllLimbs(t) && AllLimbs(s[j..]) && t[i..] == s[i..j];
    hide Val, Pow10, IsDiv, AllLimbs, Cut;
    SplitDiv(s, j);
    ValBounds(s[j..]);
    QuotientZero(Val(s), Pow10(4 * j), Val(s[j..]), Val(t));
    ValDrop(t, i);
  }

  lemma SameQuotient(b: int, q: int, r: int, q': int, r': int)
    requires 0 <= r < b && 0 <= r' < b && b * q + r == b * q' + r'
    ensures q == q' && r == r'
  {
    var k := q - q';
    assert k * b == b * q - b * q';
    MultipleSize(k, b);
  }

  lemma MultipleSize(k: int, b: int)
    requires b > 0
    ensures k >= 1 ==> k * b >= b
    ensures k <= -1 ==> k * b <= -b
  {
    if k >= 1 {
      assert (k - 1) * b >= 0;
    } else if k <= -1 {
      assert (-1 - k) * b >= 0;
    }
  }

  lemma Distribute(x: int, y: int, z: int)
    ensures (x + y) * z == x * z + y * z
  {
  }

  lemma MulNonNeg(a: int, b: int)
    requires 0 <= a && 0 <= b
    ensures 0 <= a * b
  {
  }

  lemma MulLe(a: int, b: int, c: int)
    requires 0 <= a && b <= c
    ensures a * b <= a * c && b * a <= c * a
  {
  }

  /** The digit count is pinned down by the powers of ten around the value. */
  lemma {:induction false} DigitsBounds(v: nat)
    ensures v < Pow10(Digits(v))
    ensures v > 0 ==> Digits(v) > 0 && Pow10(Digits(v) - 1) <= v
    ensures v == 0 ==> Digits(v) == 0
  {
    if v > 0 {
      DigitsBounds(v / 10);
      if v / 10 == 0 {
        assert Pow10(0) == 1;
      }
    }
  }

  lemma {:induction false} DigitsUnique(v: nat, k: nat)
    requires k > 0 && Pow10(k - 1) <= v < Pow10(k)
    ensures Digits(v) == k
  {
    if k > 1 {
      DigitsUnique(v / 10, k - 1);
    } else {
      assert Pow10(0) == 1 && Pow10(1) == 10;
    }
  }

  lemma {:induction false} DigitsLe(v: nat, k: nat)
    requires v < Pow10(k)
    ensures Digits(v) <= k
  {
    DigitsBounds(v);
    if Digits(v) > k {
      PowMono(k, Digits(v) - 1);
    }
  }

  /** Digits of a value split at a power of ten. */
  lemma DigitsOfQuotient(v: int, k: nat, top: nat, lo: int)
    requires IsDiv(v, Pow10(k), top, lo)
    ensures v >= 0 && (top == 0 ==> v == lo)
    ensures top > 0 ==> Digits(v) == k + Digits(top)
  {
    if top > 0 {
      var d := Digits(top);
      DigitsBounds(top);
      PowAdd(k, d - 1);
      PowAdd(k, d);
      hide Pow10, Digits;
      ScaledBounds(v, Pow10(k), top, lo, Pow10(d - 1), Pow10(d));
      DigitsUnique(v, k + d);
    }
  }

  lemma ScaledBounds(v: int, p: int, top: int, lo: int, a: int, b: int)
    requires IsDiv(v, p, top, lo) && a <= top < b
    ensures p * a <= v < p * b
  {
    MulLe(p, a, top);
    MulLe(p, top + 1, b);
  }
}
