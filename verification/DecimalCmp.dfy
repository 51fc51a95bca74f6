/** decimal_cmp: comparison by sign, by the position of the top digit, and by limbs. */
module DecimalCmp {
  import opened Limbs
  import opened Decimals
  import opened Options
  import DecimalAdd
  import DecimalShift

  function Sign(x: int): int {
    if x > 0 then 1 else if x < 0 then -1 else 0
  }

  /** Position above the top digit. */
  function Top(d: Num): int {
    d.e + d.n
  }

  // ----- decimal_abs_cmp_with_shift -----

  /** `s` divisions of a weight by ten. */
  function Shrunk(t: nat, s: nat): nat {
    if s == 0 then t else Shrunk(t / 10, s - 1)
  }

  /** The weight at which the digits of a mantissa of `n` digits are read first. */
  function FirstWeight(n: nat): nat {
    Shrunk(BASE / 10, n / 4)
  }

  function NextWeight(t: nat): nat {
    if t / 10 == 0 then BASE / 10 else t / 10
  }

  /** The digit of weight `t` in the limb that holds digit `j`. */
  function DigitRead(v: int, j: nat, t: nat): int
    requires t > 0
  {
    Cut(v, 4 * (j / 4)) % BASE / t % 10
  }

  /** What the comparison returns; nothing when a limb is divided by a weight of zero. */
  function Shifted(v1: int, n1: nat, t1: nat, v2: int, n2: nat, t2: nat): Option<int>
    decreases n1
  {
    if n1 == 0 || n2 == 0 then Some(0)
    else if t1 == 0 || t2 == 0 then None
    else
      var c := DigitRead(v1, n1 - 1, t1) - DigitRead(v2, n2 - 1, t2);
      if c != 0 then Some(c) else Shifted(v1, n1 - 1, NextWeight(t1), v2, n2 - 1, NextWeight(t2))
  }

  method StartAt(n: nat) returns (t: nat)
    ensures t == FirstWeight(n)
  {
    t := BASE / 10;
    var s: nat := n / 4;
    while s > 0
      invariant t >= 0 && Shrunk(t, s) == FirstWeight(n)
    {
      s := s - 1;
      t := t / 10;
    }
  }

  lemma ShiftedStep(v1: int, n1: nat, t1: nat, v2: int, n2: nat, t2: nat)
    requires n1 > 0 && n2 > 0 && t1 > 0 && t2 > 0
    ensures var c := DigitRead(v1, n1 - 1, t1) - DigitRead(v2, n2 - 1, t2);
              Shifted(v1, n1, t1, v2, n2, t2)
              == (if c != 0 then Some(c) else Shifted(v1, n1 - 1, NextWeight(t1), v2, n2 - 1, NextWeight(t2)))
  {
  }

  lemma ShiftedEnds(v1: int, n1: nat, t1: nat, v2: int, n2: nat, t2: nat)
    ensures n1 == 0 || n2 == 0 ==> Shifted(v1, n1, t1, v2, n2, t2) == Some(0)
    ensures n1 > 0 && n2 > 0 && (t1 == 0 || t2 == 0) ==> Shifted(v1, n1, t1, v2, n2, t2) == None
  {
  }

  lemma ReadsLimb(m: seq<int>, j: nat, t: nat)
    requires |m| == PARTS && AllLimbs(m) && j < POSITIONS && t > 0
    ensures DigitRead(Val(m), j, t) == m[j / 4] / t % 10
  {
    hide Val, Cut;
    LimbAt(m, j / 4);
  }

  /** decimal_abs_cmp_with_shift. */
  method AbsCmpWithShift(m1: array<int>, n1: nat, m2: array<int>, n2: nat) returns (r: Option<int>)
    requires m1.Length == m2.Length == PARTS && AllLimbs(m1[..]) && AllLimbs(m2[..])
    requires n1 <= POSITIONS && n2 <= POSITIONS
    ensures r == Shifted(Val(m1[..]), n1, FirstWeight(n1), Val(m2[..]), n2, FirstWeight(n2))
  {
    hide Val, Shifted, DigitRead, NextWeight, AllLimbs, FirstWeight;
    ghost var v1, v2 := Val(m1[..]), Val(m2[..]);
    var t1: nat := StartAt(n1);
    var t2: nat := StartAt(n2);
    var i, j := n1 - 1, n2 - 1;
    while i >= 0 && j >= 0
      invariant -1 <= i < POSITIONS && -1 <= j < POSITIONS
      invariant Shifted(v1, i + 1, t1, v2, j + 1, t2) == Shifted(v1, n1, FirstWeight(n1), v2, n2, FirstWeight(n2))
    {
      ShiftedEnds(v1, i + 1, t1, v2, j + 1, t2);
      if t1 == 0 || t2 == 0 {
        return None;
      }
      ShiftedStep(v1, i + 1, t1, v2, j + 1, t2);
      ReadsLimb(m1[..], i, t1);
      ReadsLimb(m2[..], j, t2);
      var c := m1[i / 4] / t1 % 10 - m2[j / 4] / t2 % 10;
      if c != 0 {
        return Some(c);
      }
      t1, t2 := NextWeight(t1), NextWeight(t2);
      i, j := i - 1, j - 1;
    }
    ShiftedEnds(v1, i + 1, t1, v2, j + 1, t2);
    return Some(0);
  }

  /** The first digit is read at its own weight. */
  predicate StartsAligned(n: nat) {
    n == 7 || n == 10 || n == 13
  }

  lemma FirstWeightIs(n: nat)
    ensures FirstWeight(n) == if n < 4 then 1000 else if n < 8 then 100 else if n < 12 then 10 else if n < 16 then 1 else 0
    ensures n > 0 ==> (FirstWeight(n) == DecimalShift.Ten((n - 1) % 4) <==> StartsAligned(n))
  {
    assert Shrunk(1000, 1) == Shrunk(100, 0);
    assert Shrunk(1000, 2) == Shrunk(100, 1) == Shrunk(10, 0);
    assert Shrunk(1000, 3) == Shrunk(100, 2) == Shrunk(10, 1) == Shrunk(1, 0);
    if n >= 16 {
      var s := n / 4;
      assert Shrunk(1000, s) == Shrunk(100, s - 1) == Shrunk(10, s - 2) == Shrunk(1, s - 3) == Shrunk(0, s - 4);
      NothingShrinks(s - 4);
    }
  }

  lemma {:induction false} NothingShrinks(s: nat)
    ensures Shrunk(0, s) == 0
  {
    if s > 0 {
      NothingShrinks(s - 1);
    }
  }

  /** No weight but the first one is zero. */
  lemma {:induction false} ShiftedDefined(v1: int, n1: nat, t1: nat, v2: int, n2: nat, t2: nat)
    ensures Shifted(v1, n1, t1, v2, n2, t2).None? <==> n1 > 0 && n2 > 0 && (t1 == 0 || t2 == 0)
    decreases n1
  {
    hide DigitRead;
    if n1 > 0 && n2 > 0 && t1 > 0 && t2 > 0 {
      ShiftedDefined(v1, n1 - 1, NextWeight(t1), v2, n2 - 1, NextWeight(t2));
    }
  }

  lemma DigitInLimb(x: int, r: int)
    requires 0 <= r < 4
    ensures x % BASE / DecimalShift.Ten(r) % 10 == x / DecimalShift.Ten(r) % 10
  {
    var w, k := DecimalShift.Ten(r), DecimalShift.Ten(3 - r);
    assert w * (10 * k) == BASE;
    hide DecimalShift.Ten;
    DigitBelow(x, w, k, x / BASE, x % BASE);
  }

  lemma DigitBelow(x: int, w: int, k: int, a: int, b: int)
    requires w > 0 && w * (10 * k) == BASE && x == BASE * a + b
    ensures b / w % 10 == x / w % 10
  {
    hide IsDiv;
    var q, r := b / w, b % w;
    IsDivOf(b, w);
    IsDivOf(q, 10);
    BelowQuotient(x, w, k, a, b, q, r);
    DivUnique(x, w, 10 * (k * a) + q, r);
    LastDigit(k * a, q);
  }

  lemma BelowQuotient(x: int, w: int, k: int, a: int, b: int, q: int, r: int)
    requires w * (10 * k) == BASE && x == BASE * a + b && IsDiv(b, w, q, r)
    ensures IsDiv(x, w, 10 * (k * a) + q, r)
  {
    Assoc(w, 10 * k, a);
    Assoc(10, k, a);
    assert w * (10 * (k * a) + q) == w * (10 * (k * a)) + w * q;
  }

  lemma LastDigit(a: int, q: int)
    ensures (10 * a + q) % 10 == q % 10
  {
  }

  /** At its own weight a digit is read right. */
  lemma AlignedDigit(v: int, j: nat)
    ensures DigitRead(v, j, DecimalShift.Ten(j % 4)) == Cut(v, j) % 10
  {
    var q, r := j / 4, j % 4;
    CutCut(v, 4 * q, r);
    CutTen(Cut(v, 4 * q), r);
    hide Cut, DecimalShift.Ten;
    DigitInLimb(Cut(v, 4 * q), r);
  }

  lemma CutTen(x: int, r: nat)
    requires r <= 4
    ensures Cut(x, r) == x / DecimalShift.Ten(r)
  {
    DecimalShift.TenIsPower(r);
  }

  /** The top digit of the `k` digits of `x`. */
  lemma TopOfLow(x: int, k: nat)
    requires k > 0
    ensures Low(x, k) == Pow10(k - 1) * (Cut(x, k - 1) % 10) + Low(x, k - 1)
  {
    hide Pow10, Cut, Low, IsDiv;
    var p, q, r := Pow10(k - 1), Cut(x, k - 1), Low(x, k - 1);
    CutIsDiv(x, k - 1);
    PowAdd(k - 1, 1);
    CutTen(1, 1);
    DecimalShift.TenIsPower(1);
    IsDivOf(q, 10);
    DivCompose(x, p, 10, Pow10(k), q, r, q / 10, q % 10);
    CutUnique(x, k, q / 10, p * (q % 10) + r);
  }

  lemma ByTopDigit(p: int, a: int, b: int, x: int, y: int)
    requires 0 <= x < p && 0 <= y < p
    ensures Sign(p * a + x - (p * b + y)) == if a != b then Sign(a - b) else Sign(x - y)
  {
    if a > b {
      MulLe(p, b + 1, a);
    } else if a < b {
      MulLe(p, a + 1, b);
    }
  }

  /** The number that the first `k` digits read make, from digit `n - 1` at weight `t` on. */
  function Leading(v: int, n: nat, t: nat, k: nat): int
    requires k <= n
    decreases k
  {
    if k == 0 || t == 0 then 0
    else Pow10(k - 1) * DigitRead(v, n - 1, t) + Leading(v, n - 1, NextWeight(t), k - 1)
  }

  lemma LeadingStep(v: int, n: nat, t: nat, k: nat)
    requires 0 < k <= n && t > 0
    ensures Leading(v, n, t, k) == Pow10(k - 1) * DigitRead(v, n - 1, t) + Leading(v, n - 1, NextWeight(t), k - 1)
    ensures 0 <= DigitRead(v, n - 1, t) < 10 && NextWeight(t) > 0
  {
    hide Pow10, DigitRead;
    DigitRange(v, n - 1, t);
  }

  lemma DigitRange(v: int, j: nat, t: nat)
    requires t > 0
    ensures 0 <= DigitRead(v, j, t) < 10
  {
    hide Cut;
  }

  lemma {:induction false} LeadingRange(v: int, n: nat, t: nat, k: nat)
    requires k <= n
    ensures 0 <= Leading(v, n, t, k) < Pow10(k)
  {
    hide DigitRead, NextWeight;
    if k > 0 && t > 0 {
      LeadingRange(v, n - 1, NextWeight(t), k - 1);
      LeadingStep(v, n, t, k);
      MulLe(Pow10(k - 1), DigitRead(v, n - 1, t), 9);
      MulNonNeg(Pow10(k - 1), DigitRead(v, n - 1, t));
    }
  }

  /** The comparison is that of the numbers read, as far as both mantissas reach. */
  lemma {:induction false} ShiftedOrder(v1: int, n1: nat, t1: nat, v2: int, n2: nat, t2: nat, k: nat)
    requires k <= n1 && k <= n2 && (k == n1 || k == n2) && t1 > 0 && t2 > 0
    ensures var c := Shifted(v1, n1, t1, v2, n2, t2);
            c.Some? && Sign(c.value) == Sign(Leading(v1, n1, t1, k) - Leading(v2, n2, t2, k))
    decreases k
  {
    hide Pow10, DigitRead, Shifted, Leading, NextWeight;
    ShiftedEnds(v1, n1, t1, v2, n2, t2);
    if k > 0 {
      ShiftedStep(v1, n1, t1, v2, n2, t2);
      LeadingStep(v1, n1, t1, k);
      LeadingStep(v2, n2, t2, k);
      var u1, u2 := NextWeight(t1), NextWeight(t2);
      LeadingRange(v1, n1 - 1, u1, k - 1);
      LeadingRange(v2, n2 - 1, u2, k - 1);
      ByTopDigit(Pow10(k - 1), DigitRead(v1, n1 - 1, t1), DigitRead(v2, n2 - 1, t2),
                 Leading(v1, n1 - 1, u1, k - 1), Leading(v2, n2 - 1, u2, k - 1));
      ShiftedOrder(v1, n1 - 1, u1, v2, n2 - 1, u2, k - 1);
    } else {
      LeadingNothing(v1, n1, t1);
      LeadingNothing(v2, n2, t2);
    }
  }

  lemma LeadingNothing(v: int, n: nat, t: nat)
    ensures Leading(v, n, t, 0) == 0
  {
  }

  /** From its own weight on a mantissa is read right. */
  lemma {:induction false} AlignedLeading(v: int, n: nat, k: nat)
    requires 0 < k <= n
    ensures Leading(v, n, DecimalShift.Ten((n - 1) % 4), k) == Low(Cut(v, n - k), k)
    decreases k
  {
    hide Pow10, Cut, Low, DigitRead, Leading, NextWeight, DecimalShift.Ten;
    var x, t := Cut(v, n - k), DecimalShift.Ten((n - 1) % 4);
    AlignedDigit(v, n - 1);
    CutCut(v, n - k, k - 1);
    TopOfLow(x, k);
    LeadingStep(v, n, t, k);
    if k > 1 {
      WeightFollows(n - 1);
      AlignedLeading(v, n - 1, k - 1);
    } else {
      LeadingNothing(v, n - 1, NextWeight(t));
      LowNothing(x);
    }
  }

  lemma WeightFollows(j: nat)
    requires j > 0
    ensures NextWeight(DecimalShift.Ten(j % 4)) == DecimalShift.Ten((j - 1) % 4)
  {
  }

  lemma LowRange(x: int, k: nat)
    ensures 0 <= Low(x, k) < Pow10(k)
  {
    CutIsDiv(x, k);
  }

  lemma LowNothing(x: int)
    ensures Low(x, 0) == 0
  {
  }

  // ----- decimal_cmp -----

  /** What decimal_cmp says, as a sign; nothing when it divides by zero. */
  function Verdict(d1: Num, d2: Num): Option<int>
    requires d1.n >= 0 && d2.n >= 0
  {
    if d1.sign != d2.sign then Some(d1.sign)
    else if Top(d1) != Top(d2) then Some(Sign(Top(d1) - Top(d2)))
    else if d1.n != d2.n then
      match Shifted(d1.v, d1.n, FirstWeight(d1.n), d2.v, d2.n, FirstWeight(d2.n))
      case None => None
      case Some(c) => Some(Sign(c) * d1.sign)
    else Some(Sign(d1.v - d2.v) * d1.sign)
  }

  method Cmp(d1: Decimal, d2: Decimal) returns (r: Option<int>)
    requires d1.Valid() && d2.Valid() && 0 <= d1.n <= POSITIONS && 0 <= d2.n <= POSITIONS
    requires d1.sign == SIGN_POS || d1.sign == SIGN_NEG
    ensures r.Some? == Verdict(d1.Abs(), d2.Abs()).Some?
    ensures r.Some? ==> Sign(r.value) == Verdict(d1.Abs(), d2.Abs()).value
  {
    hide Val, Shifted;
    if d1.sign != d2.sign {
      return Some(d1.sign);
    }
    var diff := d1.e + d1.n - d2.e - d2.n;
    if diff > 0 {
      return Some(1);
    }
    if diff < 0 {
      return Some(-1);
    }
    if d1.n != d2.n {
      r := AbsCmpWithShift(d1.m, d1.n, d2.m, d2.n);
      if r.Some? {
        r := Some(r.value * d1.sign);
      }
      return;
    }
    var c := AbsCmp(d1.m, d2.m);
    r := Some(c * d1.sign);
  }

  /** The verdict is the order of the values. */
  predicate Agrees(d1: Num, d2: Num)
    requires d1.e >= MIN_EXPONENT && d2.e >= MIN_EXPONENT && d1.n >= 0 && d2.n >= 0
  {
    Verdict(d1, d2) == Some(Sign(DecimalAdd.Value(d1) - DecimalAdd.Value(d2)))
  }

  /** The digits of a mantissa as decimal_cmp reads them, as far as a mantissa of `k` digits goes. */
  function Read(d: Num, k: nat): int
    requires 0 <= k <= d.n
  {
    Leading(d.v, d.n, FirstWeight(d.n), k)
  }

  /** The order of two equally high mantissas, the first of them the longer one. */
  function Order(n1: Num, n2: Num): int
    requires n1.n >= n2.n
  {
    var g := n1.n - n2.n;
    if Cut(n1.v, g) != n2.v then Sign(Cut(n1.v, g) - n2.v) else Sign(Low(n1.v, g))
  }

  /** The digits that decimal_cmp reads of both tell their order. */
  predicate ReadsRight(n1: Num, n2: Num)
    requires n1.n >= n2.n >= 0
  {
    Sign(Read(n1, n2.n) - Read(n2, n2.n)) == Order(n1, n2)
  }

  /** The digits of `n1` beyond those of `n2` do not matter. */
  predicate Settled(n1: Num, n2: Num)
    requires n1.n >= n2.n
  {
    Cut(n1.v, n1.n - n2.n) != n2.v || Low(n1.v, n1.n - n2.n) == 0
  }

  /** Where decimal_cmp orders decimals by value. */
  predicate ComparesRight(d1: Num, d2: Num)
    requires d1.n >= 0 && d2.n >= 0
  {
    if d1.sign != d2.sign then d1.v != 0 || d2.v != 0
    else if d1.v == 0 && d2.v == 0 then d1.e == d2.e
    else if d1.v == 0 then d1.sign * (d1.e - Top(d2)) < 0
    else if d2.v == 0 then d1.sign * (Top(d1) - d2.e) > 0
    else if Top(d1) != Top(d2) then d1.sign == SIGN_POS
    else if d1.n == d2.n then true
    else if d1.n >= 16 || d2.n >= 16 then false
    else if d1.n > d2.n then ReadsRight(d1, d2)
    else ReadsRight(d2, d1)
  }

  lemma MagnitudeBounds(d: Num)
    requires Normalized(d) && d.v > 0
    ensures d.n > 0 && Pow10(Top(d) - 1 - MIN_EXPONENT) <= DecimalAdd.Magnitude(d) < Pow10(Top(d) - MIN_EXPONENT)
  {
    hide Pow10, Digits, Normalized;
    DecimalAdd.NormalizedDigits(d);
    NormalExponent(d);
    DecimalAdd.ScaleUpBelow(d.v, d.n, d.e);
    PowAdd(d.n - 1, d.e - MIN_EXPONENT);
    MulLe(DecimalAdd.Unit(d.e), Pow10(d.n - 1), d.v);
  }

  lemma HigherIsLarger(d1: Num, d2: Num)
    requires Normalized(d1) && Normalized(d2) && d1.v > 0 && d2.v > 0 && Top(d1) > Top(d2)
    ensures DecimalAdd.Magnitude(d1) > DecimalAdd.Magnitude(d2)
  {
    hide Pow10, Digits, DecimalAdd.Magnitude, Normalized;
    MagnitudeBounds(d1);
    MagnitudeBounds(d2);
    NormalExponent(d1);
    NormalExponent(d2);
    PowMono(Top(d2) - MIN_EXPONENT, Top(d1) - 1 - MIN_EXPONENT);
  }

  lemma NormalExponent(d: Num)
    requires Normalized(d)
    ensures d.e >= MIN_EXPONENT && (d.sign == SIGN_POS || d.sign == SIGN_NEG) && d.v >= 0 && d.n >= 0
  {
  }

  lemma SameUnit(v1: int, v2: int, u: int)
    requires u > 0
    ensures Sign(v1 * u - v2 * u) == Sign(v1 - v2)
  {
    DecimalAdd.ScaledDifference(v1, v2, u);
  }

  /** The order of the values, for a sign that both share. */
  lemma SameSign(d1: Num, d2: Num)
    requires Normalized(d1) && Normalized(d2) && d1.sign == d2.sign
    ensures d1.e >= MIN_EXPONENT && d2.e >= MIN_EXPONENT
    ensures Sign(DecimalAdd.Value(d1) - DecimalAdd.Value(d2))
         == d1.sign * Sign(DecimalAdd.Magnitude(d1) - DecimalAdd.Magnitude(d2))
  {
    hide Pow10, Digits, DecimalAdd.Magnitude;
  }

  lemma MagnitudeSign(d: Num)
    requires Normalized(d)
    ensures d.e >= MIN_EXPONENT && d.n >= 0 && DecimalAdd.Magnitude(d) >= 0
    ensures DecimalAdd.Magnitude(d) == 0 <==> d.v == 0
    ensures d.n == 0 <==> d.v == 0
  {
    hide Pow10, Digits, DecimalAdd.Magnitude;
    NormalExponent(d);
    DecimalAdd.NonzeroMagnitude(d);
    DecimalAdd.NormalizedDigits(d);
    if d.v > 0 {
      MagnitudeBounds(d);
    }
  }

  /** Equally high mantissas: the longer one against the scaled shorter one. */
  lemma LongerAgainst(n1: Num, n2: Num)
    requires Normalized(n1) && Normalized(n2) && Top(n1) == Top(n2) && n1.n >= n2.n
    ensures n1.e >= MIN_EXPONENT && n2.e >= MIN_EXPONENT
    ensures Sign(DecimalAdd.Magnitude(n1) - DecimalAdd.Magnitude(n2)) == Order(n1, n2)
  {
    hide Pow10, Digits, Cut, Low, Normalized, IsDiv;
    NormalExponent(n1);
    NormalExponent(n2);
    var g: nat := n1.n - n2.n;
    var u := DecimalAdd.Unit(n1.e);
    PowAdd(g, n1.e - MIN_EXPONENT);
    Assoc(n2.v, Pow10(g), u);
    SameUnit(n1.v, n2.v * Pow10(g), u);
    CutParts(n1.v, g);
    LowRange(n1.v, g);
    ByTopDigit(Pow10(g), Cut(n1.v, g), n2.v, Low(n1.v, g), 0);
  }

  lemma CutParts(x: int, k: nat)
    ensures x == Pow10(k) * Cut(x, k) + Low(x, k)
  {
    CutIsDiv(x, k);
  }

  /** What the code says of two mantissas of fewer than sixteen digits, the first of them the longer one. */
  lemma ReadVerdict(n1: Num, n2: Num)
    requires 16 > n1.n > n2.n > 0
    ensures var c := Shifted(n1.v, n1.n, FirstWeight(n1.n), n2.v, n2.n, FirstWeight(n2.n));
            c.Some? && Sign(c.value) == Sign(Read(n1, n2.n) - Read(n2, n2.n))
    ensures var c := Shifted(n2.v, n2.n, FirstWeight(n2.n), n1.v, n1.n, FirstWeight(n1.n));
            c.Some? && Sign(c.value) == 0 - Sign(Read(n1, n2.n) - Read(n2, n2.n))
  {
    hide Shifted, FirstWeight, Leading;
    FirstWeightIs(n1.n);
    FirstWeightIs(n2.n);
    ShiftedOrder(n1.v, n1.n, FirstWeight(n1.n), n2.v, n2.n, FirstWeight(n2.n), n2.n);
    ShiftedOrder(n2.v, n2.n, FirstWeight(n2.n), n1.v, n1.n, FirstWeight(n1.n), n2.n);
  }

  /** Mantissas of 7, 10 or 13 digits are read right; then only digits that go unread can spoil the order. */
  lemma AlignedReadsIff(n1: Num, n2: Num)
    requires Normalized(n1) && Normalized(n2) && n1.n > n2.n > 0 && StartsAligned(n1.n) && StartsAligned(n2.n)
    ensures ReadsRight(n1, n2) <==> Settled(n1, n2)
  {
    hide Pow10, Digits, Cut, Low, FirstWeight, Leading, Normalized, DecimalShift.Ten;
    var g, k := n1.n - n2.n, n2.n;
    FirstWeightIs(n1.n);
    FirstWeightIs(n2.n);
    DecimalAdd.NormalizedDigits(n1);
    DecimalAdd.NormalizedDigits(n2);
    NormalExponent(n1);
    NormalExponent(n2);
    AlignedLeading(n1.v, n1.n, k);
    AlignedLeading(n2.v, n2.n, k);
    CutSize(n1.v, g, k);
    CutNothing(n2.v);
    LowWhole(Cut(n1.v, g), k);
    LowWhole(n2.v, k);
    LowRange(n1.v, g);
  }

  lemma CutNothing(x: int)
    ensures Cut(x, 0) == x
  {
  }

  lemma LowWhole(x: int, k: nat)
    requires 0 <= x < Pow10(k)
    ensures Low(x, k) == x
  {
    CutUnique(x, k, 0, x);
  }

  lemma Unaligned(d1: Num, d2: Num)
    requires d1.n > 0 && d2.n > 0 && (d1.n >= 16 || d2.n >= 16)
    ensures Shifted(d1.v, d1.n, FirstWeight(d1.n), d2.v, d2.n, FirstWeight(d2.n)).None?
  {
    hide Shifted, FirstWeight;
    FirstWeightIs(d1.n);
    FirstWeightIs(d2.n);
    ShiftedDefined(d1.v, d1.n, FirstWeight(d1.n), d2.v, d2.n, FirstWeight(d2.n));
  }

  /** The verdict is the numeric order if and only if `ComparesRight` holds. */
  lemma CmpIff(d1: Num, d2: Num)
    requires Normalized(d1) && Normalized(d2)
    ensures d1.e >= MIN_EXPONENT && d2.e >= MIN_EXPONENT && d1.n >= 0 && d2.n >= 0
    ensures Agrees(d1, d2) <==> ComparesRight(d1, d2)
  {
    hide Pow10, Digits, Normalized, Cut, Low, Shifted, FirstWeight, Read, DecimalAdd.Magnitude;
    NormalExponent(d1);
    NormalExponent(d2);
    MagnitudeSign(d1);
    MagnitudeSign(d2);
    if d1.sign == d2.sign {
      SameSign(d1, d2);
      if d1.v == 0 || d2.v == 0 {
        ZeroVerdict(d1, d2);
      } else if Top(d1) > Top(d2) {
        HigherIsLarger(d1, d2);
      } else if Top(d1) < Top(d2) {
        HigherIsLarger(d2, d1);
      } else {
        EquallyHigh(d1, d2);
      }
    }
  }

  lemma ZeroVerdict(d1: Num, d2: Num)
    requires Normalized(d1) && Normalized(d2) && d1.sign == d2.sign && (d1.v == 0 || d2.v == 0)
    requires d1.n >= 0 && d2.n >= 0
    ensures d1.v == 0 ==> d1.n == 0
    ensures d2.v == 0 ==> d2.n == 0
    ensures Verdict(d1, d2) == Some(Sign(Top(d1) - Top(d2)))
  {
    hide Pow10, Digits, Normalized, FirstWeight;
    MagnitudeSign(d1);
    MagnitudeSign(d2);
  }

  lemma EquallyHigh(d1: Num, d2: Num)
    requires Normalized(d1) && Normalized(d2) && d1.sign == d2.sign && d1.v > 0 && d2.v > 0
    requires Top(d1) == Top(d2) && d1.n > 0 && d2.n > 0
    ensures d1.e >= MIN_EXPONENT && d2.e >= MIN_EXPONENT
    ensures Agrees(d1, d2) <==> ComparesRight(d1, d2)
  {
    hide Pow10, Digits, Normalized, Cut, Low, Shifted, FirstWeight, Read, DecimalAdd.Magnitude;
    NormalExponent(d1);
    NormalExponent(d2);
    SameSign(d1, d2);
    if d1.n == d2.n {
      LongerAgainst(d1, d2);
      CutNothing(d1.v);
      LowNothing(d1.v);
    } else if d1.n >= 16 || d2.n >= 16 {
      Unaligned(d1, d2);
    } else if d1.n > d2.n {
      LongerAgainst(d1, d2);
      ReadVerdict(d1, d2);
    } else {
      LongerAgainst(d2, d1);
      ReadVerdict(d2, d1);
    }
  }

  /** Small normalized decimals. */
  lemma Small(sign: int, e: int, n: nat, v: nat)
    requires (sign == SIGN_POS || sign == SIGN_NEG) && MIN_EXPONENT <= e <= MAX_EXPONENT
    requires v < 1000 && n == if v == 0 then 0 else if v < 10 then 1 else if v < 100 then 2 else 3
    ensures Normalized(Num(sign, e, n, v))
  {
    hide Pow10, Digits;
    PowMono(n, POSITIONS);
    DecimalShift.TenIsPower(n);
    if n > 0 {
      DecimalShift.TenIsPower(n - 1);
      DigitsUnique(v, n);
    } else {
      NoDigits();
    }
  }

  lemma NoDigits()
    ensures Digits(0) == 0
  {
  }

  /** -100 is said to be greater than -1, 0 to be greater than 0.001, and 123 to be greater than 130. */
  lemma CmpFails()
    ensures var d1, d2 := Num(SIGN_NEG, 2, 1, 1), Num(SIGN_NEG, 0, 1, 1);
            && Normalized(d1) && Normalized(d2) && Verdict(d1, d2) == Some(1)
            && DecimalAdd.Value(d1) < DecimalAdd.Value(d2)
    ensures var d1, d2 := Num(SIGN_POS, 0, 0, 0), Num(SIGN_POS, -3, 1, 1);
            && Normalized(d1) && Normalized(d2) && Verdict(d1, d2) == Some(1)
            && DecimalAdd.Value(d1) < DecimalAdd.Value(d2)
    ensures var d1, d2 := Num(SIGN_POS, 0, 3, 123), Num(SIGN_POS, 1, 2, 13);
            && Normalized(d1) && Normalized(d2) && Verdict(d1, d2) == Some(1)
            && DecimalAdd.Value(d1) < DecimalAdd.Value(d2)
  {
    hide Pow10, Normalized, Shifted;
    Small(SIGN_NEG, 2, 1, 1);
    Small(SIGN_NEG, 0, 1, 1);
    HigherIsLarger(Num(SIGN_NEG, 2, 1, 1), Num(SIGN_NEG, 0, 1, 1));
    Small(SIGN_POS, 0, 0, 0);
    Small(SIGN_POS, -3, 1, 1);
    MagnitudeBounds(Num(SIGN_POS, -3, 1, 1));
    Small(SIGN_POS, 0, 3, 123);
    Small(SIGN_POS, 1, 2, 13);
    HundredTwentyThree();
  }

  lemma HundredTwentyThree()
    ensures DecimalAdd.Unit(1) == 10 * DecimalAdd.Unit(0)
    ensures DecimalAdd.Unit(0) > 0
    ensures Shifted(123, 3, FirstWeight(3), 13, 2, FirstWeight(2)) == Some(1)
  {
    hide Shifted, FirstWeight, DigitRead;
    FirstWeightIs(3);
    FirstWeightIs(2);
    DecimalAdd.UnitPositive(0);
    FirstDigits();
    ShiftedStep(123, 3, 1000, 13, 2, 1000);
    ShiftedStep(123, 2, 100, 13, 1, 100);
    assert DecimalAdd.Unit(1) == 10 * DecimalAdd.Unit(0);
  }

  lemma FirstDigits()
    ensures DigitRead(123, 2, 1000) == DigitRead(13, 1, 1000) == DigitRead(13, 0, 100) == 0
    ensures DigitRead(123, 1, 100) == 1
  {
    hide Cut;
    CutNothing(123);
    CutNothing(13);
  }
}
