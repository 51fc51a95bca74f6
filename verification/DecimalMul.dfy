/** decimal_mul: schoolbook product of two ten-limb mantissas and its reduction to forty digits. */
module DecimalMul {
  import opened Limbs
  import opened Decimals
  import DecimalShift

  /** Index of the lowest limb kept of a product of `d` digits. */
  function FirstKept(d: nat): int {
    (d + 3) / 4 - PARTS
  }

  /** The limb just below the kept ones. */
  function DroppedLimb(p: nat, d: nat): int
    requires d > POSITIONS
  {
    Cut(p, 4 * (FirstKept(d) - 1)) % BASE
  }

  /** The mantissa kept of the product `p` of `d` digits: the kept limbs moved up to fill
      the top limb, plus a part of the limb below them. */
  function Kept(p: nat, d: nat): int
    requires d > POSITIONS
  {
    var x := 4 - d % 4;
    Low(Cut(p, 4 * FirstKept(d)) * Pow10(x), POSITIONS) + Cut(DroppedLimb(p, d), x)
  }

  /** The product `p` cut to the width of a mantissa, with its exponent raised accordingly. */
  function Fitted(p: nat, exponent: int, sign: int): Result {
    var d := Digits(p);
    var e := exponent + (if d > POSITIONS then d - POSITIONS else 0);
    if e > MAX_EXPONENT || e < MIN_EXPONENT then Overflow
    else if d > POSITIONS then Done(Num(sign, e, POSITIONS, Kept(p, d)))
    else Done(Num(sign, e, d, p))
  }

  function Product(d1: Num, d2: Num): (p: nat)
    requires d1.v >= 0 && d2.v >= 0
  {
    MulNonNeg(d1.v, d2.v);
    d1.v * d2.v
  }

  function MulSign(d1: Num, d2: Num, none: bool): int {
    if d1.sign == d2.sign || none then SIGN_POS else SIGN_NEG
  }

  /** What decimal_mul gives; when the result record is the first operand, its new digit count is taken
      for that of the operand. */
  function MulInto(d1: Num, d2: Num, same: bool): Result
    requires d1.v >= 0 && d2.v >= 0
  {
    Fitted(Product(d1, d2), d1.e + d2.e, MulSign(d1, d2, if same then Product(d1, d2) == 0 else d1.n == 0))
  }

  /** What decimal_mul gives in a record that is not the first operand. */
  function MulResult(d1: Num, d2: Num): Result
    requires d1.v >= 0 && d2.v >= 0
  {
    MulInto(d1, d2, false)
  }

  /** The row invariant: `acc` limbs plus a carry at weight `p` hold `base + x * y`. */
  ghost predicate Row(acc: int, p: int, k: int, base: int, x: int, y: int) {
    acc + p * k == base + x * y
  }

  lemma RowStep(acc: int, acc': int, q: int, w: int, p: int, k: int, base: int, x: int, xq: int, y: int, y': int,
                d: int, v: int, v': int, k': int)
    requires Row(acc, p, k, base, xq, y) && p == q * w && xq == x * q
    requires v' + BASE * k' == x * d + v + k
    requires acc' == acc + p * (v' - v) && y' == y + w * d
    ensures Row(acc', BASE * p, k', base, xq, y')
  {
    assert p * (v' + BASE * k') == p * (x * d + v + k);
    assert p * (x * d) == xq * (w * d);
  }

  lemma CarryBound(x: int, d: int, v: int, k: int)
    requires 0 <= x < BASE && 0 <= d < BASE && 0 <= v < BASE && 0 <= k < BASE
    ensures 0 <= x * d + v + k < BASE * BASE
  {
    MulLe(x, 0, d);
    MulLe(x, d, 9999);
  }

  /** Adds `x` times the multiplicand at limb `i`; limbs above the row are still zero. */
  method MulRow(m3: array<int>, d2: array<int>, x: int, i: nat)
    requires m3.Length == 2 * PARTS && d2.Length == PARTS && m3 != d2 && i < PARTS && 0 <= x < BASE
    requires AllLimbs(m3[..]) && AllLimbs(d2[..])
    requires forall j :: i + PARTS <= j < 2 * PARTS ==> m3[j] == 0
    modifies m3
    ensures AllLimbs(m3[..])
    ensures forall j :: i + PARTS < j < 2 * PARTS ==> m3[j] == 0
    ensures Val(m3[..]) == old(Val(m3[..])) + (x * Pow10(4 * i)) * Val(d2[..])
  {
    hide Val, Pow10, Row, AllLimbs;
    ghost var start, s2, xq := Val(m3[..]), d2[..], x * Pow10(4 * i);
    var k := 0;
    RowStart(start, Pow10(4 * i), xq, s2[..0]);
    for j := 0 to PARTS
      invariant 0 <= k < BASE && AllLimbs(m3[..])
      invariant forall j :: i + PARTS <= j < 2 * PARTS ==> m3[j] == 0
      invariant Row(Val(m3[..]), Pow10(4 * (i + j)), k, start, xq, Val(s2[..j]))
    {
      ghost var s := m3[..];
      LimbStep(s, s2, x, i, j, k, start);
      var m := x * d2[j] + m3[i + j] + k;
      m3[i + j], k := m % BASE, m / BASE;
      assert m3[..] == s[i + j := m % BASE];
    }
    ghost var s := m3[..];
    m3[i + PARTS] := m3[i + PARTS] + k;
    assert m3[..] == s[i + PARTS := k] && s2[..PARTS] == s2;
    RowEnd(s, i + PARTS, k, start, xq, Val(s2));
  }

  lemma RowStart(start: int, p: int, xq: int, none: seq<int>)
    requires |none| == 0
    ensures Row(start, p, 0, start, xq, Val(none))
  {
  }

  lemma RowEnd(s: seq<int>, at: nat, k: int, start: int, xq: int, y: int)
    requires AllLimbs(s) && at < |s| && s[at] == 0 && 0 <= k < BASE && Row(Val(s), Pow10(4 * at), k, start, xq, y)
    ensures AllLimbs(s[at := k]) && Val(s[at := k]) == start + xq * y
  {
    hide Val, Pow10;
    ValUpdate(s, at, k);
  }

  /** One limb of the row. */
  lemma LimbStep(s: seq<int>, s2: seq<int>, x: int, i: nat, j: nat, k: int, start: int)
    requires |s| == 2 * PARTS && |s2| == PARTS && AllLimbs(s) && AllLimbs(s2)
    requires i < PARTS && j < PARTS && 0 <= x < BASE && 0 <= k < BASE
    requires Row(Val(s), Pow10(4 * (i + j)), k, start, x * Pow10(4 * i), Val(s2[..j]))
    ensures var m := x * s2[j] + s[i + j] + k;
            && 0 <= m / BASE < BASE && AllLimbs(s[i + j := m % BASE])
            && Row(Val(s[i + j := m % BASE]), Pow10(4 * (i + j + 1)), m / BASE, start, x * Pow10(4 * i), Val(s2[..j + 1]))
  {
    hide Val, Pow10, Row;
    var q, m := Pow10(4 * i), x * s2[j] + s[i + j] + k;
    CarryBound(x, s2[j], s[i + j], k);
    ValUpdate(s, i + j, m % BASE);
    ValSnoc(s2, j);
    PowLimb(i + j);
    PowAdd(4 * i, 4 * j);
    RowStep(Val(s), Val(s[i + j := m % BASE]), q, Pow10(4 * j), Pow10(4 * (i + j)), k, start, x, x * q,
            Val(s2[..j]), Val(s2[..j + 1]), s2[j], s[i + j], m % BASE, m / BASE);
  }

  ghost predicate IsProduct(acc: int, x: int, y: int) {
    acc == x * y
  }

  lemma ProductStep(acc: int, x: int, y: int, q: int, d: int)
    requires IsProduct(acc, x, y)
    ensures IsProduct(acc + (d * q) * y, x + q * d, y)
  {
    Distribute(x, d * q, y);
  }

  method Multiply(m3: array<int>, d1: array<int>, d2: array<int>)
    requires m3.Length == 2 * PARTS && d1.Length == d2.Length == PARTS && m3 != d1 && m3 != d2
    requires AllLimbs(d1[..]) && AllLimbs(d2[..])
    modifies m3
    ensures AllLimbs(m3[..]) && Val(m3[..]) == Val(d1[..]) * Val(d2[..])
  {
    DecimalShift.ZeroFill(m3, 0, 2 * PARTS);
    ValZeros(m3[..]);
    ghost var s1, v2 := d1[..], Val(d2[..]);
    assert Val(s1[..0]) == 0;
    hide Val, Pow10;
    for i := 0 to PARTS
      invariant AllLimbs(m3[..])
      invariant forall j :: i + PARTS <= j < 2 * PARTS ==> m3[j] == 0
      invariant IsProduct(Val(m3[..]), Val(s1[..i]), v2)
    {
      hide IsProduct;
      var x := d1[i];
      ValSnoc(s1, i);
      ProductStep(Val(m3[..]), Val(s1[..i]), v2, Pow10(4 * i), x);
      if x != 0 {
        MulRow(m3, d2, x, i);
      }
    }
    assert s1[..PARTS] == s1;
  }

  /** Digits of a double-width mantissa, from the digits of its two halves. */
  lemma DigitsOfHalves(s: seq<int>)
    requires |s| == 2 * PARTS && AllLimbs(s)
    ensures Val(s) >= 0 && Val(s[PARTS..]) >= 0 && Val(s[..PARTS]) >= 0
    ensures Digits(Val(s)) == if Val(s[PARTS..]) > 0 then POSITIONS + Digits(Val(s[PARTS..])) else Digits(Val(s[..PARTS]))
    ensures Digits(Val(s)) <= 2 * POSITIONS
    ensures Val(s[PARTS..]) == 0 ==> Val(s) == Val(s[..PARTS])
    ensures (Val(s[PARTS..]) == 0) == (Digits(Val(s[PARTS..])) == 0)
    ensures Digits(Val(s[..PARTS])) <= POSITIONS
  {
    assert AllLimbs(s[PARTS..]) && AllLimbs(s[..PARTS]) && Digits(0) == 0;
    hide Val, Pow10, Digits, IsDiv, AllLimbs;
    SplitDiv(s, PARTS);
    ValBounds(s);
    ValBounds(s[PARTS..]);
    DigitsBounds(Val(s[PARTS..]));
    ValBounds(s[..PARTS]);
    DigitsLe(Val(s[..PARTS]), POSITIONS);
    DigitsLe(Val(s), 2 * POSITIONS);
    DigitsOfQuotient(Val(s), POSITIONS, Val(s[PARTS..]), Val(s[..PARTS]));
  }

  /** The kept limbs and the limb below them, as quotients of the whole product. */
  lemma KeptWindow(s: seq<int>, d: nat)
    requires |s| == 2 * PARTS && AllLimbs(s) && Val(s) >= 0 && Digits(Val(s)) == d
    requires POSITIONS < d <= 2 * POSITIONS
    ensures 1 <= FirstKept(d) <= PARTS
    ensures Val(s[FirstKept(d)..FirstKept(d) + PARTS]) == Cut(Val(s), 4 * FirstKept(d))
    ensures s[FirstKept(d) - 1] == DroppedLimb(Val(s), d)
  {
    hide Val, Pow10, Digits, AllLimbs, Cut;
    var i := FirstKept(d);
    DigitsBounds(Val(s));
    PowMono(d, 4 * (i + PARTS));
    Window(s, i, i + PARTS);
    LimbAt(s, i - 1);
  }

  /** The lowest limb after the move, and the room it leaves for the digits that fill it. */
  lemma RoomBelow(w: seq<int>, x: nat, dropped: int, t: int)
    requires |w| == PARTS && AllLimbs(w) && 1 <= x <= 4 && 0 <= dropped < BASE
    requires t == DecimalShift.Ten(x)
    ensures x != 1 || dropped < 100 ==> 0 <= DecimalShift.LeftLimbs(w, x)[0] + dropped / t < BASE
  {
    DecimalShift.LeftLimbsAt(w, x, x / 4, DecimalShift.Ten(x % 4), DecimalShift.Ten(4 - x % 4));
    hide DecimalShift.LeftLimbs;
    if x < 4 {
      DecimalShift.TenIsPower(x);
      DecimalShift.UpStep(t, DecimalShift.Ten(4 - x), w[0], 0);
    }
  }

  /** The moved limbs with the freed digits filled in. */
  function Filled(w: seq<int>, x: nat, dropped: int): seq<int>
    requires |w| == PARTS && x <= 4
  {
    var s := DecimalShift.LeftLimbs(w, x);
    s[0 := s[0] + dropped / DecimalShift.Ten(x)]
  }

  lemma FilledValue(w: seq<int>, x: nat, dropped: int)
    requires |w| == PARTS && AllLimbs(w) && 1 <= x <= 4 && 0 <= dropped < BASE
    ensures Val(Filled(w, x, dropped)) == Low(Val(w) * Pow10(x), POSITIONS) + Cut(dropped, x)
    ensures x != 1 || dropped < 100 ==> AllLimbs(Filled(w, x, dropped))
  {
    var s := DecimalShift.LeftLimbs(w, x);
    assert Pow10(4 * 0) == 1;
    hide Val, Pow10, DecimalShift.LeftLimbs, DecimalShift.Ten, Low;
    DecimalShift.TenIsPower(x);
    DecimalShift.LeftLimbsValue(w, x);
    RoomBelow(w, x, dropped, DecimalShift.Ten(x));
    ValUpdate(s, 0, s[0] + dropped / DecimalShift.Ten(x));
  }

  lemma KeptIsFilled(s: seq<int>, d: nat, n: nat, w: seq<int>)
    requires |s| == 2 * PARTS && AllLimbs(s) && Val(s) >= 0 && Digits(Val(s)) == d
    requires POSITIONS < d <= 2 * POSITIONS && n == FirstKept(d) && n + PARTS <= |s| && w == s[n..n + PARTS]
    ensures n >= 1
    ensures var f := Filled(w, 4 - d % 4, s[n - 1]);
            Val(f) == Kept(Val(s), d) && (d % 4 != 3 || DroppedLimb(Val(s), d) < 100 ==> AllLimbs(f))
  {
    hide Val, Pow10, Digits, Filled, DecimalShift.LeftLimbs, Cut, Low;
    KeptWindow(s, d);
    FilledValue(w, 4 - d % 4, s[n - 1]);
  }

  method LimbDivisor(digits: int) returns (k: int)
    requires 0 <= digits < 4
    ensures k == DecimalShift.Ten(4 - digits)
  {
    k := BASE;
    var nd := digits;
    while nd > 0
      invariant 0 <= nd <= digits && k == DecimalShift.Ten(4 - digits + nd)
    {
      k, nd := k / 10, nd - 1;
    }
  }

  /** Moves the kept limbs up and fills the digits that become free from the limb below. */
  method KeepTop(m3: array<int>, ghost p: nat, d: nat)
    requires m3.Length == 2 * PARTS && AllLimbs(m3[..]) && Val(m3[..]) == p && Digits(p) == d
    requires POSITIONS < d <= 2 * POSITIONS
    modifies m3
    ensures 1 <= FirstKept(d) <= PARTS
    ensures Val(m3[FirstKept(d)..FirstKept(d) + PARTS]) == Kept(p, d)
    ensures d % 4 != 3 || DroppedLimb(p, d) < 100 ==> AllLimbs(m3[FirstKept(d)..FirstKept(d) + PARTS])
  {
    hide Val, Pow10, Digits, Kept, DroppedLimb, DecimalShift.LeftLimbs, DecimalShift.Ten, Cut, Low;
    var n := FirstKept(d);
    ghost var w := m3[n..n + PARTS];
    assert w == m3[..][n..n + PARTS];
    KeptIsFilled(m3[..], d, n, w);
    DecimalShift.ShiftLeft(m3, n, 4 - d % 4);
    var k := LimbDivisor(d % 4);
    m3[n] := m3[n] + m3[n - 1] / k;
    assert m3[n..n + PARTS] == Filled(w, 4 - d % 4, m3[n - 1]);
  }

  /** The filled limb stays below the base. */
  predicate LimbsFit(p: nat) {
    var d := Digits(p);
    d <= POSITIONS || d % 4 != 3 || DroppedLimb(p, d) < 100
  }

  predicate ProductLimbsFit(d1: Num, d2: Num)
    requires d1.v >= 0 && d2.v >= 0
  {
    LimbsFit(Product(d1, d2))
  }

  /** Counts the digits of the product and cuts it to the window starting at `first`. */
  method Reduce(m3: array<int>, ghost p: nat) returns (n: int, first: int)
    requires m3.Length == 2 * PARTS && AllLimbs(m3[..]) && Val(m3[..]) == p
    modifies m3
    ensures n == Digits(p) && 0 <= first <= PARTS
    ensures Val(m3[first..first + PARTS]) == if n > POSITIONS then Kept(p, n) else p
    ensures LimbsFit(p) ==> AllLimbs(m3[first..first + PARTS])
  {
    DigitsOfHalves(m3[..]);
    assert m3[..][PARTS..] == m3[PARTS..2 * PARTS] && m3[..][..PARTS] == m3[0..PARTS];
    hide Val, Pow10, Digits, Kept;
    first := 0;
    n := DecimalShift.NumDigits(m3, PARTS);
    if n > 0 {
      n := n + POSITIONS;
    } else {
      n := DecimalShift.NumDigits(m3, 0);
    }
    if n > POSITIONS {
      first := (n + 3) / 4 - PARTS;
      KeepTop(m3, p, n);
    }
  }

  lemma ZeroDigits(p: nat)
    ensures Digits(p) == 0 <==> p == 0
  {
  }

  /** The part of decimal_mul after the product is formed. */
  method StoreProduct(m3: array<int>, ghost p: nat, exponent: int, d1: Decimal, d2: Decimal, d3: Decimal)
    returns (rc: int)
    requires m3.Length == 2 * PARTS && AllLimbs(m3[..]) && Val(m3[..]) == p
    requires d3.Valid() && d3.m != m3
    modifies d3, d3.m, m3
    ensures var none := if d3 == d1 then p == 0 else old(d1.n) == 0;
            var r := Fitted(p, exponent, if old(d1.sign) == old(d2.sign) || none then SIGN_POS else SIGN_NEG);
            && (rc == 0) == r.Done?
            && (rc == 0 ==> d3.Abs() == r.value && (LimbsFit(p) ==> d3.Valid()))
  {
    hide Val, Pow10, Digits, Kept, AllLimbs, LimbsFit;
    var n, first := Reduce(m3, p);
    ZeroDigits(p);
    var e := exponent;
    if n > POSITIONS {
      e := e + n - POSITIONS;
      d3.n := POSITIONS;
    } else {
      d3.n := n;
    }
    if e > MAX_EXPONENT || e < MIN_EXPONENT {
      return 1;
    }
    CopyLimbs(m3, first, d3.m);
    d3.e := e;
    d3.sign := if d1.sign == d2.sign || d1.n == 0 then SIGN_POS else SIGN_NEG;
    return 0;
  }

  /** decimal_mul. Returns 0 and the result, or 1 when the exponent does not fit. */
  method Mul(d1: Decimal, d2: Decimal, d3: Decimal) returns (rc: int)
    requires d1.Valid() && d2.Valid() && d3.Valid()
    modifies d3, d3.m
    ensures var a, b := old(d1.Abs()), old(d2.Abs());
            && a.v >= 0 && b.v >= 0
            && (rc == 0) == MulInto(a, b, d3 == d1).Done?
            && (rc == 0 ==> d3.Abs() == MulInto(a, b, d3 == d1).value && (ProductLimbsFit(a, b) ==> d3.Valid()))
  {
    hide Val, Pow10, Digits, Fitted, AllLimbs, LimbsFit;
    ghost var a, b := d1.Abs(), d2.Abs();
    ValBounds(d1.m[..]);
    ValBounds(d2.m[..]);
    var m3 := new int[2 * PARTS];
    Multiply(m3, d1.m, d2.m);
    ghost var p := Val(m3[..]);
    ValBounds(m3[..]);
    rc := StoreProduct(m3, p, d1.e + d2.e, d1, d2, d3);
  }

  /** Multiplying in place gives another result only for a nonzero number by a zero of the other sign:
      that zero is positive. */
  lemma InPlaceIff(d1: Num, d2: Num)
    requires Normalized(d1) && Normalized(d2) && MulResult(d1, d2).Done?
    ensures MulInto(d1, d2, true) == MulResult(d1, d2) <==> d1.sign == d2.sign || d1.v == 0 || d2.v != 0
    ensures MulInto(d1, d2, true).Done? && MulInto(d1, d2, true).value.v == MulResult(d1, d2).value.v
  {
    hide Pow10, Digits, Kept, Product;
    ZeroDigits(d1.v);
    ZeroProduct(d1, d2);
  }

  lemma ZeroProduct(d1: Num, d2: Num)
    requires d1.v >= 0 && d2.v >= 0
    ensures Product(d1, d2) == 0 <==> d1.v == 0 || d2.v == 0
  {
    if d1.v > 0 && d2.v > 0 {
      MulLe(d1.v, 1, d2.v);
    }
  }

  // ----- What the kept mantissa is worth -----

  /** The exact truncation of a product of `d` digits to forty. */
  function Truncated(p: nat, d: nat): int {
    if d > POSITIONS then Cut(p, d - POSITIONS) else p
  }

  /** The digit counts, and limb contents, for which decimal_mul truncates correctly. */
  predicate TruncatesExactly(p: nat) {
    var d := Digits(p);
    d <= POSITIONS || d % 4 == 2 || (d % 4 != 0 && DroppedLimb(p, d) < 10)
  }

  /** The limbs of the product from the dropped one up. */
  lemma AboveDropped(p: nat, d: nat)
    requires d > POSITIONS
    ensures var q := Cut(p, 4 * (FirstKept(d) - 1));
            q == BASE * Cut(p, 4 * FirstKept(d)) + DroppedLimb(p, d)
  {
    hide Pow10, Cut;
    var i := FirstKept(d);
    CutCut(p, 4 * (i - 1), 4);
    CutLimb(Cut(p, 4 * (i - 1)));
  }

  lemma CutLimb(v: int)
    ensures Cut(v, 4) == v / BASE
  {
    DecimalShift.TenIsPower(4);
  }

  lemma SplitBySmallPower(nd: nat, w: int, l: int)
    requires 1 <= nd <= 3 && 0 <= l
    ensures Cut(BASE * w + l, nd) == w * Pow10(4 - nd) + Cut(l, nd)
  {
    DecimalShift.TenIsPower(nd);
    DecimalShift.TenIsPower(4 - nd);
    hide Pow10;
  }

  lemma SameFill(nd: nat, l: int)
    requires 1 <= nd <= 3 && 0 <= l < BASE
    ensures Cut(l, 4 - nd) == Cut(l, nd) <==> nd == 2 || l < 10
  {
    DecimalShift.TenIsPower(nd);
    DecimalShift.TenIsPower(4 - nd);
    hide Pow10;
  }

  /** With `nd` digits in the top limb, the code and the truncation differ only in the fill. */
  lemma PartialTop(p: nat, d: nat)
    requires d > POSITIONS && Digits(p) == d && d % 4 != 0
    ensures Kept(p, d) == Truncated(p, d) <==> d % 4 == 2 || DroppedLimb(p, d) < 10
  {
    hide Pow10, Digits, Cut, Low;
    var nd, i := d % 4, FirstKept(d);
    AboveDropped(p, d);
    CutCut(p, 4 * (i - 1), nd);
    SplitBySmallPower(nd, Cut(p, 4 * i), DroppedLimb(p, d));
    SameFill(nd, DroppedLimb(p, d));
    NoDigitLost(p, d, i, 4 - nd);
  }

  /** The move keeps every digit when it just fills the top limb. */
  lemma NoDigitLost(p: nat, d: nat, i: nat, x: nat)
    requires Digits(p) == d && d + x == 4 * i + POSITIONS && x <= 4
    ensures Low(Cut(p, 4 * i) * Pow10(x), POSITIONS) == Cut(p, 4 * i) * Pow10(x)
  {
    hide Pow10, Digits, Cut, Low;
    var w := Cut(p, 4 * i);
    DigitsBounds(p);
    CutSize(p, 4 * i, POSITIONS - x);
    ScaledFits(w, POSITIONS - x, x);
  }

  lemma {:induction false} OneModNines(k: nat) returns (q: nat)
    ensures Pow10(4 * k) == 9999 * q + 1
  {
    q := 0;
    if k > 0 {
      var q' := OneModNines(k - 1);
      PowLimb(k - 1);
      q := BASE * q' + 1;
    }
  }

  /** A full window moved up by a whole limb is never the window itself. */
  lemma NotFixed(w: int)
    requires 0 < w < Pow10(POSITIONS)
    ensures Low(w * BASE, POSITIONS) != w
  {
    hide Pow10, IsDiv, Cut, Low;
    var q := OneModNines(PARTS);
    CutIsDiv(w * BASE, POSITIONS);
    NoFixedWindow(w, Cut(w * BASE, POSITIONS), Pow10(POSITIONS), q);
  }

  lemma NoFixedWindow(w: int, c: int, p: int, q: int)
    requires 0 < w < p && p == 9999 * q + 1
    ensures !IsDiv(w * BASE, p, c, w)
  {
    if w * BASE == p * c + w {
      FixedWindow(w, c, p, q);
      MultipleSize(w - q * c, p);
    }
  }

  lemma FixedWindow(w: int, c: int, p: int, q: int)
    requires p == 9999 * q + 1 && w * BASE == p * c + w
    ensures w == (w - q * c) * p
  {
    var z := w - q * c;
    assert p * c == 9999 * (q * c) + c;
    assert c == 9999 * z;
    assert q * (9999 * z) == (9999 * q) * z;
  }

  /** With a full top limb the code moves that limb out and never truncates correctly. */
  lemma WholeLimbLost(p: nat, d: nat)
    requires d > POSITIONS && Digits(p) == d && d % 4 == 0
    ensures Kept(p, d) != Truncated(p, d)
  {
    hide Pow10, Digits, Cut, Low;
    var i := FirstKept(d);
    DigitsBounds(p);
    CutSize(p, 4 * i, POSITIONS);
    CutSize(p, 4 * i, POSITIONS - 1);
    NotFixed(Cut(p, 4 * i));
    DecimalShift.TenIsPower(4);
    CutLimb(DroppedLimb(p, d));
  }

  /** decimal_mul keeps the leading forty digits of the product in exactly these cases. */
  lemma MulTruncationIff(d1: Num, d2: Num)
    requires d1.v >= 0 && d2.v >= 0 && MulResult(d1, d2).Done?
    ensures var p := Product(d1, d2);
            MulResult(d1, d2).value.v == Truncated(p, Digits(p)) <==> TruncatesExactly(p)
  {
    hide Pow10, Digits, TruncatesExactly, Fitted, Product, Truncated;
    FittedIff(Product(d1, d2), d1.e + d2.e, MulSign(d1, d2, d1.n == 0));
  }

  lemma FittedIff(p: nat, exponent: int, sign: int)
    requires Fitted(p, exponent, sign).Done?
    ensures Fitted(p, exponent, sign).value.v == Truncated(p, Digits(p)) <==> TruncatesExactly(p)
  {
    hide Pow10, Digits, Kept, DroppedLimb, Cut;
    var d := Digits(p);
    if d > POSITIONS {
      if d % 4 == 0 {
        WholeLimbLost(p, d);
      } else {
        PartialTop(p, d);
      }
    }
  }

  // ----- What is kept when it is not the truncation -----

  /** A window moved up by a whole limb loses its top four digits. */
  lemma LimbMovedOut(w: int)
    ensures Low(w * BASE, POSITIONS) == Low(w, POSITIONS - 4) * BASE
  {
    hide Pow10, Cut, Low, IsDiv;
    PowLimb(9);
    CutIsDiv(w, POSITIONS - 4);
    var q, r, u := Cut(w, POSITIONS - 4), Low(w, POSITIONS - 4), Pow10(POSITIONS - 4);
    TimesBase(w, u, q, r);
    CutUnique(w * BASE, POSITIONS, q, r * BASE);
  }

  lemma TimesBase(w: int, u: int, q: int, r: int)
    requires IsDiv(w, u, q, r)
    ensures IsDiv(w * BASE, BASE * u, q, r * BASE)
  {
    assert (BASE * u) * q == BASE * (u * q);
  }

  /** The place of the dropped limb. */
  lemma DroppedIs(p: nat, d: nat)
    requires d > POSITIONS && d % 4 != 0
    ensures d - POSITIONS - d % 4 == 4 * (FirstKept(d) - 1)
  {
  }

  /** With `k` digits to drop, and `nd` of them in the limb `l` just below the kept limbs, the code fills the
      place of the last digits with the wrong part of `l`; with a full top limb it loses the top four digits
      and fills with zeros. */
  lemma KeptInstead(p: nat, d: nat)
    requires d > 40 && Digits(p) == d
    ensures d % 4 != 0 ==>
      var nd, l := d % 4, Cut(p, d - 40 - d % 4) % 10000;
      Kept(p, d) == Cut(p, d - 40) - Cut(l, nd) + Cut(l, 4 - nd)
    ensures d % 4 == 0 ==> Kept(p, d) == Low(Cut(p, d - 40), 36) * 10000
  {
    hide Pow10, Digits, Cut, Low;
    var nd, i := d % 4, FirstKept(d);
    if nd != 0 {
      DroppedIs(p, d);
      AboveDropped(p, d);
      CutCut(p, 4 * (i - 1), nd);
      SplitBySmallPower(nd, Cut(p, 4 * i), DroppedLimb(p, d));
      NoDigitLost(p, d, i, 4 - nd);
    } else {
      DecimalShift.TenIsPower(4);
      LimbMovedOut(Cut(p, 4 * i));
      CutLimb(DroppedLimb(p, d));
    }
  }

  /** `r` is `p * 10^exponent` cut to a whole number of units of its own last digit. */
  predicate CutToUnit(p: int, exponent: int, r: Num) {
    r.e >= exponent && r.v * Pow10(r.e - exponent) <= p < (r.v + 1) * Pow10(r.e - exponent)
  }

  /** A correctly truncated product is a normalized decimal less than one unit below the product. */
  lemma MulWithinUnit(d1: Num, d2: Num)
    requires Normalized(d1) && Normalized(d2) && MulResult(d1, d2).Done?
    requires TruncatesExactly(Product(d1, d2))
    ensures Normalized(MulResult(d1, d2).value)
    ensures CutToUnit(Product(d1, d2), d1.e + d2.e, MulResult(d1, d2).value)
  {
    hide Pow10, Digits, TruncatesExactly, Fitted, CutToUnit, Product;
    FittedWithinUnit(Product(d1, d2), d1.e + d2.e, MulSign(d1, d2, d1.n == 0));
  }

  lemma FittedWithinUnit(p: nat, exponent: int, sign: int)
    requires Fitted(p, exponent, sign).Done? && TruncatesExactly(p) && (sign == SIGN_POS || sign == SIGN_NEG)
    ensures Normalized(Fitted(p, exponent, sign).value)
    ensures CutToUnit(p, exponent, Fitted(p, exponent, sign).value)
  {
    hide Pow10, Digits, Kept, TruncatesExactly, Truncated;
    FittedIff(p, exponent, sign);
    TruncatedSize(p, Digits(p));
  }

  lemma TruncatedSize(p: nat, d: nat)
    requires Digits(p) == d
    ensures var k := if d > POSITIONS then d - POSITIONS else 0;
            var t := Truncated(p, d);
            0 <= t < Pow10(POSITIONS) && Digits(t) == d - k && t * Pow10(k) <= p < (t + 1) * Pow10(k)
  {
    hide Pow10, Digits, IsDiv, Cut, Low;
    DigitsBounds(p);
    PowZero();
    if d > POSITIONS {
      var k := d - POSITIONS;
      CutIsDiv(p, k);
      QuotientSign(p, Pow10(k), Cut(p, k), Low(p, k));
      CutSize(p, k, POSITIONS);
      CutSize(p, k, POSITIONS - 1);
      DigitsUnique(Cut(p, k), POSITIONS);
    } else {
      PowMono(d, POSITIONS);
    }
  }

  // ----- The signed product -----

  lemma SignedProduct(d1: Num, d2: Num)
    requires Normalized(d1) && Normalized(d2)
    ensures d1.v >= 0 && d2.v >= 0
    ensures Significand(d1) * Significand(d2) == Signed(if d1.sign == d2.sign then SIGN_POS else SIGN_NEG, Product(d1, d2))
    ensures d1.n == 0 <==> d1.v == 0
  {
    hide Pow10;
    ZeroDigits(d1.v);
    Opposite(d1.v, d2.v);
  }

  lemma Opposite(x: int, y: int)
    ensures (-x) * y == -(x * y) && x * (-y) == -(x * y) && (-x) * (-y) == x * y
  {
  }

  /** A product has the sign of the operands' signs multiplied, however its mantissa was truncated. */
  lemma MulSigns(d1: Num, d2: Num)
    requires Normalized(d1) && Normalized(d2) && d1.v != 0 && d2.v != 0 && MulResult(d1, d2).Done?
    ensures MulResult(d1, d2).value.sign == d1.sign * d2.sign
  {
    hide Pow10, Digits, Kept, Product;
    SignedProduct(d1, d2);
  }

  /** `x` units of `u` are `t` truncated toward zero. */
  predicate TowardZero(t: int, u: int, x: int) {
    if t >= 0 then 0 <= x * u <= t < (x + 1) * u else (x - 1) * u < t <= x * u <= 0
  }

  lemma SignedCut(sign: int, p: nat, u: int, v: int)
    requires u > 0
    ensures TowardZero(Signed(sign, p), u, Signed(sign, v)) <==> v * u <= p < (v + 1) * u
  {
    Opposite(v, u);
    Opposite(v + 1, u);
    if v >= 0 {
      MulNonNeg(v, u);
    } else {
      MulLe(u, v + 1, 0);
    }
  }

  lemma FittedTowardZero(p: nat, exponent: int, sign: int)
    requires Fitted(p, exponent, sign).Done?
    ensures var r := Fitted(p, exponent, sign).value;
            && r.e >= exponent && r.sign == sign
            && (TowardZero(Signed(sign, p), Pow10(r.e - exponent), Significand(r)) <==> TruncatesExactly(p))
  {
    hide Pow10, Digits, TruncatesExactly, Kept, TowardZero, Cut, Low, IsDiv;
    var d := Digits(p);
    var r, k := Fitted(p, exponent, sign).value, if d > POSITIONS then d - POSITIONS else 0;
    FittedIff(p, exponent, sign);
    SignedCut(sign, p, Pow10(k), r.v);
    PowZero();
    CutIsDiv(p, k);
    QuotientSign(p, Pow10(k), Cut(p, k), Low(p, k));
    CutPinned(p, k, r.v);
  }

  lemma CutPinned(p: int, k: nat, v: int)
    ensures v * Pow10(k) <= p < (v + 1) * Pow10(k) <==> v == Cut(p, k)
    ensures k == 0 ==> Cut(p, k) == p
  {
    hide Pow10, Cut, Low, IsDiv;
    CutIsDiv(p, k);
    QuotientSign(p, Pow10(k), Cut(p, k), Low(p, k));
    if v < Cut(p, k) {
      MulLe(Pow10(k), v + 1, Cut(p, k));
    } else if v > Cut(p, k) {
      MulLe(Pow10(k), Cut(p, k) + 1, v);
    }
    PowZero();
  }

  /** The signed product is truncated toward zero, to a whole number of units of the last digit of the
      result, in exactly the cases of `TruncatesExactly`. */
  lemma MulTowardZeroIff(d1: Num, d2: Num)
    requires Normalized(d1) && Normalized(d2) && MulResult(d1, d2).Done?
    ensures d1.v >= 0 && d2.v >= 0 && MulResult(d1, d2).value.e >= d1.e + d2.e
    ensures var r, k := MulResult(d1, d2).value, MulResult(d1, d2).value.e - d1.e - d2.e;
            TowardZero(Significand(d1) * Significand(d2), Pow10(k), Significand(r)) <==> TruncatesExactly(Product(d1, d2))
  {
    hide Pow10, Digits, TruncatesExactly, Fitted, Product, TowardZero;
    SignedProduct(d1, d2);
    FittedTowardZero(Product(d1, d2), d1.e + d2.e, MulSign(d1, d2, d1.n == 0));
    if d1.n == 0 {
      ZeroProduct(d1, d2);
    }
  }

  /** A product is refused exactly when the exponent of the last of its forty leading digits is out of
      range; `k` is the number of digits below them. */
  lemma MulDoneIff(d1: Num, d2: Num, k: nat)
    requires d1.v >= 0 && d2.v >= 0
    requires Product(d1, d2) < Pow10(POSITIONS + k) && (k > 0 ==> Product(d1, d2) >= Pow10(POSITIONS + k - 1))
    ensures MulResult(d1, d2).Done? <==> MIN_EXPONENT <= d1.e + d2.e + k <= MAX_EXPONENT
    ensures MulResult(d1, d2).Done? ==> MulResult(d1, d2).value.e == d1.e + d2.e + k
  {
    hide Pow10, Digits, Kept, Product;
    if k > 0 {
      DigitsUnique(Product(d1, d2), POSITIONS + k);
    } else {
      DigitsLe(Product(d1, d2), POSITIONS);
    }
  }

  /** 10^127 times 10 is refused, although it is ten units of 10^127. */
  lemma MulRefuses()
    ensures var a, b, r := Num(SIGN_POS, 127, 1, 1), Num(SIGN_POS, 1, 1, 1), Num(SIGN_POS, 127, 2, 10);
            && Normalized(a) && Normalized(b) && Normalized(r) && MulResult(a, b) == Overflow
            && a.v * b.v * Pow10(a.e + b.e) == r.v * Pow10(r.e)
  {
    hide Pow10, Digits;
    PowZero();
    DecimalShift.TenIsPower(1);
    DecimalShift.TenIsPower(2);
    PowMono(2, POSITIONS);
    DigitsUnique(1, 1);
    DigitsUnique(10, 2);
    PowAdd(1, 127);
    MulDoneIff(Num(SIGN_POS, 127, 1, 1), Num(SIGN_POS, 1, 1, 1), 0);
  }

  function Wide(): Num {
    Num(SIGN_POS, 0, 21, Pow10(20) + 50)
  }

  lemma WideSquare()
    ensures var p := Product(Wide(), Wide());
            Digits(p) == 41 && Kept(p, 41) != Truncated(p, 41)
  {
    hide Pow10, Digits, Kept, Cut, Low;
    var t := Pow10(20);
    var p := (t + 50) * (t + 50);
    PowAdd(20, 20);
    PowAdd(4, 16);
    PowAdd(1, 40);
    PowZero();
    DecimalShift.TenIsPower(1);
    DecimalShift.TenIsPower(4);
    assert p == t * t + 100 * t + 2500;
    assert Pow10(41) == 10 * (t * t);
    PowMono(4, 20);
    MulLe(t, 1000, t);
    DigitsUnique(p, 41);
    LowLimb(p, Pow10(16) * (t + 100), 2500);
    PartialTop(p, 41);
  }

  lemma WideIsNormalized()
    ensures Normalized(Wide())
  {
    hide Pow10, Digits;
    PowAdd(1, 20);
    DecimalShift.TenIsPower(1);
    PowMono(2, 20);
    DecimalShift.TenIsPower(2);
    PowMono(21, POSITIONS);
    DigitsUnique(Pow10(20) + 50, 21);
  }

  /** The square of 10^20 + 50 has 41 digits, and its low limb 2500 makes the code miss the truncation. */
  lemma MulTruncationFails()
    ensures var d, r := Wide(), MulResult(Wide(), Wide());
            && Normalized(d) && r.Done?
            && r.value.v != Truncated(Product(d, d), Digits(Product(d, d)))
  {
    hide Pow10, Digits, Kept, Truncated, Product;
    WideIsNormalized();
    WideSquare();
  }

  lemma LowLimb(p: int, q: int, r: int)
    requires p == BASE * q + r && 0 <= r < BASE
    ensures Cut(p, 0) % BASE == r
  {
  }
}
