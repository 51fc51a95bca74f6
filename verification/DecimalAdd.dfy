/** decimal_add_sub: addition and subtraction by exponent alignment. */
module DecimalAdd {
  import opened Limbs
  import opened Decimals
  import DecimalShift

  /** Two mantissas brought to the common exponent `e`. */
  datatype Aligned = Aligned(v1: int, v2: int, e: int)

  /** `n1` reaches higher than `n2` (the operands are swapped otherwise). */
  predicate Swapped(d1: Num, d2: Num) {
    d1.e + d1.n < d2.e + d2.n
  }

  /** `n2` lies wholly below the last digit that `n1` can keep. */
  predicate TooSmall(n1: Num, n2: Num) {
    n1.e - n2.e - (POSITIONS - n1.n) > n2.n && n1.e - n2.e > POSITIONS - n1.n
  }

  function Align(n1: Num, n2: Num): Aligned
    requires n1.n <= POSITIONS
  {
    var shift, free := n1.e - n2.e, POSITIONS - n1.n;
    if shift > free then Aligned(n1.v * Pow10(free), Cut(n2.v, shift - free), n1.e - free)
    else if shift > 0 then Aligned(n1.v * Pow10(shift), n2.v, n1.e - shift)
    else Aligned(n1.v, n2.v * Pow10(-shift), n1.e)
  }

  /** The signed combination of the aligned mantissas; `sign` is the sign of the first argument. */
  function Combined(a: Aligned, s1: int, s2: int, sign: int, subtract: bool): Result
    requires a.v1 >= 0 && a.v2 >= 0
  {
    if subtract then
      if a.v1 > a.v2 then Done(Num(s1, a.e, Digits(a.v1 - a.v2), a.v1 - a.v2))
      else if a.v1 < a.v2 then Done(Num(s2, a.e, Digits(a.v2 - a.v1), a.v2 - a.v1))
      else Done(Num(SIGN_POS, 0, 0, 0))
    else if a.v1 + a.v2 < Pow10(POSITIONS) then Done(Num(sign, a.e, Digits(a.v1 + a.v2), a.v1 + a.v2))
    else if a.e == MAX_EXPONENT then Overflow
    else Done(Num(sign, a.e + 1, POSITIONS, Cut(a.v1 + a.v2, 1)))
  }

  function Negated(d: Num): Num {
    d.(sign := -d.sign)
  }

  function AddSubResult(d1: Num, d2: Num, op: int): Result
    requires Normalized(d1) && Normalized(d2)
  {
    if d1.n == 0 then Done(if op < 0 then Negated(d2) else d2)
    else if d2.n == 0 then Done(d1)
    else
      var (n1, n2) := if Swapped(d1, d2) then (d2, d1) else (d1, d2);
      NormalizedDigits(n1);
      if TooSmall(n1, n2) then Done(n1)
      else
        AlignedFits(n1, n2);
        Combined(Align(n1, n2), n1.sign, n2.sign, d1.sign, (n1.sign == n2.sign) == (op < 0))
  }

  lemma NormalizedDigits(d: Num)
    requires Normalized(d)
    ensures 0 <= d.n <= POSITIONS && d.v < Pow10(d.n) && (d.n == 0 <==> d.v == 0)
    ensures d.n > 0 ==> Pow10(d.n - 1) <= d.v
  {
    hide Pow10, Digits;
    DigitsLe(d.v, POSITIONS);
    DigitsBounds(d.v);
  }

  /** No digit of `n1` is lost by alignment, and both mantissas fit. */
  lemma AlignedFits(n1: Num, n2: Num)
    requires Normalized(n1) && Normalized(n2) && n1.n <= POSITIONS
    requires n1.n > 0 && n2.n > 0 && !Swapped(n1, n2) && !TooSmall(n1, n2)
    ensures var a := Align(n1, n2);
            0 <= a.v1 < Pow10(POSITIONS) && 0 <= a.v2 < Pow10(POSITIONS) && MIN_EXPONENT <= a.e <= MAX_EXPONENT
  {
    hide Pow10, Digits, Cut;
    NormalizedDigits(n1);
    NormalizedDigits(n2);
    var shift, free := n1.e - n2.e, POSITIONS - n1.n;
    if shift > free {
      ScaledFits(n1.v, n1.n, free);
      CutSize(n2.v, shift - free, POSITIONS);
      PowMono(n2.n, shift - free + POSITIONS);
    } else if shift > 0 {
      ScaledFits(n1.v, n1.n, shift);
      PowMono(n1.n + shift, POSITIONS);
    } else {
      ScaledFits(n2.v, n2.n, -shift);
      PowMono(n2.n - shift, POSITIONS);
    }
  }

  /** The left shifts of alignment drop nothing. */
  lemma AlignShifts(n1: Num, n2: Num)
    requires Normalized(n1) && Normalized(n2) && 0 < n1.n <= POSITIONS && 0 < n2.n <= POSITIONS
    requires !Swapped(n1, n2) && !TooSmall(n1, n2)
    ensures var a, shift, free := Align(n1, n2), n1.e - n2.e, POSITIONS - n1.n;
            && (shift > free ==> shift - free <= n2.n)
            && (shift > free ==> a.v1 == if free > 0 then Low(n1.v * Pow10(free), POSITIONS) else n1.v)
            && (0 < shift <= free ==> a.v1 == Low(n1.v * Pow10(shift), POSITIONS))
            && (shift == 0 ==> a.v2 == n2.v)
            && (shift < 0 ==> -shift < POSITIONS && a.v2 == Low(n2.v * Pow10(-shift), POSITIONS))
  {
    hide Pow10, Digits, Cut, Low;
    NormalizedDigits(n1);
    NormalizedDigits(n2);
    PowZero();
    var shift, free := n1.e - n2.e, POSITIONS - n1.n;
    if shift > free {
      ScaledFits(n1.v, n1.n, free);
    } else if shift > 0 {
      PowMono(n1.n, POSITIONS - shift);
      ScaledFits(n1.v, POSITIONS - shift, shift);
    } else if shift < 0 {
      PowMono(n2.n, POSITIONS + shift);
      ScaledFits(n2.v, POSITIONS + shift, -shift);
    }
  }

  method MoveLeft(s: Decimal, n: nat)
    requires s.Valid() && 0 < n <= POSITIONS
    modifies s.m
    ensures s.Valid()
    ensures s.Abs() == old(s.Abs()).(v := Low(old(s.Abs()).v * Pow10(n), POSITIONS))
  {
    hide Val, Pow10, Low, DecimalShift.LeftLimbs;
    assert s.m[..] == s.m[0..0 + PARTS];
    DecimalShift.ShiftLeft(s.m, 0, n);
    assert s.m[..] == s.m[0..0 + PARTS];
  }

  method MoveRight(s: Decimal, n: nat)
    requires s.Valid() && 0 < n <= POSITIONS
    modifies s.m
    ensures s.Valid()
    ensures s.Abs() == old(s.Abs()).(v := Cut(old(s.Abs()).v, n))
  {
    hide Val, Pow10, Cut, DecimalShift.RightLimbs;
    assert s.m[..] == s.m[0..0 + PARTS];
    DecimalShift.ShiftRight(s.m, 0, n);
    assert s.m[..] == s.m[0..0 + PARTS];
  }

  method Copy(d: Decimal) returns (c: Decimal)
    requires d.Valid()
    ensures fresh(c) && fresh(c.m) && c.Valid() && c.Abs() == d.Abs()
  {
    c := new Decimal();
    c.CopyFrom(d);
  }

  /** `r` is the operand `n` itself or a private copy of it, with mantissa `v`. */
  twostate predicate Operand(n: Decimal, new r: Decimal, v: int)
    reads r, r.m, n
  {
    (r == n || (fresh(r) && fresh(r.m))) && r.Valid() && r.sign == n.sign && r.Abs().v == v
  }

  /** Brings the operands to a common exponent, on private copies. */
  method AlignOperands(n1: Decimal, n2: Decimal) returns (r1: Decimal, r2: Decimal, e: int)
    requires n1.Valid() && n2.Valid() && Normalized(n1.Abs()) && Normalized(n2.Abs())
    requires 0 < n1.n <= POSITIONS && 0 < n2.n <= POSITIONS
    requires !Swapped(n1.Abs(), n2.Abs()) && !TooSmall(n1.Abs(), n2.Abs())
    ensures var a := Align(n1.Abs(), n2.Abs());
            Operand(n1, r1, a.v1) && Operand(n2, r2, a.v2) && e == a.e
  {
    hide Val, Pow10, Cut, Low, Digits, AllLimbs;
    AlignShifts(n1.Abs(), n2.Abs());
    r1, r2, e := n1, n2, n1.e;
    var shift := n1.e - n2.e;
    if shift > 0 {
      r1 := Copy(n1);
      r2 := Copy(n2);
      var free := POSITIONS - r1.n;
      if shift > free {
        if free > 0 {
          MoveLeft(r1, free);
        }
        MoveRight(r2, shift - free);
        e := e - free;
      } else {
        MoveLeft(r1, shift);
        e := e - shift;
      }
    } else if shift < 0 {
      r2 := Copy(n2);
      MoveLeft(r2, -shift);
    }
  }

  /** A carry out of the top: dropping the last digit of the low part makes room for it. */
  lemma CarryIn(s: int)
    requires Pow10(POSITIONS) <= s < 2 * Pow10(POSITIONS)
    ensures Cut(s, 1) == Cut(s - Pow10(POSITIONS), 1) + Pow10(POSITIONS - 1)
    ensures 0 <= Cut(s - Pow10(POSITIONS), 1) < Pow10(POSITIONS - 1)
    ensures Pow10(POSITIONS - 1) <= Cut(s, 1) < Pow10(POSITIONS)
  {
    hide Pow10, Cut, Low;
    var t := s - Pow10(POSITIONS);
    CutIsDiv(t, 1);
    PowAdd(1, POSITIONS - 1);
    DecimalShift.TenIsPower(1);
    CutUnique(s, 1, Cut(t, 1) + Pow10(POSITIONS - 1), Low(t, 1));
    CutSize(t, 1, POSITIONS - 1);
    CutSize(s, 1, POSITIONS - 1);
  }

  lemma CombinedDone(a: Aligned, s1: int, s2: int, sign: int, subtract: bool)
    requires a.v1 >= 0 && a.v2 >= 0 && (subtract || a.v1 + a.v2 < Pow10(POSITIONS))
    ensures Combined(a, s1, s2, sign, subtract).Done?
  {
    hide Pow10, Digits, Cut;
  }

  lemma CombinedNormalized(a: Aligned, s1: int, s2: int, sign: int, subtract: bool)
    requires 0 <= a.v1 < Pow10(POSITIONS) && 0 <= a.v2 < Pow10(POSITIONS) && MIN_EXPONENT <= a.e <= MAX_EXPONENT
    requires {s1, s2, sign} <= {SIGN_POS, SIGN_NEG} && Combined(a, s1, s2, sign, subtract).Done?
    ensures Normalized(Combined(a, s1, s2, sign, subtract).value)
  {
    hide Pow10, Cut;
    if !subtract && a.v1 + a.v2 >= Pow10(POSITIONS) {
      CarryIn(a.v1 + a.v2);
      DigitsUnique(Cut(a.v1 + a.v2, 1), POSITIONS);
    }
  }

  /** The result can be an operand again. */
  lemma AddSubNormalized(d1: Num, d2: Num, op: int)
    requires Normalized(d1) && Normalized(d2) && AddSubResult(d1, d2, op).Done?
    ensures Normalized(AddSubResult(d1, d2, op).value)
  {
    hide Pow10, Digits, Align, Combined;
    if d1.n != 0 && d2.n != 0 {
      var (n1, n2) := if Swapped(d1, d2) then (d2, d1) else (d1, d2);
      NormalizedDigits(n1);
      NormalizedDigits(n2);
      if !TooSmall(n1, n2) {
        AlignedFits(n1, n2);
        CombinedNormalized(Align(n1, n2), n1.sign, n2.sign, d1.sign, (n1.sign == n2.sign) == (op < 0));
      }
    }
  }

  /** The top limb has room for the carried digit. */
  lemma TopLimbRoom(s: seq<int>)
    requires |s| == PARTS && AllLimbs(s) && Val(s) < Pow10(POSITIONS - 1)
    ensures s[PARTS - 1] < BASE / 10
    ensures var t := s[PARTS - 1 := s[PARTS - 1] + BASE / 10];
            AllLimbs(t) && Val(t) == Val(s) + Pow10(POSITIONS - 1)
  {
    hide Val, Pow10;
    var x, t := s[PARTS - 1], s[PARTS - 1 := s[PARTS - 1] + BASE / 10];
    assert s[..PARTS - 1] == t[..PARTS - 1] && s[..PARTS] == s && t[..PARTS] == t;
    ValSnoc(s, PARTS - 1);
    ValSnoc(t, PARTS - 1);
    ValBounds(s[..PARTS - 1]);
    PowAdd(POSITIONS - 4, 3);
    DecimalShift.TenIsPower(3);
    TopDigit(Pow10(POSITIONS - 4), Val(s[..PARTS - 1]), x);
  }

  lemma TopDigit(p: int, lo: int, x: int)
    requires p > 0 && 0 <= lo && lo + p * x < p * 1000
    ensures x < 1000 && p * (x + 1000) == p * x + p * 1000
  {
    if x >= 1000 {
      MulLe(p, 1000, x);
    }
  }

  method CarryOut(d3: Decimal, ghost s: int)
    requires d3.Valid() && d3.e < MAX_EXPONENT
    requires Pow10(POSITIONS) <= s < 2 * Pow10(POSITIONS) && Val(d3.m[..]) == s - Pow10(POSITIONS)
    modifies d3, d3.m
    ensures d3.Valid() && d3.Abs() == Num(old(d3.sign), old(d3.e) + 1, POSITIONS, Cut(s, 1))
  {
    hide Val, Pow10, Cut, AllLimbs;
    d3.e := d3.e + 1;
    MoveRight(d3, 1);
    CarryIn(s);
    ghost var t := d3.m[..];
    TopLimbRoom(t);
    d3.m[PARTS - 1] := d3.m[PARTS - 1] + BASE / 10;
    assert d3.m[..] == t[PARTS - 1 := t[PARTS - 1] + BASE / 10];
    d3.n := POSITIONS;
  }

  method CountDigits(d3: Decimal)
    requires d3.Valid()
    modifies d3`n
    ensures d3.Valid() && d3.Abs().v >= 0 && d3.Abs() == old(d3.Abs()).(n := Digits(old(d3.Abs().v)))
  {
    hide Val, Digits;
    assert d3.m[..] == d3.m[0..0 + PARTS];
    ValBounds(d3.m[..]);
    d3.n := DecimalShift.NumDigits(d3.m, 0);
  }

  method SetZero(d3: Decimal)
    requires d3.Valid()
    modifies d3, d3.m
    ensures d3.Valid() && d3.Abs() == Num(SIGN_POS, 0, 0, 0)
  {
    d3.sign, d3.e, d3.n := SIGN_POS, 0, 0;
    DecimalShift.ZeroFill(d3.m, 0, PARTS);
    ValZeros(d3.m[..]);
  }

  /** Adds or subtracts the aligned operands into `d3`. */
  method CombineInto(n1: Decimal, n2: Decimal, d3: Decimal, e: int, sign: int, subtract: bool) returns (rc: int)
    requires n1.Valid() && n2.Valid() && d3.Valid() && n1.Abs().v >= 0 && n2.Abs().v >= 0
    requires d3 != n1 && d3 != n2 && d3.m != n1.m && d3.m != n2.m && e <= MAX_EXPONENT
    modifies d3, d3.m
    ensures var r := old(Combined(Aligned(n1.Abs().v, n2.Abs().v, e), n1.sign, n2.sign, sign, subtract));
            (rc == 0) == r.Done? && (rc == 0 ==> d3.Valid() && d3.Abs() == r.value)
  {
    hide Val, Pow10, Cut, Digits, AllLimbs;
    if subtract {
      var cmp := AbsCmp(n1.m, n2.m);
      if cmp > 0 {
        d3.sign, d3.e := n1.sign, e;
        AbsSub(n1.m, n2.m, d3.m);
        CountDigits(d3);
      } else if cmp < 0 {
        d3.sign, d3.e := n2.sign, e;
        AbsSub(n2.m, n1.m, d3.m);
        CountDigits(d3);
      } else {
        SetZero(d3);
      }
      return 0;
    }
    d3.sign, d3.e := sign, e;
    ghost var s := Val(n1.m[..]) + Val(n2.m[..]);
    var c := AbsAdd(n1.m, n2.m, d3.m);
    ValBounds(n1.m[..]);
    ValBounds(n2.m[..]);
    ValBounds(d3.m[..]);
    if c > 0 {
      if e == MAX_EXPONENT {
        return 1;
      }
      CarryOut(d3, s);
    } else {
      CountDigits(d3);
    }
    return 0;
  }

  /** decimal_add_sub: adds for `op >= 0`, subtracts for `op < 0`. */
  method AddSub(d1: Decimal, d2: Decimal, d3: Decimal, op: int) returns (rc: int)
    requires d1.Valid() && d2.Valid() && d3.Valid() && Normalized(d1.Abs()) && Normalized(d2.Abs())
    requires d3 != d1 && d3 != d2 && d3.m != d1.m && d3.m != d2.m
    modifies d3, d3.m
    ensures var r := old(AddSubResult(d1.Abs(), d2.Abs(), op));
            (rc == 0) == r.Done? && (rc == 0 ==> d3.Valid() && d3.Abs() == r.value)
  {
    hide Val, Pow10, Cut, Digits, AllLimbs, Combined, Align;
    if d1.n == 0 {
      d3.CopyFrom(d2);
      if op < 0 {
        d3.sign := -d3.sign;
      }
      return 0;
    }
    if d2.n == 0 {
      d3.CopyFrom(d1);
      return 0;
    }
    var n1, n2 := d1, d2;
    if d1.e + d1.n < d2.e + d2.n {
      n1, n2 := d2, d1;
    }
    NormalizedDigits(n1.Abs());
    NormalizedDigits(n2.Abs());
    var shift, free := n1.e - n2.e, POSITIONS - n1.n;
    if shift > 0 && shift > free && shift - free > n2.n {
      d3.CopyFrom(n1);
      return 0;
    }
    AlignedFits(n1.Abs(), n2.Abs());
    var r1, r2, e := AlignOperands(n1, n2);
    rc := CombineInto(r1, r2, d3, e, d1.sign, (r1.sign == r2.sign) == (op < 0));
  }

  // ----- What the results are worth -----

  /** The weight of the last digit of a decimal with exponent `e`, in units of 10^-128. */
  function Unit(e: int): int
    requires e >= MIN_EXPONENT
  {
    Pow10(e - MIN_EXPONENT)
  }

  function Magnitude(d: Num): int
    requires d.e >= MIN_EXPONENT
  {
    d.v * Unit(d.e)
  }

  /** The value of a decimal, in units of 10^-128. */
  function Value(d: Num): int
    requires d.e >= MIN_EXPONENT
  {
    Signed(d.sign, Magnitude(d))
  }

  /** `r` is less than one unit of its last digit away from `t`. */
  predicate WithinUnit(r: Num, t: int)
    requires r.e >= MIN_EXPONENT
  {
    -Unit(r.e) < Value(r) - t < Unit(r.e)
  }

  lemma ScaledDifference(a: int, b: int, u: int)
    requires u > 0
    ensures (a - b) * u == a * u - b * u && (b - a) * u == b * u - a * u && (a + b) * u == a * u + b * u
    ensures a > b ==> a * u - b * u >= u
    ensures a < b ==> b * u - a * u >= u
  {
    if a > b {
      MulLe(u, b + 1, a);
    } else if a < b {
      MulLe(u, a + 1, b);
    }
  }

  /** Magnitude of a scaled-up mantissa. */
  lemma ScaleUp(v: int, k: nat, e: int)
    requires e - k >= MIN_EXPONENT
    ensures v * Pow10(k) * Unit(e - k) == v * Unit(e)
  {
    hide Pow10;
    PowAdd(k, e - k - MIN_EXPONENT);
    Assoc(v, Pow10(k), Unit(e - k));
  }

  lemma CutDown(v: int, k: nat, e: int) returns (delta: int)
    requires e >= MIN_EXPONENT
    ensures v * Unit(e) == Cut(v, k) * Unit(e + k) + delta && 0 <= delta < Unit(e + k)
  {
    hide Pow10, Cut, Low, IsDiv;
    CutIsDiv(v, k);
    PowAdd(k, e - MIN_EXPONENT);
    delta := Low(v, k) * Unit(e);
    ScaledRemainder(v, Pow10(k), Cut(v, k), Low(v, k), Unit(e), Unit(e + k));
  }

  lemma ScaledRemainder(v: int, p: int, q: int, r: int, w: int, pw: int)
    requires IsDiv(v, p, q, r) && w > 0 && pw == p * w
    ensures v * w == q * pw + r * w && 0 <= r * w < pw
  {
    assert p * q * w == q * (p * w);
    MulLe(w, r + 1, p);
    MulNonNeg(r, w);
  }

  /** Alignment keeps the higher operand exactly and drops less than a unit of the lower one. */
  lemma AlignValue(n1: Num, n2: Num) returns (delta: int)
    requires Normalized(n1) && Normalized(n2) && 0 < n1.n <= POSITIONS && n2.n > 0
    requires !Swapped(n1, n2) && !TooSmall(n1, n2)
    ensures var a := Align(n1, n2);
            a.e >= MIN_EXPONENT &&
            Magnitude(n1) == a.v1 * Unit(a.e) &&
            Magnitude(n2) == a.v2 * Unit(a.e) + delta && 0 <= delta < Unit(a.e) &&
            (n1.e - n2.e <= POSITIONS - n1.n ==> delta == 0) &&
            (n1.e - n2.e > POSITIONS - n1.n ==> a.v1 > a.v2)
  {
    hide Pow10, Digits, Cut;
    var shift, free := n1.e - n2.e, POSITIONS - n1.n;
    AlignedFits(n1, n2);
    delta := 0;
    if shift > free {
      ScaleUp(n1.v, free, n1.e);
      delta := CutDown(n2.v, shift - free, n2.e);
      RightShiftedIsLower(n1, n2);
    } else if shift > 0 {
      ScaleUp(n1.v, shift, n1.e);
    } else {
      ScaleUp(n2.v, -shift, n2.e);
    }
  }

  /** A lower operand that must be shifted right ends up strictly below the other one. */
  lemma RightShiftedIsLower(n1: Num, n2: Num)
    requires Normalized(n1) && Normalized(n2) && 0 < n1.n <= POSITIONS && n2.n > 0
    requires n1.e - n2.e > POSITIONS - n1.n && !TooSmall(n1, n2)
    ensures Align(n1, n2).v1 > Align(n1, n2).v2
  {
    hide Pow10, Digits, Cut;
    var free := POSITIONS - n1.n;
    var k := n1.e - n2.e - free;
    NormalizedDigits(n1);
    NormalizedDigits(n2);
    PowAdd(n1.n - 1, free);
    MulLe(Pow10(free), Pow10(n1.n - 1), n1.v);
    PowMono(n2.n, k + (POSITIONS - 1));
    CutSize(n2.v, k, POSITIONS - 1);
  }

  /** The value of the combined mantissas, and the size of a unit in it. */
  lemma CombinedValue(a: Aligned, s1: int, s2: int, sign: int, subtract: bool) returns (drop: int)
    requires 0 <= a.v1 < Pow10(POSITIONS) && 0 <= a.v2 < Pow10(POSITIONS) && MIN_EXPONENT <= a.e <= MAX_EXPONENT
    requires Combined(a, s1, s2, sign, subtract).Done?
    ensures var r, u := Combined(a, s1, s2, sign, subtract).value, Unit(a.e);
            var m1, m2 := a.v1 * u, a.v2 * u;
            MIN_EXPONENT <= r.e <= MAX_EXPONENT && Unit(r.e) > 0 &&
            (subtract && a.v1 > a.v2 ==> Value(r) == Signed(s1, m1 - m2) && Unit(r.e) == u <= m1 - m2) &&
            (subtract && a.v1 < a.v2 ==> Value(r) == Signed(s2, m2 - m1) && Unit(r.e) == u <= m2 - m1) &&
            (subtract && a.v1 == a.v2 ==> Value(r) == 0 && m1 == m2) &&
            (!subtract ==> Value(r) == Signed(sign, m1 + m2 - drop) && 0 <= drop <= Unit(r.e) - u) &&
            (subtract || a.v1 + a.v2 < Pow10(POSITIONS) ==> drop == 0)
  {
    hide Pow10, Digits, Cut;
    var u := Unit(a.e);
    ScaledDifference(a.v1, a.v2, u);
    drop := 0;
    if !subtract && a.v1 + a.v2 >= Pow10(POSITIONS) {
      drop := CutDown(a.v1 + a.v2, 1, a.e);
      DropsOneDigit(a.v1 + a.v2, a.e, drop);
    }
  }

  /** The digit dropped by a carry leaves at least one old unit of slack. */
  lemma DropsOneDigit(s: int, e: int, drop: int)
    requires MIN_EXPONENT <= e && s * Unit(e) == Cut(s, 1) * Unit(e + 1) + drop && 0 <= drop < Unit(e + 1)
    ensures drop <= Unit(e + 1) - Unit(e)
  {
    hide Pow10, Cut;
    DecimalShift.TenIsPower(1);
    PowAdd(1, e - MIN_EXPONENT);
    MultiplesApart(Unit(e), s, Cut(s, 1), drop);
  }

  lemma MultiplesApart(u: int, s: int, q: int, drop: int)
    requires u > 0 && s * u == q * (10 * u) + drop && 0 <= drop < 10 * u
    ensures drop <= 9 * u
  {
    var x := s - 10 * q;
    assert drop == x * u by {
      Distribute(s, -10 * q, u);
      Assoc(q, 10, u);
    }
    if x > 9 {
      MulLe(u, 10, x);
    } else {
      MulLe(u, x, 9);
    }
  }

  /** An operand below the precision of the other is smaller than its last digit. */
  lemma TooSmallMagnitude(n1: Num, n2: Num)
    requires Normalized(n1) && Normalized(n2) && n1.n > 0 && n2.n > 0 && TooSmall(n1, n2)
    ensures Magnitude(n2) < Unit(n1.e) <= Magnitude(n1) && Magnitude(n2) >= 0
  {
    hide Pow10, Digits;
    NormalizedDigits(n1);
    NormalizedDigits(n2);
    ScaleUpBelow(n2.v, n2.n, n2.e);
    PowMono(n2.n + n2.e - MIN_EXPONENT, n1.e - MIN_EXPONENT);
    MulLe(Unit(n1.e), 1, n1.v);
    MulNonNeg(n2.v, Unit(n2.e));
  }

  lemma ScaleUpBelow(v: int, k: nat, e: int)
    requires 0 <= v < Pow10(k) && e >= MIN_EXPONENT
    ensures v * Unit(e) < Pow10(k + e - MIN_EXPONENT)
  {
    hide Pow10;
    PowAdd(k, e - MIN_EXPONENT);
    MulLe(Unit(e), v + 1, Pow10(k));
  }

  lemma NonzeroMagnitude(d: Num)
    requires Normalized(d)
    ensures Magnitude(d) >= 0 && (d.n == 0 ==> Magnitude(d) == 0 && d.v == 0)
  {
    hide Pow10, Digits;
    NormalizedDigits(d);
    MulNonNeg(d.v, Unit(d.e));
  }

  /** decimal_add is within one unit of the last digit of the true sum, for all inputs. */
  lemma AddWithinUnit(d1: Num, d2: Num)
    requires Normalized(d1) && Normalized(d2) && AddSubResult(d1, d2, 1).Done?
    ensures AddSubResult(d1, d2, 1).value.e >= MIN_EXPONENT
    ensures WithinUnit(AddSubResult(d1, d2, 1).value, Value(d1) + Value(d2))
  {
    hide Pow10, Digits, Cut, Combined, Align, Magnitude, Unit;
    NonzeroMagnitude(d1);
    NonzeroMagnitude(d2);
    UnitPositive(d1.e);
    UnitPositive(d2.e);
    if d1.n > 0 && d2.n > 0 {
      var (n1, n2) := if Swapped(d1, d2) then (d2, d1) else (d1, d2);
      NormalizedDigits(n1);
      if TooSmall(n1, n2) {
        TooSmallMagnitude(n1, n2);
      } else {
        var delta := AlignValue(n1, n2);
        AlignedFits(n1, n2);
        var drop := CombinedValue(Align(n1, n2), n1.sign, n2.sign, d1.sign, n1.sign != n2.sign);
      }
    }
  }

  lemma UnitPositive(e: int)
    requires e >= MIN_EXPONENT
    ensures Unit(e) > 0
  {
  }

  lemma NegatedValue(d: Num)
    requires Normalized(d)
    ensures Value(Negated(d)) == -Value(d)
  {
  }

  /** When decimal_sub has the right sign: the larger of two operands of equal sign comes
      first, and operands of opposite sign are not swapped past the precision. */
  predicate SubtractsRight(d1: Num, d2: Num)
    requires d1.e >= MIN_EXPONENT && d2.e >= MIN_EXPONENT
  {
    || d1.n == 0 || d2.n == 0
    || (d1.sign == d2.sign && Magnitude(d1) >= Magnitude(d2))
    || (d1.sign != d2.sign && !(Swapped(d1, d2) && TooSmall(d2, d1)))
  }

  /** decimal_sub is within one unit of the true difference exactly in these cases. */
  lemma SubWithinUnitIff(d1: Num, d2: Num)
    requires Normalized(d1) && Normalized(d2) && AddSubResult(d1, d2, -1).Done?
    ensures AddSubResult(d1, d2, -1).value.e >= MIN_EXPONENT
    ensures WithinUnit(AddSubResult(d1, d2, -1).value, Value(d1) - Value(d2)) <==> SubtractsRight(d1, d2)
  {
    hide Pow10, Digits, Cut, Combined, Align, Magnitude, Unit;
    NonzeroMagnitude(d1);
    NonzeroMagnitude(d2);
    UnitPositive(d1.e);
    UnitPositive(d2.e);
    NegatedValue(d2);
    if d1.n > 0 && d2.n > 0 {
      var (n1, n2) := if Swapped(d1, d2) then (d2, d1) else (d1, d2);
      NormalizedDigits(n1);
      if TooSmall(n1, n2) {
        TooSmallMagnitude(n1, n2);
      } else {
        var delta := AlignValue(n1, n2);
        AlignedFits(n1, n2);
        var drop := CombinedValue(Align(n1, n2), n1.sign, n2.sign, d1.sign, n1.sign == n2.sign);
      }
    }
  }

  // ----- When an operation succeeds, and how precise it is -----

  /** The true sum or difference. */
  function Exact(d1: Num, d2: Num, op: int): int
    requires d1.e >= MIN_EXPONENT && d2.e >= MIN_EXPONENT
  {
    if op < 0 then Value(d1) - Value(d2) else Value(d1) + Value(d2)
  }

  /** The numbers below this limit have an integer part of at most 167 digits. */
  function Limit(): int {
    Pow10(POSITIONS) * Unit(MAX_EXPONENT)
  }

  lemma BelowLimit(v: int, e: int)
    requires 0 <= v < Pow10(POSITIONS) && MIN_EXPONENT <= e <= MAX_EXPONENT
    ensures v * Unit(e) + Unit(e) <= Pow10(POSITIONS) * Unit(e) <= Limit()
  {
    hide Pow10;
    PowMono(e - MIN_EXPONENT, MAX_EXPONENT - MIN_EXPONENT);
    MulLe(Unit(e), v + 1, Pow10(POSITIONS));
    Distribute(v, 1, Unit(e));
    MulLe(Pow10(POSITIONS), Unit(e), Unit(MAX_EXPONENT));
  }

  /** What a carry at the highest exponent means, and at a lower one. */
  lemma CarryLimit(s: int, e: int, delta: int)
    requires 0 <= s < 2 * Pow10(POSITIONS) && MIN_EXPONENT <= e <= MAX_EXPONENT && 0 <= delta < Unit(e)
    ensures s * Unit(e) + delta < Limit() <==> s < Pow10(POSITIONS) || e < MAX_EXPONENT
  {
    hide Pow10;
    if s < Pow10(POSITIONS) {
      BelowLimit(s, e);
    } else if e < MAX_EXPONENT {
      PowAdd(1, e - MIN_EXPONENT);
      DecimalShift.TenIsPower(1);
      TwiceBelow(s, Pow10(POSITIONS), Unit(e), delta);
      BelowLimit(0, e + 1);
    } else {
      MulLe(Unit(e), Pow10(POSITIONS), s);
    }
  }

  lemma TwiceBelow(s: int, p: int, u: int, delta: int)
    requires s < 2 * p && p > 0 && u > 0 && delta < u
    ensures s * u + delta < p * (10 * u)
  {
    MulLe(u, s + 1, 2 * p);
    Assoc(p, 10, u);
    MulLe(u, 2 * p, p * 10);
  }

  /** A sum or difference is refused exactly when its magnitude reaches the limit. */
  lemma AddSubDoneIff(d1: Num, d2: Num, op: int)
    requires Normalized(d1) && Normalized(d2)
    ensures d1.e >= MIN_EXPONENT && d2.e >= MIN_EXPONENT
    ensures AddSubResult(d1, d2, op).Done? <==> Absolute(Exact(d1, d2, op)) < Limit()
  {
    hide Pow10, Digits, Cut, Combined, Align, Magnitude, Unit, Limit;
    NonzeroMagnitude(d1);
    NonzeroMagnitude(d2);
    MagnitudeLimit(d1);
    MagnitudeLimit(d2);
    if d1.n > 0 && d2.n > 0 {
      var (n1, n2) := if Swapped(d1, d2) then (d2, d1) else (d1, d2);
      NormalizedDigits(n1);
      if TooSmall(n1, n2) {
        TooSmallMagnitude(n1, n2);
      } else {
        var subtract := (n1.sign == n2.sign) == (op < 0);
        var delta := AlignValue(n1, n2);
        AlignedFits(n1, n2);
        CombinedDoneIff(Align(n1, n2), delta, n1.sign, n2.sign, d1.sign, subtract);
      }
    }
  }

  lemma MagnitudeLimit(d: Num)
    requires Normalized(d)
    ensures 0 < Unit(d.e) && Magnitude(d) + Unit(d.e) <= Limit()
  {
    hide Pow10, Digits;
    BelowLimit(d.v, d.e);
    UnitPositive(d.e);
  }

  lemma CombinedDoneIff(a: Aligned, delta: int, s1: int, s2: int, sign: int, subtract: bool)
    requires 0 <= a.v1 < Pow10(POSITIONS) && 0 <= a.v2 < Pow10(POSITIONS) && MIN_EXPONENT <= a.e <= MAX_EXPONENT
    requires 0 <= delta < Unit(a.e)
    ensures subtract ==> Combined(a, s1, s2, sign, subtract).Done?
    ensures !subtract ==>
      (Combined(a, s1, s2, sign, subtract).Done? <==> a.v1 * Unit(a.e) + a.v2 * Unit(a.e) + delta < Limit())
  {
    hide Pow10, Digits, Cut, Unit, Limit;
    CarryLimit(a.v1 + a.v2, a.e, delta);
    Distribute(a.v1, a.v2, Unit(a.e));
  }

  /** What decimal_add and decimal_sub approximate: the exact result, or its negation where decimal_sub has
      the wrong sign. */
  function Approximated(d1: Num, d2: Num, op: int): int
    requires d1.e >= MIN_EXPONENT && d2.e >= MIN_EXPONENT
  {
    if op < 0 && !SubtractsRight(d1, d2) then -Exact(d1, d2, op) else Exact(d1, d2, op)
  }

  /** A right shift happens only when the larger operand fills all forty digits. */
  lemma FullOperand(n1: Num, n2: Num)
    requires Normalized(n1) && Normalized(n2) && 0 < n1.n <= POSITIONS && n1.e - n2.e > POSITIONS - n1.n
    ensures Align(n1, n2).v1 >= Pow10(POSITIONS - 1)
  {
    hide Pow10, Digits, Cut;
    NormalizedDigits(n1);
    PowAdd(n1.n - 1, POSITIONS - n1.n);
    MulLe(Pow10(POSITIONS - n1.n), Pow10(n1.n - 1), n1.v);
  }

  /** An operand that is dropped is smaller than the last of the forty digits of the other. */
  lemma DroppedOperand(n1: Num, n2: Num)
    requires Normalized(n1) && Normalized(n2) && n1.n > 0 && n2.n > 0 && TooSmall(n1, n2)
    ensures Magnitude(n2) * Pow10(POSITIONS - 2) <= Magnitude(n1)
  {
    hide Pow10, Digits;
    NormalizedDigits(n1);
    NormalizedDigits(n2);
    ScaleUpBelow(n2.v, n2.n, n2.e);
    var top: nat := n2.n + n2.e - MIN_EXPONENT;
    PowAdd(top, POSITIONS - 2);
    MulLe(Pow10(POSITIONS - 2), Magnitude(n2), Pow10(top));
    PowAdd(n1.n - 1, n1.e - MIN_EXPONENT);
    MulLe(Unit(n1.e), Pow10(n1.n - 1), n1.v);
    PowMono(top + POSITIONS - 2, n1.n - 1 + n1.e - MIN_EXPONENT);
  }

  lemma SmallAgainst(x: int, u: int, v: int)
    requires 0 <= x <= u && v >= Pow10(POSITIONS - 2)
    ensures x * Pow10(POSITIONS - 2) <= v * u
  {
    hide Pow10;
    MulLe(Pow10(POSITIONS - 2), x, u);
    MulLe(u, Pow10(POSITIONS - 2), v);
  }

  /** The exact combination of the aligned mantissas, with the part `delta` that alignment dropped. */
  function ExactCombined(a: Aligned, delta: int, s1: int, s2: int, sign: int, subtract: bool): int
    requires a.e >= MIN_EXPONENT
  {
    var m1, m2 := a.v1 * Unit(a.e), a.v2 * Unit(a.e) + delta;
    if !subtract then Signed(sign, m1 + m2)
    else if m1 > m2 then Signed(s1, m1 - m2)
    else Signed(s2, m2 - m1)
  }

  function Larger(x: int, y: int): int {
    if x > y then x else y
  }

  lemma CombinedError(a: Aligned, delta: int, s1: int, s2: int, sign: int, subtract: bool)
    requires 0 <= a.v1 < Pow10(POSITIONS) && 0 <= a.v2 < Pow10(POSITIONS) && MIN_EXPONENT <= a.e <= MAX_EXPONENT
    requires 0 <= delta < Unit(a.e) && (delta > 0 ==> a.v1 > a.v2 && a.v1 >= Pow10(POSITIONS - 1))
    requires Combined(a, s1, s2, sign, subtract).Done?
    ensures Combined(a, s1, s2, sign, subtract).value.e >= MIN_EXPONENT
    ensures var r := Combined(a, s1, s2, sign, subtract).value;
            Absolute(Value(r) - ExactCombined(a, delta, s1, s2, sign, subtract)) * Pow10(POSITIONS - 2)
              <= Larger(a.v1 * Unit(a.e), a.v2 * Unit(a.e) + delta)
  {
    hide Pow10, Digits, Cut, Unit, Magnitude;
    var u := Unit(a.e);
    var drop := CombinedValue(a, s1, s2, sign, subtract);
    var r := Combined(a, s1, s2, sign, subtract).value;
    MulNonNeg(a.v1, u);
    MulNonNeg(a.v2, u);
    PowMono(POSITIONS - 2, POSITIONS - 1);
    if subtract {
      ScaledDifference(a.v1, a.v2, u);
    }
    if !subtract && a.v1 + a.v2 >= Pow10(POSITIONS) {
      CarryUnits(a, drop + delta);
    } else if delta > 0 {
      SmallAgainst(delta, u, a.v1);
    }
  }

  /** One unit after a carry is small against the larger summand. */
  lemma CarryUnits(a: Aligned, x: int)
    requires 0 <= a.v1 < Pow10(POSITIONS) && 0 <= a.v2 < Pow10(POSITIONS) && MIN_EXPONENT <= a.e < MAX_EXPONENT
    requires a.v1 + a.v2 >= Pow10(POSITIONS) && 0 <= x <= Unit(a.e + 1)
    ensures x * Pow10(POSITIONS - 2) <= Larger(a.v1 * Unit(a.e), a.v2 * Unit(a.e))
  {
    hide Pow10, Larger;
    PowAdd(1, a.e - MIN_EXPONENT);
    PowAdd(1, POSITIONS - 1);
    PowAdd(1, POSITIONS - 2);
    DecimalShift.TenIsPower(1);
    var v, u := Larger(a.v1, a.v2), Unit(a.e);
    MulLe(Pow10(POSITIONS - 2), x, 10 * u);
    LargerTimes(a.v1, a.v2, u);
    TenTimes(u, Pow10(POSITIONS - 2), Pow10(POSITIONS - 1), v);
  }

  lemma LargerTimes(x: int, y: int, u: int)
    requires u >= 0
    ensures Larger(x, y) * u == Larger(x * u, y * u) && 2 * Larger(x, y) >= x + y
  {
    if x <= y {
      MulLe(u, x, y);
    } else {
      MulLe(u, y, x);
    }
  }

  lemma TenTimes(u: int, p: int, q: int, v: int)
    requires u >= 0 && q == 10 * p && v >= q
    ensures (10 * u) * p <= v * u
  {
    Assoc(u, 10, p);
    MulLe(u, q, v);
  }

  /** Results are as precise as forty digits allow: the error is at most 10^-38 of the larger operand. */
  lemma ErrorBound(d1: Num, d2: Num, op: int)
    requires Normalized(d1) && Normalized(d2) && AddSubResult(d1, d2, op).Done?
    ensures d1.e >= MIN_EXPONENT && d2.e >= MIN_EXPONENT && AddSubResult(d1, d2, op).value.e >= MIN_EXPONENT
    ensures Absolute(Value(AddSubResult(d1, d2, op).value) - Approximated(d1, d2, op)) * Pow10(POSITIONS - 2)
         <= Larger(Magnitude(d1), Magnitude(d2))
  {
    hide Pow10, Digits, Cut, Combined, Align, Magnitude, Unit;
    NonzeroMagnitude(d1);
    NonzeroMagnitude(d2);
    NegatedValue(d2);
    if d1.n > 0 && d2.n > 0 {
      var (n1, n2) := if Swapped(d1, d2) then (d2, d1) else (d1, d2);
      NormalizedDigits(n1);
      if TooSmall(n1, n2) {
        TooSmallMagnitude(n1, n2);
        DroppedOperand(n1, n2);
      } else {
        var subtract := (n1.sign == n2.sign) == (op < 0);
        var delta := AlignValue(n1, n2);
        AlignedFits(n1, n2);
        if n1.e - n2.e > POSITIONS - n1.n {
          FullOperand(n1, n2);
        }
        CombinedError(Align(n1, n2), delta, n1.sign, n2.sign, d1.sign, subtract);
      }
    }
  }

  /** `x` is `t` rounded to units of `u`: up when `up` holds, down otherwise. */
  predicate RoundedBy(x: int, t: int, u: int, up: bool) {
    if up then x - u < t <= x else x <= t < x + u
  }

  lemma CombinedRounds(a: Aligned, delta: int, s1: int, s2: int, sign: int, subtract: bool)
    requires 0 <= a.v1 < Pow10(POSITIONS) && 0 <= a.v2 < Pow10(POSITIONS) && MIN_EXPONENT <= a.e <= MAX_EXPONENT
    requires 0 <= delta < Unit(a.e) && (delta > 0 ==> a.v1 > a.v2)
    requires Combined(a, s1, s2, sign, subtract).Done?
    ensures Combined(a, s1, s2, sign, subtract).value.e >= MIN_EXPONENT
    ensures var r, m1, m2 := Combined(a, s1, s2, sign, subtract).value, a.v1 * Unit(a.e), a.v2 * Unit(a.e) + delta;
      RoundedBy(Absolute(Value(r)), if subtract then Absolute(m1 - m2) else m1 + m2, Unit(r.e), subtract)
  {
    hide Pow10, Digits, Cut, Unit, Magnitude;
    var u := Unit(a.e);
    var drop := CombinedValue(a, s1, s2, sign, subtract);
    MulNonNeg(a.v1, u);
    MulNonNeg(a.v2, u);
    if subtract {
      ScaledDifference(a.v1, a.v2, u);
    } else if a.v1 + a.v2 >= Pow10(POSITIONS) {
      CarriedUnit(a, u);
    }
  }

  lemma CarriedUnit(a: Aligned, u: int)
    requires a.v1 + a.v2 >= Pow10(POSITIONS) && MIN_EXPONENT <= a.e && u == Unit(a.e)
    ensures a.v1 * u + a.v2 * u >= Unit(a.e + 1)
  {
    hide Pow10;
    PowAdd(1, a.e - MIN_EXPONENT);
    DecimalShift.TenIsPower(1);
    PowMono(1, POSITIONS);
    MulLe(u, 10, a.v1 + a.v2);
    Distribute(a.v1, a.v2, u);
  }

  /** Which way results are rounded: a sum of magnitudes down, a difference of magnitudes up, always by less
      than one unit of the last digit of the result. */
  lemma RoundedTo(d1: Num, d2: Num, op: int)
    requires Normalized(d1) && Normalized(d2) && AddSubResult(d1, d2, op).Done?
    ensures d1.e >= MIN_EXPONENT && d2.e >= MIN_EXPONENT && AddSubResult(d1, d2, op).value.e >= MIN_EXPONENT
    ensures var r, m1, m2 := AddSubResult(d1, d2, op).value, Magnitude(d1), Magnitude(d2);
      var subtract := (d1.sign == d2.sign) == (op < 0);
      RoundedBy(Absolute(Value(r)), if subtract then Absolute(m1 - m2) else m1 + m2, Unit(r.e), subtract)
  {
    hide Pow10, Digits, Cut, Combined, Align, Magnitude, Unit;
    NonzeroMagnitude(d1);
    NonzeroMagnitude(d2);
    UnitPositive(d1.e);
    UnitPositive(d2.e);
    NegatedValue(d2);
    if d1.n > 0 && d2.n > 0 {
      var (n1, n2) := if Swapped(d1, d2) then (d2, d1) else (d1, d2);
      NormalizedDigits(n1);
      if TooSmall(n1, n2) {
        TooSmallMagnitude(n1, n2);
      } else {
        var delta := AlignValue(n1, n2);
        AlignedFits(n1, n2);
        CombinedRounds(Align(n1, n2), delta, n1.sign, n2.sign, d1.sign, (n1.sign == n2.sign) == (op < 0));
      }
    }
  }

  /** The difference of equal magnitudes is the positive zero with exponent zero. */
  lemma EqualsCancel(d1: Num, d2: Num, op: int)
    requires Normalized(d1) && Normalized(d2) && d1.n > 0 && d2.n > 0 && (d1.sign == d2.sign) == (op < 0)
    requires d1.e >= MIN_EXPONENT && d2.e >= MIN_EXPONENT && Magnitude(d1) == Magnitude(d2)
    ensures AddSubResult(d1, d2, op) == Done(Num(1, 0, 0, 0))
  {
    hide Pow10, Digits, Cut, Align, Magnitude, Unit;
    var (n1, n2) := if Swapped(d1, d2) then (d2, d1) else (d1, d2);
    NormalizedDigits(n1);
    if TooSmall(n1, n2) {
      TooSmallMagnitude(n1, n2);
    } else {
      var delta := AlignValue(n1, n2);
      AlignedFits(n1, n2);
      UnitPositive(Align(n1, n2).e);
      ScaledDifference(Align(n1, n2).v1, Align(n1, n2).v2, Unit(Align(n1, n2).e));
    }
  }

  /** An operand whose digits all lie below those that the other one can keep is dropped: the result is the
      other one, as it is. */
  lemma DropsSmall(d1: Num, d2: Num, op: int)
    requires Normalized(d1) && Normalized(d2) && d1.n > 0 && d2.n > 0 && d1.e + d1.n - 40 > d2.e + d2.n
    ensures AddSubResult(d1, d2, op) == Done(d1) && AddSubResult(d2, d1, op) == Done(d1)
  {
    hide Pow10, Digits, Cut, Align;
    NormalizedDigits(d1);
    NormalizedDigits(d2);
  }

  /** Without a right shift and without a carry, addition is exact. */
  lemma AddExact(d1: Num, d2: Num)
    requires Normalized(d1) && Normalized(d2) && d1.n > 0 && d2.n > 0
    requires var (n1, n2) := if Swapped(d1, d2) then (d2, d1) else (d1, d2);
             n1.n <= POSITIONS && n1.e - n2.e <= POSITIONS - n1.n &&
             (d1.sign != d2.sign || Align(n1, n2).v1 + Align(n1, n2).v2 < Pow10(POSITIONS))
    ensures AddSubResult(d1, d2, 1).Done? && AddSubResult(d1, d2, 1).value.e >= MIN_EXPONENT
    ensures Value(AddSubResult(d1, d2, 1).value) == Value(d1) + Value(d2)
  {
    hide Pow10, Digits, Cut, Combined, Align, Magnitude, Unit;
    var (n1, n2) := if Swapped(d1, d2) then (d2, d1) else (d1, d2);
    AlignedFits(n1, n2);
    CombinedDone(Align(n1, n2), n1.sign, n2.sign, d1.sign, n1.sign != n2.sign);
    var delta := AlignValue(n1, n2);
    var drop := CombinedValue(Align(n1, n2), n1.sign, n2.sign, d1.sign, n1.sign != n2.sign);
  }

  /** Addition does not depend on the order of its arguments, unless both are (different) zeros. */
  lemma AddCommutes(d1: Num, d2: Num)
    requires Normalized(d1) && Normalized(d2)
    ensures AddSubResult(d1, d2, 1) == AddSubResult(d2, d1, 1) <==> d1.n > 0 || d2.n > 0 || d1 == d2
  {
    hide Pow10, Digits, Cut, Align, Combined;
    NormalizedDigits(d1);
    NormalizedDigits(d2);
    if d1.n > 0 && d2.n > 0 {
      if Swapped(d1, d2) || Swapped(d2, d1) {
        SameSum(d1, d2);
      } else {
        EqualTops(d1, d2);
      }
    }
  }

  /** The signs decide alike when the operands are swapped back. */
  lemma SameSum(d1: Num, d2: Num)
    requires Normalized(d1) && Normalized(d2) && d1.n > 0 && d2.n > 0 && Swapped(d1, d2) != Swapped(d2, d1)
    ensures AddSubResult(d1, d2, 1) == AddSubResult(d2, d1, 1)
  {
    hide Pow10, Digits, Cut, Align;
  }

  lemma EqualTops(d1: Num, d2: Num)
    requires Normalized(d1) && Normalized(d2) && d1.n > 0 && d2.n > 0 && !Swapped(d1, d2) && !Swapped(d2, d1)
    ensures AddSubResult(d1, d2, 1) == AddSubResult(d2, d1, 1)
  {
    hide Pow10, Digits, Cut;
    NormalizedDigits(d1);
    NormalizedDigits(d2);
    PowZero();
  }

  /** One minus two is reported as one. */
  lemma SubFails()
    ensures var one, two := Num(SIGN_POS, 0, 1, 1), Num(SIGN_POS, 0, 1, 2);
            Normalized(one) && Normalized(two) && AddSubResult(one, two, -1) == Done(one)
  {
    hide Pow10, Digits, Cut;
    PowZero();
    DecimalShift.TenIsPower(1);
    PowMono(1, POSITIONS);
    DigitsUnique(1, 1);
    DigitsUnique(2, 1);
  }
}
