/** In-place digit shifts and digit counting on a ten-limb mantissa that starts at
    index `off` of a larger buffer (the routines of common/decimal.c take a pointer). */
module DecimalShift {
  import opened Limbs

  /** The limbs of `Val(w) / s` with `s * t` the base. */
  function ShiftedDown(w: seq<int>, s: int, t: int): seq<int>
    requires s > 0
  {
    seq(|w|, i requires 0 <= i < |w| => (if i + 1 < |w| then w[i + 1] % s * t else 0) + w[i] / s)
  }

  /** The low `|w|` limbs of `Val(w) * s` with `s * t` the base. */
  function ShiftedUp(w: seq<int>, s: int, t: int): seq<int>
    requires t > 0
  {
    seq(|w|, i requires 0 <= i < |w| => w[i] % t * s + (if i > 0 then w[i - 1] / t else 0))
  }

  predicate Scale(s: int, t: int) {
    (s == 1 && t == BASE) || (s == 10 && t == 1000) || (s == 100 && t == 100) || (s == 1000 && t == 10)
  }

  lemma DownStep(s: int, t: int, x: int, r: int, v: int)
    requires Scale(s, t)
    ensures x + BASE * (s * v + r) == s * (r * t + x / s + BASE * v) + x % s
  {
  }

  lemma DownLimb(s: int, t: int, x: int, y: int)
    requires Scale(s, t) && 0 <= x < BASE
    ensures 0 <= y % s * t + x / s < BASE
  {
  }

  lemma UpStep(s: int, t: int, x: int, c: int)
    requires Scale(s, t) && 0 <= x < BASE && 0 <= c < s
    ensures x % t * s + c + BASE * (x / t) == s * x + c
    ensures 0 <= x % t * s + c < BASE && 0 <= x / t < s
  {
  }

  /** The digits a division by `s` drops. */
  function Dropped(w: seq<int>, s: int): (d: int)
    requires s > 0
    ensures 0 <= d < s
  {
    if |w| > 0 then w[0] % s else 0
  }

  lemma {:induction false} ShiftedDownIsDivision(w: seq<int>, s: int, t: int)
    requires AllLimbs(w) && Scale(s, t)
    ensures AllLimbs(ShiftedDown(w, s, t))
    ensures IsDiv(Val(w), s, Val(ShiftedDown(w, s, t)), Dropped(w, s))
  {
    if |w| > 0 {
      var d := ShiftedDown(w, s, t);
      var next := if |w| > 1 then w[1] else 0;
      assert Dropped(w[1..], s) == next % s;
      assert d[0] == next % s * t + w[0] / s && d[1..] == ShiftedDown(w[1..], s, t);
      ValCons(w);
      ValCons(d);
      DownLimb(s, t, w[0], next);
      ShiftedDownIsDivision(w[1..], s, t);
      hide Val, ShiftedDown, Scale;
      DownStep(s, t, w[0], next % s, Val(d[1..]));
    }
  }

  lemma ValCons(w: seq<int>)
    requires |w| > 0
    ensures Val(w) == w[0] + BASE * Val(w[1..])
  {
  }

  /** The part of the top limb that a multiplication by `s` (with `s * t` the base) carries out. */
  function CarriedOut(w: seq<int>, t: int): int
    requires t > 0
  {
    if |w| > 0 then w[|w| - 1] / t else 0
  }

  lemma {:induction false} ShiftedUpIsProduct(w: seq<int>, s: int, t: int)
    requires AllLimbs(w) && Scale(s, t)
    ensures AllLimbs(ShiftedUp(w, s, t))
    ensures Val(w) * s == Val(ShiftedUp(w, s, t)) + Pow10(4 * |w|) * CarriedOut(w, t)
  {
    if |w| > 0 {
      var k := |w| - 1;
      var u, r, x := w[..k], ShiftedUp(w, s, t), w[k];
      var c := CarriedOut(u, t);
      assert r[k] == x % t * s + c && r[..k] == ShiftedUp(u, s, t);
      assert w[..k + 1] == w && r[..k + 1] == r;
      UpStep(s, t, if k > 0 then w[k - 1] else 0, 0);
      UpStep(s, t, x, c);
      ShiftedUpIsProduct(u, s, t);
      hide Val, Pow10, ShiftedUp, Scale;
      ValSnoc(w, k);
      ValSnoc(r, k);
      PowLimb(k);
      UpSum(Pow10(4 * k), Val(u), Val(r[..k]), c, s, x, r[k], x / t);
    }
  }

  lemma UpSum(p: int, u: int, r: int, c: int, s: int, x: int, y: int, h: int)
    requires u * s == r + p * c && y + BASE * h == s * x + c
    ensures (u + p * x) * s == (r + p * y) + (BASE * p) * h
  {
    assert p * (y + BASE * h) == p * (s * x + c);
  }

  function BlankLimbs(k: nat): (z: seq<int>)
    ensures |z| == k && Val(z) == 0
  {
    ValZeros(seq(k, _ => 0));
    seq(k, _ => 0)
  }

  /** Multiplying by `s` and adding `k` zero limbs, with the limbs above the top dropped. */
  lemma LeftProduct(w: seq<int>, r: seq<int>, k: nat, s: int, c: int, n: nat) returns (over: int)
    requires AllLimbs(w) && AllLimbs(r) && k <= |w| && |r| == |w| - k
    requires Pow10(n) == Pow10(4 * k) * s
    requires Val(w[..|r|]) * s == Val(r) + Pow10(4 * |r|) * c
    ensures IsDiv(Val(w) * Pow10(n), Pow10(4 * |w|), over, Val(BlankLimbs(k) + r))
  {
    var h := |w| - k;
    assert AllLimbs(BlankLimbs(k) + r);
    hide Val, Pow10, AllLimbs;
    ValSplit(w, h);
    PowAdd(4 * k, 4 * h);
    ValConcat(BlankLimbs(k), r);
    ValBounds(BlankLimbs(k) + r);
    ProductSum(Pow10(4 * k), Pow10(4 * h), Val(w[..h]), Val(w[h..]), Val(r), s, c);
    over := c + s * Val(w[h..]);
  }

  lemma ProductSum(p: int, q: int, lo: int, hi: int, r: int, s: int, c: int)
    requires lo * s == r + q * c
    ensures (lo + q * hi) * (p * s) == (p * q) * (c + s * hi) + p * r
  {
    assert (lo + q * hi) * (p * s) == p * (lo * s) + (s * hi) * (p * q);
    assert p * (r + q * c) == p * r + c * (p * q);
  }

  /** Ten to the power `x`, for the digits inside one limb. */
  function Ten(x: int): (p: int)
    ensures p > 0
  {
    if x <= 0 then 1 else if x == 1 then 10 else if x == 2 then 100 else if x == 3 then 1000 else BASE
  }

  lemma TenIsPower(x: int)
    requires 0 <= x <= 4
    ensures Ten(x) == Pow10(x) && (x < 4 ==> Scale(Ten(x), Ten(4 - x)))
  {
    assert Pow10(4) == 10 * Pow10(3) == 100 * Pow10(2) == 1000 * Pow10(1) == 10000 * Pow10(0);
  }

  lemma ShiftFactor(n: nat)
    ensures Pow10(n) == Pow10(4 * (n / 4)) * Ten(n % 4)
    ensures Scale(Ten(n % 4), Ten(4 - n % 4))
  {
    hide Pow10, Scale, Ten;
    PowAdd(4 * (n / 4), n % 4);
    TenIsPower(n % 4);
  }

  /** The ten limbs left by a right shift of `n` digits. */
  function RightLimbs(w: seq<int>, n: nat): (r: seq<int>)
    requires |w| == PARTS && n <= POSITIONS
    ensures |r| == PARTS
  {
    ShiftedDown(w[n / 4..], Ten(n % 4), Ten(4 - n % 4)) + BlankLimbs(n / 4)
  }

  /** The ten limbs left by a left shift of `n` digits. */
  function LeftLimbs(w: seq<int>, n: nat): (r: seq<int>)
    requires |w| == PARTS && n <= POSITIONS
    ensures |r| == PARTS
  {
    BlankLimbs(n / 4) + ShiftedUp(w[..PARTS - n / 4], Ten(n % 4), Ten(4 - n % 4))
  }

  lemma RightLimbsAt(w: seq<int>, n: nat, k: nat, s: int, t: int)
    requires |w| == PARTS && n <= POSITIONS
    requires k == n / 4 && s == Ten(n % 4) && t == Ten(4 - n % 4)
    ensures forall i :: 0 <= i < PARTS - k - 1 ==> RightLimbs(w, n)[i] == w[i + k + 1] % s * t + w[i + k] / s
    ensures k < PARTS ==> RightLimbs(w, n)[PARTS - k - 1] == w[PARTS - 1] / s
    ensures forall i :: PARTS - k <= i < PARTS ==> RightLimbs(w, n)[i] == 0
  {
    hide Ten;
  }

  lemma LeftLimbsAt(w: seq<int>, n: nat, k: nat, s: int, t: int)
    requires |w| == PARTS && n <= POSITIONS
    requires k == n / 4 && s == Ten(n % 4) && t == Ten(4 - n % 4)
    ensures forall i :: k < i < PARTS ==> LeftLimbs(w, n)[i] == w[i - k] % t * s + w[i - k - 1] / t
    ensures k < PARTS ==> LeftLimbs(w, n)[k] == w[0] % t * s
    ensures forall i :: 0 <= i < k ==> LeftLimbs(w, n)[i] == 0
  {
    hide Ten;
  }

  /** Dropping `k` limbs and dividing the rest by `s` is one division. */
  lemma DropAndDivide(w: seq<int>, k: nat, s: int, t: int, n: nat) returns (rem: int)
    requires AllLimbs(w) && k <= |w| && Scale(s, t) && Pow10(n) == Pow10(4 * k) * s
    ensures AllLimbs(ShiftedDown(w[k..], s, t))
    ensures IsDiv(Val(w), Pow10(n), Val(ShiftedDown(w[k..], s, t)), rem)
  {
    hide Val, Pow10, ShiftedDown, Dropped, IsDiv, Scale;
    var u := w[k..];
    var r := ShiftedDown(u, s, t);
    SplitDiv(w, k);
    ShiftedDownIsDivision(u, s, t);
    rem := Pow10(4 * k) * Dropped(u, s) + Val(w[..k]);
    DivCompose(Val(w), Pow10(4 * k), s, Pow10(n), Val(u), Val(w[..k]), Val(r), Dropped(u, s));
  }

  lemma RightLimbsDivide(w: seq<int>, n: nat) returns (rem: int)
    requires |w| == PARTS && n <= POSITIONS && AllLimbs(w)
    ensures AllLimbs(RightLimbs(w, n)) && IsDiv(Val(w), Pow10(n), Val(RightLimbs(w, n)), rem)
  {
    hide Val, Pow10, ShiftedDown, IsDiv, Ten, Scale;
    var x, k := n % 4, n / 4;
    ShiftFactor(n);
    rem := DropAndDivide(w, k, Ten(x), Ten(4 - x), n);
    ValConcat(ShiftedDown(w[k..], Ten(x), Ten(4 - x)), BlankLimbs(k));
  }

  /** What a right shift leaves is the quotient by a power of ten. */
  lemma RightLimbsValue(w: seq<int>, n: nat)
    requires |w| == PARTS && n <= POSITIONS && AllLimbs(w)
    ensures AllLimbs(RightLimbs(w, n)) && Val(RightLimbs(w, n)) == Cut(Val(w), n)
  {
    hide Val, Pow10, RightLimbs, IsDiv, AllLimbs, Cut, Low;
    var rem := RightLimbsDivide(w, n);
    CutUnique(Val(w), n, Val(RightLimbs(w, n)), rem);
  }

  lemma LeftLimbsProduct(w: seq<int>, n: nat) returns (over: int)
    requires |w| == PARTS && n <= POSITIONS && AllLimbs(w)
    ensures AllLimbs(LeftLimbs(w, n))
    ensures IsDiv(Val(w) * Pow10(n), Pow10(POSITIONS), over, Val(LeftLimbs(w, n)))
  {
    hide Val, Pow10, IsDiv, Ten, Scale, CarriedOut;
    var x, k := n % 4, n / 4;
    var u := w[..PARTS - k];
    var r := ShiftedUp(u, Ten(x), Ten(4 - x));
    assert |r| == |u| && AllLimbs(u);
    hide ShiftedUp;
    ShiftFactor(n);
    ShiftedUpIsProduct(u, Ten(x), Ten(4 - x));
    over := LeftProduct(w, r, k, Ten(x), CarriedOut(u, Ten(4 - x)), n);
  }

  /** What a left shift leaves is the product, modulo the width of the mantissa. */
  lemma LeftLimbsValue(w: seq<int>, n: nat)
    requires |w| == PARTS && n <= POSITIONS && AllLimbs(w)
    ensures AllLimbs(LeftLimbs(w, n))
    ensures Val(LeftLimbs(w, n)) == Low(Val(w) * Pow10(n), POSITIONS)
  {
    hide Val, Pow10, LeftLimbs, IsDiv, AllLimbs, Cut, Low;
    var over := LeftLimbsProduct(w, n);
    CutUnique(Val(w) * Pow10(n), POSITIONS, over, Val(LeftLimbs(w, n)));
  }

  method DigitScale(x: int) returns (s: int, t: int)
    requires 1 <= x <= 3
    ensures s == Ten(x) && t == Ten(4 - x)
  {
    s, t := 10, BASE / 10;
    var y := x - 1;
    while y > 0
      invariant 0 <= y < x && s == Ten(x - y) && t == Ten(4 - x + y)
    {
      s, t, y := s * 10, t / 10, y - 1;
    }
  }

  /** memset of `count` limbs to zero. */
  method ZeroFill(m: array<int>, from: nat, count: nat)
    requires from + count <= m.Length
    modifies m
    ensures forall j :: 0 <= j < m.Length ==> m[j] == if from <= j < from + count then 0 else old(m[j])
  {
    for i := 0 to count
      invariant forall j :: 0 <= j < m.Length ==> m[j] == if from <= j < from + i then 0 else old(m[j])
    {
      m[from + i] := 0;
    }
  }

  /** The whole-limb and the in-limb branch of the right shift. */
  lemma WholeRight(w: seq<int>, k: nat)
    requires |w| == PARTS && AllLimbs(w) && 0 < k <= PARTS
    ensures |RightLimbs(w, 4 * k)| == PARTS
    ensures forall i :: 0 <= i < PARTS ==> RightLimbs(w, 4 * k)[i] == if i < PARTS - k then w[i + k] else 0
  {
    hide RightLimbs;
    RightLimbsAt(w, 4 * k, k, 1, BASE);
  }

  lemma WholeLeft(w: seq<int>, k: nat)
    requires |w| == PARTS && AllLimbs(w) && 0 < k <= PARTS
    ensures |LeftLimbs(w, 4 * k)| == PARTS
    ensures forall i :: 0 <= i < PARTS ==> LeftLimbs(w, 4 * k)[i] == if i < k then 0 else w[i - k]
  {
    hide LeftLimbs;
    LeftLimbsAt(w, 4 * k, k, 1, BASE);
  }

  method ShiftRightLimbs(m: array<int>, off: nat, k: nat)
    requires off + PARTS <= m.Length && AllLimbs(m[off..off + PARTS])
    requires 0 < k <= PARTS
    modifies m
    ensures forall j :: 0 <= j < m.Length && !(off <= j < off + PARTS) ==> m[j] == old(m[j])
    ensures m[off..off + PARTS] == RightLimbs(old(m[off..off + PARTS]), 4 * k)
  {
    hide RightLimbs, AllLimbs;
    ghost var w, whole := m[off..off + PARTS], m[..];
    ghost var r := RightLimbs(w, 4 * k);
    WholeRight(w, k);
    for i := 0 to PARTS - k
      invariant forall j :: 0 <= j < m.Length ==>
        m[j] == if off <= j < off + i then r[j - off] else whole[j]
    {
      assert whole[off + i + k] == w[i + k];
      m[off + i] := m[off + i + k];
    }
    ZeroFill(m, off + PARTS - k, k);
    assert m[off..off + PARTS] == r;
  }

  method ShiftRightDigits(m: array<int>, off: nat, n: nat)
    requires off + PARTS <= m.Length
    requires 0 < n <= POSITIONS && n % 4 > 0
    modifies m
    ensures forall j :: 0 <= j < m.Length && !(off <= j < off + PARTS) ==> m[j] == old(m[j])
    ensures m[off..off + PARTS] == RightLimbs(old(m[off..off + PARTS]), n)
  {
    hide Ten, RightLimbs;
    ghost var w, whole := m[off..off + PARTS], m[..];
    ghost var r := RightLimbs(w, n);
    var k := n / 4;
    var s, t := DigitScale(n % 4);
    RightLimbsAt(w, n, k, s, t);
    for i := 0 to PARTS - k - 1
      invariant forall j :: 0 <= j < m.Length ==>
        m[j] == if off <= j < off + i then r[j - off] else whole[j]
    {
      m[off + i] := m[off + i + k + 1] % s * t + m[off + i + k] / s;
    }
    m[off + PARTS - k - 1] := m[off + PARTS - 1] / s;
    ZeroFill(m, off + PARTS - k, k);
    assert m[off..off + PARTS] == r;
  }

  method ShiftRight(m: array<int>, off: nat, n: nat)
    requires off + PARTS <= m.Length && AllLimbs(m[off..off + PARTS])
    requires 0 < n <= POSITIONS
    modifies m
    ensures m[off..off + PARTS] == RightLimbs(old(m[off..off + PARTS]), n)
    ensures AllLimbs(m[off..off + PARTS])
    ensures Val(m[off..off + PARTS]) == Cut(old(Val(m[off..off + PARTS])), n)
    ensures forall j :: 0 <= j < m.Length && !(off <= j < off + PARTS) ==> m[j] == old(m[j])
  {
    hide Val, Pow10, AllLimbs, RightLimbs, Cut;
    RightLimbsValue(m[off..off + PARTS], n);
    if n % 4 == 0 {
      ShiftRightLimbs(m, off, n / 4);
    } else {
      ShiftRightDigits(m, off, n);
    }
  }

  /** The whole-limb and the in-limb branch of the left shift. */
  method ShiftLeftLimbs(m: array<int>, off: nat, k: nat)
    requires off + PARTS <= m.Length && AllLimbs(m[off..off + PARTS])
    requires 0 < k <= PARTS
    modifies m
    ensures forall j :: 0 <= j < m.Length && !(off <= j < off + PARTS) ==> m[j] == old(m[j])
    ensures m[off..off + PARTS] == LeftLimbs(old(m[off..off + PARTS]), 4 * k)
  {
    hide LeftLimbs, AllLimbs;
    ghost var w, whole := m[off..off + PARTS], m[..];
    ghost var r := LeftLimbs(w, 4 * k);
    WholeLeft(w, k);
    for i := PARTS downto k
      invariant forall j :: 0 <= j < m.Length ==>
        m[j] == if off + i <= j < off + PARTS then r[j - off] else whole[j]
    {
      assert whole[off + i - k] == w[i - k];
      m[off + i] := m[off + i - k];
    }
    ZeroFill(m, off, k);
    assert m[off..off + PARTS] == r;
  }

  method ShiftLeftDigits(m: array<int>, off: nat, n: nat)
    requires off + PARTS <= m.Length
    requires 0 < n <= POSITIONS && n % 4 > 0
    modifies m
    ensures forall j :: 0 <= j < m.Length && !(off <= j < off + PARTS) ==> m[j] == old(m[j])
    ensures m[off..off + PARTS] == LeftLimbs(old(m[off..off + PARTS]), n)
  {
    hide Ten, LeftLimbs;
    ghost var w, whole := m[off..off + PARTS], m[..];
    ghost var r := LeftLimbs(w, n);
    var k := n / 4;
    var s, t := DigitScale(n % 4);
    LeftLimbsAt(w, n, k, s, t);
    for i := PARTS downto k + 1
      invariant forall j :: 0 <= j < m.Length ==>
        m[j] == if off + i <= j < off + PARTS then r[j - off] else whole[j]
    {
      m[off + i] := m[off + i - k] % t * s + m[off + i - k - 1] / t;
    }
    m[off + k] := m[off] % t * s;
    ZeroFill(m, off, k);
    assert m[off..off + PARTS] == r;
  }

  method ShiftLeft(m: array<int>, off: nat, n: nat)
    requires off + PARTS <= m.Length && AllLimbs(m[off..off + PARTS])
    requires 0 < n <= POSITIONS
    modifies m
    ensures m[off..off + PARTS] == LeftLimbs(old(m[off..off + PARTS]), n)
    ensures AllLimbs(m[off..off + PARTS])
    ensures Val(m[off..off + PARTS]) == Low(old(Val(m[off..off + PARTS])) * Pow10(n), POSITIONS)
    ensures forall j :: 0 <= j < m.Length && !(off <= j < off + PARTS) ==> m[j] == old(m[j])
  {
    hide Val, Pow10, AllLimbs, LeftLimbs, Low;
    LeftLimbsValue(m[off..off + PARTS], n);
    if n % 4 == 0 {
      ShiftLeftLimbs(m, off, n / 4);
    } else {
      ShiftLeftDigits(m, off, n);
    }
  }

  lemma DigitsOfTop(s: seq<int>, p: nat)
    requires AllLimbs(s) && p < |s| && s[p] > 0
    requires forall i :: p < i < |s| ==> s[i] == 0
    ensures Val(s) >= 0 && Digits(Val(s)) == 4 * p + Digits(s[p])
  {
    assert s[p..][1..] == s[p + 1..];
    ValCons(s[p..]);
    ValZeros(s[p + 1..]);
    hide Val, Pow10, Digits, IsDiv;
    SplitDiv(s, p);
    DigitsOfQuotient(Val(s), 4 * p, s[p], Val(s[..p]));
  }

  method NumDigits(m: array<int>, off: nat) returns (n: int)
    requires off + PARTS <= m.Length && AllLimbs(m[off..off + PARTS])
    ensures Val(m[off..off + PARTS]) >= 0 && n == Digits(Val(m[off..off + PARTS]))
  {
    n := POSITIONS;
    var p := PARTS - 1;
    ghost var s := m[off..off + PARTS];
    while p >= 0 && m[off + p] == 0
      invariant -1 <= p < PARTS && n == 4 * (p + 1)
      invariant forall i :: p < i < PARTS ==> s[i] == 0
    {
      p, n := p - 1, n - 4;
    }
    if n > 0 {
      var t := m[off + p];
      n := n - 4;
      ghost var goal := n + Digits(s[p]);
      assert t == s[p];
      n, t := n + 1, t / 10;
      while t > 0
        invariant 0 <= t && n + Digits(t) == goal
      {
        n, t := n + 1, t / 10;
      }
      DigitsOfTop(s, p);
    } else {
      ValZeros(s);
    }
  }
}
