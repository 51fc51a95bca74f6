/** decimal_div: division by one limb, and long division (Knuth's Algorithm D) otherwise. */
module DecimalDiv {
  import opened Limbs
  import opened Decimals
  import DecimalShift
  import DecimalAdd
  import KnuthStep

  /** Index of the top limb of a mantissa of `n > 0` digits. */
  function TopLimb(n: int): int {
    (n - 1) / 4
  }

  /** `x` from limb position `j` up; positions below zero continue it with zero limbs. */
  function Prefix(x: int, j: int): int {
    if j >= 0 then Cut(x, 4 * j) else x * Pow10(4 * -j)
  }

  function LimbOf(s: seq<int>, j: int): int {
    if 0 <= j < |s| then s[j] else 0
  }

  lemma PrefixStep(s: seq<int>, j: int)
    requires AllLimbs(s)
    ensures Prefix(Val(s), j) == BASE * Prefix(Val(s), j + 1) + LimbOf(s, j)
    ensures 0 <= LimbOf(s, j) < BASE
  {
    hide Val, Pow10, Cut;
    if j >= 0 {
      CutCut(Val(s), 4 * j, 4);
      DecimalShift.TenIsPower(4);
      CutFour(Cut(Val(s), 4 * j));
      if j < |s| {
        LimbAt(s, j);
      } else {
        ValBounds(s);
        PowMono(4 * |s|, 4 * j);
        CutSize(Val(s), 4 * j, 0);
        PowZero();
      }
    } else {
      PowLimb(-j - 1);
      CutZero(Val(s));
      Assoc(Val(s), BASE, Pow10(4 * (-j - 1)));
      PowZero();
    }
  }

  lemma CutFour(v: int)
    ensures v == BASE * Cut(v, 4) + v % BASE && Cut(v, 4) == v / BASE
  {
    DecimalShift.TenIsPower(4);
  }

  lemma CutZero(v: int)
    ensures Cut(v, 0) == v
  {
  }

  /** Appending a dividend limb appends a quotient limb. */
  lemma DivideOn(p: int, d: int, q: int, r: int, x: int, q': int, r': int)
    requires IsDiv(p, d, q, r) && IsDiv(BASE * r + x, d, q', r')
    ensures IsDiv(BASE * p + x, d, BASE * q + q', r')
  {
    assert BASE * (d * q) == d * (BASE * q);
  }

  /** An exhausted dividend leaves only zero quotient limbs. */
  lemma DivideOut(p: int, d: int, q: int, k: nat)
    requires IsDiv(p, d, q, 0)
    ensures IsDiv(p * Pow10(k), d, q * Pow10(k), 0)
  {
    hide Pow10;
    Assoc(d, q, Pow10(k));
  }

  /** Position of the first quotient limb: 1 when it is produced by the top limbs alone. */
  function Lead(m1: int, m2: int, m: nat, n: nat): int {
    if m1 * Pow10(4 * n) >= m2 * Pow10(4 * m) then 1 else 0
  }

  /** The mantissa from its top nonzero limb `m` up. */
  lemma TopOf(s: seq<int>, m: nat)
    requires AllLimbs(s) && m < |s| && forall t :: m < t < |s| ==> s[t] == 0
    ensures Prefix(Val(s), m + 1) == 0 && Prefix(Val(s), m) == s[m]
    ensures 0 <= Val(s) < Pow10(4 * m + 4) && Val(s) >= s[m] * Pow10(4 * m)
  {
    ValZeros(s[m + 1..]);
    hide Val, Pow10, Cut, Low, IsDiv;
    ValDrop(s, m + 1);
    PrefixStep(s, m);
    ValBounds(s);
    SplitDiv(s, m + 1);
    CutSize(Val(s), 4 * m + 4, 0);
    PowZero();
    CutIsDiv(Val(s), 4 * m);
    QuotientSign(Val(s), Pow10(4 * m), Cut(Val(s), 4 * m), Low(Val(s), 4 * m));
  }

  lemma PrefixOut(x: int, j: int, k: nat)
    requires j <= 0
    ensures Prefix(x, j) * Pow10(4 * k) == Prefix(x, j - k)
  {
    hide Pow10, Cut;
    CutZero(x);
    PowZero();
    PowAdd(4 * -j, 4 * k);
    Assoc(x, Pow10(4 * -j), Pow10(4 * k));
  }

  /** The quotient limbs found before the dividend ran out, over zero limbs for the rest. */
  lemma Completed(x: int, m: nat, p: int, d: int, q: seq<int>, done: seq<int>, r: int)
    requires |q| == PARTS && |done| <= PARTS && 0 <= p <= 1 && m < PARTS
    requires q[PARTS - |done|..] == done && forall t :: 0 <= t < PARTS - |done| ==> q[t] == 0
    requires IsDiv(Prefix(x, m + p - |done|), d, Val(done), r)
    requires |done| < PARTS ==> r == 0 && m + p <= |done|
    ensures IsDiv(x * Pow10(4 * (PARTS - m - p)), d, Val(q), r)
  {
    hide Val, Pow10, IsDiv, Cut, Prefix;
    var f := PARTS - |done|;
    ValSplit(q, f);
    ValZeros(q[..f]);
    PrefixScaled(x, PARTS - m - p);
    PowZero();
    if f > 0 {
      DivideOut(Prefix(x, m + p - |done|), d, Val(done), 4 * f);
      PrefixOut(x, m + p - |done|, f);
    }
  }

  lemma PrefixScaled(x: int, k: nat)
    ensures Prefix(x, -(k as int)) == x * Pow10(4 * k)
  {
    CutZero(x);
    PowZero();
  }

  lemma NoLimbs(s: seq<int>)
    requires |s| == 0
    ensures AllLimbs(s) && Val(s) == 0
  {
  }

  lemma LimbsOver(q: seq<int>, done: seq<int>)
    requires |done| <= |q| && AllLimbs(done) && q[|q| - |done|..] == done
    requires forall t :: 0 <= t < |q| - |done| ==> q[t] == 0
    ensures AllLimbs(q)
  {
    assert forall t :: |q| - |done| <= t < |q| ==> q[t] == done[t - (|q| - |done|)];
  }

  lemma LimbStep(s: seq<int>, j: int, d: int, done: seq<int>, rh: int, qh: int)
    requires AllLimbs(s) && AllLimbs(done) && 0 <= rh < d < BASE && qh == rh * BASE + LimbOf(s, j)
    requires IsDiv(Prefix(Val(s), j + 1), d, Val(done), rh)
    ensures AllLimbs([qh / d] + done) && 0 <= qh % d < d
    ensures IsDiv(Prefix(Val(s), j), d, Val([qh / d] + done), qh % d)
  {
    hide Val, Pow10, IsDiv, Cut, Prefix, LimbOf;
    PrefixStep(s, j);
    LimbQuotient(qh, d, rh, LimbOf(s, j));
    DivideOn(Prefix(Val(s), j + 1), d, Val(done), rh, LimbOf(s, j), qh / d, qh % d);
    DecimalShift.ValCons([qh / d] + done);
    assert ([qh / d] + done)[1..] == done;
  }

  /** Limb by limb division by the single limb `d`. */
  method DivideByLimb(x: array<int>, m: nat, d: int, q: array<int>) returns (p: int, ghost r: int)
    requires x.Length == q.Length == PARTS && x != q && m < PARTS && 0 < d < BASE
    requires AllLimbs(x[..]) && x[m] > 0 && forall t :: m < t < PARTS ==> x[t] == 0
    modifies q
    ensures p == (if x[m] >= d then 1 else 0) && AllLimbs(q[..])
    ensures IsDiv(Val(x[..]) * Pow10(4 * (PARTS - m - p)), d, Val(q[..]), r)
  {
    hide Val, Pow10, IsDiv, Cut, Prefix, AllLimbs;
    ghost var s := x[..];
    TopOf(s, m);
    var i, j, rh := PARTS - 1, m as int, 0;
    p := 1;
    if x[j] < d {
      rh := x[j];
      j, p := j - 1, 0;
    }
    ghost var done: seq<int> := [];
    NoLimbs(done);
    DivideNothing(rh, d);
    while i >= 0
      invariant -1 <= i < PARTS && j == m + p - 1 - |done| && |done| == PARTS - 1 - i
      invariant 0 <= rh < d && AllLimbs(done) && q[i + 1..] == done
      invariant IsDiv(Prefix(Val(s), j + 1), d, Val(done), rh)
    {
      var qh := rh * BASE + (if j >= 0 then x[j] else 0);
      LimbStep(s, j, d, done, rh, qh);
      rh := qh % d;
      q[i] := qh / d;
      assert q[i..] == [q[i]] + q[i + 1..];
      done := [qh / d] + done;
      if rh == 0 && j <= 0 {
        break;
      }
      j, i := j - 1, i - 1;
    }
    r := rh;
    i := ZeroBelow(q, i, done);
    LimbsOver(q[..], done);
    Completed(Val(s), m, p, d, q[..], done, r);
  }

  /** Clears the limbs below `from`, under the limbs `done`. */
  method ZeroBelow(q: array<int>, from: int, ghost done: seq<int>) returns (i: int)
    requires |done| <= q.Length && q[q.Length - |done|..] == done
    requires from == q.Length - |done| || (from == -1 && |done| == q.Length)
    modifies q
    ensures q[..][q.Length - |done|..] == done && forall t :: 0 <= t < q.Length - |done| ==> q[..][t] == 0
  {
    i := from;
    while i > 0
      invariant i <= from && (from >= 0 ==> i >= 0)
      invariant q[q.Length - |done|..] == done && forall t :: 0 <= t < q.Length - |done| && i <= t ==> q[t] == 0
    {
      i := i - 1;
      q[i] := 0;
    }
  }

  lemma DivideNothing(rh: int, d: int)
    requires 0 <= rh < d
    ensures IsDiv(rh, d, 0, rh)
  {
  }

  lemma LimbQuotient(qh: int, d: int, rh: int, x: int)
    requires qh == rh * BASE + x && 0 <= rh < d < BASE && 0 <= x < BASE
    ensures IsDiv(BASE * rh + x, d, qh / d, qh % d) && 0 <= qh / d < BASE && 0 <= qh % d < d
  {
    IsDivOf(qh, d);
    QuotientOrder(qh, d, qh / d, qh % d, BASE);
    QuotientSign(qh, d, qh / d, qh % d);
  }

  // ----- Long division -----

  const N1 := 2 + PARTS
  const N2 := 2 * PARTS + 3

  /** `d * x` is `new_` with a carry of `k` at weight `w`. */
  ghost predicate ScaledBy(w: int, new_: int, d: int, x: int, k: int) {
    new_ + w * k == d * x
  }

  lemma ScaledByStep(w: int, w': int, new_: int, d: int, x: int, k: int, nl: int, xl: int, k': int)
    requires ScaledBy(w, new_, d, x, k) && nl + BASE * k' == xl * d + k && w' == BASE * w
    ensures ScaledBy(w', new_ + w * nl, d, x + w * xl, k')
  {
    assert w * (nl + BASE * k') == w * (xl * d + k);
    assert d * (x + w * xl) == d * x + w * (xl * d);
  }

  lemma ScaledByNothing(w: int, d: int)
    ensures ScaledBy(w, 0, d, 0, 0)
  {
  }

  /** decimal_mul_by_digit: eleven limbs of `d` times the mantissa `x`, at `off`. */
  method MulByDigit(x: array<int>, d: int, dst: array<int>, off: nat)
    requires x.Length == PARTS && x != dst && off + PARTS < dst.Length && AllLimbs(x[..]) && 0 <= d < BASE
    modifies dst
    ensures AllLimbs(dst[off..off + PARTS + 1]) && Val(dst[off..off + PARTS + 1]) == d * Val(x[..])
    ensures forall t :: 0 <= t < dst.Length && !(off <= t <= off + PARTS) ==> dst[t] == old(dst[t])
  {
    hide Val, Pow10, ScaledBy;
    ghost var s, was, done: seq<int> := x[..], dst[..], [];
    var m := 0;
    ValEmpty(done);
    ValEmpty(s[..0]);
    ScaledByNothing(Pow10(0), d);
    for i := 0 to PARTS
      invariant 0 <= m < BASE * BASE && |done| == i && AllLimbs(done)
      invariant forall t :: 0 <= t < dst.Length ==> dst[t] == if off <= t < off + i then done[t - off] else was[t]
      invariant ScaledBy(Pow10(4 * i), Val(done), d, Val(s[..i]), m / BASE)
    {
      ghost var k := m / BASE;
      KnuthStep.ProductLimb(x[i], d, k);
      m := x[i] * d + m / BASE;
      dst[off + i] := m % BASE;
      ValAppend(done, m % BASE);
      ValSnoc(s, i);
      PowLimb(i);
      ScaledByStep(Pow10(4 * i), Pow10(4 * i + 4), Val(done), d, Val(s[..i]), k, m % BASE, s[i], m / BASE);
      done := done + [m % BASE];
    }
    dst[off + PARTS] := m / BASE;
    ValAppend(done, m / BASE);
    assert dst[off..off + PARTS + 1] == done + [m / BASE] && s[..PARTS] == s;
    ScaledByEnd(Pow10(4 * PARTS), Val(done), d, Val(s), m / BASE);
  }

  lemma ScaledByEnd(w: int, new_: int, d: int, x: int, k: int)
    requires ScaledBy(w, new_, d, x, k)
    ensures new_ + w * k == d * x
  {
  }

  method CopyScaledByOne(x: array<int>, dst: array<int>, off: nat)
    requires x.Length == PARTS && x != dst && off + PARTS < dst.Length && AllLimbs(x[..]) && dst[off + PARTS] == 0
    modifies dst
    ensures AllLimbs(dst[off..off + PARTS + 1]) && Val(dst[off..off + PARTS + 1]) == Val(x[..])
    ensures forall t :: 0 <= t < dst.Length && !(off <= t <= off + PARTS) ==> dst[t] == old(dst[t])
  {
    hide Val, Pow10;
    for i := 0 to PARTS
      invariant forall t :: 0 <= t < dst.Length ==> dst[t] == if off <= t < off + i then x[t - off] else old(dst[t])
    {
      dst[off + i] := x[i];
    }
    assert dst[off..off + PARTS + 1] == x[..] + [0];
    ValAppend(x[..], 0);
  }

  /** The scale that brings the top divisor limb `v` to at least half the base. */
  lemma ScaleOfTop(v: int, d: int)
    requires 0 < v < BASE && d == BASE / (v + 1)
    ensures 1 <= d < BASE && d * (v + 1) <= BASE && 2 * (d * v) >= BASE
  {
    KnuthStep.Quotient(BASE, v + 1);
    ScaleEnough(v, d);
  }

  lemma ScaleEnough(v: int, d: int)
    requires 0 < v < BASE && d * (v + 1) <= BASE < (d + 1) * (v + 1)
    ensures 1 <= d < BASE && 2 * (d * v) >= BASE
  {
    if d <= 0 {
      MulLe(v + 1, d + 1, 1);
    } else {
      MulLe(d, 2, v + 1);
      MulNonNeg(d - 1, v - 1);
    }
  }

  /** Scales dividend and divisor into the work buffer. */
  method Normalize(x1: array<int>, x2: array<int>, n: nat, buf: array<int>) returns (d: int)
    requires x1.Length == x2.Length == PARTS && buf.Length == N2 + PARTS + 1 && buf != x1 && buf != x2
    requires AllLimbs(x1[..]) && AllLimbs(x2[..]) && n < PARTS && x2[n] > 0
    modifies buf
    ensures d == BASE / (x2[n] + 1) && AllLimbs(buf[..])
    ensures forall t :: 0 <= t < N1 ==> buf[t] == 0
    ensures Val(buf[N1..N2]) == d * Val(x1[..]) && Val(buf[N2..]) == d * Val(x2[..])
  {
    hide Val, Pow10;
    d := BASE / (x2[n] + 1);
    ScaleOfTop(x2[n], d);
    DecimalShift.ZeroFill(buf, 0, buf.Length);
    ghost var first;
    if d == 1 {
      CopyScaledByOne(x1, buf, N1);
      first := buf[N1..N2];
      CopyScaledByOne(x2, buf, N2);
    } else {
      MulByDigit(x1, d, buf, N1);
      first := buf[N1..N2];
      MulByDigit(x2, d, buf, N2);
    }
    assert buf[N1..N2] == first && buf[N2..N2 + PARTS + 1] == buf[N2..];
    assert forall t :: N1 <= t < N2 ==> buf[t] == first[t - N1];
    assert forall t :: N2 <= t < buf.Length ==> buf[t] == buf[N2..][t - N2];
  }

  /** `v` is a mantissa whose top limb sits at index `n` (and is nonzero). */
  predicate HasTop(y: seq<int>, n: nat) {
    |y| == PARTS && AllLimbs(y) && n < PARTS && y[n] > 0 && forall t :: n < t < PARTS ==> y[t] == 0
  }

  lemma HasTopBounds(y: seq<int>, n: nat)
    requires HasTop(y, n)
    ensures y[n] * Pow10(4 * n) <= Val(y) < (y[n] + 1) * Pow10(4 * n)
    ensures Pow10(4 * n) <= Val(y) < Pow10(4 * n + 4)
  {
    hide Val, Pow10, Cut, Low, IsDiv, Prefix;
    TopOf(y, n);
    assert Prefix(Val(y), n) == Cut(Val(y), 4 * n) by {
      PrefixCut(Val(y), n);
    }
    CutIsDiv(Val(y), 4 * n);
    QuotientSign(Val(y), Pow10(4 * n), Cut(Val(y), 4 * n), Low(Val(y), 4 * n));
    MulLe(Pow10(4 * n), 1, y[n]);
  }

  lemma PrefixCut(x: int, t: nat)
    ensures Prefix(x, t) == Cut(x, 4 * t)
  {
  }

  /** The scaled divisor: `n + 1` limbs with a top limb of at least half the base. */
  lemma ScaledDivisor(x: seq<int>, y: seq<int>, n: nat, d: int)
    requires HasTop(y, n) && |x| == PARTS + 1 && AllLimbs(x) && d == BASE / (y[n] + 1) && Val(x) == d * Val(y)
    ensures x[n + 1] == 0 && 2 * x[n] >= BASE && Val(x[..n + 1]) == Val(x) && Val(x) > 0 && d > 0
  {
    hide Val, Pow10, Cut;
    var v, p := y[n], Pow10(4 * n);
    ScaleOfTop(v, d);
    HasTopBounds(y, n);
    PowLimb(n);
    ScaledSize(d, Val(y), v, p);
    Window(x, 0, n + 1);
    LimbAt(x, n);
    LimbAt(x, n + 1);
    CutSize(Val(x), 4 * n + 4, 0);
    CutSize(Val(x), 4 * n, 4);
    DecimalShift.TenIsPower(4);
    PowZero();
    CutAtLeast(Val(x), 4 * n, d * v);
  }

  lemma ScaledSize(d: int, y: int, v: int, p: int)
    requires v * p <= y < (v + 1) * p && d > 0 && d * (v + 1) <= BASE && p > 0 && v > 0
    ensures p * (d * v) <= d * y < BASE * p && 0 < d * y
  {
    MulLe(d, v * p, y);
    MulLe(d, y + 1, (v + 1) * p);
    Assoc(d, v, p);
    Assoc(d, v + 1, p);
    MulLe(p, d * (v + 1), BASE);
    MulLe(d, 1, v);
    MulLe(p, 1, d * v);
  }

  lemma CutAtLeast(x: int, k: nat, q: int)
    requires x >= Pow10(k) * q
    ensures Cut(x, k) >= q
  {
    hide Pow10, Cut, Low, IsDiv;
    CutIsDiv(x, k);
    QuotientOrder(x, Pow10(k), Cut(x, k), Low(x, k), q);
  }

  /** The dividend region with twelve zero limbs below it. */
  ghost predicate Region(z: seq<int>, x1: int) {
    |z| == N2 && AllLimbs(z) && Val(z) == x1 * Pow10(4 * N1)
  }

  lemma RegionOf(z: seq<int>, x1: int)
    requires |z| == N2 && AllLimbs(z) && (forall t :: 0 <= t < N1 ==> z[t] == 0) && Val(z[N1..]) == x1
    ensures Region(z, x1)
  {
    hide Val, Pow10;
    ValSplit(z, N1);
    ValZeros(z[..N1]);
  }

  /** Order of magnitude of the scaled dividend against the scaled divisor, by leading limbs. */
  lemma RegionSize(z: int, a: int, b: int, d: int, m: nat, n: nat)
    requires m < PARTS && n < PARTS && 0 < d < BASE && z == d * a * Pow10(4 * N1)
    requires Pow10(4 * m) <= a < Pow10(4 * m + 4) && Pow10(4 * n) <= b < Pow10(4 * n + 4)
    ensures 0 <= z < Pow10(4 * (N1 + m + 2))
    ensures Prefix(z, N1 + m - n + 1) < d * b
    ensures Prefix(z, N1 + m - n - 1) >= d * b
    ensures Prefix(z, N1 + m - n) >= d * b <==> Lead(a, b, m, n) == 1
  {
    hide Pow10, Cut;
    var e := N1 + m - n;
    PrefixOrder(z, e + 1, d * b);
    PrefixOrder(z, e - 1, d * b);
    PrefixOrder(z, e, d * b);
    PowAdd(4 * N1, 4 * m);
    PowAdd(4 * N1, 4 * m + 4);
    PowAdd(4 * (e + 1), 4 * n);
    PowAdd(4 * (e - 1), 4 * n + 4);
    PowLimb(N1 + m + 1);
    SizeBelow(z, a, b, d, Pow10(4 * N1), Pow10(4 * m + 4), Pow10(4 * (e + 1)), Pow10(4 * n), Pow10(4 * N1 + 4 * m + 4));
    SizeAbove(z, a, b, d, Pow10(4 * N1), Pow10(4 * m), Pow10(4 * (e - 1)), Pow10(4 * n + 4), Pow10(4 * N1 + 4 * m));
    PowAdd(4 * e, 4 * n);
    SameOrder(z, a, b, d, Pow10(4 * N1), Pow10(4 * e), Pow10(4 * n), Pow10(4 * m));
  }

  lemma PrefixOrder(z: int, t: nat, x: int)
    ensures Prefix(z, t) < x <==> z < Pow10(4 * t) * x
  {
    hide Pow10, Cut, Low, IsDiv;
    CutIsDiv(z, 4 * t);
    QuotientOrder(z, Pow10(4 * t), Cut(z, 4 * t), Low(z, 4 * t), x);
  }

  lemma SizeBelow(z: int, a: int, b: int, d: int, s: int, pm: int, pe: int, pn: int, all: int)
    requires z == d * a * s && 0 < a < pm && 0 < d < BASE && s > 0 && pe > 0 && pn <= b
    requires all == s * pm && all == pe * pn
    ensures 0 <= z < pe * (d * b) && z < BASE * all
  {
    Assoc(d, a, s);
    BelowProduct(a, s, pm);
    MulLe(pe, pn, b);
    BelowFactor(d, a * s, all, pe * b);
    Rotate(d, pe, b);
  }

  lemma BelowProduct(a: int, s: int, p: int)
    requires 0 < a < p && s > 0
    ensures 0 < a * s < s * p
  {
    MulLe(s, a + 1, p);
    MulLe(s, 1, a);
  }

  lemma BelowFactor(d: int, x: int, y: int, z: int)
    requires 0 < d < BASE && 0 < x < y <= z
    ensures 0 <= d * x < d * z && d * x < BASE * y
  {
    MulLe(d, x + 1, y);
    MulLe(d, y, z);
    MulLe(d, 1, x);
    MulLe(y, d, BASE);
  }

  lemma Rotate(d: int, p: int, b: int)
    ensures d * (p * b) == p * (d * b)
  {
    Assoc(d, p, b);
    Assoc(p, d, b);
  }

  lemma SizeAbove(z: int, a: int, b: int, d: int, s: int, pm: int, pe: int, pn: int, all: int)
    requires z == d * a * s && pm <= a && 0 < d && s > 0 && pe > 0 && b < pn
    requires all == s * pm && all == pe * pn
    ensures z >= pe * (d * b)
  {
    Assoc(d, a, s);
    MulLe(s, pm, a);
    MulLe(pe, b, pn);
    MulLe(d, pe * b, a * s);
    Rotate(d, pe, b);
  }

  lemma SameOrder(z: int, a: int, b: int, d: int, s: int, pe: int, pn: int, pm: int)
    requires z == d * a * s && d > 0 && s > 0 && pn > 0 && pe * pn == s * pm
    ensures z >= pe * (d * b) <==> a * pn >= b * pm
  {
    var l, r := a * pn, b * pm;
    assert z * pn == (d * s) * l by {
      assert d * a * s * pn == (d * s) * (a * pn);
    }
    assert (pe * (d * b)) * pn == (d * s) * r by {
      assert (pe * (d * b)) * pn == (d * b) * (pe * pn);
      assert (d * b) * (s * pm) == (d * s) * (b * pm);
    }
    MulLe(d, 1, s);
    SameSide(z, pe * (d * b), pn);
    SameSide(l, r, d * s);
  }

  lemma SameSide(x: int, y: int, k: int)
    requires k > 0
    ensures x * k >= y * k <==> x >= y
  {
    if x >= y {
      MulLe(k, y, x);
    } else {
      MulLe(k, x + 1, y);
    }
  }

  /** Low limbs of the quotient that the loop stops short of writing. */
  function Unwritten(m: nat, n: nat, p: int): nat {
    if n > m + p + 1 then n - m - p - 1 else 0
  }

  /** The window one position down, before its limb is divided. */
  lemma NextWindow(w: seq<int>, v: int)
    requires |w| > 0 && AllLimbs(w) && Val(w[1..]) < v
    ensures Val(w) == BASE * Val(w[1..]) + w[0] && Val(w) < BASE * v
  {
    DecimalShift.ValCons(w);
  }

  /** After a step the top limb of the window is zero. */
  lemma ShrunkWindow(w: seq<int>, n: nat, v: int)
    requires |w| == n + 2 && AllLimbs(w) && Val(w) < v < Pow10(4 * n + 4)
    ensures Val(w[..n + 1]) == Val(w)
  {
    hide Val, Pow10, Cut;
    Window(w, 0, n + 1);
  }

  /** What the first digit says, and that a zero first digit is followed by a nonzero one. */
  lemma FirstDigits(z: int, v: int, q: int, r: int, t: nat)
    requires IsDiv(Prefix(z, t), v, q, r) && v > 0 && 0 <= q
    ensures q > 0 <==> Prefix(z, t) >= v
  {
    QuotientZero(Prefix(z, t), v, q, r);
  }

  /** The work buffer as `Normalize` leaves it, for a divisor of `n + 1` limbs and value `v`. */
  ghost predicate Prepared(orig: seq<int>, m: nat, n: nat, v: int) {
    && |orig| == N2 + PARTS + 1 && AllLimbs(orig) && m < PARTS && 1 <= n < PARTS
    && orig[N2 + n + 1] == 0 && 2 * orig[N2 + n] >= BASE && Val(orig[N2..N2 + n + 1]) == v
    && 0 < v < Pow10(4 * n + 4) && 0 <= Val(orig[..N2]) < Pow10(4 * (N1 + m + 2))
    && Prefix(Val(orig[..N2]), N1 + m - n + 1) < v <= Prefix(Val(orig[..N2]), N1 + m - n - 1)
  }

  /** Between passes: the limbs up to `pos` and the divisor are as prepared, and above `pos`
      the buffer holds the remainder left by the quotient limbs `acc`. */
  ghost predicate Between(s: seq<int>, orig: seq<int>, n: nat, v: int, pos: int, acc: int) {
    && |s| == |orig| == N2 + PARTS + 1 && AllLimbs(s) && -1 <= pos && pos + n + 2 <= N2
    && (forall t :: 0 <= t <= pos || N2 <= t < |s| ==> s[t] == orig[t])
    && IsDiv(Prefix(Val(orig[..N2]), pos + 1), v, acc, Val(s[pos + 1..pos + n + 2]))
  }

  /** One pass of the loop: the next quotient limb after the limbs `acc` found so far. */
  method NextDigit(buf: array<int>, pos: nat, n: nat, ghost orig: seq<int>, ghost m: nat, ghost v: int, ghost acc: int)
    returns (qh: int)
    requires Prepared(orig, m, n, v) && Between(buf[..], orig, n, v, pos, acc) && acc >= 0
    modifies buf
    ensures 0 <= qh < BASE && Between(buf[..], orig, n, v, pos - 1, BASE * acc + qh)
    ensures acc == 0 ==> (qh > 0 <==> Prefix(Val(orig[..N2]), pos) >= v)
  {
    hide Val, Pow10, IsDiv, Cut, Prefix;
    ghost var z := orig[..N2];
    ghost var w, x := buf[pos..pos + n + 2], buf[N2..N2 + n + 1];
    assert w[1..] == buf[..][pos + 1..pos + n + 2] && x == orig[N2..N2 + n + 1] && w[0] == z[pos];
    RemainderSmall(Prefix(Val(z), pos + 1), v, acc, Val(w[1..]));
    NextWindow(w, v);
    PrefixStep(z, pos);
    qh := KnuthStep.Step(buf, pos, N2, n);
    ghost var w' := buf[pos..pos + n + 2];
    assert w'[..n + 1] == buf[..][pos..pos + n + 1];
    RemainderSmall(Val(w), v, qh, Val(w'));
    ShrunkWindow(w', n, v);
    DivideOn(Prefix(Val(z), pos + 1), v, acc, Val(w[1..]), w[0], qh, Val(w'));
    FirstDigits(Val(z), v, BASE * acc + qh, Val(w'), pos);
  }

  /** The loop of decimal_div over the scaled operands in `buf`. */
  method LongDivision(buf: array<int>, m: nat, n: nat, q: array<int>, ghost v: int) returns (p: int, ghost r: int)
    requires q.Length == PARTS && q != buf && m < PARTS && 1 <= n < PARTS && N2 < buf.Length
    requires Prepared(buf[..], m, n, v)
    modifies buf, q
    ensures p == if Prefix(old(Val(buf[..N2])), N1 + m - n) >= v then 1 else 0
    ensures var u := Unwritten(m, n, p);
            u < PARTS && AllLimbs(q[u..]) && (forall t :: 0 <= t < u ==> q[t] == old(q[t])) &&
            IsDiv(Prefix(old(Val(buf[..N2])), m - n + 2 + u + p), v, Val(q[u..]), r)
  {
    hide Val, Pow10, IsDiv, Cut, Prefix, Between, Prepared, AllLimbs, Unwritten;
    ghost var orig, was := buf[..], q[..];
    ghost var z := Val(orig[..N2]);
    assert buf[..N2] == orig[..N2];
    ghost var done: seq<int> := [];
    NoLimbs(done);
    FirstPass(orig, m, n, v);
    var i, pos := PARTS - 1, N1 + m - n;
    p := 1;
    while i >= 0 && pos > 0
      invariant -1 <= i < PARTS && |done| == PARTS - 1 - i && AllLimbs(done)
      invariant 0 <= p <= 1 && pos == N1 + m - n - (|done| + 1 - p) && pos >= 0
      invariant q[..] == was[..i + 1] + done
      invariant Val(done) >= 0 && (|done| == 0 ==> Val(done) == 0)
      invariant Between(buf[..], orig, n, v, pos, Val(done))
      invariant |done| > 0 || p == 0 ==> p == if Prefix(z, N1 + m - n) >= v then 1 else 0
    {
      var qh := NextDigit(buf, pos, n, orig, m, v, Val(done));
      if i < PARTS - 1 || qh > 0 {
        q[i] := qh;
        LimbInFront(qh, done);
        assert q[..] == was[..i] + ([qh] + done);
        done := [qh] + done;
        i := i - 1;
      } else {
        p := p - 1;
      }
      pos := pos - 1;
    }
    r := LastPass(buf[..], orig, n, v, pos, Val(done));
    UnwrittenIs(m, n, p, i, pos);
    KeptAndWritten(q[..], was, done, i + 1);
    assert q[i + 1..] == q[..][i + 1..];
  }

  lemma KeptAndWritten(q: seq<int>, was: seq<int>, done: seq<int>, u: nat)
    requires u <= |was| && q == was[..u] + done
    ensures q[u..] == done && forall t :: 0 <= t < u ==> q[t] == was[t]
  {
  }

  lemma LimbInFront(x: int, done: seq<int>)
    requires 0 <= x < BASE && AllLimbs(done)
    ensures AllLimbs([x] + done) && Val([x] + done) == x + BASE * Val(done)
  {
    hide Val;
    DecimalShift.ValCons([x] + done);
    assert ([x] + done)[1..] == done;
  }

  lemma UnwrittenIs(m: nat, n: nat, p: int, i: int, pos: int)
    requires m < PARTS && n < PARTS && 0 <= p <= 1 && -1 <= i < PARTS && pos >= 0 && (i < 0 || pos == 0)
    requires pos == N1 + m - n - (PARTS - i - p)
    ensures Unwritten(m, n, p) == i + 1 && pos + 1 == m - n + 2 + Unwritten(m, n, p) + p
  {
  }

  lemma LastPass(s: seq<int>, orig: seq<int>, n: nat, v: int, pos: nat, acc: int) returns (r: int)
    requires Between(s, orig, n, v, pos, acc) && N2 <= |orig|
    ensures IsDiv(Prefix(Val(orig[..N2]), pos + 1), v, acc, r)
  {
    r := Val(s[pos + 1..pos + n + 2]);
  }

  lemma RemainderSmall(u: int, v: int, q: int, r: int)
    requires IsDiv(u, v, q, r)
    ensures r < v
  {
  }

  /** Before the first pass there is no quotient yet, and at most one digit can be zero. */
  lemma FirstPass(orig: seq<int>, m: nat, n: nat, v: int)
    requires Prepared(orig, m, n, v) && N2 < |orig|
    ensures Between(orig, orig, n, v, N1 + m - n, 0)
    ensures Prefix(Val(orig[..N2]), N1 + m - n - 1) >= v
  {
    hide Val, Pow10, Cut, Prefix;
    var z, t := orig[..N2], N1 + m - n + 1;
    assert AllLimbs(z) && z[t..N1 + m + 2] == orig[t..t + n + 1];
    Window(z, t, N1 + m + 2);
    CutSize(Val(z), 4 * t, 0);
    PrefixCut(Val(z), t);
  }

  // ----- The whole routine -----

  /** How many limbs the dividend is scaled up by before the integer division. */
  function Scaling(d1: Num, d2: Num): int {
    var m, n := TopLimb(d1.n), TopLimb(d2.n);
    PARTS - m + n - (if 0 <= m && 0 <= n then Lead(d1.v, d2.v, m, n) else 0)
  }

  /** The exact integer quotient of the scaled mantissas. */
  function Quotient(d1: Num, d2: Num): nat
    requires d1.v >= 0 && d2.v > 0 && Scaling(d1, d2) >= 0
  {
    MulNonNeg(d1.v, Pow10(4 * Scaling(d1, d2)));
    FloorDiv(d1.v * Pow10(4 * Scaling(d1, d2)), d2.v)
  }

  function FloorDiv(a: nat, b: int): nat
    requires b > 0
  {
    IsDivOf(a, b);
    QuotientSign(a, b, a / b, a % b);
    a / b
  }

  /** The low limbs of the result that decimal_div leaves as they were. */
  function Stale(d1: Num, d2: Num): nat {
    var m, n := TopLimb(d1.n), TopLimb(d2.n);
    if n <= 0 || m < 0 then 0 else Unwritten(m, n, Lead(d1.v, d2.v, m, n))
  }

  /** The mantissa left in a result that held the limbs `before`. */
  function DivMantissa(d1: Num, d2: Num, before: seq<int>): int
    requires d1.v >= 0 && d2.v > 0 && Scaling(d1, d2) >= 0 && Stale(d1, d2) <= |before|
  {
    var u := Stale(d1, d2);
    Val(before[..u]) + Pow10(4 * u) * Cut(Quotient(d1, d2), 4 * u)
  }

  lemma ScalingRange(d1: Num, d2: Num)
    requires 0 < d1.n <= POSITIONS && 0 < d2.n <= POSITIONS
    ensures 0 <= Scaling(d1, d2) && Stale(d1, d2) < PARTS
    ensures Stale(d1, d2) > 0 ==> Scaling(d1, d2) == Stale(d1, d2) + PARTS + 1
  {
  }

  function DivResult(d1: Num, d2: Num, before: seq<int>): Result
    requires Normalized(d1) && Normalized(d2) && |before| == PARTS
  {
    if d2.n == 0 then DivisionByZero
    else if d1.n == 0 then Done(Num(SIGN_POS, 0, 0, 0))
    else
      DecimalAdd.NormalizedDigits(d1);
      DecimalAdd.NormalizedDigits(d2);
      ScalingRange(d1, d2);
      var e := d1.e - d2.e - 4 * Scaling(d1, d2);
      if e > MAX_EXPONENT || e < MIN_EXPONENT then Overflow
      else
        var sign := if d1.sign == d2.sign then SIGN_POS else SIGN_NEG;
        Done(Num(sign, e, Digits(Quotient(d1, d2)), DivMantissa(d1, d2, before)))
  }

  lemma FloorDivUnique(a: nat, b: int, q: int, r: int)
    requires b > 0 && IsDiv(a, b, q, r)
    ensures FloorDiv(a, b) == q
  {
    DivUnique(a, b, q, r);
  }

  lemma {:induction false} ZeroLimbs(s: seq<int>)
    requires AllLimbs(s) && Val(s) == 0
    ensures forall i :: 0 <= i < |s| ==> s[i] == 0
  {
    if |s| > 0 {
      assert AllLimbs(s[1..]);
      ValBounds(s[1..]);
      ZeroLimbs(s[1..]);
    }
  }

  /** The digit count says where the top nonzero limb is. */
  lemma TopLimbIsTop(s: seq<int>, n: int)
    requires |s| == PARTS && AllLimbs(s) && Val(s) >= 0 && n == Digits(Val(s)) && 0 < n <= POSITIONS
    ensures HasTop(s, TopLimb(n))
  {
    hide Val, Pow10, Digits, Cut, AllLimbs, HasTop;
    var m := TopLimb(n);
    TopTail(s, m);
    DigitsBounds(Val(s));
    PowMono(n, 4 * m + 4);
    PowMono(4 * m, n - 1);
    PowZero();
    ValDrop(s, m + 1);
    CutSize(Val(s), 4 * m + 4, 0);
    ZeroLimbs(s[m + 1..]);
    ValDrop(s, m);
    CutSize(Val(s), 4 * m, 0);
    DecimalShift.ValCons(s[m..]);
    IsTop(s, m, s[m + 1..]);
  }

  lemma TopTail(s: seq<int>, m: nat)
    requires AllLimbs(s) && m < |s|
    ensures s[m..][1..] == s[m + 1..] && AllLimbs(s[m + 1..])
  {
  }

  lemma IsTop(s: seq<int>, m: nat, above: seq<int>)
    requires |s| == PARTS && AllLimbs(s) && m < PARTS && s[m] > 0
    requires above == s[m + 1..] && forall i :: 0 <= i < |above| ==> above[i] == 0
    ensures HasTop(s, m)
  {
    assert forall t :: m < t < PARTS ==> s[t] == above[t - m - 1];
  }

  /** Dividing both operands by the scale `d` leaves the quotient. */
  lemma CancelScale(d: int, a: int, b: int, q: int, r: int)
    requires d > 0 && b > 0 && IsDiv(d * a, d * b, q, r)
    ensures IsDiv(a, b, q, a - b * q)
  {
    var x := a - b * q;
    assert r == d * x;
    if x < 0 {
      MulLe(d, x, -1);
    }
    if x >= b {
      MulLe(d, b, x);
    }
  }

  /** The quotient at a coarser scale is the quotient with its low limbs cut. */
  lemma CoarseQuotient(a: nat, b: int, k: nat, u: nat, q: int, r: int)
    requires u <= k && b > 0 && IsDiv(a * Pow10(4 * (k - u)), b, q, r)
    ensures a * Pow10(4 * k) >= 0 && q == Cut(FloorDiv(a * Pow10(4 * k), b), 4 * u)
  {
    hide Pow10, Cut, Low, IsDiv, FloorDiv;
    var x := a * Pow10(4 * k);
    MulNonNeg(a, Pow10(4 * k));
    var full := FloorDiv(x, b);
    FloorDivDivides(x, b);
    CutIsDiv(full, 4 * u);
    PowAdd(4 * (k - u), 4 * u);
    Assoc(a, Pow10(4 * (k - u)), Pow10(4 * u));
    DivCompose(x, b, Pow10(4 * u), b * Pow10(4 * u), full, x - b * full, Cut(full, 4 * u), Low(full, 4 * u));
    ScaledDiv(a * Pow10(4 * (k - u)), b, q, r, Pow10(4 * u));
    SameDiv(x, b * Pow10(4 * u), q, r * Pow10(4 * u), Cut(full, 4 * u), b * Low(full, 4 * u) + (x - b * full));
  }

  lemma FloorDivDivides(a: nat, b: int)
    requires b > 0
    ensures IsDiv(a, b, FloorDiv(a, b), a - b * FloorDiv(a, b))
  {
    IsDivOf(a, b);
  }

  lemma ScaledDiv(a: int, b: int, q: int, r: int, w: int)
    requires IsDiv(a, b, q, r) && w > 0
    ensures IsDiv(a * w, b * w, q, r * w)
  {
    MulLe(w, r + 1, b);
    MulNonNeg(r, w);
  }

  lemma SameDiv(a: int, b: int, q: int, r: int, q': int, r': int)
    requires IsDiv(a, b, q, r) && IsDiv(a, b, q', r')
    ensures q == q'
  {
    SameQuotient(b, q, r, q', r');
  }

  /** What Normalize leaves meets the needs of the loop. */
  lemma PreparedBy(orig: seq<int>, y1: seq<int>, y2: seq<int>, m: nat, n: nat, d: int)
    requires HasTop(y1, m) && HasTop(y2, n) && n >= 1 && d == BASE / (y2[n] + 1)
    requires |orig| == N2 + PARTS + 1 && AllLimbs(orig) && forall t :: 0 <= t < N1 ==> orig[t] == 0
    requires Val(orig[N1..N2]) == d * Val(y1) && Val(orig[N2..]) == d * Val(y2)
    ensures Prepared(orig, m, n, d * Val(y2)) && 0 < d < BASE
    ensures Val(orig[..N2]) == d * Val(y1) * Pow10(4 * N1)
    ensures Prefix(Val(orig[..N2]), N1 + m - n) >= d * Val(y2) <==> Lead(Val(y1), Val(y2), m, n) == 1
  {
    hide Val, Pow10, Prefix, Lead;
    var z, x := orig[..N2], orig[N2..];
    assert z[N1..] == orig[N1..N2] && x[..n + 1] == orig[N2..N2 + n + 1];
    ScaleOfTop(y2[n], d);
    HasTopBounds(y1, m);
    HasTopBounds(y2, n);
    ScaledDivisor(x, y2, n, d);
    assert AllLimbs(x[..n + 1]);
    ValBounds(x[..n + 1]);
    RegionOf(z, d * Val(y1));
    RegionSize(Val(z), Val(y1), Val(y2), d, m, n);
  }

  /** The scaled quotient of the loop is the quotient of the mantissas. */
  lemma LoopQuotient(z: int, a: nat, b: int, d: int, m: nat, n: nat, p: int, q: int, r: int)
    requires m < PARTS && n < PARTS && 0 <= p <= 1 && d > 0 && b > 0 && z == d * a * Pow10(4 * N1)
    requires IsDiv(Prefix(z, m - n + 2 + Unwritten(m, n, p) + p), d * b, q, r)
    ensures a * Pow10(4 * (PARTS - m + n - p)) >= 0
    ensures q == Cut(FloorDiv(a * Pow10(4 * (PARTS - m + n - p)), b), 4 * Unwritten(m, n, p))
  {
    hide Pow10, Cut, IsDiv, FloorDiv, Prefix;
    var u, k := Unwritten(m, n, p), PARTS - m + n - p;
    var t := m - n + 2 + u + p;
    assert t == N1 - (k - u) && 0 <= u <= k;
    PrefixOfScaled(d * a, N1, k - u);
    Assoc(d, a, Pow10(4 * (k - u)));
    CancelScale(d, a * Pow10(4 * (k - u)), b, q, r);
    CoarseQuotient(a, b, k, u, q, a * Pow10(4 * (k - u)) - b * q);
  }

  lemma PrefixOfScaled(x: int, s: nat, k: nat)
    ensures Prefix(x * Pow10(4 * s), s - k) == x * Pow10(4 * k)
  {
    hide Pow10, Cut, Prefix;
    var y := x * Pow10(4 * s);
    if k <= s {
      ScaleSplit(x, 4 * k, 4 * (s - k));
      CutExact(x * Pow10(4 * k), 4 * (s - k));
      PrefixCut(y, s - k);
    } else {
      ScaleSplit(x, 4 * s, 4 * (k - s));
      PrefixScaled(y, k - s);
    }
  }

  lemma ScaleSplit(x: int, a: nat, b: nat)
    ensures x * Pow10(a + b) == x * Pow10(a) * Pow10(b)
  {
    hide Pow10;
    PowAdd(a, b);
    Assoc(x, Pow10(a), Pow10(b));
  }

  lemma CutExact(y: int, t: nat)
    ensures Cut(y * Pow10(t), t) == y
  {
    hide Pow10, Cut, Low, IsDiv;
    ExactMultiple(y, Pow10(t));
    CutUnique(y * Pow10(t), t, y, 0);
  }

  lemma ExactMultiple(q: int, b: int)
    requires b > 0
    ensures IsDiv(q * b, b, q, 0)
  {
  }

  method LongQuotient(x1: array<int>, x2: array<int>, m: nat, n: nat, q: array<int>) returns (p: int)
    requires x1.Length == x2.Length == q.Length == PARTS && q != x1 && q != x2
    requires HasTop(x1[..], m) && HasTop(x2[..], n) && n >= 1
    modifies q
    ensures p == old(Lead(Val(x1[..]), Val(x2[..]), m, n)) && Unwritten(m, n, p) < PARTS
    ensures AllLimbs(q[Unwritten(m, n, p)..]) && forall t :: 0 <= t < Unwritten(m, n, p) ==> q[t] == old(q[t])
    ensures QuotientAbove(old(Val(x1[..])), old(Val(x2[..])), PARTS - m + n - p, q[..], Unwritten(m, n, p))
  {
    hide Val, Pow10, IsDiv, Cut, FloorDiv, Prefix, Lead, Prepared;
    ghost var a, b := Val(x1[..]), Val(x2[..]);
    HasTopBounds(x1[..], m);
    HasTopBounds(x2[..], n);
    var buf := new int[N2 + PARTS + 1];
    var d := Normalize(x1, x2, n, buf);
    ghost var orig := buf[..];
    assert orig[N1..N2] == buf[N1..N2] && orig[N2..] == buf[N2..] && orig[..N2] == buf[..N2];
    PreparedBy(orig, x1[..], x2[..], m, n, d);
    ghost var r;
    p, r := LongDivision(buf, m, n, q, d * b);
    LeadIsBit(a, b, m, n);
    LoopQuotient(Val(orig[..N2]), a, b, d, m, n, p, Val(q[Unwritten(m, n, p)..]), r);
    assert q[..][Unwritten(m, n, p)..] == q[Unwritten(m, n, p)..];
  }

  lemma LeadIsBit(a: int, b: int, m: nat, n: nat)
    ensures 0 <= Lead(a, b, m, n) <= 1
  {
  }

  /** From limb `u` up, `q` holds the quotient of `a` scaled up by `k` limbs by `b`. */
  ghost predicate QuotientAbove(a: int, b: int, k: int, q: seq<int>, u: nat) {
    && 0 <= k && a >= 0 && b > 0 && a * Pow10(4 * k) >= 0 && u <= |q|
    && Val(q[u..]) == Cut(FloorDiv(a * Pow10(4 * k), b), 4 * u)
  }

  lemma LimbQuotientAbove(a: int, y: seq<int>, m: nat, p: int, q: seq<int>, r: int)
    requires HasTop(y, 0) && m < PARTS && 0 <= p <= 1 && a >= 0
    requires IsDiv(a * Pow10(4 * (PARTS - m - p)), y[0], Val(q), r)
    ensures Val(y) == y[0] && QuotientAbove(a, Val(y), PARTS - m - p, q, 0)
  {
    hide Val, Pow10, IsDiv, Cut, FloorDiv, Prefix;
    TopOf(y, 0);
    PrefixCut(Val(y), 0);
    CutZero(Val(y));
    assert q[0..] == q;
    var x := a * Pow10(4 * (PARTS - m - p));
    MulNonNeg(a, Pow10(4 * (PARTS - m - p)));
    FloorDivUnique(x, y[0], Val(q), r);
    CutZero(FloorDiv(x, y[0]));
  }

  /** For a one-limb divisor the leading test of the code is the general one. */
  lemma LeadOfLimb(x: seq<int>, y: seq<int>, m: nat)
    requires HasTop(x, m) && HasTop(y, 0)
    ensures (x[m] >= y[0]) <==> Lead(Val(x), Val(y), m, 0) == 1
  {
    hide Val, Pow10, Cut, Prefix;
    TopOf(x, m);
    TopOf(y, 0);
    PrefixCut(Val(y), 0);
    CutZero(Val(y));
    PrefixOrder(Val(x), m, y[0]);
    PowZero();
  }

  /** The quotient has exactly ten limbs. */
  lemma QuotientRange(a: int, b: int, m: nat, n: nat, k: nat)
    requires m < PARTS && n < PARTS && k == PARTS - m + n - Lead(a, b, m, n)
    requires Pow10(4 * m) <= a < Pow10(4 * m + 4) && Pow10(4 * n) <= b < Pow10(4 * n + 4)
    ensures 0 <= a * Pow10(4 * k)
    ensures Pow10(POSITIONS - 4) <= FloorDiv(a * Pow10(4 * k), b) < Pow10(POSITIONS)
  {
    hide Pow10, FloorDiv, IsDiv;
    var x := a * Pow10(4 * k);
    MulNonNeg(a, Pow10(4 * k));
    FloorDivDivides(x, b);
    QuotientOrder(x, b, FloorDiv(x, b), x - b * FloorDiv(x, b), Pow10(POSITIONS - 4));
    QuotientOrder(x, b, FloorDiv(x, b), x - b * FloorDiv(x, b), Pow10(POSITIONS));
    PowAdd(4 * k, 4 * m);
    if Lead(a, b, m, n) == 1 {
      PowAdd(4 * n, POSITIONS - 4);
      PowAdd(4 * k, 4 * m + 4);
      PowAdd(4 * n, POSITIONS);
      Chain(a, b, Pow10(4 * k), Pow10(4 * m), Pow10(4 * n), Pow10(POSITIONS - 4));
      BoundAbove(a, b, Pow10(4 * k), Pow10(4 * m + 4), Pow10(4 * n), Pow10(POSITIONS));
    } else {
      PowAdd(4 * n, POSITIONS);
      PowAdd(4 * n + 4, POSITIONS - 4);
      ChainBelow(a, b, Pow10(4 * k), Pow10(4 * m), Pow10(4 * n), Pow10(POSITIONS));
      BoundBelow(a, b, Pow10(4 * k), Pow10(4 * m), Pow10(4 * n + 4), Pow10(POSITIONS - 4));
    }
  }

  lemma Regroup(a: int, b: int, pk: int, pm: int, pn: int, w: int)
    requires pk * pm == pn * w
    ensures (a * pk) * pm == (a * pn) * w && (b * pm) * w == (b * w) * pm
  {
    assert (a * pk) * pm == a * (pk * pm);
    assert (a * pn) * w == a * (pn * w);
  }

  lemma Chain(a: int, b: int, pk: int, pm: int, pn: int, w: int)
    requires a * pn >= b * pm && pk * pm == pn * w && pm > 0 && w > 0
    ensures a * pk >= b * w
  {
    Regroup(a, b, pk, pm, pn, w);
    MulLe(w, b * pm, a * pn);
    SameSide(a * pk, b * w, pm);
  }

  lemma ChainBelow(a: int, b: int, pk: int, pm: int, pn: int, w: int)
    requires a * pn < b * pm && pk * pm == pn * w && pm > 0 && w > 0
    ensures a * pk < b * w
  {
    Regroup(a, b, pk, pm, pn, w);
    SameSide(a * pn, b * pm, w);
    SameSide(a * pk, b * w, pm);
  }

  lemma BoundAbove(a: int, b: int, pk: int, pm: int, pn: int, w: int)
    requires a < pm && pn <= b && pk * pm == pn * w && pk > 0 && w > 0
    ensures a * pk < b * w
  {
    MulLe(pk, a + 1, pm);
    MulLe(w, pn, b);
  }

  lemma BoundBelow(a: int, b: int, pk: int, pm: int, pn: int, w: int)
    requires a >= pm && b < pn && pk * pm == pn * w && pk > 0 && w > 0
    ensures a * pk >= b * w
  {
    MulLe(pk, pm, a);
    MulLe(w, b, pn);
  }

  /** Digit count of the quotient, from its top limb. */
  lemma TopQuotientLimb(q: seq<int>, u: nat, x: nat)
    requires |q| == PARTS && u < PARTS && AllLimbs(q[u..]) && Val(q[u..]) == Cut(x, 4 * u)
    requires Pow10(POSITIONS - 4) <= x < Pow10(POSITIONS)
    ensures q[PARTS - 1] > 0 && Digits(x) == POSITIONS - 4 + Digits(q[PARTS - 1])
  {
    hide Pow10, Val, Cut, Low, Digits, IsDiv;
    var t := POSITIONS - 4;
    LimbAt(q[u..], PARTS - 1 - u);
    CutCut(x, 4 * u, t - 4 * u);
    CutSize(x, t, 0);
    CutSize(x, t, 4);
    PowZero();
    DecimalShift.TenIsPower(4);
    CutIsDiv(x, t);
    DigitsOfQuotient(x, t, Cut(x, t), Low(x, t));
  }

  /** Facts about nonzero normalized operands and the limbs they are stored in. */
  lemma Operands(d1: Num, s1: seq<int>)
    requires Normalized(d1) && d1.n > 0 && |s1| == PARTS && AllLimbs(s1) && Val(s1) == d1.v
    ensures 0 < d1.n <= POSITIONS && 0 <= TopLimb(d1.n) < PARTS && HasTop(s1, TopLimb(d1.n)) && d1.v > 0
    ensures Pow10(4 * TopLimb(d1.n)) <= d1.v < Pow10(4 * TopLimb(d1.n) + 4)
  {
    hide Pow10, Digits, Val, HasTop;
    DecimalAdd.NormalizedDigits(d1);
    TopLimbIsTop(s1, d1.n);
    HasTopBounds(s1, TopLimb(d1.n));
  }

  /** Both branches of decimal_div: the quotient limbs in `q`, above the stale ones. */
  method QuotientLimbs(x1: array<int>, x2: array<int>, m: nat, n: nat, q: array<int>) returns (p: int)
    requires x1.Length == x2.Length == q.Length == PARTS && q != x1 && q != x2
    requires HasTop(x1[..], m) && HasTop(x2[..], n)
    modifies q
    ensures p == old(Lead(Val(x1[..]), Val(x2[..]), m, n))
    ensures var u := if n == 0 then 0 else Unwritten(m, n, p);
            u < PARTS && AllLimbs(q[u..]) && (forall t :: 0 <= t < u ==> q[t] == old(q[t])) &&
            QuotientAbove(old(Val(x1[..])), old(Val(x2[..])), PARTS - m + n - p, q[..], u)
  {
    hide Val, Pow10, IsDiv, QuotientAbove, Lead;
    if n == 0 {
      ghost var s1, s2 := x1[..], x2[..];
      LeadOfLimb(s1, s2, m);
      LeadIsBit(Val(s1), Val(s2), m, n);
      HasTopBounds(s1, m);
      PowPositive(4 * m);
      ghost var r;
      p, r := DivideByLimb(x1, m, x2[0], q);
      LimbQuotientAbove(Val(s1), s2, m, p, q[..], r);
      assert q[0..] == q[..];
    } else {
      p := LongQuotient(x1, x2, m, n, q);
    }
  }

  lemma PowPositive(k: nat)
    ensures Pow10(k) >= 1
  {
  }

  /** The limbs of the result and its digit count, in the terms of `DivResult`. */
  lemma ResultLimbs(d1: Num, d2: Num, before: seq<int>, q: seq<int>)
    requires d1.v > 0 && d2.v > 0 && 0 < d1.n <= POSITIONS && 0 < d2.n <= POSITIONS
    requires |before| == |q| == PARTS && AllLimbs(before)
    requires var m, n := TopLimb(d1.n), TopLimb(d2.n);
             Pow10(4 * m) <= d1.v < Pow10(4 * m + 4) && Pow10(4 * n) <= d2.v < Pow10(4 * n + 4)
    requires var u := Stale(d1, d2);
             u < PARTS && AllLimbs(q[u..]) && q[..u] == before[..u] && QuotientAbove(d1.v, d2.v, Scaling(d1, d2), q, u)
    ensures AllLimbs(q) && Val(q) == DivMantissa(d1, d2, before)
    ensures Digits(Quotient(d1, d2)) == POSITIONS - 4 + Digits(q[PARTS - 1]) && q[PARTS - 1] > 0
  {
    hide Pow10, Digits, Val, Lead, FloorDiv, Cut;
    var u, m, n := Stale(d1, d2), TopLimb(d1.n), TopLimb(d2.n);
    assert forall t :: 0 <= t < PARTS ==> q[t] == if t < u then before[..u][t] else q[u..][t - u];
    LeadIsBit(d1.v, d2.v, m, n);
    ValSplit(q, u);
    QuotientRange(d1.v, d2.v, m, n, Scaling(d1, d2));
    TopQuotientLimb(q, u, Quotient(d1, d2));
  }

  method CountTop(x: int) returns (j: int)
    requires x >= 0
    ensures j == Digits(x)
  {
    j := 0;
    var d := x;
    while d > 0
      invariant d >= 0 && j + Digits(d) == Digits(x)
    {
      d := d / 10;
      j := j + 1;
    }
  }

  /** decimal_div. Returns 0 and the quotient, or 1 for a zero divisor or an exponent that does not fit. */
  method Div(d1: Decimal, d2: Decimal, d3: Decimal) returns (rc: int)
    requires d1.Valid() && d2.Valid() && d3.Valid() && Normalized(d1.Abs()) && Normalized(d2.Abs())
    requires d3 != d1 && d3 != d2 && d3.m != d1.m && d3.m != d2.m
    modifies d3, d3.m
    ensures var r := old(DivResult(d1.Abs(), d2.Abs(), d3.m[..]));
            (rc == 0) == r.Done? && (rc == 0 ==> d3.Valid() && d3.Abs() == r.value)
  {
    hide Val, Pow10, Digits, Quotient, DivMantissa, QuotientAbove, HasTop, Lead;
    ghost var a, b, before := d1.Abs(), d2.Abs(), d3.m[..];
    if d2.n == 0 {
      return 1;
    }
    if d1.n == 0 {
      DecimalAdd.SetZero(d3);
      return 0;
    }
    Operands(a, d1.m[..]);
    Operands(b, d2.m[..]);
    var m, n := TopLimb(d1.n), TopLimb(d2.n);
    LeadIsBit(a.v, b.v, m, n);
    var p := QuotientLimbs(d1.m, d2.m, m, n, d3.m);
    assert d3.m[..][Stale(a, b)..] == d3.m[Stale(a, b)..];
    ResultLimbs(a, b, before, d3.m[..]);
    var j := CountTop(d3.m[PARTS - 1]);
    var e := d1.e - d2.e - (PARTS - m + n - p) * 4;
    if e > MAX_EXPONENT || e < MIN_EXPONENT {
      return 1;
    }
    d3.e := e;
    d3.n := POSITIONS - 4 + j;
    d3.sign := if d1.sign == d2.sign then SIGN_POS else SIGN_NEG;
    return 0;
  }

  /** A quotient without stale limbs is the forty-digit truncation of the true quotient:
      normalized, with a full top limb, and less than one unit of its last digit too small. */
  lemma DivTruncates(d1: Num, d2: Num, before: seq<int>)
    requires Normalized(d1) && Normalized(d2) && d1.n > 0 && d2.n > 0 && |before| == PARTS
    requires DivResult(d1, d2, before).Done? && Stale(d1, d2) == 0
    ensures var r, k := DivResult(d1, d2, before).value, Scaling(d1, d2);
            Normalized(r) && k >= 0 && r.e == d1.e - d2.e - 4 * k &&
            Pow10(POSITIONS - 4) <= r.v < Pow10(POSITIONS) &&
            r.v * d2.v <= d1.v * Pow10(4 * k) < (r.v + 1) * d2.v
  {
    hide Pow10, Digits, Val, Lead, FloorDiv, Cut, IsDiv;
    var k, m, n := Scaling(d1, d2), TopLimb(d1.n), TopLimb(d2.n);
    DigitsSpan(d1);
    DigitsSpan(d2);
    LeadIsBit(d1.v, d2.v, m, n);
    QuotientRange(d1.v, d2.v, m, n, k);
    var q := Quotient(d1, d2);
    ValEmpty(before[..0]);
    CutZero(q);
    PowZero();
    FloorDivDivides(d1.v * Pow10(4 * k), d2.v);
    QuotientSign(d1.v * Pow10(4 * k), d2.v, q, d1.v * Pow10(4 * k) - d2.v * q);
  }

  /** The digit count bounds a mantissa by limb weights. */
  lemma DigitsSpan(d: Num)
    requires Normalized(d) && d.n > 0
    ensures 0 < d.n <= POSITIONS && d.v > 0 && 0 <= TopLimb(d.n) < PARTS
    ensures Pow10(4 * TopLimb(d.n)) <= d.v < Pow10(4 * TopLimb(d.n) + 4)
  {
    hide Pow10, Digits;
    DecimalAdd.NormalizedDigits(d);
    PowMono(4 * TopLimb(d.n), d.n - 1);
    PowMono(d.n, 4 * TopLimb(d.n) + 4);
  }

  /** decimal_div truncates whatever its result held before exactly when no limb goes unwritten. */
  lemma DivTruncatesIff(d1: Num, d2: Num)
    requires Normalized(d1) && Normalized(d2) && d1.n > 0 && d2.n > 0
    ensures 0 <= Scaling(d1, d2) && Stale(d1, d2) < PARTS && d1.v >= 0 && d2.v > 0
    ensures (forall before: seq<int> | |before| == PARTS && AllLimbs(before) ::
               DivMantissa(d1, d2, before) == Quotient(d1, d2)) <==> Stale(d1, d2) == 0
  {
    hide Pow10, Digits, Val, Lead, FloorDiv, Cut, Quotient, Scaling, Stale;
    DigitsSpan(d1);
    DigitsSpan(d2);
    ScalingRange(d1, d2);
    var q, u := Quotient(d1, d2), Stale(d1, d2);
    if u == 0 {
      forall before: seq<int> | |before| == PARTS && AllLimbs(before)
        ensures DivMantissa(d1, d2, before) == q
      {
        ValEmpty(before[..0]);
        CutZero(q);
        PowZero();
      }
    } else {
      var zeros, one := LowestLimb(0), LowestLimb(1);
      DecimalShift.ValCons(zeros[..u]);
      DecimalShift.ValCons(one[..u]);
      assert zeros[..u][1..] == one[..u][1..];
      assert DivMantissa(d1, d2, zeros) != DivMantissa(d1, d2, one);
    }
  }

  // ----- The signed quotient -----

  lemma SignProduct(s1: int, s2: int, q: int, m: int)
    requires (s1 == SIGN_POS || s1 == SIGN_NEG) && (s2 == SIGN_POS || s2 == SIGN_NEG)
    ensures Signed(if s1 == s2 then SIGN_POS else SIGN_NEG, q) * Signed(s2, m) == Signed(s1, q * m)
  {
    Opposite(q, m);
  }

  lemma Opposite(x: int, y: int)
    ensures (-x) * y == -(x * y) && x * (-y) == -(x * y) && (-x) * (-y) == x * y
  {
  }

  /** The sign of a quotient: times the sign of the divisor it is the sign of the dividend. */
  lemma DivSigns(d1: Num, d2: Num, before: seq<int>)
    requires Normalized(d1) && Normalized(d2) && d1.n > 0 && d2.n > 0 && |before| == PARTS
    requires DivResult(d1, d2, before).Done?
    ensures DivResult(d1, d2, before).value.sign * d2.sign == d1.sign
  {
    hide Pow10, Digits, Quotient, DivMantissa, Scaling;
  }

  /** A quotient without stale limbs, multiplied by the signed divisor, has the sign of the scaled dividend
      and falls short of it by less than one divisor. */
  lemma DivTowardZero(d1: Num, d2: Num, before: seq<int>)
    requires Normalized(d1) && Normalized(d2) && d1.n > 0 && d2.n > 0 && |before| == PARTS
    requires DivResult(d1, d2, before).Done? && Stale(d1, d2) == 0
    ensures var r, k := DivResult(d1, d2, before).value, Scaling(d1, d2);
            && k >= 0 && d2.v > 0 && r.e == d1.e - d2.e - 4 * k
            && var product, dividend := Significand(r) * Significand(d2), Significand(d1) * Pow10(4 * k);
               if dividend > 0 then 0 < product <= dividend < product + d2.v
               else product - d2.v < dividend <= product < 0
  {
    hide Pow10, Digits, Quotient, DivMantissa, Scaling, Stale;
    DivTruncates(d1, d2, before);
    var r, k := DivResult(d1, d2, before).value, Scaling(d1, d2);
    DecimalAdd.NormalizedDigits(d1);
    DecimalAdd.NormalizedDigits(d2);
    SignProduct(d1.sign, d2.sign, r.v, d2.v);
    Opposite(d1.v, Pow10(4 * k));
    PowMono(0, POSITIONS - 4);
    PowZero();
    MulLe(d2.v, 1, r.v);
    Distribute(r.v, 1, d2.v);
  }

  /** A division is refused exactly for a zero divisor, or when the exponent of the quotient is out of range;
      `k` is the number of limbs that bring the quotient to 37 to 40 digits. */
  lemma DivDoneIff(d1: Num, d2: Num, before: seq<int>, k: nat)
    requires Normalized(d1) && Normalized(d2) && d1.v > 0 && d2.v > 0 && |before| == PARTS
    requires Pow10(POSITIONS - 4) * d2.v <= d1.v * Pow10(4 * k) < Pow10(POSITIONS) * d2.v
    ensures DivResult(d1, d2, before).Done? <==> MIN_EXPONENT <= d1.e - d2.e - 4 * k <= MAX_EXPONENT
    ensures DivResult(d1, d2, before).Done? ==> DivResult(d1, d2, before).value.e == d1.e - d2.e - 4 * k
  {
    hide Pow10, Digits, DivMantissa, Lead, FloorDiv, IsDiv, Scaling;
    DigitsPositive(d1);
    DigitsPositive(d2);
    ScalingIs(d1, d2, k);
  }

  lemma DigitsPositive(d: Num)
    requires Normalized(d)
    ensures 0 <= d.n <= POSITIONS && (d.n > 0 <==> d.v > 0)
  {
    hide Pow10, Digits;
    DecimalAdd.NormalizedDigits(d);
  }

  /** Zero operands. */
  lemma DivOfZero(d1: Num, d2: Num, before: seq<int>)
    requires Normalized(d1) && Normalized(d2) && |before| == PARTS
    ensures d2.v == 0 <==> DivResult(d1, d2, before) == DivisionByZero
    ensures d2.v != 0 && d1.v == 0 ==> DivResult(d1, d2, before) == Done(Num(SIGN_POS, 0, 0, 0))
  {
    hide Pow10, Digits, DivMantissa, Scaling, Quotient;
    DigitsPositive(d1);
    DigitsPositive(d2);
  }

  lemma ScalingIs(d1: Num, d2: Num, k: nat)
    requires Normalized(d1) && Normalized(d2) && d1.n > 0 && d2.n > 0 && d2.v > 0
    requires Pow10(POSITIONS - 4) * d2.v <= d1.v * Pow10(4 * k) < Pow10(POSITIONS) * d2.v
    ensures Scaling(d1, d2) == k
  {
    hide Pow10, Digits, Lead, FloorDiv, IsDiv, Normalized;
    DigitsSpan(d1);
    DigitsSpan(d2);
    var m, n := TopLimb(d1.n), TopLimb(d2.n);
    LeadIsBit(d1.v, d2.v, m, n);
    var j: nat := Scaling(d1, d2);
    QuotientRange(d1.v, d2.v, m, n, j);
    QuotientSpan(d1, d2);
    if j < k {
      OneScale(d1.v, d2.v, j, k);
    } else if k < j {
      OneScale(d1.v, d2.v, k, j);
    }
  }

  lemma QuotientSpan(d1: Num, d2: Num)
    requires d1.v >= 0 && d2.v > 0 && Scaling(d1, d2) >= 0
    requires Pow10(POSITIONS - 4) <= Quotient(d1, d2) < Pow10(POSITIONS)
    ensures Pow10(POSITIONS - 4) * d2.v <= d1.v * Pow10(4 * Scaling(d1, d2)) < Pow10(POSITIONS) * d2.v
  {
    hide Pow10, Scaling, FloorDiv, IsDiv;
    var x, q := d1.v * Pow10(4 * Scaling(d1, d2)), Quotient(d1, d2);
    MulNonNeg(d1.v, Pow10(4 * Scaling(d1, d2)));
    FloorDivDivides(x, d2.v);
    QuotientSign(x, d2.v, q, x - d2.v * q);
    MulLe(d2.v, Pow10(POSITIONS - 4), q);
    MulLe(d2.v, q + 1, Pow10(POSITIONS));
  }

  /** Two scales in the same range of four digits are the same. */
  lemma OneScale(a: int, b: int, j: nat, k: nat)
    requires b > 0 && a >= 0 && j < k && Pow10(POSITIONS - 4) * b <= a * Pow10(4 * j)
    ensures a * Pow10(4 * k) >= Pow10(POSITIONS) * b
  {
    hide Pow10;
    PowMono(4 * j + 4, 4 * k);
    MulLe(a, Pow10(4 * j + 4), Pow10(4 * k));
    PowLimb(j);
    PowLimb(POSITIONS / 4 - 1);
    Assoc(a, BASE, Pow10(4 * j));
    MulLe(BASE, Pow10(POSITIONS - 4) * b, a * Pow10(4 * j));
    Assoc(BASE, a, Pow10(4 * j));
    Assoc(BASE, Pow10(POSITIONS - 4), b);
  }

  /** The number of low limbs that stay as they were follows from the scale alone. */
  lemma StaleIs(d1: Num, d2: Num)
    requires 0 < d1.n <= POSITIONS && 0 < d2.n <= POSITIONS
    ensures Stale(d1, d2) == if Scaling(d1, d2) > 11 then Scaling(d1, d2) - 11 else 0
  {
  }

  /** Every quotient of nonzero operands: with the one scale of `k` limbs that gives a quotient `q` of ten
      limbs, the result holds `q` with its lowest `k - 11` limbs replaced by those it held before. */
  lemma DivLeaves(d1: Num, d2: Num, before: seq<int>) returns (k: nat, q: nat)
    requires Normalized(d1) && Normalized(d2) && d1.n > 0 && d2.n > 0 && |before| == PARTS
    requires DivResult(d1, d2, before).Done?
    ensures q * d2.v <= d1.v * Pow10(4 * k) < (q + 1) * d2.v && Pow10(36) <= q < Pow10(40)
    ensures var r, u := DivResult(d1, d2, before).value, if k > 11 then k - 11 else 0;
      && u < PARTS && r.e == d1.e - d2.e - 4 * k && r.n == Digits(q)
      && r.v == q - q % Pow10(4 * u) + Val(before[..u])
  {
    hide Pow10, Digits, Val, Lead, FloorDiv, Cut, Low, IsDiv, Scaling, Stale;
    var m, n := TopLimb(d1.n), TopLimb(d2.n);
    DigitsSpan(d1);
    DigitsSpan(d2);
    ScalingRange(d1, d2);
    StaleIs(d1, d2);
    k, q := Scaling(d1, d2), Quotient(d1, d2);
    LeadIsBit(d1.v, d2.v, m, n);
    ScalingRuns(d1, d2);
    QuotientRange(d1.v, d2.v, m, n, k);
    FloorDivDivides(d1.v * Pow10(4 * k), d2.v);
    QuotientSign(d1.v * Pow10(4 * k), d2.v, q, d1.v * Pow10(4 * k) - d2.v * q);
    LowPart(q, 4 * Stale(d1, d2));
  }

  lemma ScalingRuns(d1: Num, d2: Num)
    requires TopLimb(d1.n) >= 0 && TopLimb(d2.n) >= 0
    ensures Scaling(d1, d2) == PARTS - TopLimb(d1.n) + TopLimb(d2.n) - Lead(d1.v, d2.v, TopLimb(d1.n), TopLimb(d2.n))
  {
  }

  lemma LowPart(q: int, k: nat)
    ensures Pow10(k) * Cut(q, k) == q - q % Pow10(k)
  {
    hide Pow10;
    CutIsDiv(q, k);
  }

  /** Ten limbs, all zero but the lowest. */
  function LowestLimb(low: int): seq<int> {
    [low] + seq(PARTS - 1, _ => 0)
  }

  const ONE := Num(SIGN_POS, 0, 1, 1)

  function Trillion(): Num {
    Num(SIGN_POS, 0, 13, Pow10(12))
  }

  lemma TrillionIsNormalized()
    ensures Normalized(ONE) && Normalized(Trillion())
  {
    hide Pow10, Digits;
    PowZero();
    DecimalShift.TenIsPower(1);
    DigitsUnique(1, 1);
    PowAdd(1, 12);
    PowMono(0, 12);
    DigitsUnique(Pow10(12), 13);
    PowMono(1, POSITIONS);
    PowMono(13, POSITIONS);
  }

  lemma TrillionScaling()
    ensures Scaling(ONE, Trillion()) == 12 && Stale(ONE, Trillion()) == 1
  {
    hide Pow10;
    PowZero();
    assert Lead(1, Pow10(12), 0, 3) == 1;
  }

  lemma TrillionQuotient()
    requires Scaling(ONE, Trillion()) == 12 && Stale(ONE, Trillion()) == 1
    ensures Quotient(ONE, Trillion()) == Pow10(36)
    ensures DivMantissa(ONE, Trillion(), LowestLimb(1)) == Pow10(36) + 1
  {
    hide Pow10, Val, FloorDiv, Cut, IsDiv, Scaling, Stale;
    PowAdd(36, 12);
    ExactMultiple(Pow10(36), Pow10(12));
    FloorDivUnique(Pow10(48), Pow10(12), Pow10(36), 0);
    PowAdd(32, 4);
    CutExact(Pow10(32), 4);
    DecimalShift.ValCons(LowestLimb(1)[..1]);
    ValEmpty(LowestLimb(1)[..1][1..]);
  }

  /** One divided by 10^12 is 10^36 at its scale, but a result whose lowest limb was 1 keeps that limb. */
  lemma DivFails()
    ensures Normalized(ONE) && Normalized(Trillion()) && AllLimbs(LowestLimb(1))
    ensures Scaling(ONE, Trillion()) == 12 && Quotient(ONE, Trillion()) == Pow10(36)
    ensures var r := DivResult(ONE, Trillion(), LowestLimb(1));
            r.Done? && r.value.v == Pow10(36) + 1
  {
    hide Pow10, Digits, Normalized, Scaling, Stale, Quotient, DivMantissa;
    TrillionIsNormalized();
    TrillionScaling();
    TrillionQuotient();
  }
}
