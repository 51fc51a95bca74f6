/** The decimal record of include/common/decimal.h and the limb loops on absolute values. */
module Decimals {
  import opened Limbs

  const SIGN_POS := 1
  const SIGN_NEG := -1
  const MIN_EXPONENT := -128
  const MAX_EXPONENT := 127

  /** What a record stands for: `sign * v * 10^e`, with the recorded digit count `n`. */
  datatype Num = Num(sign: int, e: int, n: int, v: int)

  datatype Result = Done(value: Num) | Overflow | DivisionByZero

  function Signed(sign: int, x: int): int {
    if sign == SIGN_NEG then -x else x
  }

  function Absolute(x: int): int {
    if x < 0 then -x else x
  }

  /** The mantissa with its sign. */
  function Significand(d: Num): int {
    Signed(d.sign, d.v)
  }

  predicate Normalized(d: Num) {
    && (d.sign == SIGN_POS || d.sign == SIGN_NEG)
    && MIN_EXPONENT <= d.e <= MAX_EXPONENT
    && 0 <= d.v < Pow10(POSITIONS)
    && d.n == Digits(d.v)
  }

  class Decimal {
    var sign: int
    var e: int
    var n: int
    const m: array<int>

    constructor ()
      ensures fresh(m) && Valid()
      ensures Abs() == Num(SIGN_POS, 0, 0, 0)
    {
      sign, e, n := SIGN_POS, 0, 0;
      m := new int[PARTS](_ => 0);
      new;
      ValZeros(m[..]);
    }

    ghost predicate Valid()
      reads this, m
    {
      m.Length == PARTS && AllLimbs(m[..])
    }

    ghost function Abs(): Num
      reads this, m
    {
      Num(sign, e, n, Val(m[..]))
    }

    /** Structure assignment: memcpy of the whole record. */
    method CopyFrom(d: Decimal)
      requires d != this && d.m != m && d.Valid() && m.Length == PARTS
      modifies this, m
      ensures Valid() && Abs() == d.Abs() && m[..] == d.m[..]
    {
      sign, e, n := d.sign, d.e, d.n;
      CopyLimbs(d.m, 0, m);
      assert m[..] == d.m[..];
    }
  }

  method CopyLimbs(src: array<int>, off: nat, dst: array<int>)
    requires off + PARTS <= src.Length && dst.Length == PARTS && src != dst
    modifies dst
    ensures dst[..] == src[off..off + PARTS]
  {
    for i := 0 to PARTS
      invariant forall j :: 0 <= j < i ==> dst[j] == src[off + j]
    {
      dst[i] := src[off + i];
    }
  }

  /** `a + b` is `c` with a carry of `k` at weight `p`. */
  ghost predicate SumOf(p: int, a: int, b: int, c: int, k: int) {
    c + p * k == a + b
  }

  /** One column of an addition or subtraction of prefixes. */
  lemma Column(p: int, p': int, a: int, b: int, c: int, k: int, x: int, y: int, z: int, k': int)
    requires SumOf(p, a, b, c, k) && SumOf(BASE, x, y + k, z, k') && p' == BASE * p
    ensures SumOf(p', a + p * x, b + p * y, c + p * z, k')
  {
    assert p * (z + BASE * k') == p * (x + y + k);
  }

  /** The parts of a column sum that the loops establish themselves. */
  lemma ColumnSum(p: int, a: int, b: int, c: int, k: int)
    ensures SumOf(p, a, b, c, k) <==> c + p * k == a + b
    ensures SumOf(p, 0, 0, 0, 0)
  {
  }

  /** The first `i` limbs of `a` and `b` add up to those of `c`, with carry `k`. */
  ghost predicate Prefixes(a: seq<int>, b: seq<int>, c: seq<int>, i: nat, k: int) {
    && i <= |a| && i <= |b| && |c| == i && AllLimbs(c)
    && SumOf(Pow10(4 * i), Val(a[..i]), Val(b[..i]), Val(c), k)
  }

  lemma PrefixesStart(a: seq<int>, b: seq<int>)
    ensures Prefixes(a, b, [], 0, 0)
  {
    ValEmpty(a[..0]);
    ValEmpty(b[..0]);
    ValEmpty([]);
  }

  lemma PrefixesStep(a: seq<int>, b: seq<int>, c: seq<int>, i: nat, k: int, z: int, k': int)
    requires Prefixes(a, b, c, i, k) && i < |a| && i < |b| && 0 <= z < BASE && z + BASE * k' == a[i] + (b[i] + k)
    ensures Prefixes(a, b, c + [z], i + 1, k')
  {
    hide Val, Pow10, SumOf;
    ValSnoc(a, i);
    ValSnoc(b, i);
    ValAppend(c, z);
    PowLimb(i);
    ColumnSum(BASE, a[i], b[i] + k, z, k');
    Column(Pow10(4 * i), Pow10(4 * i + 4), Val(a[..i]), Val(b[..i]), Val(c), k, a[i], b[i], z, k');
  }

  lemma PrefixesEnd(a: seq<int>, b: seq<int>, c: seq<int>, k: int)
    requires Prefixes(a, b, c, PARTS, k) && |a| == |b| == PARTS
    ensures AllLimbs(c) && Val(c) + Pow10(POSITIONS) * k == Val(a) + Val(b)
  {
    hide Val, Pow10;
    assert a[..PARTS] == a && b[..PARTS] == b;
  }

  method AbsAdd(d1: array<int>, d2: array<int>, d3: array<int>) returns (c: int)
    requires d1.Length == d2.Length == d3.Length == PARTS && d3 != d1 && d3 != d2
    requires AllLimbs(d1[..]) && AllLimbs(d2[..])
    modifies d3
    ensures 0 <= c <= 1 && AllLimbs(d3[..])
    ensures Val(d3[..]) + Pow10(POSITIONS) * c == Val(d1[..]) + Val(d2[..])
  {
    hide Val, Pow10, Prefixes;
    ghost var s1, s2, s3: seq<int> := d1[..], d2[..], [];
    c := 0;
    PrefixesStart(s1, s2);
    for i := 0 to PARTS
      invariant 0 <= c <= 1 && |s3| == i && d3[..i] == s3 && Prefixes(s1, s2, s3, i, c)
    {
      ghost var c0 := c;
      var s := d1[i] + d2[i] + c;
      if s >= BASE {
        s, c := s - BASE, 1;
      } else {
        c := 0;
      }
      d3[i] := s;
      PrefixesStep(s1, s2, s3, i, c0, s, c);
      s3 := s3 + [s];
    }
    PrefixesEnd(s1, s2, s3, c);
    assert d3[..] == s3;
  }

  /** Subtracts the smaller absolute value `d2`; the assertion of the C code holds. */
  method AbsSub(d1: array<int>, d2: array<int>, d3: array<int>)
    requires d1.Length == d2.Length == d3.Length == PARTS && d3 != d1 && d3 != d2
    requires AllLimbs(d1[..]) && AllLimbs(d2[..]) && Val(d2[..]) <= Val(d1[..])
    modifies d3
    ensures AllLimbs(d3[..]) && Val(d3[..]) == Val(d1[..]) - Val(d2[..])
  {
    hide Val, Pow10, Differences;
    var c := 0;
    ghost var s1, s2, s3: seq<int> := d1[..], d2[..], [];
    DifferencesStart(s1, s2);
    for i := 0 to PARTS
      invariant 0 <= c <= 1 && |s3| == i && d3[..i] == s3 && Differences(s1, s2, s3, i, c)
    {
      ghost var c0 := c;
      if d1[i] < d2[i] + c {
        d3[i], c := d1[i] + BASE - d2[i] - c, 1;
      } else {
        d3[i], c := d1[i] - d2[i] - c, 0;
      }
      DifferencesStep(s1, s2, s3, i, c0, d3[i], c);
      s3 := s3 + [d3[i]];
    }
    DifferencesEnd(s1, s2, s3, c);
    assert d3[..] == s3;
    assert c == 0;
  }

  /** The first `i` limbs of `c` are those of `a` minus those of `b`, with borrow `k`. */
  ghost predicate Differences(a: seq<int>, b: seq<int>, c: seq<int>, i: nat, k: int) {
    && i <= |a| && i <= |b| && |c| == i && AllLimbs(c)
    && SumOf(Pow10(4 * i), Val(b[..i]), Val(c), Val(a[..i]), k)
  }

  lemma DifferencesStart(a: seq<int>, b: seq<int>)
    ensures Differences(a, b, [], 0, 0)
  {
    ValEmpty(a[..0]);
    ValEmpty(b[..0]);
    ValEmpty([]);
  }

  lemma DifferencesStep(a: seq<int>, b: seq<int>, c: seq<int>, i: nat, k: int, z: int, k': int)
    requires Differences(a, b, c, i, k) && i < |a| && i < |b| && 0 <= z < BASE && a[i] + BASE * k' == b[i] + (z + k)
    ensures Differences(a, b, c + [z], i + 1, k')
  {
    hide Val, Pow10, SumOf;
    ValSnoc(a, i);
    ValSnoc(b, i);
    ValAppend(c, z);
    PowLimb(i);
    ColumnSum(BASE, b[i], z + k, a[i], k');
    Column(Pow10(4 * i), Pow10(4 * i + 4), Val(b[..i]), Val(c), Val(a[..i]), k, b[i], z, a[i], k');
  }

  lemma DifferencesEnd(a: seq<int>, b: seq<int>, c: seq<int>, k: int)
    requires Differences(a, b, c, PARTS, k) && |a| == |b| == PARTS && 0 <= k <= 1
    requires AllLimbs(a) && Val(b) <= Val(a)
    ensures k == 0 && AllLimbs(c) && Val(c) == Val(a) - Val(b)
  {
    hide Val, Pow10;
    assert a[..PARTS] == a && b[..PARTS] == b;
    ValBounds(c);
    NoBorrow(Pow10(POSITIONS), Val(b), Val(c), Val(a), k);
  }

  lemma NoBorrow(p: int, a: int, b: int, c: int, k: int)
    requires c + p * k == a + b && a <= c && b < p && 0 <= k <= 1
    ensures k == 0 && b == c - a
  {
  }

  lemma TopDecides(a: seq<int>, b: seq<int>, i: nat)
    requires |a| == |b| && i < |a| && AllLimbs(a) && AllLimbs(b)
    requires a[i + 1..] == b[i + 1..] && a[i] < b[i]
    ensures Val(a) < Val(b)
  {
    assert AllLimbs(a[..i]) && AllLimbs(b[..i]);
    hide Val, Pow10;
    ValSplit(a, i + 1);
    ValSplit(b, i + 1);
    ValSnoc(a, i);
    ValSnoc(b, i);
    ValBounds(a[..i]);
    ValBounds(b[..i]);
    LowerDigit(Pow10(4 * i), Val(a[..i]), Val(b[..i]), a[i], b[i]);
  }

  lemma LowerDigit(p: int, lo: int, lo': int, x: int, y: int)
    requires 0 <= lo < p && 0 <= lo' && x < y
    ensures lo + p * x < lo' + p * y
  {
    MulLe(p, x + 1, y);
  }

  method AbsCmp(d1: array<int>, d2: array<int>) returns (r: int)
    requires d1.Length == d2.Length == PARTS && AllLimbs(d1[..]) && AllLimbs(d2[..])
    ensures (r > 0) == (Val(d1[..]) > Val(d2[..])) && (r < 0) == (Val(d1[..]) < Val(d2[..]))
  {
    hide Val;
    for i := PARTS downto 0
      invariant d1[i..] == d2[i..]
    {
      if d1[i] != d2[i] {
        assert d1[..][i + 1..] == d1[i + 1..] && d2[..][i + 1..] == d2[i + 1..];
        if d1[i] < d2[i] {
          TopDecides(d1[..], d2[..], i);
        } else {
          TopDecides(d2[..], d1[..], i);
        }
        return d1[i] - d2[i];
      }
    }
    assert d1[..] == d1[0..] == d2[0..] == d2[..];
    return 0;
  }
}
