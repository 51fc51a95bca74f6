/** auth/auth_sha3.c: SHA3-512 on a packed state of 200 bytes. */
module Sha3 {
  import opened Keccak
  import opened Sha3Constants

  const BYTES := 200

  /** The bits of a byte string, lowest bit of each byte first. */
  function Bits(b: seq<bv8>): (s: BitString)
    ensures |s| == 8 * |b|
  {
    seq(8 * |b|, i requires 0 <= i < 8 * |b| => TestBit(b[i / 8], i % 8))
  }

  function With(b: bv8, mask: bv8): bv8 {
    b | mask
  }

  function Without(b: bv8, mask: bv8): bv8 {
    b & !mask
  }

  function SetBit(b: bv8, k: nat, v: bool): bv8
    requires k < 8
  {
    if v then With(b, Mask(k)) else Without(b, Mask(k))
  }

  lemma MasksApart(k: nat, j: nat)
    requires k < 8 && j < 8
    ensures Mask(k) & Mask(j) == if k == j then Mask(k) else 0
    ensures Mask(k) != 0
  {
  }

  lemma SetBitTest(b: bv8, k: nat, v: bool, j: nat)
    requires k < 8 && j < 8
    ensures TestBit(SetBit(b, k, v), j) == if j == k then v else TestBit(b, j)
  {
    hide Mask, TestBit, With, Without;
    IsTest(b, j);
    IsTest(SetBit(b, k, v), j);
    MasksApart(k, j);
    Masking(b, Mask(k), Mask(j));
  }

  lemma Masking(b: bv8, m: bv8, n: bv8)
    ensures m & n == 0 ==> With(b, m) & n == b & n && Without(b, m) & n == b & n
    ensures m != 0 ==> With(b, m) & m == m && Without(b, m) & m == 0
  {
  }

  /** One bit of a byte string changed. */
  lemma BitsSet(b: seq<bv8>, i: nat, v: bool)
    requires i < 8 * |b|
    ensures Bits(b[i / 8 := SetBit(b[i / 8], i % 8, v)]) == Bits(b)[i := v]
  {
    hide TestBit, SetBit;
    var c := b[i / 8 := SetBit(b[i / 8], i % 8, v)];
    forall j | 0 <= j < 8 * |b| ensures Bits(c)[j] == Bits(b)[i := v][j] {
      SetBitTest(b[i / 8], i % 8, v, j % 8);
    }
  }

  lemma BitsConcat(a: seq<bv8>, b: seq<bv8>)
    ensures Bits(a + b) == Bits(a) + Bits(b)
  {
    hide TestBit;
    forall j | 0 <= j < 8 * |a + b| ensures Bits(a + b)[j] == (Bits(a) + Bits(b))[j] {
      if j >= 8 * |a| {
        assert j / 8 - |a| == (j - 8 * |a|) / 8 && j % 8 == (j - 8 * |a|) % 8;
      }
    }
  }

  lemma BitsAt(b: seq<bv8>, i: nat)
    requires i < 8 * |b|
    ensures Bits(b)[i] == TestBit(b[i / 8], i % 8)
  {
    hide TestBit;
  }

  /** auth_sha3_get_bit. */
  method GetBit(b: array<bv8>, x: nat, y: nat, z: nat) returns (v: bool)
    requires b.Length == BYTES && x < 5 && y < 5 && z < 64
    ensures v == Get(Bits(b[..]), x, y, z)
  {
    hide TestBit;
    var byte := (5 * y + x) * 64 + z;
    BitsAt(b[..], byte);
    v := b[byte / 8] & Mask(byte % 8) != 0;
    GetAt(Bits(b[..]), x, y, z);
    IsTest(b[byte / 8], byte % 8);
  }

  lemma IsTest(b: bv8, k: nat)
    requires k < 8
    ensures TestBit(b, k) == (b & Mask(k) != 0)
  {
  }

  /** The branch that sets or clears a bit. */
  method PutBit(b: array<bv8>, i: nat, v: bool)
    requires b.Length == BYTES && i < WIDTH
    modifies b
    ensures Bits(b[..]) == old(Bits(b[..]))[i := v]
  {
    hide Bits, TestBit, Mask, With, Without;
    ghost var was := b[..];
    BitsSet(was, i, v);
    if v {
      b[i / 8] := With(b[i / 8], Mask(i % 8));
    } else {
      b[i / 8] := Without(b[i / 8], Mask(i % 8));
    }
    assert b[..] == was[i / 8 := SetBit(was[i / 8], i % 8, v)];
  }

  // ----- Loops over all bits -----

  /** Bit `i` comes before (x, y, z) when x runs slowest and z fastest. */
  predicate Before(i: nat, x: nat, y: nat, z: nat) {
    X(i) < x || (X(i) == x && (Y(i) < y || (Y(i) == y && Z(i) < z)))
  }

  /** The bits before (x, y, z) are those of the target. */
  ghost predicate Filled(s: BitString, target: BitString, x: nat, y: nat, z: nat) {
    && |s| == |target| == WIDTH
    && forall i :: 0 <= i < WIDTH && Before(i, x, y, z) ==> s[i] == target[i]
  }

  lemma FilledStart(s: BitString, target: BitString)
    requires |s| == |target| == WIDTH
    ensures Filled(s, target, 0, 0, 0)
  {
    hide X, Y, Z;
  }

  lemma FilledStep(s: BitString, target: BitString, x: nat, y: nat, z: nat)
    requires Filled(s, target, x, y, z) && x < 5 && y < 5 && z < 64
    ensures Filled(s[At(x, y, z) := target[At(x, y, z)]], target, x, y, z + 1)
  {
    hide X, Y, Z, At;
    var at := At(x, y, z);
    var t := s[at := target[at]];
    forall i | 0 <= i < WIDTH && Before(i, x, y, z + 1) ensures t[i] == target[i] {
      AtXYZ(i);
    }
  }

  lemma FilledLane(s: BitString, target: BitString, x: nat, y: nat)
    requires Filled(s, target, x, y, 64)
    ensures Filled(s, target, x, y + 1, 0)
  {
    hide X, Y, Z;
  }

  lemma FilledSheet(s: BitString, target: BitString, x: nat)
    requires Filled(s, target, x, 5, 0)
    ensures Filled(s, target, x + 1, 0, 0)
  {
    hide X, Y, Z;
  }

  lemma FilledAll(s: BitString, target: BitString)
    requires Filled(s, target, 5, 0, 0)
    ensures s == target
  {
    hide X, Y, Z;
  }

  /** memcpy of the state. */
  method Copy(from: array<bv8>, to: array<bv8>)
    requires from.Length == BYTES && to.Length == BYTES && from != to
    modifies to
    ensures to[..] == from[..]
  {
    forall k | 0 <= k < BYTES {
      to[k] := from[k];
    }
  }

  // ----- The steps -----

  method ColumnParities(b: array<bv8>) returns (c: array2<bool>)
    requires b.Length == BYTES
    ensures fresh(c) && c.Length0 == 5 && c.Length1 == 64
    ensures forall x, z :: 0 <= x < 5 && 0 <= z < 64 ==> c[x, z] == Parity(Bits(b[..]), x, z)
  {
    hide Bits, Get;
    c := new bool[5, 64];
    for x := 0 to 5
      invariant forall u, z :: 0 <= u < x && 0 <= z < 64 ==> c[u, z] == Parity(Bits(b[..]), u, z)
    {
      for z := 0 to 64
        invariant forall u, w :: 0 <= u < x && 0 <= w < 64 ==> c[u, w] == Parity(Bits(b[..]), u, w)
        invariant forall w :: 0 <= w < z ==> c[x, w] == Parity(Bits(b[..]), x, w)
      {
        var v0 := GetBit(b, x, 0, z);
        var v1 := GetBit(b, x, 1, z);
        var v2 := GetBit(b, x, 2, z);
        var v3 := GetBit(b, x, 3, z);
        var v4 := GetBit(b, x, 4, z);
        c[x, z] := v0 != (v1 != (v2 != (v3 != v4)));
      }
    }
  }

  method ColumnEffects(c: array2<bool>, ghost s: BitString) returns (d: array2<bool>)
    requires |s| == WIDTH && c.Length0 == 5 && c.Length1 == 64
    requires forall x, z :: 0 <= x < 5 && 0 <= z < 64 ==> c[x, z] == Parity(s, x, z)
    ensures fresh(d) && Effects(d, s)
  {
    hide Parity;
    d := new bool[5, 64];
    for x := 0 to 5
      invariant forall u, z :: 0 <= u < x && 0 <= z < 64 ==> d[u, z] == ThetaEffect(s, u, z)
    {
      for z := 0 to 64
        invariant forall u, w :: 0 <= u < x && 0 <= w < 64 ==> d[u, w] == ThetaEffect(s, u, w)
        invariant forall w :: 0 <= w < z ==> d[x, w] == ThetaEffect(s, x, w)
      {
        ParityWraps(s, x, z);
        d[x, z] := c[if x == 0 then 4 else x - 1, z] != c[if x == 4 then 0 else x + 1, if z == 0 then 63 else z - 1];
      }
    }
  }

  lemma ParityWraps(s: BitString, x: int, z: int)
    requires |s| == WIDTH && 0 <= x < 5 && 0 <= z < 64
    ensures Parity(s, x - 1, z) == Parity(s, if x == 0 then 4 else x - 1, z)
    ensures Parity(s, x + 1, z - 1) == Parity(s, if x == 4 then 0 else x + 1, if z == 0 then 63 else z - 1)
  {
    hide Parity;
    SameParity(s, x - 1, if x == 0 then 4 else x - 1, z, z);
    SameParity(s, x + 1, if x == 4 then 0 else x + 1, z - 1, if z == 0 then 63 else z - 1);
  }

  lemma SameParity(s: BitString, x: int, x': int, z: int, z': int)
    requires |s| == WIDTH && x % 5 == x' % 5 && z % 64 == z' % 64
    ensures Parity(s, x, z) == Parity(s, x', z')
  {
    hide At;
  }

  ghost predicate Effects(d: array2<bool>, s: BitString)
    requires |s| == WIDTH
    reads d
  {
    && d.Length0 == 5 && d.Length1 == 64
    && forall x, z :: 0 <= x < 5 && 0 <= z < 64 ==> d[x, z] == ThetaEffect(s, x, z)
  }

  lemma EffectAt(d: array2<bool>, s: BitString, x: nat, z: nat)
    requires |s| == WIDTH && Effects(d, s) && x < 5 && z < 64
    ensures d.Length0 == 5 && d.Length1 == 64 && d[x, z] == ThetaEffect(s, x, z)
  {
  }

  /** The theta step. */
  method ThetaStep(b: array<bv8>)
    requires b.Length == BYTES
    modifies b
    ensures Bits(b[..]) == Theta(old(Bits(b[..])))
  {
    hide Bits, Get, Parity, ThetaEffect, Filled, At, Theta, Effects;
    ghost var s := Bits(b[..]);
    var c := ColumnParities(b);
    var d := ColumnEffects(c, s);
    var out := new bv8[BYTES](_ => 0);
    FilledStart(Bits(out[..]), Theta(s));
    for x := 0 to 5
      invariant Bits(b[..]) == s && Effects(d, s) && Filled(Bits(out[..]), Theta(s), x, 0, 0)
    {
      for y := 0 to 5
        invariant Bits(b[..]) == s && Effects(d, s) && Filled(Bits(out[..]), Theta(s), x, y, 0)
      {
        for z := 0 to 64
          invariant Bits(b[..]) == s && Effects(d, s) && Filled(Bits(out[..]), Theta(s), x, y, z)
        {
          var v := GetBit(b, x, y, z);
          EffectAt(d, s, x, z);
          ThetaAt(s, x, y, z);
          FilledStep(Bits(out[..]), Theta(s), x, y, z);
          PutBit(out, At(x, y, z), v != d[x, z]);
        }
        FilledLane(Bits(out[..]), Theta(s), x, y);
      }
      FilledSheet(Bits(out[..]), Theta(s), x);
    }
    FilledAll(Bits(out[..]), Theta(s));
    Copy(out, b);
  }

  /** The bits of the lanes before turn `u` of the walk, and those below `z` of that lane, are those of the target. */
  ghost predicate Walked(s: BitString, target: BitString, u: nat, z: nat) {
    && |s| == |target| == WIDTH
    && forall i :: 0 <= i < WIDTH && Reached(i, u, z) ==> s[i] == target[i]
  }

  predicate Reached(i: nat, u: nat, z: nat)
    requires i < WIDTH
  {
    Turn(X(i), Y(i)) < u || (Turn(X(i), Y(i)) == u && Z(i) < z)
  }

  lemma WalkedStart(s: BitString, target: BitString)
    requires |s| == |target| == WIDTH
    ensures Walked(s, target, 0, 0)
  {
    hide X, Y, Z, Turn;
  }

  lemma WalkedStep(s: BitString, target: BitString, x: nat, y: nat, z: nat)
    requires x < 5 && y < 5 && z < 64 && Walked(s, target, Turn(x, y), z)
    ensures Walked(s[At(x, y, z) := target[At(x, y, z)]], target, Turn(x, y), z + 1)
  {
    hide X, Y, Z, At, Turn;
    var at := At(x, y, z);
    var t := s[at := target[at]];
    TurnIsUnique(x, y);
    forall i | 0 <= i < WIDTH && Reached(i, Turn(x, y), z + 1) ensures t[i] == target[i] {
      AtXYZ(i);
      TurnIsUnique(X(i), Y(i));
      assert Reached(i, Turn(x, y), z) || At(X(i), Y(i), Z(i)) == at;
    }
  }

  lemma WalkedLane(s: BitString, target: BitString, u: nat)
    requires Walked(s, target, u, 64)
    ensures Walked(s, target, u + 1, 0)
  {
    hide X, Y, Z, Turn;
  }

  lemma WalkedAll(s: BitString, target: BitString)
    requires Walked(s, target, 25, 0)
    ensures s == target
  {
    hide X, Y, Z, Turn;
    forall i | 0 <= i < WIDTH ensures s[i] == target[i] {
      TurnIsUnique(X(i), Y(i));
      assert Reached(i, 25, 0);
    }
  }

  lemma OriginIsFirst(z: nat)
    requires z < 64
    ensures Turn(0, 0) == 0 && Offset(0, 0) == 0 && At(0, 0, z) == z && Turn(1, 0) == 1
  {
  }

  /** The code's index of the bit that rho moves. */
  lemma RhoSource(s: BitString, x: nat, y: nat, z: nat, t: nat)
    requires |s| == WIDTH && x < 5 && y < 5 && z < 64 && t < 24 && Turn(x, y) == t + 1
    ensures var k := (z + 320 - (t + 1) * (t + 2) / 2) % 64;
            0 <= k < 64 && Get(s, x, y, k) == RhoBit(s, x, y, z)
  {
    hide At, Turn, Offset;
    OffsetOfTurn(x, y);
    SmallTriangle(t);
    Around(z, (t + 1) * (t + 2) / 2);
  }

  lemma SmallTriangle(t: nat)
    requires t < 24
    ensures 0 <= (t + 1) * (t + 2) / 2 <= 300
  {
  }

  lemma Around(z: nat, k: nat)
    ensures (z + 320 - k) % 64 % 64 == (z - k) % 64
  {
    assert (z + 320 - k) % 64 == (z - k) % 64;
  }

  /** The rho step: lane (0, 0), and then the lanes along the walk. */
  method RhoStep(b: array<bv8>)
    requires b.Length == BYTES
    modifies b
    ensures Bits(b[..]) == Rho(old(Bits(b[..])))
  {
    hide Bits, Get, At, Walked, Rho, RhoBit, Turn, Offset;
    ghost var s := Bits(b[..]);
    var out := new bv8[BYTES](_ => 0);
    OriginIsFirst(0);
    WalkedStart(Bits(out[..]), Rho(s));
    for z := 0 to 64
      invariant Bits(b[..]) == s && Walked(Bits(out[..]), Rho(s), 0, z)
    {
      var v := GetBit(b, 0, 0, z);
      OriginIsFirst(z);
      OriginStays(s, z);
      RhoAt(s, 0, 0, z);
      WalkedStep(Bits(out[..]), Rho(s), 0, 0, z);
      PutBit(out, z, v);
    }
    WalkedLane(Bits(out[..]), Rho(s), 0);
    var x: nat, y: nat := 1, 0;
    for t := 0 to 24
      invariant x < 5 && y < 5 && (t < 24 ==> Turn(x, y) == t + 1)
      invariant Bits(b[..]) == s && Walked(Bits(out[..]), Rho(s), t + 1, 0)
    {
      for z := 0 to 64
        invariant Bits(b[..]) == s && Walked(Bits(out[..]), Rho(s), t + 1, z)
      {
        RhoSource(s, x, y, z, t);
        var v := GetBit(b, x, y, (z + 320 - (t + 1) * (t + 2) / 2) % 64);
        RhoAt(s, x, y, z);
        WalkedStep(Bits(out[..]), Rho(s), x, y, z);
        PutBit(out, At(x, y, z), v);
      }
      WalkedLane(Bits(out[..]), Rho(s), t + 1);
      if t < 23 {
        TurnFollows(x, y);
      }
      x, y := y, (2 * x + 3 * y) % 5;
    }
    WalkedAll(Bits(out[..]), Rho(s));
    Copy(out, b);
  }

  lemma OriginStays(s: BitString, z: nat)
    requires |s| == WIDTH && z < 64
    ensures RhoBit(s, 0, 0, z) == Get(s, 0, 0, z)
  {
    hide Get;
  }

  /** The pi step. */
  method PiStep(b: array<bv8>)
    requires b.Length == BYTES
    modifies b
    ensures Bits(b[..]) == Pi(old(Bits(b[..])))
  {
    hide Bits, Get, Filled, At, Pi;
    ghost var s := Bits(b[..]);
    var out := new bv8[BYTES](_ => 0);
    FilledStart(Bits(out[..]), Pi(s));
    for x := 0 to 5
      invariant Bits(b[..]) == s && Filled(Bits(out[..]), Pi(s), x, 0, 0)
    {
      for y := 0 to 5
        invariant Bits(b[..]) == s && Filled(Bits(out[..]), Pi(s), x, y, 0)
      {
        for z := 0 to 64
          invariant Bits(b[..]) == s && Filled(Bits(out[..]), Pi(s), x, y, z)
        {
          var v := GetBit(b, (x + 3 * y) % 5, x, z);
          GetModulo(s, x + 3 * y, x, z);
          PiAt(s, x, y, z);
          FilledStep(Bits(out[..]), Pi(s), x, y, z);
          PutBit(out, At(x, y, z), v);
        }
        FilledLane(Bits(out[..]), Pi(s), x, y);
      }
      FilledSheet(Bits(out[..]), Pi(s), x);
    }
    FilledAll(Bits(out[..]), Pi(s));
    Copy(out, b);
  }

  lemma GetModulo(s: BitString, x: nat, y: nat, z: nat)
    requires |s| == WIDTH
    ensures Get(s, x % 5, y, z) == Get(s, x, y, z)
  {
    hide At;
    assert x % 5 % 5 == x % 5;
  }

  /** The chi step. */
  method ChiStep(b: array<bv8>)
    requires b.Length == BYTES
    modifies b
    ensures Bits(b[..]) == Chi(old(Bits(b[..])))
  {
    hide Bits, Get, Filled, At, Chi;
    ghost var s := Bits(b[..]);
    var out := new bv8[BYTES](_ => 0);
    FilledStart(Bits(out[..]), Chi(s));
    for x := 0 to 5
      invariant Bits(b[..]) == s && Filled(Bits(out[..]), Chi(s), x, 0, 0)
    {
      for y := 0 to 5
        invariant Bits(b[..]) == s && Filled(Bits(out[..]), Chi(s), x, y, 0)
      {
        for z := 0 to 64
          invariant Bits(b[..]) == s && Filled(Bits(out[..]), Chi(s), x, y, z)
        {
          var v := GetBit(b, x, y, z);
          var v1 := GetBit(b, (x + 1) % 5, y, z);
          var v2 := GetBit(b, (x + 2) % 5, y, z);
          GetModulo(s, x + 1, y, z);
          GetModulo(s, x + 2, y, z);
          ChiAt(s, x, y, z);
          FilledStep(Bits(out[..]), Chi(s), x, y, z);
          PutBit(out, At(x, y, z), v != (!v1 && v2));
        }
        FilledLane(Bits(out[..]), Chi(s), x, y);
      }
      FilledSheet(Bits(out[..]), Chi(s), x);
    }
    FilledAll(Bits(out[..]), Chi(s));
    Copy(out, b);
  }

  // ----- The iota step and the round -----

  function Power(j: nat): nat
    requires j <= 7
  {
    if j == 0 then 1 else 2 * Power(j - 1)
  }

  /** The round constant with its bits for exponents from `j` on left out. */
  predicate PartialConstant(ir: nat, j: nat, z: nat) {
    || (j > 0 && z == 0 && RcBit(7 * ir)) || (j > 1 && z == 1 && RcBit(1 + 7 * ir))
    || (j > 2 && z == 3 && RcBit(2 + 7 * ir)) || (j > 3 && z == 7 && RcBit(3 + 7 * ir))
    || (j > 4 && z == 15 && RcBit(4 + 7 * ir)) || (j > 5 && z == 31 && RcBit(5 + 7 * ir))
    || (j > 6 && z == 63 && RcBit(6 + 7 * ir))
  }

  lemma PartialStep(ir: nat, j: nat, z: nat)
    requires j < 7 && z < 64
    ensures 1 <= Power(j) <= 64 && Power(j + 1) == 2 * Power(j)
    ensures PartialConstant(ir, j + 1, z) == if z == Power(j) - 1 then RcBit(j + 7 * ir) else PartialConstant(ir, j, z)
    ensures !PartialConstant(ir, 0, z)
    ensures PartialConstant(ir, 7, z) == RoundConstant(ir, z)
  {
    hide RcBit;
    assert Power(1) == 2 * Power(0) && Power(2) == 2 * Power(1) && Power(3) == 2 * Power(2);
    assert Power(4) == 2 * Power(3) && Power(5) == 2 * Power(4) && Power(6) == 2 * Power(5);
  }

  ghost predicate Partial(rc: seq<bool>, ir: nat, j: nat) {
    |rc| == 64 && forall z :: 0 <= z < 64 ==> rc[z] == PartialConstant(ir, j, z)
  }

  lemma PartialNext(rc: seq<bool>, ir: nat, j: nat)
    requires Partial(rc, ir, j) && j < 7
    ensures 1 <= Power(j) <= 64 && Power(j + 1) == 2 * Power(j)
    ensures Partial(rc[Power(j) - 1 := RcBit(j + 7 * ir)], ir, j + 1)
  {
    hide PartialConstant, RcBit, Power;
    PartialStep(ir, j, 0);
    var next := rc[Power(j) - 1 := RcBit(j + 7 * ir)];
    forall z | 0 <= z < 64 ensures next[z] == PartialConstant(ir, j + 1, z) {
      PartialStep(ir, j, z);
    }
  }

  lemma PartialEnds(rc: seq<bool>, ir: nat)
    ensures |rc| == 64 && (forall z :: 0 <= z < 64 ==> !rc[z]) ==> Partial(rc, ir, 0)
    ensures Partial(rc, ir, 7) ==> Constants(rc, ir)
    ensures Power(0) == 1
  {
    hide PartialConstant, RcBit;
    forall z | 0 <= z < 64 ensures !PartialConstant(ir, 0, z) {
      PartialStep(ir, 0, z);
    }
    forall z | 0 <= z < 64 ensures PartialConstant(ir, 7, z) == RoundConstant(ir, z) {
      PartialStep(ir, 0, z);
    }
  }

  ghost predicate Constants(rc: seq<bool>, ir: nat) {
    |rc| == 64 && forall z :: 0 <= z < 64 ==> rc[z] == RoundConstant(ir, z)
  }

  /** The loop that spreads the table bits over the lane. */
  method ConstantBits(ir: nat) returns (rc: array<bool>)
    requires ir < ROUNDS
    ensures fresh(rc) && rc.Length == 64 && Constants(rc[..], ir)
  {
    hide Partial, Constants, RcBit, TestBit, Power, RcByte;
    rc := new bool[64](_ => false);
    PartialEnds(rc[..], ir);
    var t := 1;
    for j := 0 to 7
      invariant t == Power(j) && Partial(rc[..], ir, j)
    {
      var byte := j + 7 * ir;
      TableIsRc(byte);
      TestOf(byte);
      ghost var was := rc[..];
      PartialNext(was, ir, j);
      rc[t - 1] := RC[byte / 8] & Mask(byte % 8) != 0;
      assert rc[..] == was[t - 1 := RcBit(byte)];
      t := 2 * t;
    }
    PartialEnds(rc[..], ir);
  }

  lemma TestOf(t: nat)
    requires t < 256
    ensures TestBit(RcByte(t / 8), t % 8) == (RC[t / 8] & Mask(t % 8) != 0)
  {
  }

  lemma IotaLow(s: BitString, ir: nat, i: nat)
    requires |s| == WIDTH && i < WIDTH
    ensures Iota(s, ir)[i] == if i < 64 then s[i] != RoundConstant(ir, i) else s[i]
    ensures i < 64 ==> Get(s, 0, 0, i) == s[i]
  {
    hide RoundConstant, Get;
    AtXYZ(i);
    IotaAt(s, ir, X(i), Y(i), Z(i));
    GetAt(s, X(i), Y(i), Z(i));
  }

  /** The first `z` bits are those of the target, the others those of `s`. */
  ghost predicate Blended(now: BitString, s: BitString, target: BitString, z: nat) {
    |now| == |s| == |target| == WIDTH && forall i :: 0 <= i < WIDTH ==> now[i] == if i < z then target[i] else s[i]
  }

  lemma BlendedStep(now: BitString, s: BitString, target: BitString, z: nat)
    requires Blended(now, s, target, z) && z < WIDTH
    ensures Blended(now[z := target[z]], s, target, z + 1) && now[z] == s[z]
  {
  }

  lemma BlendedIota(now: BitString, s: BitString, ir: nat)
    requires |s| == WIDTH
    ensures Blended(s, s, Iota(s, ir), 0)
    ensures Blended(now, s, Iota(s, ir), 64) ==> now == Iota(s, ir)
  {
    hide Iota;
    forall i | 64 <= i < WIDTH ensures Iota(s, ir)[i] == s[i] {
      IotaLow(s, ir, i);
    }
  }

  lemma ConstantAt(rc: seq<bool>, ir: nat, z: nat)
    requires Constants(rc, ir) && z < 64
    ensures |rc| == 64 && rc[z] == RoundConstant(ir, z)
  {
  }

  /** The iota step, in place on lane (0, 0). */
  method IotaStep(b: array<bv8>, ir: nat)
    requires b.Length == BYTES && ir < ROUNDS
    modifies b
    ensures Bits(b[..]) == Iota(old(Bits(b[..])), ir)
  {
    hide Bits, Get, Iota, RoundConstant, Blended, Constants;
    ghost var s := Bits(b[..]);
    var rc := ConstantBits(ir);
    BlendedIota(s, s, ir);
    for z := 0 to 64
      invariant Constants(rc[..], ir) && Blended(Bits(b[..]), s, Iota(s, ir), z)
    {
      ghost var now := Bits(b[..]);
      var v := GetBit(b, 0, 0, z);
      IotaLow(now, ir, z);
      IotaLow(s, ir, z);
      BlendedStep(now, s, Iota(s, ir), z);
      ConstantAt(rc[..], ir, z);
      PutBit(b, z, rc[z] != v);
    }
    BlendedIota(Bits(b[..]), s, ir);
  }

  /** auth_sha3_round: one round of the permutation. */
  method RoundStep(b: array<bv8>, ir: nat)
    requires b.Length == BYTES && ir < ROUNDS
    modifies b
    ensures Bits(b[..]) == Round(old(Bits(b[..])), ir)
  {
    hide Bits, Theta, Rho, Pi, Chi, Iota;
    ThetaStep(b);
    RhoStep(b);
    PiStep(b);
    ChiStep(b);
    IotaStep(b, ir);
  }

  /** The loop over the rounds. */
  method Permute(b: array<bv8>)
    requires b.Length == BYTES
    modifies b
    ensures Bits(b[..]) == Rounds(old(Bits(b[..])), ROUNDS)
  {
    hide Bits, Round;
    ghost var s := Bits(b[..]);
    for k := 0 to ROUNDS
      invariant Bits(b[..]) == Rounds(s, k)
    {
      RoundStep(b, k);
    }
  }

  // ----- The sponge, byte by byte -----

  const BLOCK := 72

  function Nothing(): BitString {
    seq(WIDTH, _ => false)
  }

  lemma XorTest(a: bv8, b: bv8, k: nat)
    requires k < 8
    ensures TestBit(a ^ b, k) == (TestBit(a, k) != TestBit(b, k))
  {
    hide Mask;
    XorMask(a, b, Mask(k));
    OneBit(a, k);
    OneBit(b, k);
    SmallXors(Mask(k));
  }

  lemma XorMask(a: bv8, b: bv8, m: bv8)
    ensures (a ^ b) & m == (a & m) ^ (b & m)
  {
  }

  lemma OneBit(a: bv8, k: nat)
    requires k < 8
    ensures a & Mask(k) == 0 || a & Mask(k) == Mask(k)
    ensures Mask(k) != 0
  {
  }

  lemma SmallXors(m: bv8)
    ensures (0 as bv8) ^ 0 == 0 && m ^ 0 == m && 0 ^ m == m && m ^ m == 0
  {
  }

  lemma AddedAt(s: BitString, t: BitString, k: nat)
    requires |t| <= |s| && k < |s|
    ensures AddInto(s, t)[k] == if k < |t| then s[k] != t[k] else s[k]
  {
  }

  /** The byte string with `c` added to one byte. */
  function AddByte(b: seq<bv8>, i: nat, c: bv8): (b': seq<bv8>)
    requires i < |b|
    ensures |b'| == |b|
  {
    b[i := b[i] ^ c]
  }

  /** A byte added behind the bits that were added before. */
  lemma XorByte(b: seq<bv8>, i: nat, c: bv8, s: BitString, t: BitString)
    requires |b| == BYTES && i < BYTES && |s| == WIDTH && |t| == 8 * i
    requires Bits(b) == AddInto(s, t)
    ensures Bits(AddByte(b, i, c)) == AddInto(s, t + Bits([c]))
  {
    hide TestBit, Bits, AddInto, AddByte;
    var b' := AddByte(b, i, c);
    forall k | 0 <= k < WIDTH ensures Bits(b')[k] == AddInto(s, t + Bits([c]))[k] {
      XorByteAt(b, i, c, s, t, k);
    }
  }

  lemma XorByteAt(b: seq<bv8>, i: nat, c: bv8, s: BitString, t: BitString, k: nat)
    requires |b| == BYTES && i < BYTES && |s| == WIDTH && |t| == 8 * i && k < WIDTH
    requires Bits(b) == AddInto(s, t)
    ensures Bits(AddByte(b, i, c))[k] == AddInto(s, t + Bits([c]))[k]
  {
    hide TestBit, Bits, AddInto;
    AddedAt(s, t, k);
    AddedAt(s, t + Bits([c]), k);
    BitsAt(b, k);
    BitsAt(AddByte(b, i, c), k);
    if k / 8 == i {
      XorTest(b[i], c, k % 8);
      assert k - 8 * i == k % 8;
      BitsAt([c], k - 8 * i);
    }
  }

  lemma AddZeros(s: BitString, t: BitString, z: BitString)
    requires |t| + |z| <= |s| && forall k :: 0 <= k < |z| ==> !z[k]
    ensures AddInto(s, t + z) == AddInto(s, t)
    ensures AddInto(s, []) == s
  {
  }

  lemma BitsOfZeros(b: seq<bv8>)
    requires forall k :: 0 <= k < |b| ==> b[k] == 0
    ensures forall k :: 0 <= k < 8 * |b| ==> !Bits(b)[k]
  {
  }

  /** The padding of the last block that holds `i` bytes of the message. */
  function PadBytes(i: nat): (p: seq<bv8>)
    requires i < BLOCK
    ensures |p| == BLOCK - i
  {
    if i == BLOCK - 1 then [0x86] else [0x06] + seq(BLOCK - 2 - i, _ => 0) + [0x80]
  }

  lemma SpecialBytes(k: nat)
    requires k < 8
    ensures TestBit(0x06, k) == (k == 1 || k == 2)
    ensures TestBit(0x80, k) == (k == 7)
    ensures TestBit(0x86, k) == (k == 1 || k == 2 || k == 7)
    ensures !TestBit(0x00, k)
  {
  }

  /** Appendix B.2: the padding bytes are the suffix 01 and pad10*1. */
  lemma PaddingInBytes(m: nat)
    ensures Bits(PadBytes(m % BLOCK)) == [false, true] + Pad(8 * m + 2)
  {
    hide TestBit;
    var i := m % BLOCK;
    var p := PadBytes(i);
    assert (8 * m + 2) % RATE == 8 * i + 2;
    var q := [false, true] + Pad(8 * m + 2);
    assert |q| == 8 * |p|;
    forall k | 0 <= k < 8 * |p| ensures Bits(p)[k] == q[k] {
      BitsAt(p, k);
      SpecialBytes(k % 8);
    }
  }

  /** Both padding bytes are added, to one byte when the block has room for one only. */
  lemma PaddingAdded(b: seq<bv8>, i: nat, s: BitString, t: BitString)
    requires |b| == BYTES && i < BLOCK && |s| == WIDTH && |t| == 8 * i && Bits(b) == AddInto(s, t)
    ensures Bits(AddByte(AddByte(b, i, 0x06), BLOCK - 1, 0x80)) == AddInto(s, t + Bits(PadBytes(i)))
  {
    hide Bits, AddInto, PadBytes, AddByte;
    if i == BLOCK - 1 {
      XorByte(b, i, 0x86, s, t);
      TwoXors(b, i);
      ShortPadding();
    } else {
      XorByte(b, i, 0x06, s, t);
      var u := t + Bits([0x06]);
      var z := Gap(i);
      BitsOfZeros(z);
      AddZeros(s, u, Bits(z));
      XorByte(AddByte(b, i, 0x06), BLOCK - 1, 0x80, s, u + Bits(z));
      LongPadding(i, t);
    }
  }

  function Gap(i: nat): (z: seq<bv8>)
    requires i < BLOCK - 1
    ensures |z| == BLOCK - 2 - i && forall k :: 0 <= k < |z| ==> z[k] == 0
  {
    seq(BLOCK - 2 - i, _ => 0)
  }

  lemma ShortPadding()
    ensures PadBytes(BLOCK - 1) == [0x86]
  {
  }

  lemma LongPadding(i: nat, t: BitString)
    requires i < BLOCK - 1
    ensures t + Bits(PadBytes(i)) == t + Bits([0x06]) + Bits(Gap(i)) + Bits([0x80])
  {
    hide Bits;
    BitsConcat([0x06], Gap(i));
    BitsConcat([0x06] + Gap(i), [0x80]);
    assert PadBytes(i) == [0x06] + Gap(i) + [0x80];
  }

  lemma TwoXors(b: seq<bv8>, i: nat)
    requires i < |b|
    ensures AddByte(AddByte(b, i, 0x06), i, 0x80) == AddByte(b, i, 0x86)
  {
    XorTwice(b[i]);
  }

  lemma XorTwice(x: bv8)
    ensures (x ^ 0x06) ^ 0x80 == x ^ 0x86
  {
  }

  /** The sponge has absorbed all blocks of the first `j` bytes, and the `i` bytes of an unfinished block are added. */
  ghost predicate Absorbed(b: seq<bv8>, input: seq<bv8>, i: nat, j: nat) {
    && |b| == BYTES && i < BLOCK && i <= j <= |input| && (j - i) % BLOCK == 0
    && Whole(j - i) && Bits(b) == AddInto(Absorb(Nothing(), Bits(input[..j - i])), Bits(input[j - i..j]))
  }

  /** A whole number of blocks has as many bits as blocks of the rate. */
  predicate Whole(n: nat) {
    8 * n % RATE == 0
  }

  lemma WholeBlocks(n: nat)
    requires n % BLOCK == 0
    ensures Whole(n) && (n + BLOCK) % BLOCK == 0
  {
    assert 8 * n == RATE * (n / BLOCK);
  }

  lemma NothingAbsorbed(b: seq<bv8>, input: seq<bv8>)
    requires |b| == BYTES && forall k :: 0 <= k < BYTES ==> b[k] == 0
    ensures Absorbed(b, input, 0, 0)
  {
    hide TestBit;
    BitsOfZeros(b);
    assert Bits(b) == Nothing();
    assert Bits(input[..0]) == [] && Bits(input[0..0]) == [];
    assert Absorb(Nothing(), []) == Nothing();
    AddZeros(Nothing(), [], []);
  }

  /** One more byte, inside the block. */
  lemma ByteAbsorbed(b: seq<bv8>, input: seq<bv8>, i: nat, j: nat)
    requires Absorbed(b, input, i, j) && j < |input|
    ensures |b| == BYTES && (j - i) % BLOCK == 0 && i <= j && Whole(j - i)
    ensures Bits(AddByte(b, i, input[j])) ==
      AddInto(Absorb(Nothing(), Bits(input[..j - i])), Bits(input[j - i..j + 1]))
    ensures i + 1 < BLOCK ==> Absorbed(AddByte(b, i, input[j]), input, i + 1, j + 1)
  {
    hide Bits, Absorb, AddInto, AddByte, Whole;
    var s, t := Absorb(Nothing(), Bits(input[..j - i])), Bits(input[j - i..j]);
    XorByte(b, i, input[j], s, t);
    BitsConcat(input[j - i..j], [input[j]]);
    assert input[j - i..j + 1] == input[j - i..j] + [input[j]];
  }

  /** A finished block, permuted. */
  lemma BlockAbsorbed(b: seq<bv8>, b': seq<bv8>, input: seq<bv8>, j: nat)
    requires BLOCK <= j <= |input| && j % BLOCK == 0 && |b| == |b'| == BYTES && Whole(j - BLOCK)
    requires Bits(b) == AddInto(Absorb(Nothing(), Bits(input[..j - BLOCK])), Bits(input[j - BLOCK..j]))
    requires Bits(b') == Rounds(Bits(b), ROUNDS)
    ensures Absorbed(b', input, 0, j)
  {
    hide Bits, Absorb, AddInto, Rounds;
    AbsorbLast(Nothing(), Bits(input[..j - BLOCK]), Bits(input[j - BLOCK..j]));
    BitsConcat(input[..j - BLOCK], input[j - BLOCK..j]);
    assert input[..j] == input[..j - BLOCK] + input[j - BLOCK..j];
    WholeBlocks(j);
    NoBits(input[j..j]);
    AddZeros(Bits(b'), [], []);
  }

  lemma NoBits(b: seq<bv8>)
    requires |b| == 0
    ensures Bits(b) == []
  {
  }

  /** The last block, padded and permuted, ends the sponge. */
  lemma LastBlock(b: seq<bv8>, b': seq<bv8>, input: seq<bv8>, i: nat)
    requires Absorbed(b, input, i, |input|) && |b'| == BYTES
    requires Bits(b') == Rounds(Bits(AddByte(AddByte(b, i, 0x06), BLOCK - 1, 0x80)), ROUNDS)
    ensures Bits(b')[..512] == Sha3With512Bits(Bits(input))
  {
    hide Bits, Absorb, AddInto, Rounds, AddByte, PadBytes, Pad;
    var m := |input|;
    var full, tail := Bits(input[..m - i]), Bits(input[m - i..m]);
    PaddingAdded(b, i, Absorb(Nothing(), full), tail);
    AbsorbLast(Nothing(), full, tail + Bits(PadBytes(i)));
    assert m % BLOCK == i;
    PaddingInBytes(m);
    BitsConcat(input[..m - i], input[m - i..m]);
    assert input == input[..m - i] + input[m - i..m];
    var n := Bits(input) + [false, true];
    assert full + (tail + Bits(PadBytes(i))) == n + Pad(|n|);
  }

  /** auth_sha3_512: the hash of any message is the one of FIPS 202. */
  method Sha3Hash(input: seq<bv8>, hash: array<bv8>)
    requires hash.Length >= 64
    modifies hash
    ensures Bits(hash[..64]) == Sha3With512Bits(Bits(input))
    ensures hash[64..] == old(hash[64..])
  {
    hide Bits, Absorb, AddInto, Rounds, Absorbed, Sha3With512Bits, Whole;
    var b := new bv8[BYTES](_ => 0);
    NothingAbsorbed(b[..], input);
    var i, j := 0, 0;
    while j < |input|
      invariant 0 <= i < BLOCK && 0 <= j <= |input| && Absorbed(b[..], input, i, j)
      invariant hash[64..] == old(hash[64..])
    {
      ghost var was := b[..];
      ByteAbsorbed(was, input, i, j);
      b[i] := b[i] ^ input[j];
      assert b[..] == AddByte(was, i, input[j]);
      j := j + 1;
      i := i + 1;
      if i == BLOCK {
        ghost var mid := b[..];
        Permute(b);
        BlockAbsorbed(mid, b[..], input, j);
        i := 0;
      }
    }
    ghost var was := b[..];
    b[i] := b[i] ^ 0x06;
    b[71] := b[71] ^ 0x80;
    assert b[..] == AddByte(AddByte(was, i, 0x06), BLOCK - 1, 0x80);
    Permute(b);
    LastBlock(was, b[..], input, i);
    CopyFront(b, hash);
    FrontBits(b[..], 64);
  }

  /** memcpy of the hash. */
  method CopyFront(b: array<bv8>, hash: array<bv8>)
    requires b.Length == BYTES && hash.Length >= 64 && b != hash
    modifies hash
    ensures hash[..64] == b[..64] && hash[64..] == old(hash[64..])
  {
    ghost var was := hash[..];
    forall k | 0 <= k < 64 {
      hash[k] := b[k];
    }
    assert forall k :: 64 <= k < hash.Length ==> hash[k] == was[k];
  }

  lemma FrontBits(b: seq<bv8>, n: nat)
    requires n <= |b|
    ensures Bits(b[..n]) == Bits(b)[..8 * n]
  {
    hide TestBit;
  }
}
