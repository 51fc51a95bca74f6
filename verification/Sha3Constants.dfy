/** The round constant table of auth/auth_sha3.c, and the walk over the lanes. */
module Sha3Constants {
  import opened Keccak

  /** auth_sha3_bits. */
  function Mask(k: nat): bv8
    requires k < 8
  {
    if k == 0 then 0x01 else if k == 1 then 0x02 else if k == 2 then 0x04 else if k == 3 then 0x08
    else if k == 4 then 0x10 else if k == 5 then 0x20 else if k == 6 then 0x40 else 0x80
  }

  predicate TestBit(b: bv8, k: nat)
    requires k < 8
  {
    b & Mask(k) != 0
  }

  /** auth_sha3_rc. */
  const RC: seq<bv8> := [
    0x01, 0x8d, 0x17, 0xfe, 0x09, 0xe5, 0xab, 0x0e,
    0x46, 0xcd, 0xf4, 0x7b, 0x76, 0xa7, 0x52, 0xa4,
    0xc5, 0x9c, 0xc7, 0x86, 0xe8, 0x7a, 0xfb, 0xb0,
    0xac, 0xad, 0x20, 0x37, 0xc9, 0xc0, 0x25, 0x8e]

  /** The register of algorithm 5 of FIPS 202 after each eight steps. */
  const REGISTERS: seq<bv8> := [
    0x01, 0x71, 0xf3, 0xd0, 0x2f, 0x51, 0x9f, 0xca,
    0xe0, 0x75, 0x46, 0x8f, 0xfc, 0xed, 0xaa, 0x54,
    0x5b, 0x66, 0xe3, 0xe6, 0x22, 0x8e, 0x8d, 0x1e,
    0x7a, 0x7b, 0x0a, 0xf9, 0x29, 0x06, 0x57, 0xc8]

  function RcByte(k: nat): bv8
    requires k < 32
  {
    RC[k]
  }

  function RegisterAt(k: nat): bv8
    requires k < 32
  {
    REGISTERS[k]
  }

  /** The register after `n` steps from `r`. */
  function ShiftBy(r: bv8, n: nat): bv8 {
    if n == 0 then r else Shift(ShiftBy(r, n - 1))
  }

  lemma {:induction false} RegisterFrom(t: nat, n: nat)
    ensures Register(t + n) == ShiftBy(Register(t), n)
  {
    hide Shift;
    if n > 0 {
      RegisterFrom(t, n - 1);
    }
  }

  /** The register after eight steps, and the byte made of the low bits on the way. */
  function After8(r: bv8): bv8 {
    Shift(Shift(Shift(Shift(Shift(Shift(Shift(Shift(r))))))))
  }

  function Output8(r: bv8): bv8 {
    var r1 := Shift(r);
    var r2 := Shift(r1);
    var r3 := Shift(r2);
    var r4 := Shift(r3);
    var r5 := Shift(r4);
    var r6 := Shift(r5);
    var r7 := Shift(r6);
    Gather(r, r1, r2, r3, r4, r5, r6, r7)
  }

  function Gather(r0: bv8, r1: bv8, r2: bv8, r3: bv8, r4: bv8, r5: bv8, r6: bv8, r7: bv8): bv8 {
    (r0 & 1) | ((r1 & 1) << 1) | ((r2 & 1) << 2) | ((r3 & 1) << 3)
    | ((r4 & 1) << 4) | ((r5 & 1) << 5) | ((r6 & 1) << 6) | ((r7 & 1) << 7)
  }

  lemma GatherBits(r0: bv8, r1: bv8, r2: bv8, r3: bv8, r4: bv8, r5: bv8, r6: bv8, r7: bv8)
    ensures var g := Gather(r0, r1, r2, r3, r4, r5, r6, r7);
      && (TestBit(g, 0) <==> r0 & 1 != 0) && (TestBit(g, 1) <==> r1 & 1 != 0)
      && (TestBit(g, 2) <==> r2 & 1 != 0) && (TestBit(g, 3) <==> r3 & 1 != 0)
      && (TestBit(g, 4) <==> r4 & 1 != 0) && (TestBit(g, 5) <==> r5 & 1 != 0)
      && (TestBit(g, 6) <==> r6 & 1 != 0) && (TestBit(g, 7) <==> r7 & 1 != 0)
  {
  }

  lemma OutputBits(r: bv8, i: nat)
    requires i < 8
    ensures TestBit(Output8(r), i) <==> ShiftBy(r, i) & 1 != 0
  {
    hide Shift, Gather, TestBit, Mask;
    var r1 := ShiftBy(r, 1);
    var r2 := ShiftBy(r, 2);
    var r3 := ShiftBy(r, 3);
    var r4 := ShiftBy(r, 4);
    var r5 := ShiftBy(r, 5);
    var r6 := ShiftBy(r, 6);
    var r7 := ShiftBy(r, 7);
    assert ShiftBy(r, 0) == r;
    assert r1 == Shift(r) && r2 == Shift(r1) && r3 == Shift(r2) && r4 == Shift(r3);
    assert r5 == Shift(r4) && r6 == Shift(r5) && r7 == Shift(r6);
    GatherBits(r, r1, r2, r3, r4, r5, r6, r7);
  }

  lemma After8Is(r: bv8)
    ensures After8(r) == ShiftBy(r, 8)
  {
    hide Shift;
    assert ShiftBy(r, 1) == Shift(ShiftBy(r, 0)) && ShiftBy(r, 2) == Shift(ShiftBy(r, 1));
    assert ShiftBy(r, 3) == Shift(ShiftBy(r, 2)) && ShiftBy(r, 4) == Shift(ShiftBy(r, 3));
    assert ShiftBy(r, 5) == Shift(ShiftBy(r, 4)) && ShiftBy(r, 6) == Shift(ShiftBy(r, 5));
    assert ShiftBy(r, 7) == Shift(ShiftBy(r, 6)) && ShiftBy(r, 8) == Shift(ShiftBy(r, 7));
  }

  /** An entry of the table is the output of eight steps, which lead to the next register. */
  predicate Entry(k: nat)
    requires k < 32
  {
    Output8(RegisterAt(k)) == RcByte(k) && (k < 31 ==> After8(RegisterAt(k)) == RegisterAt(k + 1))
  }

  lemma Computed0()
    ensures Output8(0x01) == 0x01 && After8(0x01) == 0x71
    ensures Output8(0x71) == 0x8d && After8(0x71) == 0xf3
    ensures Output8(0xf3) == 0x17 && After8(0xf3) == 0xd0
    ensures Output8(0xd0) == 0xfe && After8(0xd0) == 0x2f
    ensures Output8(0x2f) == 0x09 && After8(0x2f) == 0x51
    ensures Output8(0x51) == 0xe5 && After8(0x51) == 0x9f
    ensures Output8(0x9f) == 0xab && After8(0x9f) == 0xca
    ensures Output8(0xca) == 0x0e && After8(0xca) == 0xe0
  {
  }

  lemma TableEntries0(k: nat)
    requires 0 <= k < 8
    ensures Entry(k)
  {
    hide Output8, After8;
    Computed0();
  }

  lemma Computed1()
    ensures Output8(0xe0) == 0x46 && After8(0xe0) == 0x75
    ensures Output8(0x75) == 0xcd && After8(0x75) == 0x46
    ensures Output8(0x46) == 0xf4 && After8(0x46) == 0x8f
    ensures Output8(0x8f) == 0x7b && After8(0x8f) == 0xfc
    ensures Output8(0xfc) == 0x76 && After8(0xfc) == 0xed
    ensures Output8(0xed) == 0xa7 && After8(0xed) == 0xaa
    ensures Output8(0xaa) == 0x52 && After8(0xaa) == 0x54
    ensures Output8(0x54) == 0xa4 && After8(0x54) == 0x5b
  {
  }

  lemma TableEntries1(k: nat)
    requires 8 <= k < 16
    ensures Entry(k)
  {
    hide Output8, After8;
    Computed1();
  }

  lemma Computed2()
    ensures Output8(0x5b) == 0xc5 && After8(0x5b) == 0x66
    ensures Output8(0x66) == 0x9c && After8(0x66) == 0xe3
    ensures Output8(0xe3) == 0xc7 && After8(0xe3) == 0xe6
    ensures Output8(0xe6) == 0x86 && After8(0xe6) == 0x22
    ensures Output8(0x22) == 0xe8 && After8(0x22) == 0x8e
    ensures Output8(0x8e) == 0x7a && After8(0x8e) == 0x8d
    ensures Output8(0x8d) == 0xfb && After8(0x8d) == 0x1e
    ensures Output8(0x1e) == 0xb0 && After8(0x1e) == 0x7a
  {
  }

  lemma TableEntries2(k: nat)
    requires 16 <= k < 24
    ensures Entry(k)
  {
    hide Output8, After8;
    Computed2();
  }

  lemma Computed3()
    ensures Output8(0x7a) == 0xac && After8(0x7a) == 0x7b
    ensures Output8(0x7b) == 0xad && After8(0x7b) == 0x0a
    ensures Output8(0x0a) == 0x20 && After8(0x0a) == 0xf9
    ensures Output8(0xf9) == 0x37 && After8(0xf9) == 0x29
    ensures Output8(0x29) == 0xc9 && After8(0x29) == 0x06
    ensures Output8(0x06) == 0xc0 && After8(0x06) == 0x57
    ensures Output8(0x57) == 0x25 && After8(0x57) == 0xc8
    ensures Output8(0xc8) == 0x8e && After8(0xc8) == 0x02
  {
  }

  lemma TableEntries3(k: nat)
    requires 24 <= k < 32
    ensures Entry(k)
  {
    hide Output8, After8;
    Computed3();
  }

  lemma TableEntry(k: nat)
    requires k < 32
    ensures Entry(k)
  {
    hide Entry;
    if k < 8 {
      TableEntries0(k);
    } else if k < 16 {
      TableEntries1(k);
    } else if k < 24 {
      TableEntries2(k);
    } else {
      TableEntries3(k);
    }
  }

  lemma FirstRegister()
    ensures Register(0) == RegisterAt(0)
  {
  }

  lemma {:induction false} RegisterEntry(k: nat)
    requires k < 32
    ensures Register(8 * k) == RegisterAt(k)
  {
    hide Shift, After8, Output8, RegisterAt, RcByte, Register;
    if k == 0 {
      FirstRegister();
    } else {
      RegisterEntry(k - 1);
      TableEntry(k - 1);
      After8Is(RegisterAt(k - 1));
      RegisterFrom(8 * (k - 1), 8);
    }
  }

  /** The table holds the output of the feedback shift register, bit by bit. */
  lemma TableIsRc(t: nat)
    requires t < 256
    ensures TestBit(RcByte(t / 8), t % 8) == RcBit(t)
  {
    hide Shift, After8, Output8, TestBit, RegisterAt, RcByte, Register, ShiftBy;
    RegisterEntry(t / 8);
    TableEntry(t / 8);
    OutputBits(RegisterAt(t / 8), t % 8);
    RegisterFrom(8 * (t / 8), t % 8);
  }

  // ----- The walk of the rho step -----

  /** The turn at which the walk (x, y) -> (y, 2x + 3y) reaches a lane; 0 for lane (0, 0). */
  function Turn(x: nat, y: nat): nat
    requires x < 5 && y < 5
  {
    [[0, 1, 19, 7, 13],
     [8, 24, 3, 10, 23],
     [2, 4, 18, 17, 21],
     [14, 9, 5, 6, 16],
     [20, 11, 22, 15, 12]][y][x]
  }

  /** The lane of a turn, as 5y + x. */
  const LANES: seq<nat> := [0, 1, 10, 7, 11, 17, 18, 3, 5, 16, 8, 21, 24, 4, 15, 23, 19, 13, 12, 2, 20, 14, 22, 9, 6]

  lemma TurnIsUnique(x: nat, y: nat)
    requires x < 5 && y < 5
    ensures Turn(x, y) < 25 && LANES[Turn(x, y)] == 5 * y + x
  {
  }

  lemma TurnFollows(x: nat, y: nat)
    requires x < 5 && y < 5 && 0 < Turn(x, y) < 24
    ensures Turn(y, (2 * x + 3 * y) % 5) == Turn(x, y) + 1
  {
  }

  /** Table 2 of FIPS 202 holds the triangular numbers along the walk. */
  lemma OffsetOfTurn(x: nat, y: nat)
    requires x < 5 && y < 5
    ensures Offset(x, y) == Turn(x, y) * (Turn(x, y) + 1) / 2
  {
  }
}
