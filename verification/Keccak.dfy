/** The permutation and the sponge of FIPS 202, on bit strings: bit (x, y, z) of the state array is bit
    64(5y + x) + z of the string (section 3.1.2). */
module Keccak {
  type BitString = seq<bool>

  const WIDTH := 1600
  const RATE := 576
  const ROUNDS := 24

  function At(x: nat, y: nat, z: nat): (i: nat)
    requires x < 5 && y < 5 && z < 64
    ensures i < WIDTH && X(i) == x && Y(i) == y && Z(i) == z
  {
    64 * (5 * y + x) + z
  }

  function X(i: nat): (x: nat)
    ensures x < 5
  {
    (i / 64) % 5
  }

  function Y(i: nat): (y: nat)
    ensures i < WIDTH ==> y < 5
  {
    (i / 64) / 5
  }

  function Z(i: nat): (z: nat)
    ensures z < 64
  {
    i % 64
  }

  lemma AtXYZ(i: nat)
    requires i < WIDTH
    ensures At(X(i), Y(i), Z(i)) == i
  {
  }

  /** Bit of a state, with the coordinates taken modulo 5, 5 and 64. */
  function Get(s: BitString, x: int, y: int, z: int): bool
    requires |s| == WIDTH
  {
    s[At(x % 5, y % 5, z % 64)]
  }

  // ----- Section 3.2.1: theta -----

  function Parity(s: BitString, x: int, z: int): bool
    requires |s| == WIDTH
  {
    Get(s, x, 0, z) != (Get(s, x, 1, z) != (Get(s, x, 2, z) != (Get(s, x, 3, z) != Get(s, x, 4, z))))
  }

  function ThetaEffect(s: BitString, x: int, z: int): bool
    requires |s| == WIDTH
  {
    Parity(s, x - 1, z) != Parity(s, x + 1, z - 1)
  }

  function ThetaBit(s: BitString, x: int, y: int, z: int): bool
    requires |s| == WIDTH
  {
    Get(s, x, y, z) != ThetaEffect(s, x, z)
  }

  function Theta(s: BitString): (t: BitString)
    requires |s| == WIDTH
    ensures |t| == WIDTH
  {
    seq(WIDTH, i requires 0 <= i < WIDTH => ThetaBit(s, X(i), Y(i), Z(i)))
  }

  // ----- Section 3.2.2: rho -----

  /** Table 2: the offset of each lane. */
  function Offset(x: nat, y: nat): nat
    requires x < 5 && y < 5
  {
    [[0, 1, 190, 28, 91],
     [36, 300, 6, 55, 276],
     [3, 10, 171, 153, 231],
     [105, 45, 15, 21, 136],
     [210, 66, 253, 120, 78]][y][x]
  }

  function RhoBit(s: BitString, x: nat, y: nat, z: int): bool
    requires |s| == WIDTH && x < 5 && y < 5
  {
    Get(s, x, y, z - Offset(x, y))
  }

  function Rho(s: BitString): (t: BitString)
    requires |s| == WIDTH
    ensures |t| == WIDTH
  {
    seq(WIDTH, i requires 0 <= i < WIDTH => RhoBit(s, X(i), Y(i), Z(i)))
  }

  // ----- Section 3.2.3: pi -----

  function PiBit(s: BitString, x: int, y: int, z: int): bool
    requires |s| == WIDTH
  {
    Get(s, x + 3 * y, x, z)
  }

  function Pi(s: BitString): (t: BitString)
    requires |s| == WIDTH
    ensures |t| == WIDTH
  {
    seq(WIDTH, i requires 0 <= i < WIDTH => PiBit(s, X(i), Y(i), Z(i)))
  }

  // ----- Section 3.2.4: chi -----

  function ChiBit(s: BitString, x: int, y: int, z: int): bool
    requires |s| == WIDTH
  {
    Get(s, x, y, z) != (!Get(s, x + 1, y, z) && Get(s, x + 2, y, z))
  }

  function Chi(s: BitString): (t: BitString)
    requires |s| == WIDTH
    ensures |t| == WIDTH
  {
    seq(WIDTH, i requires 0 <= i < WIDTH => ChiBit(s, X(i), Y(i), Z(i)))
  }

  // ----- Section 3.2.5: iota -----

  /** The register of algorithm 5 after `t` steps; bit `i` of the word is R[i]. */
  function Register(t: nat): bv8 {
    if t == 0 then 0x01 else Shift(Register(t - 1))
  }

  /** One step: R becomes 0 || R, then R[8] is added to R[0], R[4], R[5] and R[6] and dropped. */
  function Shift(r: bv8): bv8 {
    (r << 1) ^ (if r & 0x80 != 0 then 0x71 else 0x00)
  }

  predicate RcBit(t: nat) {
    Register(t) & 0x01 != 0
  }

  /** Bit `z` of the round constant: RC[2^j - 1] = rc(j + 7 ir) for j from 0 to 6. */
  predicate RoundConstant(ir: nat, z: nat) {
    || (z == 0 && RcBit(7 * ir)) || (z == 1 && RcBit(1 + 7 * ir)) || (z == 3 && RcBit(2 + 7 * ir))
    || (z == 7 && RcBit(3 + 7 * ir)) || (z == 15 && RcBit(4 + 7 * ir)) || (z == 31 && RcBit(5 + 7 * ir))
    || (z == 63 && RcBit(6 + 7 * ir))
  }

  function IotaBit(s: BitString, x: int, y: int, z: nat, ir: nat): bool
    requires |s| == WIDTH
  {
    Get(s, x, y, z) != (x == 0 && y == 0 && RoundConstant(ir, z))
  }

  function Iota(s: BitString, ir: nat): (t: BitString)
    requires |s| == WIDTH
    ensures |t| == WIDTH
  {
    seq(WIDTH, i requires 0 <= i < WIDTH => IotaBit(s, X(i), Y(i), Z(i), ir))
  }

  // ----- Sections 3.3 and 3.4: the permutation -----

  function Round(s: BitString, ir: nat): (t: BitString)
    requires |s| == WIDTH
    ensures |t| == WIDTH
  {
    Iota(Chi(Pi(Rho(Theta(s)))), ir)
  }

  function Rounds(s: BitString, n: nat): (t: BitString)
    requires |s| == WIDTH
    ensures |t| == WIDTH
  {
    if n == 0 then s else Round(Rounds(s, n - 1), n - 1)
  }

  // ----- Sections 4, 5.1 and 6.1: the sponge -----

  /** The string added to the front of the state. */
  function AddInto(s: BitString, p: BitString): (t: BitString)
    requires |p| <= |s|
    ensures |t| == |s|
  {
    seq(|s|, i requires 0 <= i < |s| => if i < |p| then s[i] != p[i] else s[i])
  }

  /** Blocks of the rate are added and permuted in turn. */
  function Absorb(s: BitString, p: BitString): (t: BitString)
    requires |s| == WIDTH && |p| % RATE == 0
    ensures |t| == WIDTH
    decreases |p|
  {
    if |p| == 0 then s else Absorb(Rounds(AddInto(s, p[..RATE]), ROUNDS), p[RATE..])
  }

  /** pad10*1: a one, as few zeros as needed, a one. */
  function Pad(m: nat): (p: BitString)
    ensures (m + |p|) % RATE == 0 && 2 <= |p| < RATE + 2
  {
    [true] + seq((2 * RATE - 2 - m % RATE) % RATE, _ => false) + [true]
  }

  /** SHA3-512: the suffix 01, the padding, the sponge, and 512 bits of its state. */
  function Sha3With512Bits(message: BitString): BitString {
    var n := message + [false, true];
    Absorb(seq(WIDTH, _ => false), n + Pad(|n|))[..512]
  }

  /** The last block absorbed. */
  lemma {:induction false} AbsorbLast(s: BitString, p: BitString, block: BitString)
    requires |s| == WIDTH && |p| % RATE == 0 && |block| == RATE
    ensures Absorb(s, p + block) == Rounds(AddInto(Absorb(s, p), block), ROUNDS)
    decreases |p|
  {
    hide Rounds, AddInto;
    if |p| == 0 {
      assert p + block == block && block[..RATE] == block;
      var t := Rounds(AddInto(s, block), ROUNDS);
      assert Absorb(t, block[RATE..]) == t;
    } else {
      assert (p + block)[..RATE] == p[..RATE] && (p + block)[RATE..] == p[RATE..] + block;
      AbsorbLast(Rounds(AddInto(s, p[..RATE]), ROUNDS), p[RATE..], block);
    }
  }

  // ----- The steps, bit by bit -----

  lemma GetAt(s: BitString, x: nat, y: nat, z: nat)
    requires |s| == WIDTH && x < 5 && y < 5 && z < 64
    ensures Get(s, x, y, z) == s[At(x, y, z)]
  {
    hide At;
  }

  lemma ThetaAt(s: BitString, x: nat, y: nat, z: nat)
    requires |s| == WIDTH && x < 5 && y < 5 && z < 64
    ensures Theta(s)[At(x, y, z)] == ThetaBit(s, x, y, z)
  {
    hide At, X, Y, Z, ThetaBit;
  }

  lemma RhoAt(s: BitString, x: nat, y: nat, z: nat)
    requires |s| == WIDTH && x < 5 && y < 5 && z < 64
    ensures Rho(s)[At(x, y, z)] == RhoBit(s, x, y, z)
  {
    hide At, X, Y, Z, RhoBit;
  }

  lemma PiAt(s: BitString, x: nat, y: nat, z: nat)
    requires |s| == WIDTH && x < 5 && y < 5 && z < 64
    ensures Pi(s)[At(x, y, z)] == PiBit(s, x, y, z)
  {
    hide At, X, Y, Z, PiBit;
  }

  lemma ChiAt(s: BitString, x: nat, y: nat, z: nat)
    requires |s| == WIDTH && x < 5 && y < 5 && z < 64
    ensures Chi(s)[At(x, y, z)] == ChiBit(s, x, y, z)
  {
    hide At, X, Y, Z, ChiBit;
  }

  lemma IotaAt(s: BitString, ir: nat, x: nat, y: nat, z: nat)
    requires |s| == WIDTH && x < 5 && y < 5 && z < 64
    ensures Iota(s, ir)[At(x, y, z)] == IotaBit(s, x, y, z, ir)
  {
    hide At, X, Y, Z, IotaBit;
  }

  // ----- Distinct states stay distinct -----

  lemma RhoBack(s: BitString, t: BitString, x: nat, y: nat, z: nat)
    requires |s| == WIDTH && |t| == WIDTH && Rho(s) == Rho(t) && x < 5 && y < 5 && z < 64
    ensures s[At(x, y, z)] == t[At(x, y, z)]
  {
    hide At, Rho, Offset, Get;
    var z' := (z + Offset(x, y)) % 64;
    RhoAt(s, x, y, z');
    RhoAt(t, x, y, z');
    TurnedBack(s, x, y, z, Offset(x, y));
    TurnedBack(t, x, y, z, Offset(x, y));
  }

  lemma TurnedBack(s: BitString, x: nat, y: nat, z: nat, k: nat)
    requires |s| == WIDTH && x < 5 && y < 5 && z < 64
    ensures Get(s, x, y, (z + k) % 64 - k) == s[At(x, y, z)]
  {
    hide At;
    assert ((z + k) % 64 - k) % 64 == z;
  }

  lemma RhoInjective(s: BitString, t: BitString)
    requires |s| == WIDTH && |t| == WIDTH && Rho(s) == Rho(t)
    ensures s == t
  {
    hide Rho, At, X, Y, Z;
    forall i | 0 <= i < WIDTH ensures s[i] == t[i] {
      AtXYZ(i);
      RhoBack(s, t, X(i), Y(i), Z(i));
    }
  }

  lemma PiBack(s: BitString, t: BitString, x: nat, y: nat, z: nat)
    requires |s| == WIDTH && |t| == WIDTH && Pi(s) == Pi(t) && x < 5 && y < 5 && z < 64
    ensures s[At(x, y, z)] == t[At(x, y, z)]
  {
    hide At, Pi, Get;
    var y' := (2 * x + 3 * y) % 5;
    PiAt(s, y, y', z);
    PiAt(t, y, y', z);
    Moved(s, x, y, z, y');
    Moved(t, x, y, z, y');
  }

  lemma Moved(s: BitString, x: nat, y: nat, z: nat, y': nat)
    requires |s| == WIDTH && x < 5 && y < 5 && z < 64 && y' == (2 * x + 3 * y) % 5
    ensures Get(s, y + 3 * y', y, z) == s[At(x, y, z)]
  {
    hide At;
    assert (y + 3 * y') % 5 == x;
  }

  lemma PiInjective(s: BitString, t: BitString)
    requires |s| == WIDTH && |t| == WIDTH && Pi(s) == Pi(t)
    ensures s == t
  {
    hide Pi, At, X, Y, Z;
    forall i | 0 <= i < WIDTH ensures s[i] == t[i] {
      AtXYZ(i);
      PiBack(s, t, X(i), Y(i), Z(i));
    }
  }

  /** The bits of a row are determined by their images. */
  lemma RowInjective(a: bool, b: bool, c: bool, d: bool, e: bool, a': bool, b': bool, c': bool, d': bool, e': bool)
    requires (a != (!b && c)) == (a' != (!b' && c'))
    requires (b != (!c && d)) == (b' != (!c' && d'))
    requires (c != (!d && e)) == (c' != (!d' && e'))
    requires (d != (!e && a)) == (d' != (!e' && a'))
    requires (e != (!a && b)) == (e' != (!a' && b'))
    ensures a == a'
  {
  }

  lemma ChiSame(s: BitString, t: BitString, x: nat, y: nat, z: nat)
    requires |s| == WIDTH && |t| == WIDTH && Chi(s) == Chi(t) && y < 5 && z < 64
    ensures (Get(s, x, y, z) != (!Get(s, x + 1, y, z) && Get(s, x + 2, y, z)))
         == (Get(t, x, y, z) != (!Get(t, x + 1, y, z) && Get(t, x + 2, y, z)))
  {
    hide At, Chi, Get;
    ChiAt(s, x % 5, y, z);
    ChiAt(t, x % 5, y, z);
    Reduced(s, x, y, z);
    Reduced(t, x, y, z);
  }

  lemma Reduced(s: BitString, x: nat, y: nat, z: nat)
    requires |s| == WIDTH && y < 5 && z < 64
    ensures Get(s, x % 5, y, z) == Get(s, x, y, z)
    ensures Get(s, x % 5 + 1, y, z) == Get(s, x + 1, y, z)
    ensures Get(s, x % 5 + 2, y, z) == Get(s, x + 2, y, z)
  {
    hide At;
    Remainders(x);
  }

  lemma Remainders(x: nat)
    ensures x % 5 % 5 == x % 5 && (x % 5 + 1) % 5 == (x + 1) % 5 && (x % 5 + 2) % 5 == (x + 2) % 5
  {
  }

  lemma Wraps(s: BitString, x: nat, y: nat, z: nat)
    requires |s| == WIDTH && y < 5 && z < 64
    ensures Get(s, x + 5, y, z) == Get(s, x, y, z)
  {
    assert (x + 5) % 5 == x % 5;
  }

  lemma ChiBack(s: BitString, t: BitString, x: nat, y: nat, z: nat)
    requires |s| == WIDTH && |t| == WIDTH && Chi(s) == Chi(t) && x < 5 && y < 5 && z < 64
    ensures s[At(x, y, z)] == t[At(x, y, z)]
  {
    hide At, Chi, Get;
    ChiSame(s, t, x, y, z);
    ChiSame(s, t, x + 1, y, z);
    ChiSame(s, t, x + 2, y, z);
    ChiSame(s, t, x + 3, y, z);
    ChiSame(s, t, x + 4, y, z);
    Wraps(s, x, y, z);
    Wraps(t, x, y, z);
    Wraps(s, x + 1, y, z);
    Wraps(t, x + 1, y, z);
    RowInjective(
      Get(s, x, y, z), Get(s, x + 1, y, z), Get(s, x + 2, y, z), Get(s, x + 3, y, z), Get(s, x + 4, y, z),
      Get(t, x, y, z), Get(t, x + 1, y, z), Get(t, x + 2, y, z), Get(t, x + 3, y, z), Get(t, x + 4, y, z));
    GetAt(s, x, y, z);
    GetAt(t, x, y, z);
  }

  lemma ChiInjective(s: BitString, t: BitString)
    requires |s| == WIDTH && |t| == WIDTH && Chi(s) == Chi(t)
    ensures s == t
  {
    hide Chi, At, X, Y, Z;
    forall i | 0 <= i < WIDTH ensures s[i] == t[i] {
      AtXYZ(i);
      ChiBack(s, t, X(i), Y(i), Z(i));
    }
  }

  lemma IotaInjective(s: BitString, t: BitString, ir: nat)
    requires |s| == WIDTH && |t| == WIDTH && Iota(s, ir) == Iota(t, ir)
    ensures s == t
  {
    hide Iota, At, X, Y, Z, Get, RoundConstant;
    forall i | 0 <= i < WIDTH ensures s[i] == t[i] {
      AtXYZ(i);
      IotaAt(s, ir, X(i), Y(i), Z(i));
      IotaAt(t, ir, X(i), Y(i), Z(i));
      GetAt(s, X(i), Y(i), Z(i));
      GetAt(t, X(i), Y(i), Z(i));
    }
  }
}
