/** What the steps of FIPS 202 do to single bits, and the parameters of SHA3-512. */
module KeccakSteps {
  import opened Keccak
  import opened KeccakPermutation

  /** With lanes of 2^l bits the permutation has 12 + 2l rounds (section 5.2), the state 25 lanes, and the
      capacity of SHA3-512 is twice its 512 bits (section 6.1). */
  lemma Parameters(l: nat)
    requires Two(l) == 64
    ensures WIDTH == 25 * Two(l) && ROUNDS == 12 + 2 * l && RATE == WIDTH - 2 * 512
  {
    TwoToSix();
    TwoGrows(if l < 6 then l else 6, if l < 6 then 6 else l);
  }

  lemma {:induction false} TwoGrows(k: nat, l: nat)
    requires k <= l
    ensures 0 < Two(k) && (k < l ==> Two(k) < Two(l))
  {
    if k < l {
      TwoGrows(k, l - 1);
    } else if k > 0 {
      TwoGrows(k - 1, k - 1);
    }
  }

  /** The padding is a one, zeros and a one, and fills the last block of 576 bits. */
  lemma PadShape(m: nat)
    ensures var p := Pad(m);
      && |p| >= 2 && p[0] && p[|p| - 1] && (forall i :: 0 < i < |p| - 1 ==> !p[i])
      && (m + |p|) % 576 == 0 && |p| - 2 < 576
  {
  }

  lemma HashLength(message: BitString)
    ensures |Sha3With512Bits(message)| == 512
  {
    hide Absorb, Pad;
  }

  /** The hash of a message that fits into one block: the first 512 bits of the permuted state that holds the
      message, the bits 01, the padding and 1024 zeros. */
  lemma ShortHash(message: BitString)
    requires |message| <= 572
    ensures var n := message + [false, true];
      |n + Pad(|n|)| == 576 && Sha3With512Bits(message) == Rounds(n + Pad(|n|) + seq(1024, _ => false), 24)[..512]
  {
    hide Rounds, Pad, AddInto, Absorb;
    var n := message + [false, true];
    var block := n + Pad(|n|);
    PadFills(|n|);
    var zero := seq(WIDTH, _ => false);
    OntoZero(block);
    assert [] + block == block;
    EmptyAbsorbed(zero);
    AbsorbLast(zero, [], block);
  }

  lemma PadFills(m: nat)
    requires m <= 574
    ensures |Pad(m)| == 576 - m
  {
  }

  lemma EmptyAbsorbed(s: BitString)
    requires |s| == WIDTH
    ensures Absorb(s, []) == s
  {
  }

  lemma OntoZero(block: BitString)
    requires |block| == 576
    ensures AddInto(seq(WIDTH, _ => false), block) == block + seq(1024, _ => false)
  {
  }

  // ----- The bits that are moved -----

  /** rho turns every lane by its offset. */
  lemma RhoMoves(s: BitString, x: nat, y: nat, z: nat)
    requires |s| == WIDTH && x < 5 && y < 5 && z < 64
    ensures Rho(s)[At(x, y, (z + Offset(x, y)) % 64)] == s[At(x, y, z)]
  {
    hide At, Rho, Offset, Get;
    RhoAt(s, x, y, (z + Offset(x, y)) % 64);
    TurnedBack(s, x, y, z, Offset(x, y));
  }

  /** pi moves the lane (x, y) to (y, 2x + 3y). */
  lemma PiMoves(s: BitString, x: nat, y: nat, z: nat)
    requires |s| == WIDTH && x < 5 && y < 5 && z < 64
    ensures Pi(s)[At(y, (2 * x + 3 * y) % 5, z)] == s[At(x, y, z)]
  {
    hide At, Pi, Get;
    PiAt(s, y, (2 * x + 3 * y) % 5, z);
    Moved(s, x, y, z, (2 * x + 3 * y) % 5);
  }

  // ----- A round, and the rounds in turn -----

  /** The bit of the state after theta that rho and pi bring to (x, y, z). */
  predicate Brought(t: BitString, x: nat, y: nat, z: nat)
    requires |t| == WIDTH && x < 5
  {
    Get(t, x + 3 * y, x, z - Offset((x + 3 * y) % 5, x))
  }

  lemma PiOfRho(t: BitString, x: nat, y: nat, z: nat)
    requires |t| == WIDTH && y < 5 && z < 64
    ensures Get(Pi(Rho(t)), x, y, z) == Brought(t, x % 5, y, z)
  {
    hide At, Pi, Rho, Offset;
    var x' := x % 5;
    GetReduced(Pi(Rho(t)), x, y, z);
    PiAt(Rho(t), x', y, z);
    GetReduced(Rho(t), x' + 3 * y, x', z);
    RhoAt(t, (x' + 3 * y) % 5, x', z);
    LeftOfModulo(t, x' + 3 * y, x', z - Offset((x' + 3 * y) % 5, x'));
  }

  lemma GetReduced(s: BitString, x: nat, y: nat, z: nat)
    requires |s| == WIDTH && y < 5 && z < 64
    ensures Get(s, x, y, z) == s[At(x % 5, y, z)]
  {
    hide At;
  }

  lemma LeftOfModulo(s: BitString, x: int, y: int, z: int)
    requires |s| == WIDTH
    ensures Get(s, x % 5, y, z) == Get(s, x, y, z)
  {
  }

  /** One round as a formula for each bit of its result. */
  lemma RoundAt(s: BitString, ir: nat, x: nat, y: nat, z: nat)
    requires |s| == WIDTH && x < 5 && y < 5 && z < 64
    ensures var t := Theta(s);
      Round(s, ir)[At(x, y, z)] ==
        ((Brought(t, x, y, z) != (!Brought(t, (x + 1) % 5, y, z) && Brought(t, (x + 2) % 5, y, z)))
         != (x == 0 && y == 0 && RoundConstant(ir, z)))
  {
    hide At, Theta, Rho, Pi, Chi, Iota, Brought, RoundConstant;
    var b := Pi(Rho(Theta(s)));
    IotaAt(Chi(b), ir, x, y, z);
    GetAt(Chi(b), x, y, z);
    ChiAt(b, x, y, z);
    PiOfRho(Theta(s), x, y, z);
    PiOfRho(Theta(s), x + 1, y, z);
    PiOfRho(Theta(s), x + 2, y, z);
  }

  /** The loop of algorithm 7: the rounds `i` to `n - 1`, each on the state that the one before left. */
  function RoundsFrom(s: BitString, i: nat, n: nat): (t: BitString)
    requires |s| == WIDTH && i <= n
    ensures |t| == WIDTH
    decreases n - i
  {
    if i == n then s else RoundsFrom(Round(s, i), i + 1, n)
  }

  lemma {:induction false} OneMoreRound(s: BitString, i: nat, n: nat)
    requires |s| == WIDTH && i <= n
    ensures RoundsFrom(s, i, n + 1) == Round(RoundsFrom(s, i, n), n)
    decreases n - i
  {
    hide Round;
    if i < n {
      OneMoreRound(Round(s, i), i + 1, n);
    } else {
      var t := Round(s, i);
      assert RoundsFrom(t, i + 1, n + 1) == t;
    }
  }

  lemma {:induction false} RoundsInTurn(s: BitString, n: nat)
    requires |s| == WIDTH
    ensures Rounds(s, n) == RoundsFrom(s, 0, n)
  {
    hide Round;
    if n > 0 {
      RoundsInTurn(s, n - 1);
      OneMoreRound(s, 0, n - 1);
    }
  }

  // ----- The bits that change with one bit -----

  /** The state with one bit changed. */
  function Flipped(s: BitString, x: nat, y: nat, z: nat): (t: BitString)
    requires |s| == WIDTH && x < 5 && y < 5 && z < 64
    ensures |t| == WIDTH
  {
    var i := At(x, y, z);
    s[i := !s[i]]
  }

  predicate Same(x: nat, y: nat, z: nat, x': int, y': int, z': int) {
    x' % 5 == x && y' % 5 == y && z' % 64 == z
  }

  lemma GetFlipped(s: BitString, x: nat, y: nat, z: nat, x': int, y': int, z': int)
    requires |s| == WIDTH && x < 5 && y < 5 && z < 64
    ensures Get(Flipped(s, x, y, z), x', y', z') == (Get(s, x', y', z') != Same(x, y, z, x', y', z'))
  {
  }

  lemma ParityFlipped(s: BitString, x: nat, y: nat, z: nat, x': int, z': int)
    requires |s| == WIDTH && x < 5 && y < 5 && z < 64
    ensures Parity(Flipped(s, x, y, z), x', z') == (Parity(s, x', z') != (x' % 5 == x && z' % 64 == z))
  {
    hide At, Get, Flipped;
    GetFlipped(s, x, y, z, x', 0, z');
    GetFlipped(s, x, y, z, x', 1, z');
    GetFlipped(s, x, y, z, x', 2, z');
    GetFlipped(s, x, y, z, x', 3, z');
    GetFlipped(s, x, y, z, x', 4, z');
  }

  lemma Neighbour(x: nat, z: nat, x': nat, z': nat)
    requires x < 5 && z < 64 && x' < 5 && z' < 64
    ensures (x' - 1) % 5 == x <==> x' == (x + 1) % 5
    ensures (x' + 1) % 5 == x <==> x' == (x + 4) % 5
    ensures (z' - 1) % 64 == z <==> z' == (z + 1) % 64
  {
  }

  /** With a bit of the state theta changes that bit, the column to its right, and the column to its left one
      bit further up the lane; nothing else. */
  lemma ThetaSpreads(s: BitString, x: nat, y: nat, z: nat, x': nat, y': nat, z': nat)
    requires |s| == WIDTH && x < 5 && y < 5 && z < 64 && x' < 5 && y' < 5 && z' < 64
    ensures Theta(Flipped(s, x, y, z))[At(x', y', z')] != Theta(s)[At(x', y', z')] <==>
      || (x' == x && y' == y && z' == z)
      || (x' == (x + 1) % 5 && z' == z)
      || (x' == (x + 4) % 5 && z' == (z + 1) % 64)
  {
    hide At, Get, Parity, Theta, Flipped;
    var t := Flipped(s, x, y, z);
    ThetaAt(s, x', y', z');
    ThetaAt(t, x', y', z');
    GetFlipped(s, x, y, z, x', y', z');
    ParityFlipped(s, x, y, z, x' - 1, z');
    ParityFlipped(s, x, y, z, x' + 1, z' - 1);
    Neighbour(x, z, x', z');
  }

  /** With a bit of the state chi changes that bit, the bit to its left if the bit to its right is set, and
      the bit two to its left if the bit to its left is not set; nothing else. */
  lemma ChiSpreads(s: BitString, x: nat, y: nat, z: nat, x': nat, y': nat, z': nat)
    requires |s| == WIDTH && x < 5 && y < 5 && z < 64 && x' < 5 && y' < 5 && z' < 64
    ensures Chi(Flipped(s, x, y, z))[At(x', y', z')] != Chi(s)[At(x', y', z')] <==>
      && y' == y && z' == z
      && (|| x' == x
          || (x' == (x + 4) % 5 && s[At((x + 1) % 5, y, z)])
          || (x' == (x + 3) % 5 && !s[At((x + 4) % 5, y, z)]))
  {
    hide At, Chi, Flipped;
    ChiOf(s, x', y', z');
    ChiOf(Flipped(s, x, y, z), x', y', z');
    FlippedAt(s, x, y, z, x', y', z');
    FlippedAt(s, x, y, z, (x' + 1) % 5, y', z');
    FlippedAt(s, x, y, z, (x' + 2) % 5, y', z');
    Distances(x, x');
  }

  lemma Distances(x: nat, x': nat)
    requires x < 5 && x' < 5
    ensures (x' + 1) % 5 == x <==> x' == (x + 4) % 5
    ensures (x' + 2) % 5 == x <==> x' == (x + 3) % 5
    ensures x' == (x + 4) % 5 ==> (x' + 2) % 5 == (x + 1) % 5
    ensures x' == (x + 3) % 5 ==> (x' + 1) % 5 == (x + 4) % 5
    ensures x' != (x + 4) % 5 || x' != (x + 3) % 5
    ensures x != (x + 4) % 5 && x != (x + 3) % 5
  {
  }

  lemma ChiOf(s: BitString, x: nat, y: nat, z: nat)
    requires |s| == WIDTH && x < 5 && y < 5 && z < 64
    ensures Chi(s)[At(x, y, z)] == (s[At(x, y, z)] != (!s[At((x + 1) % 5, y, z)] && s[At((x + 2) % 5, y, z)]))
  {
    hide At, Chi;
    ChiAt(s, x, y, z);
  }

  lemma FlippedAt(s: BitString, x: nat, y: nat, z: nat, x': nat, y': nat, z': nat)
    requires |s| == WIDTH && x < 5 && y < 5 && z < 64 && x' < 5 && y' < 5 && z' < 64
    ensures Flipped(s, x, y, z)[At(x', y', z')] == (s[At(x', y', z')] != (x' == x && y' == y && z' == z))
  {
    hide At;
  }

  /** iota changes exactly the bits of the round constant, all in the lane (0, 0). */
  lemma IotaChanges(s: BitString, ir: nat, x: nat, y: nat, z: nat)
    requires |s| == WIDTH && x < 5 && y < 5 && z < 64
    ensures Iota(s, ir)[At(x, y, z)] != s[At(x, y, z)] <==> x == 0 && y == 0 && RoundConstant(ir, z)
  {
    hide At, Get, Iota, RoundConstant;
    IotaAt(s, ir, x, y, z);
    GetAt(s, x, y, z);
  }
}
