/** The rounds of FIPS 202 lose nothing: theta, and with it the permutation and the absorption of a block,
    keep distinct states distinct. */
module KeccakPermutation {
  import opened Keccak

  const PLANE := 320

  /** Bit (x, z) of a plane of column parities, with the coordinates taken modulo 5 and 64. */
  function Bit(p: BitString, x: int, z: int): bool
    requires |p| == PLANE
  {
    p[64 * (x % 5) + z % 64]
  }

  lemma BitModulo(p: BitString, x: int, z: int, x': int, z': int)
    requires |p| == PLANE && (x - x') % 5 == 0 && (z - z') % 64 == 0
    ensures Bit(p, x, z) == Bit(p, x', z')
  {
    assert x % 5 == x' % 5 && z % 64 == z' % 64;
  }

  function DisplacedBit(a: int, p: BitString, x: int, z: int): bool
    requires |p| == PLANE
  {
    Bit(p, x, z) != (Bit(p, x - a, z) != Bit(p, x + a, z - a))
  }

  /** A plane plus its two copies displaced by `a`; for `a == 1` what theta does to the column parities. */
  function Displaced(a: int, p: BitString): (q: BitString)
    requires |p| == PLANE
    ensures |q| == PLANE
  {
    seq(PLANE, i requires 0 <= i < PLANE => DisplacedBit(a, p, i / 64, i % 64))
  }

  lemma DisplacedAt(a: int, p: BitString, x: int, z: int)
    requires |p| == PLANE
    ensures Bit(Displaced(a, p), x, z) == DisplacedBit(a, p, x, z)
  {
    hide DisplacedBit;
    var i := 64 * (x % 5) + z % 64;
    assert i / 64 == x % 5 && i % 64 == z % 64;
    DisplacedModulo(a, p, x, z);
  }

  lemma DisplacedModulo(a: int, p: BitString, x: int, z: int)
    requires |p| == PLANE
    ensures DisplacedBit(a, p, x % 5, z % 64) == DisplacedBit(a, p, x, z)
  {
    hide Bit;
    BitModulo(p, x % 5, z % 64, x, z);
    BitModulo(p, x % 5 - a, z % 64, x - a, z);
    BitModulo(p, x % 5 + a, z % 64 - a, x + a, z - a);
  }

  lemma SamePlane(p: BitString, q: BitString)
    requires |p| == |q| == PLANE && forall x: nat, z: nat | x < 5 && z < 64 :: Bit(p, x, z) == Bit(q, x, z)
    ensures p == q
  {
    forall i | 0 <= i < PLANE
      ensures p[i] == q[i]
    {
      assert Bit(p, i / 64, i % 64) == Bit(q, i / 64, i % 64);
    }
  }

  /** Displacing twice is displacing by twice as much: the mixed terms cancel. */
  lemma Squared(a: int, p: BitString)
    requires |p| == PLANE
    ensures Displaced(a, Displaced(a, p)) == Displaced(2 * a, p)
  {
    hide Displaced, Bit;
    forall x: nat, z: nat | x < 5 && z < 64
      ensures Bit(Displaced(a, Displaced(a, p)), x, z) == Bit(Displaced(2 * a, p), x, z)
    {
      DisplacedAt(a, Displaced(a, p), x, z);
      DisplacedAt(a, p, x, z);
      DisplacedAt(a, p, x - a, z);
      DisplacedAt(a, p, x + a, z - a);
      DisplacedAt(2 * a, p, x, z);
    }
    SamePlane(Displaced(a, Displaced(a, p)), Displaced(2 * a, p));
  }

  /** By 64 places only the columns are displaced, by one each way. */
  lemma Neighbours(p: BitString, x: int, z: int)
    requires |p| == PLANE
    ensures Bit(Displaced(64, p), x, z) == (Bit(p, x, z) != (Bit(p, x + 1, z) != Bit(p, x - 1, z)))
  {
    hide Displaced, Bit;
    DisplacedAt(64, p, x, z);
    BitModulo(p, x - 64, z, x + 1, z);
    BitModulo(p, x + 64, z - 64, x - 1, z);
  }

  /** Displacing the columns by two each way undoes it. */
  lemma By64(p: BitString, x: int, z: int)
    requires |p| == PLANE
    ensures var h := Displaced(64, p);
            Bit(p, x, z) == (Bit(h, x, z) != (Bit(h, x + 2, z) != Bit(h, x - 2, z)))
  {
    hide Displaced, Bit;
    Neighbours(p, x, z);
    Neighbours(p, x + 2, z);
    Neighbours(p, x - 2, z);
    BitModulo(p, x - 3, z, x + 2, z);
    BitModulo(p, x + 3, z, x - 2, z);
  }

  function Two(k: nat): nat {
    if k == 0 then 1 else 2 * Two(k - 1)
  }

  /** A plane is determined by its displaced sum: six squarings make the displacement 64. */
  lemma {:induction false} DisplacedInjective(k: nat, p: BitString, q: BitString)
    requires k <= 6 && |p| == |q| == PLANE && Displaced(Two(k), p) == Displaced(Two(k), q)
    ensures p == q
    decreases 6 - k
  {
    hide Displaced, Bit, Two;
    if k == 6 {
      TwoToSix();
      forall x: nat, z: nat | x < 5 && z < 64
        ensures Bit(p, x, z) == Bit(q, x, z)
      {
        By64(p, x, z);
        By64(q, x, z);
      }
      SamePlane(p, q);
    } else {
      Squared(Two(k), p);
      Squared(Two(k), q);
      Doubling(k);
      DisplacedInjective(k + 1, p, q);
    }
  }

  lemma Doubling(k: nat)
    ensures Two(k + 1) == 2 * Two(k)
  {
  }

  lemma TwoToSix()
    ensures Two(6) == 64 && Two(0) == 1
  {
    assert Two(6) == 2 * Two(5) == 4 * Two(4) == 8 * Two(3) == 16 * Two(2) == 32 * Two(1) == 64 * Two(0);
  }

  // ----- Theta -----

  /** The column parities of a state. */
  function Columns(s: BitString): (p: BitString)
    requires |s| == WIDTH
    ensures |p| == PLANE
  {
    seq(PLANE, i requires 0 <= i < PLANE => Parity(s, i / 64, i % 64))
  }

  lemma GetModulo(s: BitString, x: int, y: int, z: int)
    requires |s| == WIDTH
    ensures Get(s, x, y, z) == Get(s, x % 5, y, z % 64)
  {
    hide At;
  }

  lemma ColumnsAt(s: BitString, x: int, z: int)
    requires |s| == WIDTH
    ensures Bit(Columns(s), x, z) == Parity(s, x, z)
  {
    hide Get;
    var i := 64 * (x % 5) + z % 64;
    assert i / 64 == x % 5 && i % 64 == z % 64;
    GetModulo(s, x, 0, z);
    GetModulo(s, x, 1, z);
    GetModulo(s, x, 2, z);
    GetModulo(s, x, 3, z);
    GetModulo(s, x, 4, z);
  }

  lemma FiveBits(a: bool, b: bool, c: bool, d: bool, e: bool, k: bool)
    ensures ((a != k) != ((b != k) != ((c != k) != ((d != k) != (e != k))))) == ((a != (b != (c != (d != e)))) != k)
  {
  }

  /** The effect of theta on a column, by the plane of parities. */
  lemma EffectIs(s: BitString, x: int, z: int)
    requires |s| == WIDTH
    ensures ThetaEffect(s, x, z) == (Bit(Columns(s), x - 1, z) != Bit(Columns(s), x + 1, z - 1))
  {
    hide Parity, Bit, Columns;
    ColumnsAt(s, x - 1, z);
    ColumnsAt(s, x + 1, z - 1);
  }

  lemma ThetaGet(s: BitString, x: nat, y: nat, z: nat)
    requires |s| == WIDTH && x < 5 && y < 5 && z < 64
    ensures Get(Theta(s), x, y, z) == (Get(s, x, y, z) != ThetaEffect(s, x, z))
  {
    hide Get, Theta, ThetaEffect, At;
    GetAt(Theta(s), x, y, z);
    ThetaAt(s, x, y, z);
  }

  lemma ThetaColumns(s: BitString)
    requires |s| == WIDTH
    ensures Columns(Theta(s)) == Displaced(1, Columns(s))
  {
    hide Theta, Get, Columns, Displaced, Bit, ThetaEffect;
    forall x: nat, z: nat | x < 5 && z < 64
      ensures Bit(Columns(Theta(s)), x, z) == Bit(Displaced(1, Columns(s)), x, z)
    {
      ColumnsAt(Theta(s), x, z);
      ColumnsAt(s, x, z);
      DisplacedAt(1, Columns(s), x, z);
      EffectIs(s, x, z);
      ThetaGet(s, x, 0, z);
      ThetaGet(s, x, 1, z);
      ThetaGet(s, x, 2, z);
      ThetaGet(s, x, 3, z);
      ThetaGet(s, x, 4, z);
      FiveBits(Get(s, x, 0, z), Get(s, x, 1, z), Get(s, x, 2, z), Get(s, x, 3, z), Get(s, x, 4, z), ThetaEffect(s, x, z));
    }
    SamePlane(Columns(Theta(s)), Displaced(1, Columns(s)));
  }

  lemma ThetaInjective(s: BitString, t: BitString)
    requires |s| == WIDTH && |t| == WIDTH && Theta(s) == Theta(t)
    ensures s == t
  {
    hide Theta, At, X, Y, Z, Get, Displaced, Columns, ThetaEffect;
    ThetaColumns(s);
    ThetaColumns(t);
    TwoToSix();
    DisplacedInjective(0, Columns(s), Columns(t));
    forall i | 0 <= i < WIDTH
      ensures s[i] == t[i]
    {
      AtXYZ(i);
      EffectIs(s, X(i), Z(i));
      EffectIs(t, X(i), Z(i));
      ThetaGet(s, X(i), Y(i), Z(i));
      ThetaGet(t, X(i), Y(i), Z(i));
      GetAt(s, X(i), Y(i), Z(i));
      GetAt(t, X(i), Y(i), Z(i));
    }
  }

  // ----- The permutation -----

  lemma RoundInjective(s: BitString, t: BitString, ir: nat)
    requires |s| == WIDTH && |t| == WIDTH && Round(s, ir) == Round(t, ir)
    ensures s == t
  {
    hide Theta, Rho, Pi, Chi, Iota;
    IotaInjective(Chi(Pi(Rho(Theta(s)))), Chi(Pi(Rho(Theta(t)))), ir);
    ChiInjective(Pi(Rho(Theta(s))), Pi(Rho(Theta(t))));
    PiInjective(Rho(Theta(s)), Rho(Theta(t)));
    RhoInjective(Theta(s), Theta(t));
    ThetaInjective(s, t);
  }

  /** Any number of rounds keeps distinct states distinct. */
  lemma {:induction false} RoundsInjective(s: BitString, t: BitString, n: nat)
    requires |s| == WIDTH && |t| == WIDTH && Rounds(s, n) == Rounds(t, n)
    ensures s == t
  {
    hide Round;
    if n > 0 {
      RoundInjective(Rounds(s, n - 1), Rounds(t, n - 1), n - 1);
      RoundsInjective(s, t, n - 1);
    }
  }

  lemma AddIntoInjective(s: BitString, t: BitString, p: BitString)
    requires |s| == |t| && |p| <= |s| && AddInto(s, p) == AddInto(t, p)
    ensures s == t
  {
    forall i | 0 <= i < |s|
      ensures s[i] == t[i]
    {
      assert AddInto(s, p)[i] == AddInto(t, p)[i];
    }
  }

  /** Absorbing the same blocks keeps distinct states distinct. */
  lemma {:induction false} AbsorbInjective(s: BitString, t: BitString, p: BitString)
    requires |s| == WIDTH && |t| == WIDTH && |p| % RATE == 0 && Absorb(s, p) == Absorb(t, p)
    ensures s == t
    decreases |p|
  {
    hide Rounds, AddInto;
    if |p| > 0 {
      var block := p[..RATE];
      AbsorbInjective(Rounds(AddInto(s, block), ROUNDS), Rounds(AddInto(t, block), ROUNDS), p[RATE..]);
      RoundsInjective(AddInto(s, block), AddInto(t, block), ROUNDS);
      AddIntoInjective(s, t, block);
    }
  }
}
