/** common/string_literal.c: comparison of string literals byte by byte. */
module StringLiterals {
  type Bytes = seq<bv8>

  /** memcmp of the first `n` bytes, as a sign. */
  function Memcmp(a: Bytes, b: Bytes, n: nat): int
    requires n <= |a| && n <= |b|
  {
    if n == 0 then 0
    else if a[0] != b[0] then (if a[0] > b[0] then 1 else -1)
    else Memcmp(a[1..], b[1..], n - 1)
  }

  /** string_literal_byte_compare. */
  function Compare(a: Bytes, b: Bytes): int {
    if |a| == |b| then Memcmp(a, b, |a|)
    else if |a| > |b| then (if Memcmp(a, b, |b|) >= 0 then 1 else -1)
    else if Memcmp(a, b, |a|) > 0 then 1 else -1
  }

  /** The texts agree up to place `k`, where `a` ends or has the smaller byte. */
  predicate LessAt(a: Bytes, b: Bytes, k: nat) {
    && k <= |a| && k < |b| && a[..k] == b[..k]
    && (k < |a| ==> a[k] < b[k])
  }

  /** `a` comes before `b` in a dictionary. */
  ghost predicate Before(a: Bytes, b: Bytes) {
    exists k: nat :: LessAt(a, b, k)
  }

  /** The first place where the texts differ decides. */
  lemma {:induction false} MemcmpDecides(a: Bytes, b: Bytes, n: nat) returns (k: nat)
    requires n <= |a| && n <= |b|
    ensures k <= n && a[..k] == b[..k]
    ensures Memcmp(a, b, n) == 0 ==> k == n
    ensures Memcmp(a, b, n) > 0 ==> k < n && b[k] < a[k]
    ensures Memcmp(a, b, n) < 0 ==> k < n && a[k] < b[k]
  {
    k := 0;
    if n > 0 && a[0] == b[0] {
      k := MemcmpDecides(a[1..], b[1..], n - 1);
      assert a[..k + 1] == [a[0]] + a[1..][..k] && b[..k + 1] == [b[0]] + b[1..][..k];
      k := k + 1;
    }
  }

  lemma NotBack(a: Bytes, b: Bytes, j: nat, k: nat)
    requires LessAt(a, b, j)
    ensures !LessAt(b, a, k)
  {
    if j < k <= |a| && k <= |b| {
      assert a[..k][j] == a[j] && b[..k][j] == b[j];
    } else if k < j {
      assert a[..j][k] == a[k] && b[..j][k] == b[k];
    }
  }

  /** Of two texts at most one comes before the other, and none before itself. */
  lemma OneOrder(a: Bytes, b: Bytes)
    requires Before(a, b)
    ensures a != b && !Before(b, a)
  {
    hide LessAt;
    var j: nat :| LessAt(a, b, j);
    NotBack(a, b, j, j);
    forall k: nat
      ensures !LessAt(b, a, k)
    {
      NotBack(a, b, j, k);
    }
  }

  /** The comparison is that of a dictionary. */
  lemma CompareOrder(a: Bytes, b: Bytes)
    ensures Compare(a, b) < 0 <==> Before(a, b)
    ensures Compare(a, b) > 0 <==> Before(b, a)
    ensures Compare(a, b) == 0 <==> a == b
  {
    hide Memcmp;
    var n := if |a| < |b| then |a| else |b|;
    var k := MemcmpDecides(a, b, n);
    assert a[..|a|] == a && b[..|b|] == b;
    if Compare(a, b) < 0 {
      assert LessAt(a, b, k);
      OneOrder(a, b);
    } else if Compare(a, b) > 0 {
      assert LessAt(b, a, k);
      OneOrder(b, a);
    } else if Before(a, b) {
      OneOrder(a, b);
    } else if Before(b, a) {
      OneOrder(b, a);
    }
  }
}
