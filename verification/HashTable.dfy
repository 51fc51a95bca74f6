/** common/htable.c: a fixed-size hash table with linear probing. */
module HashTable {
  import opened Options

  type Key = seq<bv8>

  /** An entry points to its key bytes and its data; `None` in a slot is a NULL key pointer. */
  datatype Entry<T> = Entry(key: Key, data: T)

  type Slots<T> = seq<Option<Entry<T>>>

  function Home(f: Key -> nat, key: Key, n: nat): nat
    requires n > 0
    ensures Home(f, key, n) < n
  {
    f(key) % n
  }

  /** Slot reached after `d` probes from `start` in a table of `n` slots. */
  function Probe(start: nat, d: nat, n: nat): nat
    requires start < n && d < n
    ensures Probe(start, d, n) < n
  {
    if start + d < n then start + d else start + d - n
  }

  /** Probe distance of slot `s` from `start`. */
  function Distance(start: nat, s: nat, n: nat): nat
    requires start < n && s < n
    ensures Distance(start, s, n) < n && Probe(start, Distance(start, s, n), n) == s
  {
    if s >= start then s - start else s + n - start
  }

  predicate HoldsOther<T>(slot: Option<Entry<T>>, key: Key) {
    slot.Some? && slot.value.key != key
  }

  /** The first `count` probes for `key` meet other keys only. */
  ghost predicate Passed<T>(s: Slots<T>, f: Key -> nat, key: Key, count: nat)
    requires 0 < |s| && count <= |s|
  {
    forall d :: 0 <= d < count ==> HoldsOther(s[Probe(Home(f, key, |s|), d, |s|)], key)
  }

  /** Entry `i` is reached by probing for its key: there is no gap, and no such key, before it. */
  ghost predicate Reachable<T>(s: Slots<T>, f: Key -> nat, i: nat)
    requires i < |s| && s[i].Some?
  {
    var key := s[i].value.key;
    Passed(s, f, key, Distance(Home(f, key, |s|), i, |s|))
  }

  ghost predicate GapFree<T>(s: Slots<T>, f: Key -> nat) {
    forall i :: 0 <= i < |s| && s[i].Some? ==> Reachable(s, f, i)
  }

  ghost predicate Represents<T>(s: Slots<T>, m: map<Key, Entry<T>>) {
    && (forall i :: 0 <= i < |s| && s[i].Some? ==> s[i].value.key in m && m[s[i].value.key] == s[i].value)
    && (forall k :: k in m ==> m[k].key == k && Some(m[k]) in s)
  }

  /** The slots in use. */
  ghost function Occupied<T>(s: Slots<T>): set<nat> {
    set i: nat | i < |s| && s[i].Some?
  }

  ghost function Run(home: nat, count: nat, n: nat): set<nat>
    requires home < n && count <= n
  {
    set d: nat | d < count :: Probe(home, d, n)
  }

  lemma {:induction false} RunSize(home: nat, count: nat, n: nat)
    requires home < n && count <= n
    ensures |Run(home, count, n)| == count
  {
    if count > 0 {
      RunSize(home, count - 1, n);
      assert Run(home, count, n) == Run(home, count - 1, n) + {Probe(home, count - 1, n)};
      assert Probe(home, count - 1, n) !in Run(home, count - 1, n);
    }
  }

  lemma SubsetSize(a: set<nat>, b: set<nat>)
    requires a <= b
    ensures |a| <= |b|
  {
    assert b == a + (b - a);
  }

  /** Probes that pass over other keys visit that many slots in use, and one more if the next is in use. */
  lemma PassedOccupied<T>(s: Slots<T>, f: Key -> nat, key: Key, count: nat)
    requires 0 < |s| && count <= |s| && Passed(s, f, key, count)
    ensures count <= |Occupied(s)|
    ensures count < |s| && s[Probe(Home(f, key, |s|), count, |s|)].Some? ==> count < |Occupied(s)|
  {
    var home := Home(f, key, |s|);
    var full := count < |s| && s[Probe(home, count, |s|)].Some?;
    var k := if full then count + 1 else count;
    RunSize(home, k, |s|);
    forall i | i in Run(home, k, |s|) ensures i in Occupied(s) {
      var d: nat :| d < k && Probe(home, d, |s|) == i;
      if d < count {
        assert HoldsOther(s[Probe(home, d, |s|)], key);
      }
    }
    SubsetSize(Run(home, k, |s|), Occupied(s));
  }

  lemma PassedAt<T>(s: Slots<T>, f: Key -> nat, key: Key, count: nat, d: nat)
    requires 0 < |s| && count <= |s| && Passed(s, f, key, count) && d < |s|
    ensures d < count ==> HoldsOther(s[Probe(Home(f, key, |s|), d, |s|)], key)
  {
  }

  /** Once `count` probes have passed, a stored key is not behind them, and not beyond a gap. */
  lemma KeyAhead<T>(s: Slots<T>, f: Key -> nat, key: Key, count: nat, i: nat)
    requires 0 < |s| && count <= |s| && GapFree(s, f) && Passed(s, f, key, count)
    requires i < |s| && s[i].Some? && s[i].value.key == key
    ensures count < |Occupied(s)| && count < |s|
    ensures s[Probe(Home(f, key, |s|), count, |s|)].Some?
    ensures s[Probe(Home(f, key, |s|), count, |s|)].value.key == key ==> Probe(Home(f, key, |s|), count, |s|) == i
  {
    var home := Home(f, key, |s|);
    var far := Distance(home, i, |s|);
    assert Reachable(s, f, i);
    PassedAt(s, f, key, count, far);
    PassedOccupied(s, f, key, far);
    if count < far {
      assert HoldsOther(s[Probe(home, count, |s|)], key);
    }
  }

  /** Writing an entry where its probing stopped keeps every key reachable. */
  lemma PlacedReachable<T>(s: Slots<T>, f: Key -> nat, entry: Entry<T>, steps: nat)
    requires steps < |s| && GapFree(s, f) && Passed(s, f, entry.key, steps)
    requires !HoldsOther(s[Probe(Home(f, entry.key, |s|), steps, |s|)], entry.key)
    ensures GapFree(s[Probe(Home(f, entry.key, |s|), steps, |s|) := Some(entry)], f)
  {
    var n, at := |s|, Probe(Home(f, entry.key, |s|), steps, |s|);
    var t := s[at := Some(entry)];
    forall i | 0 <= i < n && t[i].Some? ensures Reachable(t, f, i) {
      var key := t[i].value.key;
      var home, far := Home(f, key, n), Distance(Home(f, key, n), i, n);
      if i != at {
        assert Reachable(s, f, i);
        if key == entry.key {
          KeyAhead(s, f, key, steps, i);
        }
      }
      forall d | 0 <= d < far ensures HoldsOther(t[Probe(home, d, n)], key) {
        if i != at || d < steps {
          assert HoldsOther(s[Probe(home, d, n)], key);
        }
      }
    }
  }

  lemma PlacedRepresents<T>(s: Slots<T>, f: Key -> nat, m: map<Key, Entry<T>>, entry: Entry<T>, steps: nat)
    requires steps < |s| && GapFree(s, f) && Represents(s, m) && Passed(s, f, entry.key, steps)
    requires !HoldsOther(s[Probe(Home(f, entry.key, |s|), steps, |s|)], entry.key)
    ensures Represents(s[Probe(Home(f, entry.key, |s|), steps, |s|) := Some(entry)], m[entry.key := entry])
  {
    var n, at := |s|, Probe(Home(f, entry.key, |s|), steps, |s|);
    var t, m' := s[at := Some(entry)], m[entry.key := entry];
    forall i | 0 <= i < n && t[i].Some? ensures t[i].value.key in m' && m'[t[i].value.key] == t[i].value {
      if i != at && t[i].value.key == entry.key {
        KeyAhead(s, f, entry.key, steps, i);
      }
    }
    forall k | k in m' ensures m'[k].key == k && Some(m'[k]) in t {
      if k == entry.key {
        assert t[at] == Some(entry);
      } else {
        var i :| 0 <= i < n && s[i] == Some(m[k]);
        assert t[i] == Some(m'[k]);
      }
    }
  }

  lemma PlacedCount<T>(s: Slots<T>, i: nat, entry: Entry<T>)
    requires i < |s|
    ensures |Occupied(s[i := Some(entry)])| <= |Occupied(s)| + 1
  {
    assert Occupied(s[i := Some(entry)]) == Occupied(s) + {i};
  }

  class Table<!T> {
    const n: nat
    const hfun: Key -> nat
    const tbl: array<Option<Entry<T>>>
    var used: nat
    ghost var contents: map<Key, Entry<T>>

    /** htable_create. */
    constructor (size: nat, f: Key -> nat)
      ensures n == size && hfun == f && used == 0 && contents == map[]
      ensures fresh(tbl) && Valid()
    {
      n, hfun, used := size, f, 0;
      tbl := new Option<Entry<T>>[size](_ => None);
      contents := map[];
      new;
      assert Occupied(tbl[..]) == {};
    }

    ghost predicate Valid()
      reads this, tbl
    {
      && tbl.Length == n
      && GapFree(tbl[..], hfun) && Represents(tbl[..], contents)
      && |Occupied(tbl[..])| <= used <= n
    }

    /** htable_search. Stopping after `used` probes loses no key. */
    method Search(key: Key) returns (r: Option<Entry<T>>)
      requires Valid() && n > 0
      ensures r == if key in contents then Some(contents[key]) else None
    {
      ghost var s := tbl[..];
      ghost var home := Home(hfun, key, n);
      var hash := Home(hfun, key, n);
      var checked := 0;
      while true
        invariant 0 <= checked < n && hash == Probe(home, checked, n) && Passed(s, hfun, key, checked)
        decreases n - checked
      {
        Verdict(s, hfun, contents, key, checked);
        if tbl[hash].None? {
          return None;
        }
        if tbl[hash].value.key == key {
          return tbl[hash];
        }
        hash := hash + 1;
        if hash == n {
          hash := 0;
        }
        checked := checked + 1;
        Verdict(s, hfun, contents, key, checked);
        if checked >= used {
          return None;
        }
      }
    }

    /** htable_add: 0 when the entry is stored, -1 when the table has taken `n` entries. */
    method Add(entry: Entry<T>) returns (rc: int)
      requires Valid()
      modifies this, tbl
      ensures Valid()
      ensures rc == if old(used) == n then -1 else 0
      ensures used == if rc == 0 then old(used) + 1 else old(used)
      ensures contents == if rc == 0 then old(contents)[entry.key := entry] else old(contents)
    {
      if used == n {
        return -1;
      }
      var hash, steps := FindSlot(entry.key);
      Store(entry, hash, steps);
      return 0;
    }

    /** The probing loop of htable_add. */
    method FindSlot(key: Key) returns (hash: nat, ghost steps: nat)
      requires Valid() && used < n
      ensures steps < n && hash == Probe(Home(hfun, key, n), steps, n)
      ensures Passed(tbl[..], hfun, key, steps) && !HoldsOther(tbl[hash], key)
    {
      ghost var s := tbl[..];
      hash, steps := Home(hfun, key, n), 0;
      while tbl[hash].Some? && tbl[hash].value.key != key
        invariant 0 <= steps < n && hash == Probe(Home(hfun, key, n), steps, n) && Passed(s, hfun, key, steps)
        decreases n - steps
      {
        PassedOccupied(s, hfun, key, steps);
        hash := hash + 1;
        if hash == n {
          hash := 0;
        }
        steps := steps + 1;
      }
    }

    method Store(entry: Entry<T>, hash: nat, ghost steps: nat)
      requires Valid() && used < n
      requires steps < n && hash == Probe(Home(hfun, entry.key, n), steps, n)
      requires Passed(tbl[..], hfun, entry.key, steps) && !HoldsOther(tbl[hash], entry.key)
      modifies this, tbl
      ensures Valid() && used == old(used) + 1 && contents == old(contents)[entry.key := entry]
    {
      hide GapFree, Represents, Occupied, Passed;
      ghost var s := tbl[..];
      PlacedReachable(s, hfun, entry, steps);
      PlacedRepresents(s, hfun, contents, entry, steps);
      PlacedCount(s, hash, entry);
      tbl[hash] := Some(entry);
      assert tbl[..] == s[hash := Some(entry)];
      used := used + 1;
      contents := contents[entry.key := entry];
    }
  }

  /** What the probes made so far say about the key. */
  lemma Verdict<T>(s: Slots<T>, f: Key -> nat, m: map<Key, Entry<T>>, key: Key, count: nat)
    requires 0 < |s| && count <= |s| && GapFree(s, f) && Represents(s, m) && Passed(s, f, key, count)
    ensures count >= |Occupied(s)| ==> key !in m
    ensures count < |s| && s[Probe(Home(f, key, |s|), count, |s|)].None? ==> key !in m
  {
    if key in m {
      var i :| 0 <= i < |s| && s[i] == Some(m[key]);
      KeyAhead(s, f, key, count, i);
    }
  }

  // ----- Runs -----

  /** The map a table of `n` slots holds after adding `es` in order. */
  ghost function AfterAdds<T>(n: nat, es: seq<Entry<T>>): (r: (map<Key, Entry<T>>, nat))
    ensures r.1 == if |es| < n then |es| else n
  {
    if |es| == 0 then (map[], 0)
    else
      var (m, used) := AfterAdds(n, es[..|es| - 1]);
      var e := es[|es| - 1];
      if used == n then (m, used) else (m[e.key := e], used + 1)
  }

  /** After any run of adds the table holds, for each key, the last entry stored among the
      first `n`; later adds are refused. */
  lemma {:induction false} LastAdded<T>(n: nat, es: seq<Entry<T>>, key: Key)
    ensures var m, stored := AfterAdds(n, es).0, es[..if |es| < n then |es| else n];
            (key in m <==> exists e :: e in stored && e.key == key) &&
            forall i :: (0 <= i < |stored| && stored[i].key == key &&
              (forall j :: i < j < |stored| ==> stored[j].key != key)) ==> key in m && m[key] == stored[i]
  {
    if |es| > 0 {
      LastAdded(n, es[..|es| - 1], key);
      var init := es[..|es| - 1];
      if |es| <= n {
        assert es[..|es|] == init[..|init|] + [es[|es| - 1]];
      } else {
        assert es[..n] == init[..n];
      }
    }
  }

  /** A run of adds on a new table. */
  method AddAll<T>(n: nat, f: Key -> nat, es: seq<Entry<T>>) returns (t: Table<T>)
    ensures fresh(t) && fresh(t.tbl) && t.Valid() && t.n == n && t.hfun == f
    ensures (t.contents, t.used) == AfterAdds(n, es)
  {
    hide GapFree, Represents, Occupied;
    t := new Table<T>(n, f);
    for i := 0 to |es|
      invariant fresh(t) && fresh(t.tbl) && t.Valid() && t.n == n && t.hfun == f
      invariant (t.contents, t.used) == AfterAdds(n, es[..i])
    {
      assert es[..i + 1][..i] == es[..i];
      var rc := t.Add(es[i]);
    }
    assert es[..|es|] == es;
  }

  /** The last entry with the key. */
  function LastFor<T>(es: seq<Entry<T>>, key: Key): Option<Entry<T>> {
    if |es| == 0 then None
    else if es[|es| - 1].key == key then Some(es[|es| - 1])
    else LastFor(es[..|es| - 1], key)
  }

  lemma {:induction false} AfterAddsLast<T>(n: nat, es: seq<Entry<T>>, key: Key)
    ensures var m := AfterAdds(n, es).0;
            (if key in m then Some(m[key]) else None) == LastFor(es[..if |es| < n then |es| else n], key)
  {
    if |es| > 0 {
      var init := es[..|es| - 1];
      AfterAddsLast(n, init, key);
      if |es| <= n {
        assert es[..|es|] == es && init[..|init|] == init;
      } else {
        assert es[..n] == init[..n];
      }
    }
  }

  /** A search after a run of adds finds the last entry with the key among the first `n`, or nothing. */
  method AddAllThenSearch<T>(n: nat, f: Key -> nat, es: seq<Entry<T>>, key: Key) returns (r: Option<Entry<T>>)
    requires n > 0
    ensures r == LastFor(es[..if |es| < n then |es| else n], key)
  {
    var t := AddAll(n, f, es);
    r := t.Search(key);
    AfterAddsLast(n, es, key);
  }

  // ----- The string hash -----

  const TWO32 := 0x1_0000_0000

  /** The string hash as a polynomial in 33 over the integers. */
  function Polynomial(s: seq<bv8>): nat {
    if |s| == 0 then 5381 else 33 * Polynomial(s[..|s| - 1]) + s[|s| - 1] as int
  }

  function Power33(k: nat): nat {
    if k == 0 then 1 else 33 * Power33(k - 1)
  }

  function Code(b: bv8): int {
    b as int
  }

  /** Each byte with the power of 33 for the number of bytes behind it. */
  function Weighted(s: seq<bv8>): int {
    if |s| == 0 then 0 else Code(s[0]) * Power33(|s| - 1) + Weighted(s[1..])
  }

  lemma {:induction false} WeightedSnoc(s: seq<bv8>, c: bv8)
    ensures Weighted(s + [c]) == 33 * Weighted(s) + Code(c)
  {
    hide Code;
    if |s| > 0 {
      WeightedSnoc(s[1..], c);
      assert (s + [c])[1..] == s[1..] + [c];
      Heavier(Code(s[0]), |s|);
    } else {
      assert s + [c] == [c] && [c][1..] == [];
      assert Weighted([c]) == Code(c) * Power33(0) + Weighted([c][1..]);
    }
  }

  lemma Heavier(x: int, k: nat)
    requires k > 0
    ensures x * Power33(k) == 33 * (x * Power33(k - 1))
  {
  }

  /** The coefficients of the polynomial are the bytes, behind 5381 in front. */
  lemma {:induction false} PolynomialIs(s: seq<bv8>)
    ensures Polynomial(s) == 5381 * Power33(|s|) + Weighted(s)
  {
    if |s| > 0 {
      var t := s[..|s| - 1];
      PolynomialIs(t);
      Heavier(5381, |s|);
      WeightedSnoc(t, s[|s| - 1]);
      assert t + [s[|s| - 1]] == s;
    }
  }

  /** htable_strhash: the shift-and-add loop in 32 bits computes the polynomial modulo 2^32. */
  method StringHash(s: seq<bv8>) returns (hash: nat)
    ensures hash == Polynomial(s) % 0x1_0000_0000
  {
    hash := 5381;
    for i := 0 to |s|
      invariant hash == Polynomial(s[..i]) % TWO32
    {
      assert s[..i + 1][..i] == s[..i];
      HornerStep(Polynomial(s[..i]), s[i] as int);
      hash := ((hash * 32 % TWO32 + hash) % TWO32 + s[i] as int) % TWO32;
    }
    assert s[..|s|] == s;
  }

  lemma HornerStep(p: nat, c: int)
    ensures ((p % TWO32 * 32 % TWO32 + p % TWO32) % TWO32 + c) % TWO32 == (33 * p + c) % TWO32
  {
  }
}
