/** One step of the long division of decimal_div (Knuth's Algorithm D): the estimate of a
    quotient limb, the multiply-and-subtract, and the compensation. */
module KnuthStep {
  import opened Limbs
  import opened Decimals

  /** `u` and `v` split at limb weight `s`. */
  ghost predicate Split(x: int, s: int, hi: int, lo: int) {
    x == hi * s + lo && 0 <= lo < s && hi >= 0
  }

  lemma Expand(q: int, hi: int, s: int, lo: int)
    ensures q * (hi * s + lo) == (q * hi) * s + q * lo
  {
    Assoc(q, hi, s);
  }

  /** The true digit times the top limb stays within the top of the window. */
  lemma DigitBelowTop(u: int, v: int, s: int, uh: int, ul: int, v1: int, vl: int, q: int)
    requires Split(u, s, uh, ul) && Split(v, s, v1, vl) && q >= 0 && q * v <= u
    ensures q * v1 <= uh
  {
    Expand(q, v1, s, vl);
    MulNonNeg(q, vl);
    if q * v1 > uh {
      MulLe(s, uh + 1, q * v1);
    }
  }

  /** The estimate from the top limbs is at most two too high. */
  lemma EstimateClose(u: int, v: int, s: int, uh: int, ul: int, v1: int, vl: int, q: int)
    requires Split(u, s, uh, ul) && Split(v, s, v1, vl)
    requires q * v1 <= uh && 2 <= q <= BASE + 1 && 2 * v1 >= BASE
    ensures (q - 2) * v <= u
  {
    var x := q - 2;
    Expand(x, v1, s, vl);
    MulLe(x, vl, s);
    assert x * v1 + x == q * v1 + q - 2 * v1 - 2;
    MulLe(s, x * v1 + x, uh);
  }

  /** The test with the second limb only rejects digits that are too high. */
  lemma TestRejects(u: int, v: int, p: int, u3: int, ul: int, v2: int, vl: int, q: int)
    requires Split(u, p, u3, ul) && Split(v, p, v2, vl) && q >= 0
    requires q * v2 > u3
    ensures q * v > u
  {
    var a := q * v2;
    Expand(q, v2, p, vl);
    MulNonNeg(q, vl);
    MulLe(p, u3 + 1, a);
    Distribute(u3, 1, p);
  }

  /** A digit that passes the test is at most one too high. */
  lemma TestAccepts(u: int, v: int, p: int, u3: int, ul: int, v2: int, vl: int, q: int)
    requires Split(u, p, u3, ul) && Split(v, p, v2, vl) && 0 <= q <= BASE
    requires q * v2 <= u3 && v2 >= BASE
    ensures (q - 1) * v <= u
  {
    Expand(q, v2, p, vl);
    MulLe(p, q * v2, u3);
    MulLe(q, vl, p);
    MulLe(p, q, v2);
  }

  /** Multiples of `v` up to `u` are those by at most the true digit. */
  lemma MultipleOrder(u: int, v: int, q: int, x: int)
    requires v > 0 && q * v <= u < (q + 1) * v
    ensures x * v <= u <==> x <= q
  {
    if x <= q {
      MulLe(v, x, q);
    } else {
      MulLe(v, q + 1, x);
    }
  }

  /** Window and divisor as the top limbs that decimal_div looks at, over the weight `p` of the rest. */
  ghost predicate Tops(u: int, v: int, p: int, uh: int, c: int, v1: int, v2: int, ul: int, vl: int) {
    && Split(u, p, uh * BASE + c, ul) && Split(v, p, v1 * BASE + v2, vl)
    && 0 <= uh && 0 <= c < BASE && 0 <= v2 < BASE && v1 < BASE <= 2 * v1 && u < BASE * v
  }

  lemma SplitOneLower(x: int, p: int, hi: int, c: int, lo: int)
    requires Split(x, p, hi * BASE + c, lo) && 0 <= c < BASE && hi >= 0
    ensures Split(x, BASE * p, hi, c * p + lo)
  {
    assert (hi * BASE + c) * p == hi * (BASE * p) + c * p;
    MulLe(p, c, BASE - 1);
    MulNonNeg(c, p);
  }

  /** The top limbs bracket the true digit `q`. */
  lemma FirstEstimate(u: int, v: int, p: int, uh: int, c: int, v1: int, v2: int, ul: int, vl: int, q: int, qh: int)
    requires Tops(u, v, p, uh, c, v1, v2, ul, vl) && v > 0 && 0 <= q && q * v <= u < (q + 1) * v
    requires qh * v1 <= uh < (qh + 1) * v1
    ensures q <= qh <= BASE + 1 && qh - 2 <= q < BASE
  {
    SplitOneLower(u, p, uh, c, ul);
    SplitOneLower(v, p, v1, v2, vl);
    DigitBelowTop(u, v, BASE * p, uh, c * p + ul, v1, v2 * p + vl, q);
    MultipleOrder(uh, v1, qh, q);
    MultipleOrder(u, v, q, BASE);
    TopOfWindow(u, v, BASE * p, uh, c * p + ul, v1, v2 * p + vl);
    MultipleOrder(uh, v1, qh, BASE + 2);
    if qh >= 2 {
      EstimateClose(u, v, BASE * p, uh, c * p + ul, v1, v2 * p + vl, qh);
      MultipleOrder(u, v, q, qh - 2);
    }
  }

  lemma TopOfWindow(u: int, v: int, s: int, uh: int, ul: int, v1: int, vl: int)
    requires Split(u, s, uh, ul) && Split(v, s, v1, vl) && u < BASE * v
    ensures uh < BASE * (v1 + 1)
  {
    if uh >= BASE * (v1 + 1) {
      MulLe(s, BASE * (v1 + 1), uh);
    }
  }

  /** The test of decimal_div on the second limb of the divisor. */
  predicate Rejected(qh: int, rh: int, v2: int, c: int) {
    qh * v2 > BASE * rh + c
  }

  lemma TestForm(qh: int, rh: int, v1: int, v2: int, c: int)
    ensures Rejected(qh, rh, v2, c) <==> qh * (v1 * BASE + v2) > (qh * v1 + rh) * BASE + c
  {
    assert qh * (v1 * BASE + v2) == (qh * v1) * BASE + qh * v2;
  }

  /** The test compares a digit with the three top limbs of the window. */
  lemma TestDecides(u: int, v: int, p: int, uh: int, c: int, v1: int, v2: int, ul: int, vl: int, q: int, qh: int, rh: int)
    requires Tops(u, v, p, uh, c, v1, v2, ul, vl) && v > 0 && q * v <= u < (q + 1) * v
    requires uh == qh * v1 + rh && 0 <= qh
    ensures Rejected(qh, rh, v2, c) ==> qh > q
    ensures !Rejected(qh, rh, v2, c) && qh <= BASE ==> qh - 1 <= q
  {
    hide Split, Rejected;
    TestForm(qh, rh, v1, v2, c);
    if Rejected(qh, rh, v2, c) {
      TestRejects(u, v, p, uh * BASE + c, ul, v1 * BASE + v2, vl, qh);
      MultipleOrder(u, v, q, qh);
    } else if qh <= BASE {
      TestAccepts(u, v, p, uh * BASE + c, ul, v1 * BASE + v2, vl, qh);
      MultipleOrder(u, v, q, qh - 1);
    }
  }

  /** The corrected estimate is the true digit or one more. */
  method Estimate(a: int, b: int, c: int, v1: int, v2: int,
                  ghost u: int, ghost v: int, ghost p: int, ghost ul: int, ghost vl: int, ghost q: int)
    returns (qh: int)
    requires Tops(u, v, p, a * BASE + b, c, v1, v2, ul, vl) && v1 > 0
    requires v > 0 && 0 <= q && q * v <= u < (q + 1) * v
    ensures q <= qh <= q + 1 && 0 <= qh < BASE
  {
    hide Tops, Rejected;
    var uh := a * BASE + b;
    qh := uh / v1;
    var rh := uh % v1;
    Quotient(uh, v1);
    FirstEstimate(u, v, p, uh, c, v1, v2, ul, vl, q, qh);
    TestDecides(u, v, p, uh, c, v1, v2, ul, vl, q, qh, rh);
    if qh >= BASE || Rejected(qh, rh, v2, c) {
      OneLess(qh, v1, uh, rh);
      qh := qh - 1;
      rh := rh + v1;
      TestDecides(u, v, p, uh, c, v1, v2, ul, vl, q, qh, rh);
      if rh < BASE {
        if qh >= BASE || Rejected(qh, rh, v2, c) {
          qh := qh - 1;
        }
      } else {
        LargeRemainder(u, v, p, uh, c, v1, v2, ul, vl, qh, rh);
      }
    }
  }

  lemma OneLess(qh: int, v1: int, uh: int, rh: int)
    requires uh == qh * v1 + rh && 0 <= rh < v1 && qh > 0
    ensures uh == (qh - 1) * v1 + (rh + v1)
  {
  }

  lemma Quotient(x: int, d: int)
    requires d > 0
    ensures x == (x / d) * d + x % d && 0 <= x % d < d
    ensures (x / d) * d <= x < (x / d + 1) * d
  {
  }

  /** With a remainder of a limb or more the second test cannot reject. */
  lemma LargeRemainder(u: int, v: int, p: int, uh: int, c: int, v1: int, v2: int, ul: int, vl: int, qh: int, rh: int)
    requires Tops(u, v, p, uh, c, v1, v2, ul, vl) && uh == qh * v1 + rh && rh >= BASE && 0 <= qh
    ensures qh < BASE && !Rejected(qh, rh, v2, c)
  {
    SplitOneLower(u, p, uh, c, ul);
    SplitOneLower(v, p, v1, v2, vl);
    TopOfWindow(u, v, BASE * p, uh, c * p + ul, v1, v2 * p + vl);
    SmallProduct(qh, v1, v2, uh, rh);
  }

  lemma SmallProduct(qh: int, v1: int, v2: int, uh: int, rh: int)
    requires uh == qh * v1 + rh && rh >= BASE && uh < BASE * (v1 + 1) && v1 > 0 && 0 <= qh && v2 <= BASE
    ensures qh < BASE && qh * v2 <= BASE * rh
  {
    if qh >= BASE {
      MulLe(v1, BASE, qh);
    }
    MulLe(qh, v2, BASE);
  }

  /** `x` times the digit was subtracted from `old_`, leaving `new_` with `b` owed at weight `w`. */
  ghost predicate Owed(w: int, new_: int, qh: int, x: int, old_: int, b: int) {
    new_ + qh * x == old_ + w * b
  }

  lemma OwedStep(w: int, w': int, new_: int, qh: int, x: int, old_: int, b: int, nl: int, xl: int, ol: int, b': int)
    requires Owed(w, new_, qh, x, old_, b) && nl + qh * xl + b == ol + BASE * b' && w' == BASE * w
    ensures Owed(w', new_ + w * nl, qh, x + w * xl, old_ + w * ol, b')
  {
    assert w * (nl + qh * xl + b) == w * (ol + BASE * b');
    assert qh * (x + w * xl) == qh * x + w * (qh * xl);
  }

  /** One limb of the subtraction: `k` carries the product, `c` borrows. */
  lemma BorrowLimb(v: int, qh: int, k0: int, k: int, ol: int, c: int, nl: int, c': int)
    requires 0 <= v < BASE && 0 <= qh < BASE && 0 <= k0 < BASE * BASE && 0 <= ol < BASE && 0 <= c <= 1
    requires k == v * qh + k0 / BASE
    requires c' == (if ol - (k % BASE + c) < 0 then 1 else 0) && nl == ol - (k % BASE + c) + BASE * c'
    ensures 0 <= k < BASE * BASE && 0 <= nl < BASE
    ensures nl + qh * v + (c + k0 / BASE) == ol + BASE * (c' + k / BASE)
    ensures v == 0 ==> k < BASE
  {
    ProductLimb(v, qh, k0 / BASE);
  }

  lemma ProductLimb(x: int, qh: int, k: int)
    requires 0 <= x < BASE && 0 <= qh < BASE && 0 <= k < BASE
    ensures 0 <= x * qh + k < BASE * BASE
  {
    MulLe(x, 0, qh);
    MulLe(x, qh, 9999);
  }

  /** Subtracts `qh` times the divisor at `v0` from the window at `pos`; returns the final borrow. */
  method SubtractProduct(buf: array<int>, pos: nat, v0: nat, len: nat, qh: int) returns (c: int)
    requires 0 < len && pos + len <= v0 && v0 + len <= buf.Length
    requires AllLimbs(buf[..]) && buf[v0 + len - 1] == 0 && 0 <= qh < BASE
    modifies buf
    ensures 0 <= c <= 1 && AllLimbs(buf[..])
    ensures forall t :: 0 <= t < buf.Length && !(pos <= t < pos + len) ==> buf[t] == old(buf[t])
    ensures Owed(Pow10(4 * len), Val(buf[pos..pos + len]), qh, Val(buf[v0..v0 + len]), old(Val(buf[pos..pos + len])), c)
  {
    ghost var was, w, x := buf[..], buf[pos..pos + len], buf[v0..v0 + len];
    ghost var s: seq<int> := [];
    hide Val, Pow10, Owed, OwedBy;
    OwedStart(w, x, qh);
    var k := 0;
    c := 0;
    for l := 0 to len
      invariant 0 <= c <= 1 && 0 <= k < BASE * BASE && (l == len ==> k < BASE)
      invariant |s| == l && AllLimbs(s) && OwedBy(w, x, qh, s, l, c + k / BASE)
      invariant forall t :: 0 <= t < buf.Length ==> buf[t] == if pos <= t < pos + l then s[t - pos] else was[t]
    {
      ghost var k0, c0 := k, c;
      k := buf[v0 + l] * qh + k / BASE;
      buf[pos + l] := buf[pos + l] - (k % BASE + c);
      if buf[pos + l] < 0 {
        buf[pos + l] := buf[pos + l] + BASE;
        c := 1;
      } else {
        c := 0;
      }
      BorrowLimb(x[l], qh, k0, k, w[l], c0, buf[pos + l], c);
      OwedNext(w, x, qh, s, l, c0 + k0 / BASE, buf[pos + l], c + k / BASE);
      s := s + [buf[pos + l]];
    }
    assert x == buf[v0..v0 + len] && s == buf[pos..pos + len];
    WholeOwed(w, x, qh, s, c + k / BASE);
  }

  /** The first `l` limbs of `w` minus `qh` times those of `x` are `s`, with `b` owed. */
  ghost predicate OwedBy(w: seq<int>, x: seq<int>, qh: int, s: seq<int>, l: nat, b: int) {
    l <= |w| && l <= |x| && |s| == l && Owed(Pow10(4 * l), Val(s), qh, Val(x[..l]), Val(w[..l]), b)
  }

  lemma OwedStart(w: seq<int>, x: seq<int>, qh: int)
    ensures OwedBy(w, x, qh, [], 0, 0)
  {
    ValEmpty([]);
    ValEmpty(w[..0]);
    ValEmpty(x[..0]);
  }

  lemma OwedNext(w: seq<int>, x: seq<int>, qh: int, s: seq<int>, l: nat, b: int, y: int, b': int)
    requires OwedBy(w, x, qh, s, l, b) && l < |w| && l < |x| && y + qh * x[l] + b == w[l] + BASE * b'
    ensures OwedBy(w, x, qh, s + [y], l + 1, b')
  {
    hide Val, Pow10, Owed;
    ValAppend(s, y);
    ValSnoc(x, l);
    ValSnoc(w, l);
    PowLimb(l);
    OwedStep(Pow10(4 * l), Pow10(4 * l + 4), Val(s), qh, Val(x[..l]), Val(w[..l]), b, y, x[l], w[l], b');
  }

  lemma WholeOwed(w: seq<int>, x: seq<int>, qh: int, s: seq<int>, b: int)
    requires |w| == |x| == |s| && OwedBy(w, x, qh, s, |s|, b)
    ensures Owed(Pow10(4 * |s|), Val(s), qh, Val(x), Val(w), b)
  {
    assert w[..|s|] == w && x[..|s|] == x;
  }

  /** Adds the divisor back into the window; returns the final carry. */
  method AddBack(buf: array<int>, pos: nat, v0: nat, len: nat) returns (c: int)
    requires 0 < len && pos + len <= v0 && v0 + len <= buf.Length && AllLimbs(buf[..])
    modifies buf
    ensures 0 <= c <= 1 && AllLimbs(buf[..])
    ensures forall t :: 0 <= t < buf.Length && !(pos <= t < pos + len) ==> buf[t] == old(buf[t])
    ensures SumOf(Pow10(4 * len), old(Val(buf[pos..pos + len])), Val(buf[v0..v0 + len]), Val(buf[pos..pos + len]), c)
  {
    ghost var was, w, x := buf[..], buf[pos..pos + len], buf[v0..v0 + len];
    ghost var s: seq<int> := [];
    hide Val, Pow10, SumOf, Prefixes;
    c := 0;
    PrefixesStart(w, x);
    for l := 0 to len
      invariant 0 <= c <= 1 && |s| == l && AllLimbs(s) && Prefixes(w, x, s, l, c)
      invariant forall t :: 0 <= t < buf.Length ==> buf[t] == if pos <= t < pos + l then s[t - pos] else was[t]
    {
      ghost var c0 := c;
      buf[pos + l] := buf[pos + l] + (buf[v0 + l] + c);
      if buf[pos + l] >= BASE {
        buf[pos + l] := buf[pos + l] - BASE;
        c := 1;
      } else {
        c := 0;
      }
      PrefixesStep(w, x, s, l, c0, buf[pos + l], c);
      s := s + [buf[pos + l]];
    }
    assert x == buf[v0..v0 + len] && s == buf[pos..pos + len];
    WholeSum(w, x, s, c);
  }

  lemma WholeSum(a: seq<int>, b: seq<int>, c: seq<int>, k: int)
    requires |a| == |b| == |c| && Prefixes(a, b, c, |c|, k)
    ensures SumOf(Pow10(4 * |c|), Val(a), Val(b), Val(c), k)
  {
    assert a[..|c|] == a && b[..|c|] == b;
  }

  /** The top three limbs of the window and top two of the divisor, as the estimate needs them. */
  lemma TopsOf(w: seq<int>, x: seq<int>, n: nat)
    requires n >= 1 && |w| == n + 2 && |x| == n + 1 && AllLimbs(w) && AllLimbs(x)
    requires 2 * x[n] >= BASE && Val(w) < BASE * Val(x)
    ensures Tops(Val(w), Val(x), Pow10(4 * (n - 1)), w[n + 1] * BASE + w[n], w[n - 1], x[n], x[n - 1],
                 Val(w[..n - 1]), Val(x[..n - 1]))
  {
    hide Val, Pow10, Split;
    TopTwo(x, n - 1);
    TopThree(w, n - 1);
    SplitLimbs(w, n - 1);
    SplitLimbs(x, n - 1);
  }

  lemma SplitLimbs(s: seq<int>, k: nat)
    requires AllLimbs(s) && k <= |s|
    ensures Split(Val(s), Pow10(4 * k), Val(s[k..]), Val(s[..k]))
  {
    assert AllLimbs(s[k..]);
    hide Val, Pow10, Split, IsDiv;
    SplitDiv(s, k);
    ValBounds(s[k..]);
    SplitOfDiv(Val(s), Pow10(4 * k), Val(s[k..]), Val(s[..k]));
  }

  lemma SplitOfDiv(x: int, s: int, hi: int, lo: int)
    requires IsDiv(x, s, hi, lo) && hi >= 0
    ensures Split(x, s, hi, lo)
  {
  }

  lemma TopTwo(x: seq<int>, k: nat)
    requires |x| == k + 2
    ensures Val(x[k..]) == x[k + 1] * BASE + x[k]
  {
    assert x[k..][1..] == [x[k + 1]] && Val([x[k + 1]]) == x[k + 1];
  }

  lemma TopThree(w: seq<int>, k: nat)
    requires |w| == k + 3
    ensures Val(w[k..]) == (w[k + 2] * BASE + w[k + 1]) * BASE + w[k]
  {
    assert w[k..][1..] == w[k + 1..];
    TopTwo(w, k + 1);
  }

  lemma TopZero(x: seq<int>)
    requires |x| > 0 && x[|x| - 1] == 0
    ensures Val(x) == Val(x[..|x| - 1])
  {
    hide Val, Pow10;
    assert x[..|x|] == x;
    ValSnoc(x, |x| - 1);
  }

  /** No borrow: the estimate was the true digit. */
  lemma NoBorrowLeft(p: int, w: int, qh: int, v: int, u: int, q: int)
    requires Owed(p, w, qh, v, u, 0) && 0 <= w && v > 0 && q * v <= u < (q + 1) * v && q <= qh <= q + 1
    ensures IsDiv(u, v, qh, w)
  {
    MultipleOrder(u, v, q, qh);
  }

  /** A borrow: the estimate was one too high, and adding back carries out exactly once. */
  lemma Compensated(p: int, w: int, qh: int, v: int, u: int, q: int, w': int, c: int)
    requires Owed(p, w, qh, v, u, 1) && w < p && v > 0 && q * v <= u < (q + 1) * v && q <= qh <= q + 1
    requires SumOf(p, w, v, w', c) && 0 <= c <= 1 && 0 <= w' < p
    ensures c == 1 && IsDiv(u, v, qh - 1, w')
  {
    MultipleOrder(u, v, q, qh);
    Distribute(q, 1, v);
  }

  /** Subtracts the estimated multiple and compensates an estimate that was one too high. The
      assertion of the C code after the compensation is proved here. */
  method Correct(buf: array<int>, pos: nat, v0: nat, n: nat, estimate: int, ghost q: int) returns (qh: int)
    requires pos + n + 2 <= v0 && v0 + n + 2 <= buf.Length && AllLimbs(buf[..]) && buf[v0 + n + 1] == 0
    requires 0 <= estimate < BASE && 0 <= q <= estimate <= q + 1
    requires var u, v := Val(buf[pos..pos + n + 2]), Val(buf[v0..v0 + n + 2]);
             v > 0 && q * v <= u < (q + 1) * v
    modifies buf
    ensures AllLimbs(buf[..]) && 0 <= qh < BASE
    ensures forall t :: 0 <= t < buf.Length && !(pos <= t < pos + n + 2) ==> buf[t] == old(buf[t])
    ensures IsDiv(old(Val(buf[pos..pos + n + 2])), old(Val(buf[v0..v0 + n + 2])), qh, Val(buf[pos..pos + n + 2]))
  {
    hide Val, Pow10, Owed, SumOf, IsDiv;
    ghost var x, u := buf[v0..v0 + n + 2], Val(buf[pos..pos + n + 2]);
    qh := estimate;
    var c := SubtractProduct(buf, pos, v0, n + 2, qh);
    assert buf[v0..v0 + n + 2] == x;
    ghost var y := Val(buf[pos..pos + n + 2]);
    ValBounds(buf[pos..pos + n + 2]);
    if c > 0 {
      qh := qh - 1;
      c := AddBack(buf, pos, v0, n + 2);
      assert buf[v0..v0 + n + 2] == x;
      ValBounds(buf[pos..pos + n + 2]);
      Compensated(Pow10(4 * (n + 2)), y, estimate, Val(x), u, q, Val(buf[pos..pos + n + 2]), c);
      assert c > 0;
    } else {
      NoBorrowLeft(Pow10(4 * (n + 2)), y, qh, Val(x), u, q);
    }
  }

  /** One quotient limb: the window becomes the remainder. */
  method Step(buf: array<int>, pos: nat, v0: nat, n: nat) returns (qh: int)
    requires n >= 1 && pos + n + 2 <= v0 && v0 + n + 2 <= buf.Length && AllLimbs(buf[..])
    requires buf[v0 + n + 1] == 0 && 2 * buf[v0 + n] >= BASE
    requires Val(buf[pos..pos + n + 2]) < BASE * Val(buf[v0..v0 + n + 1])
    modifies buf
    ensures AllLimbs(buf[..]) && 0 <= qh < BASE
    ensures forall t :: 0 <= t < buf.Length && !(pos <= t < pos + n + 2) ==> buf[t] == old(buf[t])
    ensures IsDiv(old(Val(buf[pos..pos + n + 2])), old(Val(buf[v0..v0 + n + 1])), qh, Val(buf[pos..pos + n + 2]))
  {
    hide Val, Pow10, Tops, IsDiv;
    ghost var w, x := buf[pos..pos + n + 2], buf[v0..v0 + n + 1];
    ghost var u, v, q := DigitOf(w, x);
    TopsOf(w, x, n);
    qh := Estimate(buf[pos + n + 1], buf[pos + n], buf[pos + n - 1], buf[v0 + n], buf[v0 + n - 1],
                   u, v, Pow10(4 * (n - 1)), Val(w[..n - 1]), Val(x[..n - 1]), q);
    assert buf[v0..v0 + n + 2][..n + 1] == x;
    TopZero(buf[v0..v0 + n + 2]);
    qh := Correct(buf, pos, v0, n, qh, q);
  }

  lemma DigitOf(w: seq<int>, x: seq<int>) returns (u: int, v: int, q: int)
    requires AllLimbs(w) && AllLimbs(x) && |x| > 0 && x[|x| - 1] > 0
    ensures u == Val(w) && v == Val(x) > 0 && q >= 0 && q * v <= u < (q + 1) * v
  {
    hide Val, Pow10;
    u, v := Val(w), Val(x);
    assert AllLimbs(x[..|x| - 1]) && x[..|x|] == x;
    ValBounds(w);
    ValSnoc(x, |x| - 1);
    ValBounds(x[..|x| - 1]);
    MulLe(Pow10(4 * (|x| - 1)), 1, x[|x| - 1]);
    q := u / v;
    IsDivOf(u, v);
    QuotientSign(u, v, q, u % v);
  }
}
