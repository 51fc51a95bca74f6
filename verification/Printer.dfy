/** common/strop.c: numbers formatted digit by digit into a buffer. */
module Printer {
  import opened Decimals
  import opened Limbs
  import opened NumberText

  // ----- What is printed -----

  function SignText(sign: int): Text {
    [if sign == SIGN_NEG then MINUS else SPACE]
  }

  /** From digit `k` of the mantissa on: `n` digits, then a point and `m` digits. A negative `n` counts
      zeros that stand between the point and digit `k`. */
  function Body(v: nat, dn: nat, k: nat, n: int, m: nat): Text {
    var w := if n > 0 then n else 0;
    Places(v, dn, k, k + w) + Fraction(v, dn, k + w, if n < 0 then -n else 0, m)
  }

  function Fraction(v: nat, dn: nat, k: nat, gap: nat, m: nat): Text {
    if m == 0 then []
    else
      var z := if gap < m then gap else m;
      [POINT] + ZeroDigits(z) + Places(v, dn, k, k + m - z)
  }

  function ExponentText(e: int): Text {
    [LETTER_E, if e >= 0 then PLUS else MINUS] + Numeral(if e >= 0 then e else -e)
  }

  /** The text of a decimal with `whole` digits before the point and `m` after it, and an exponent when
      one is asked for; a question mark when the number does not fit into the format. */
  function Printed(d: Num, whole: int, m: nat, exp: bool): Text
    requires Normalized(d)
  {
    if d.n == 0 then
      (if whole > 0 then [ZERO] else [])
      + ZeroFraction(m)
      + (if exp then [LETTER_E, PLUS, ZERO] else [])
    else if exp then SignText(d.sign) + Scientific(d, whole, m)
    else if whole >= d.n + d.e then SignText(d.sign) + Plain(d, whole, m)
    else [QUESTION_MARK]
  }

  function ZeroFraction(m: nat): Text {
    if m > 0 then [POINT] + ZeroDigits(m) else []
  }

  /** The first `whole` digits, the next `m` after the point, and the exponent that makes up for it. */
  function Scientific(d: Num, whole: int, m: nat): Text
    requires Normalized(d)
  {
    Body(d.v, d.n, 0, whole, m) + ExponentText(d.n + d.e - whole)
  }

  /** All digits before the point, and `m` digits after it. */
  function Plain(d: Num, whole: int, m: nat): Text
    requires Normalized(d)
  {
    (if whole > 0 && d.n + d.e <= 0 then [ZERO] else []) + Body(d.v, d.n, 0, d.n + d.e, m)
  }

  // ----- Writing -----

  /** `text` was appended at `start` to what the buffer held before it. */
  ghost predicate Wrote(was: Text, start: nat, now: Text, ptr: nat, text: Text) {
    && start <= |was| == |now| && ptr == start + |text| <= |now|
    && now[..ptr] == was[..start] + text
  }

  lemma WroteMore(was: Text, start: nat, mid: Text, p: nat, now: Text, ptr: nat, a: Text, b: Text)
    requires Wrote(was, start, mid, p, a) && Wrote(mid, p, now, ptr, b)
    ensures Wrote(was, start, now, ptr, a + b)
  {
  }

  method Put(buf: array<int>, ptr: nat, sz: nat, c: int) returns (rc: int, ptr': nat)
    requires ptr <= sz <= buf.Length
    modifies buf
    ensures rc == if ptr < sz then 0 else 1
    ensures rc == 0 ==> ptr' == ptr + |[c]| <= sz
    ensures rc == 0 ==> Wrote(old(buf[..]), ptr, buf[..], ptr', [c])
    ensures buf[..ptr] == old(buf[..ptr])
  {
    ptr' := ptr;
    if sz - ptr < 1 {
      return 1, ptr;
    }
    buf[ptr] := c;
    assert buf[..ptr + 1] == buf[..ptr] + [c];
    return 0, ptr + 1;
  }

  /** The digit loop of strop_fmt_uint64 and strop_fmt_uint64_padded, from the weight `pos` == 10^j down. */
  method PutDigits(buf: array<int>, ptr: nat, sz: nat, number: nat, pos: nat, ghost j: nat) returns (rc: int, ptr': nat)
    requires ptr <= sz <= buf.Length && pos == Pow10(j)
    modifies buf
    ensures rc == if ptr + j + 1 <= sz then 0 else 1
    ensures rc == 0 ==> ptr' == ptr + |DigitsOf(number, j + 1)| <= sz
    ensures rc == 0 ==> Wrote(old(buf[..]), ptr, buf[..], ptr', DigitsOf(number, j + 1))
    ensures buf[..ptr] == old(buf[..ptr])
  {
    hide Pow10, Front, Wrote;
    ghost var was := buf[..];
    ghost var k := 0;
    ptr' := ptr;
    var p := pos;
    WroteNothing(was, ptr);
    while true
      invariant k <= j && p == Pow10(j - k) && ptr' == ptr + k <= sz
      invariant Wrote(was, ptr, buf[..], ptr', DigitsOf(Front(number, j + 1 - k), k)) && buf[..ptr] == was[..ptr]
      decreases j - k
    {
      var dgt := (number / p) % 10;
      NextDigit(number, j - k, k);
      ghost var mid := buf[..];
      rc, ptr' := Put(buf, ptr', sz, ZERO + dgt);
      if rc != 0 {
        return;
      }
      WroteMore(was, ptr, mid, ptr + k, buf[..], ptr', DigitsOf(Front(number, j + 1 - k), k), [ZERO + dgt]);
      assert buf[..ptr] == mid[..ptr + k][..ptr] by { WrotePrefix(mid, ptr + k, buf[..], ptr', [ZERO + dgt], ptr); }
      PowDown(j - k);
      p := p / 10;
      k := k + 1;
      if p == 0 {
        break;
      }
    }
    CutNothing(number);
  }

  /** `v` without its `w` lowest digits. */
  ghost function Front(v: nat, w: nat): (q: nat) {
    CutSize(v, w, 0);
    Cut(v, w)
  }

  lemma WroteNothing(was: Text, start: nat)
    requires start <= |was|
    ensures Wrote(was, start, was, start, [])
  {
  }

  lemma WrotePrefix(was: Text, start: nat, now: Text, ptr: nat, text: Text, k: nat)
    requires Wrote(was, start, now, ptr, text) && k <= start
    ensures now[..k] == was[..start][..k]
  {
    assert now[..k] == now[..ptr][..k];
  }

  lemma NextDigit(number: nat, w: nat, k: nat)
    ensures DigitsOf(Front(number, w), k + 1) == DigitsOf(Front(number, w + 1), k) + [ZERO + number / Pow10(w) % 10]
  {
    CutCut(number, w, 1);
    assert Pow10(1) == 10 * Pow10(0) == 10;
    hide Pow10;
    assert Cut(Cut(number, w), 1) == Cut(number, w) / 10;
  }

  lemma PowDown(k: nat)
    ensures Pow10(k) / 10 == if k == 0 then 0 else Pow10(k - 1)
  {
  }

  lemma CutNothing(v: nat)
    ensures Front(v, 0) == v
  {
    PowZero();
  }

  /** strop_fmt_uint64: the number without leading zeros, if it fits. */
  method FmtUint64(buf: array<int>, ptr: nat, sz: nat, number: nat) returns (rc: int, ptr': nat)
    requires ptr <= sz <= buf.Length
    modifies buf
    ensures rc == if ptr + |Numeral(number)| <= sz then 0 else 1
    ensures rc == 0 ==> ptr' == ptr + |Numeral(number)| <= sz
    ensures rc == 0 ==> Wrote(old(buf[..]), ptr, buf[..], ptr', Numeral(number))
    ensures buf[..ptr] == old(buf[..ptr])
  {
    hide Pow10, Numeral, Wrote;
    if number == 0 {
      NumeralZero();
      rc, ptr' := Put(buf, ptr, sz, ZERO);
    } else {
      var pos := 1;
      ghost var j := 0;
      PowZero();
      while (number / pos) / 10 != 0
        invariant pos == Pow10(j) <= number && buf[..] == old(buf[..])
        decreases number - pos
      {
        Shorter(number, pos);
        PowUp(j);
        pos := pos * 10;
        j := j + 1;
      }
      Shorter(number, pos);
      NumeralOf(number, j);
      rc, ptr' := PutDigits(buf, ptr, sz, number, pos, j);
    }
  }

  lemma NumeralZero()
    ensures Numeral(0) == [ZERO]
  {
    assert DigitsOf(0, 1) == DigitsOf(0, 0) + [ZERO];
  }

  lemma NumeralOf(number: nat, j: nat)
    requires Pow10(j) <= number < Pow10(j) * 10
    ensures Numeral(number) == DigitsOf(number, j + 1)
  {
    PowUp(j);
    DigitsUnique(number, j + 1);
  }

  lemma Shorter(number: nat, pos: nat)
    requires pos > 0
    ensures (number / pos) / 10 != 0 <==> pos * 10 <= number
  {
    IsDivOf(number, pos);
    QuotientOrder(number, pos, number / pos, number % pos, 10);
    QuotientSign(number, pos, number / pos, number % pos);
  }

  lemma PowUp(k: nat)
    ensures Pow10(k + 1) == 10 * Pow10(k) && Pow10(k) >= 1
  {
  }

  method PutZeros(buf: array<int>, ptr: nat, sz: nat, count: nat) returns (rc: int, ptr': nat)
    requires ptr <= sz <= buf.Length
    modifies buf
    ensures rc == if ptr + count <= sz then 0 else 1
    ensures rc == 0 ==> ptr' == ptr + |ZeroDigits(count)| <= sz
    ensures rc == 0 ==> Wrote(old(buf[..]), ptr, buf[..], ptr', ZeroDigits(count))
    ensures buf[..ptr] == old(buf[..ptr])
  {
    hide Wrote;
    ghost var was := buf[..];
    rc, ptr' := 0, ptr;
    WroteNothing(was, ptr);
    assert ZeroDigits(0) == [];
    for k := 0 to count
      invariant ptr' == ptr + k <= sz && rc == 0
      invariant Wrote(was, ptr, buf[..], ptr', ZeroDigits(k)) && buf[..ptr] == was[..ptr]
    {
      ghost var mid := buf[..];
      rc, ptr' := Put(buf, ptr', sz, ZERO);
      if rc != 0 {
        return;
      }
      WroteMore(was, ptr, mid, ptr + k, buf[..], ptr', ZeroDigits(k), [ZERO]);
      assert ZeroDigits(k) + [ZERO] == ZeroDigits(k + 1);
      assert buf[..ptr] == mid[..ptr + k][..ptr] by { WrotePrefix(mid, ptr + k, buf[..], ptr', [ZERO], ptr); }
    }
  }

  /** strop_fmt_uint64_padded: exactly the `pad` lowest digits. */
  method FmtUint64Padded(buf: array<int>, ptr: nat, sz: nat, number: nat, pad: nat) returns (rc: int, ptr': nat)
    requires ptr <= sz <= buf.Length
    modifies buf
    ensures rc == if ptr + pad <= sz then 0 else 1
    ensures rc == 0 ==> ptr' == ptr + |DigitsOf(number, pad)| <= sz
    ensures rc == 0 ==> Wrote(old(buf[..]), ptr, buf[..], ptr', DigitsOf(number, pad))
  {
    hide Pow10, Wrote;
    ghost var was := buf[..];
    if pad == 0 {
      WroteNothing(was, ptr);
      return 0, ptr;
    }
    var left: nat := pad - 1;
    var pos := 1;
    ghost var j := 0;
    PowZero();
    while (number / pos) / 10 != 0 && left > 0
      invariant buf[..] == was && pos == Pow10(j) && left + j == pad - 1 && (j > 0 ==> pos <= number)
      decreases left
    {
      Shorter(number, pos);
      PowUp(j);
      pos := pos * 10;
      j := j + 1;
      left := left - 1;
    }
    Shorter(number, pos);
    PowUp(j);
    PaddedDigits(number, left, j + 1);
    rc, ptr' := PutZeros(buf, ptr, sz, left);
    if rc != 0 {
      return;
    }
    ghost var mid, p := buf[..], ptr';
    rc, ptr' := PutDigits(buf, ptr', sz, number, pos, j);
    if rc == 0 {
      WroteMore(was, ptr, mid, p, buf[..], ptr', ZeroDigits(left), DigitsOf(number, j + 1));
    }
  }

  /** Leading zeros are the digits of a number that is short enough. */
  lemma PaddedDigits(number: nat, a: nat, b: nat)
    requires a == 0 || number < Pow10(b)
    ensures DigitsOf(number, a + b) == ZeroDigits(a) + DigitsOf(number, b)
  {
    DigitsSplit(number, a, b);
    if a > 0 {
      CutUnique(number, b, 0, number);
      DigitsOfZero(a);
    } else {
      assert ZeroDigits(0) == [] && DigitsOf(Cut(number, b), 0) == [];
    }
  }

  lemma {:induction false} DigitsOfZero(k: nat)
    ensures DigitsOf(0, k) == ZeroDigits(k)
  {
    if k > 0 {
      DigitsOfZero(k - 1);
      assert ZeroDigits(k) == ZeroDigits(k - 1) + [ZERO];
    }
  }

  // ----- Decimals -----

  /** The loop variables `i` and `p` stand at digit `k` from the top of a mantissa of `n` digits. */
  ghost predicate At(n: nat, k: nat, i: int, p: int) {
    if k < n then i == (n - 1 - k) / 4 && p == Pow10((n - 1 - k) % 4) else i == -1
  }

  lemma LimbDigit(c: int, r: nat)
    requires r < 4
    ensures (c % BASE) / Pow10(r) % 10 == Cut(c, r) % 10
  {
    hide Pow10;
    PowAdd(r, 4 - r);
    SmallPowers();
    PowUp(3 - r);
    if r == 0 {
      ModOfMod(c);
    } else {
      TenthOf(c, Pow10(r), Pow10(4 - r), Pow10(3 - r));
    }
  }

  lemma ModOfMod(c: int)
    ensures (c % BASE) / 1 % 10 == c / 1 % 10
  {
    ModTen(1000 * (c / BASE), c % BASE);
  }

  lemma TenthOf(c: int, a: int, b: int, tenth: int)
    requires a > 0 && a * b == BASE && b == 10 * tenth
    ensures (c % BASE) / a % 10 == c / a % 10
  {
    var q, w := c / BASE, c % BASE;
    IsDivOf(w, a);
    Assoc(a, b, q);
    DivUnique(c, a, b * q + w / a, w % a);
    Assoc(10, tenth, q);
    ModTen(tenth * q, w / a);
  }

  lemma ModTen(y: int, x: int)
    ensures (10 * y + x) % 10 == x % 10
  {
  }

  /** The digit under the cursor. */
  lemma DigitHere(s: seq<int>, n: nat, k: nat, i: int, p: int)
    requires AllLimbs(s) && |s| == PARTS && n <= POSITIONS && k < n && At(n, k, i, p)
    ensures 0 <= i < |s| && p > 0 && Val(s) >= 0
    ensures s[i] / p % 10 == Place(Val(s), n, k)
  {
    hide Pow10, Val, Cut;
    var r := (n - 1 - k) % 4;
    assert n - 1 - k == 4 * i + r;
    ValBounds(s);
    LimbAt(s, i);
    CutCut(Val(s), 4 * i, r);
    LimbDigit(Cut(Val(s), 4 * i), r);
  }

  lemma NextPlace(n: nat, k: nat, i: int, p: int)
    requires k < n && At(n, k, i, p)
    ensures p / 10 != 0 ==> At(n, k + 1, i, p / 10)
    ensures p / 10 == 0 ==> At(n, k + 1, i - 1, BASE / 10)
  {
    SmallPowers();
    PowDown((n - 1 - k) % 4);
  }

  lemma TopLimbOf(d: Num, s: seq<int>)
    requires Normalized(d) && d.n > 0 && |s| == PARTS && AllLimbs(s) && Val(s) == d.v
    ensures (d.n - 1) / 4 < |s|
    ensures Pow10((d.n - 1) % 4) <= s[(d.n - 1) / 4] < Pow10((d.n - 1) % 4 + 1)
  {
    hide Pow10, Val, Digits, AllLimbs;
    TopLimb(s, d.n);
  }

  lemma FirstAt(n: nat, i: int)
    requires n > 0 && i == (n - 1) / 4
    ensures At(n, 0, i, Pow10((n - 1) % 4))
  {
    hide Pow10;
  }

  /** The weight of the first digit inside the top limb. */
  method FindTop(d: Decimal, i: nat) returns (p: int)
    requires d.Valid() && Normalized(d.Abs()) && d.n > 0 && i == (d.n - 1) / 4
    ensures At(d.n, 0, i, p)
  {
    hide Pow10, Val, Digits, Normalized, AllLimbs, At;
    ghost var r := (d.n - 1) % 4;
    TopLimbOf(d.Abs(), d.m[..]);
    FirstAt(d.n, i);
    var k := d.m[i];
    PowZero();
    p := 1;
    ghost var j := 0;
    while k / p >= 10
      invariant j <= r && p == Pow10(j) >= 1
      decreases r - j
    {
      QuotientAtLeast(k, p);
      PowUp(j);
      PowReach(k, j, r);
      p := p * 10;
      j := j + 1;
    }
    QuotientAtLeast(k, p);
    PowUp(j);
    PowReach(k, j, r);
  }

  lemma QuotientAtLeast(k: int, p: int)
    requires p > 0
    ensures k / p >= 10 <==> k >= p * 10
  {
    IsDivOf(k, p);
    QuotientOrder(k, p, k / p, k % p, 10);
  }

  lemma PowReach(k: int, j: nat, r: nat)
    requires Pow10(r) <= k < Pow10(r + 1) && j <= r
    ensures j < r <==> Pow10(j + 1) <= k
  {
    if j < r {
      PowMono(j + 1, r);
    }
  }

  lemma TopLimb(s: seq<int>, n: nat)
    requires AllLimbs(s) && |s| == PARTS && 0 <= Val(s) < Pow10(POSITIONS)
    requires 0 < n && n == Digits(Val(s))
    ensures (n - 1) / 4 < |s|
    ensures Pow10((n - 1) % 4) <= s[(n - 1) / 4] < Pow10((n - 1) % 4 + 1)
  {
    hide Pow10, Val, Digits, Cut;
    var v, i, r := Val(s), (n - 1) / 4, (n - 1) % 4;
    DigitsBounds(v);
    DigitsLe(v, POSITIONS);
    LimbAt(s, i);
    CutSize(v, 4 * i, r);
    CutSize(v, 4 * i, r + 1);
    PowMono(r + 1, 4);
    SmallPowers();
  }

  /** The digit at the cursor, and the cursor after it. */
  method TakeDigit(d: Decimal, i: int, p: int, ghost k: nat) returns (digit: int, i': int, p': int)
    requires d.Valid() && Normalized(d.Abs()) && At(d.n, k, i, p)
    ensures d.n >= 0 && d.Abs().v >= 0
    ensures digit == Place(d.Abs().v, d.n, k) && At(d.n, k + 1, i', p')
  {
    hide Pow10, Place, At, Val, Digits;
    NormalSize(d.Abs());
    i', p' := i, p;
    PastEnd(d.n, k, i, p);
    if i >= 0 {
      DigitHere(d.m[..], d.n, k, i, p);
      NextPlace(d.n, k, i, p);
      digit := d.m[i] / p % 10;
      p' := p / 10;
      if p' == 0 {
        i' := i - 1;
        p' := BASE / 10;
      }
    } else {
      PlacePastEnd(Val(d.m[..]), d.n, k);
      digit := 0;
    }
  }

  /** The inner loop of strop_fmt_decimal_pse: `count` digits from digit `k` on. */
  method PutMantissa(buf: array<int>, ptr: nat, sz: nat, d: Decimal, i: int, p: int, ghost k: nat, count: nat)
    returns (rc: int, ptr': nat, i': int, p': int)
    requires ptr <= sz <= buf.Length && buf != d.m
    requires d.Valid() && Normalized(d.Abs()) && At(d.n, k, i, p)
    modifies buf
    ensures rc == if ptr + count <= sz then 0 else 1
    ensures rc == 0 ==> ptr' == ptr + count <= sz && At(d.n, k + count, i', p')
    ensures rc == 0 ==> Wrote(old(buf[..]), ptr, buf[..], ptr', Places(d.Abs().v, d.n, k, k + count))
    ensures buf[..ptr] == old(buf[..ptr])
  {
    hide Wrote, Pow10, Place, Places, At, Val, Digits, AllLimbs, Normalized;
    NormalSize(d.Abs());
    ghost var was, v: nat, dn: nat := buf[..], d.Abs().v, d.n;
    rc, ptr', i', p' := 0, ptr, i, p;
    WroteNothing(was, ptr);
    PlacesNext(v, dn, k, k);
    for c := 0 to count
      invariant d.Valid() && d.Abs() == old(d.Abs()) && rc == 0
      invariant ptr' == ptr + c <= sz && At(dn, k + c, i', p')
      invariant Wrote(was, ptr, buf[..], ptr', Places(v, dn, k, k + c)) && buf[..ptr] == was[..ptr]
    {
      var digit;
      digit, i', p' := TakeDigit(d, i', p', k + c);
      ghost var mid := buf[..];
      rc, ptr' := Put(buf, ptr', sz, ZERO + digit);
      Prefixes(was, ptr, mid, ptr + c, buf[..]);
      if rc != 0 {
        return;
      }
      PlacesNext(v, dn, k, k + c);
      WroteMore(was, ptr, mid, ptr + c, buf[..], ptr', Places(v, dn, k, k + c), [ZERO + digit]);
    }
  }

  lemma PlacesNext(v: nat, n: nat, a: nat, b: nat)
    requires a <= b
    ensures Places(v, n, a, b + 1) == Places(v, n, a, b) + [ZERO + Place(v, n, b)]
    ensures Places(v, n, a, a) == []
  {
  }

  lemma NormalSize(d: Num)
    requires Normalized(d)
    ensures 0 <= d.n <= POSITIONS && 0 <= d.v
  {
    DigitsLe(d.v, POSITIONS);
  }

  lemma PastEnd(n: nat, k: nat, i: int, p: int)
    requires At(n, k, i, p)
    ensures i >= 0 <==> k < n
    ensures k >= n ==> At(n, k + 1, i, p)
  {
  }

  lemma PlacePastEnd(v: nat, n: nat, k: nat)
    requires k >= n
    ensures Place(v, n, k) == 0
  {
  }

  /** The outer loop of strop_fmt_decimal_pse, which makes at most two passes: `n` digits, the point,
      and `m` digits. */
  method PutBody(buf: array<int>, ptr: nat, sz: nat, d: Decimal, i: int, p: int, n: int, m: nat)
    returns (rc: int, ptr': nat)
    requires ptr <= sz <= buf.Length && buf != d.m
    requires d.Valid() && Normalized(d.Abs()) && At(d.n, 0, i, p)
    modifies buf
    ensures rc == if ptr + |Body(d.Abs().v, d.n, 0, n, m)| <= sz then 0 else 1
    ensures rc == 0 ==> ptr' == ptr + |Body(d.Abs().v, d.n, 0, n, m)| <= sz
    ensures rc == 0 ==> Wrote(old(buf[..]), ptr, buf[..], ptr', Body(d.Abs().v, d.n, 0, n, m))
    ensures buf[..ptr] == old(buf[..ptr])
  {
    hide Wrote, At, Normalized, Places, ZeroDigits, Body, Fraction, Val, Digits, AllLimbs, Pow10;
    NormalSize(d.Abs());
    ghost var was, v: nat, dn: nat := buf[..], d.Abs().v, d.n;
    var i', p', whole: nat := i, p, if n > 0 then n else 0;
    var gap: nat := if n >= 0 then 0 else if -n < m then -n else m;
    BodyParts(v, dn, n, m, whole, gap);
    rc, ptr', i', p' := PutMantissa(buf, ptr, sz, d, i, p, 0, whole);
    if rc != 0 || m == 0 {
      return;
    }
    ghost var mid, at, rest := buf[..], ptr', [POINT] + ZeroDigits(gap) + Places(v, dn, whole, whole + m - gap);
    rc, ptr' := PutFraction(buf, ptr', sz, d, i', p', whole, m, gap);
    if rc == 0 {
      WroteMore(was, ptr, mid, at, buf[..], ptr', Places(v, dn, 0, whole), rest);
    }
    assert buf[..ptr] == was[..ptr] by { Prefixes(was, ptr, mid, at, buf[..]); }
  }

  lemma Prefixes(was: Text, ptr: nat, mid: Text, at: nat, now: Text)
    requires ptr <= at && ptr <= |was| && at <= |mid| && at <= |now|
    requires mid[..ptr] == was[..ptr] && now[..at] == mid[..at]
    ensures now[..ptr] == was[..ptr]
  {
    assert now[..ptr] == now[..at][..ptr] && mid[..at][..ptr] == mid[..ptr];
  }

  /** The point and what follows it: `gap` zeros, and digits from digit `k` on. */
  method PutFraction(buf: array<int>, ptr: nat, sz: nat, d: Decimal, i: int, p: int, ghost k: nat, m: nat, gap: nat)
    returns (rc: int, ptr': nat)
    requires ptr <= sz <= buf.Length && buf != d.m && gap <= m
    requires d.Valid() && Normalized(d.Abs()) && At(d.n, k, i, p)
    modifies buf
    ensures rc == if ptr + 1 + m <= sz then 0 else 1
    ensures rc == 0 ==> ptr' == ptr + 1 + m <= sz
    ensures rc == 0 ==>
      Wrote(old(buf[..]), ptr, buf[..], ptr', [POINT] + ZeroDigits(gap) + Places(d.Abs().v, d.n, k, k + m - gap))
    ensures buf[..ptr] == old(buf[..ptr])
  {
    hide Wrote, At, Normalized, Places, ZeroDigits, Val, Digits, AllLimbs, Pow10;
    NormalSize(d.Abs());
    ghost var was, v: nat, dn: nat := buf[..], d.Abs().v, d.n;
    rc, ptr' := Put(buf, ptr, sz, POINT);
    if rc != 0 {
      return;
    }
    ghost var mid, at := buf[..], ptr';
    rc, ptr' := PutZeros(buf, ptr', sz, gap);
    Prefixes(was, ptr, mid, at, buf[..]);
    if rc != 0 {
      return;
    }
    WroteMore(was, ptr, mid, at, buf[..], ptr', [POINT], ZeroDigits(gap));
    mid, at := buf[..], ptr';
    var i', p';
    rc, ptr', i', p' := PutMantissa(buf, ptr', sz, d, i, p, k, m - gap);
    Prefixes(was, ptr, mid, at, buf[..]);
    if rc != 0 {
      return;
    }
    WroteMore(was, ptr, mid, at, buf[..], ptr', [POINT] + ZeroDigits(gap), Places(v, dn, k, k + m - gap));
  }

  lemma BodyParts(v: nat, dn: nat, n: int, m: nat, whole: nat, gap: nat)
    requires whole == (if n > 0 then n else 0) && gap == if n >= 0 then 0 else if -n < m then -n else m
    ensures Body(v, dn, 0, n, m) ==
      if m == 0 then Places(v, dn, 0, whole)
      else Places(v, dn, 0, whole) + ([POINT] + ZeroDigits(gap) + Places(v, dn, whole, whole + m - gap))
    ensures |Body(v, dn, 0, n, m)| == if m == 0 then whole else whole + 1 + m
  {
    assert Places(v, dn, 0, whole) + [] == Places(v, dn, 0, whole);
  }

  /** Digits and exponent, after the sign. */
  method PutScientific(buf: array<int>, ptr: nat, sz: nat, d: Decimal, i: int, p: int, n: int, m: nat)
    returns (rc: int, ptr': nat)
    requires ptr <= sz <= buf.Length && buf != d.m
    requires d.Valid() && Normalized(d.Abs()) && At(d.n, 0, i, p)
    modifies buf
    ensures rc == if ptr + |Scientific(d.Abs(), n, m)| <= sz then 0 else 1
    ensures rc == 0 ==> ptr' == ptr + |Scientific(d.Abs(), n, m)| <= sz
    ensures rc == 0 ==> Wrote(old(buf[..]), ptr, buf[..], ptr', Scientific(d.Abs(), n, m))
    ensures buf[..ptr] == old(buf[..ptr])
  {
    hide Wrote, At, Normalized, Body, Val, Digits, AllLimbs, Pow10, ExponentText;
    NormalSize(d.Abs());
    ghost var was, out := buf[..], Body(d.Abs().v, d.n, 0, n, m);
    var e := d.n + d.e - n;
    rc, ptr' := PutBody(buf, ptr, sz, d, i, p, n, m);
    if rc != 0 {
      return;
    }
    ghost var mid, at := buf[..], ptr';
    rc, ptr' := PutExponent(buf, ptr', sz, e);
    if rc != 0 {
      return;
    }
    WroteMore(was, ptr, mid, at, buf[..], ptr', out, ExponentText(e));
    assert buf[..ptr] == mid[..at][..ptr] by { WrotePrefix(mid, at, buf[..], ptr', ExponentText(e), ptr); }
  }

  /** Digits without an exponent, after the sign. */
  method PutPlain(buf: array<int>, ptr: nat, sz: nat, d: Decimal, i: int, p: int, n: int, m: nat)
    returns (rc: int, ptr': nat)
    requires ptr <= sz <= buf.Length && buf != d.m
    requires d.Valid() && Normalized(d.Abs()) && At(d.n, 0, i, p)
    modifies buf
    ensures rc == if ptr + |Plain(d.Abs(), n, m)| <= sz then 0 else 1
    ensures rc == 0 ==> ptr' == ptr + |Plain(d.Abs(), n, m)| <= sz
    ensures rc == 0 ==> Wrote(old(buf[..]), ptr, buf[..], ptr', Plain(d.Abs(), n, m))
    ensures buf[..ptr] == old(buf[..ptr])
  {
    hide Wrote, At, Normalized, Body, Val, Digits, AllLimbs, Pow10;
    NormalSize(d.Abs());
    ghost var was, out: Text, rest := buf[..], [], Body(d.Abs().v, d.n, 0, d.n + d.e, m);
    assert out + rest == rest;
    ptr' := ptr;
    WroteNothing(was, ptr);
    if n > 0 && d.n + d.e <= 0 {
      rc, ptr' := Put(buf, ptr, sz, ZERO);
      if rc != 0 {
        return;
      }
      out := [ZERO];
    }
    ghost var mid, at := buf[..], ptr';
    rc, ptr' := PutBody(buf, ptr', sz, d, i, p, d.n + d.e, m);
    if rc != 0 {
      return;
    }
    WroteMore(was, ptr, mid, at, buf[..], ptr', out, rest);
    assert buf[..ptr] == mid[..at][..ptr] by { WrotePrefix(mid, at, buf[..], ptr', rest, ptr); }
  }

  /** strop_fmt_decimal_pse for a decimal that is not zero. */
  method FmtNonzero(buf: array<int>, start: nat, sz: nat, n: int, m: nat, exp: bool, d: Decimal)
    returns (rc: int, ptr: nat)
    requires start <= sz <= buf.Length && buf != d.m
    requires d.Valid() && Normalized(d.Abs()) && d.n > 0
    modifies buf
    ensures rc == if start + |Printed(d.Abs(), n, m, exp)| <= sz then 0 else 1
    ensures rc == 0 ==> ptr == start + |Printed(d.Abs(), n, m, exp)| <= sz
    ensures rc == 0 ==> Wrote(old(buf[..]), start, buf[..], ptr, Printed(d.Abs(), n, m, exp))
  {
    hide Wrote, At, Normalized, Val, Digits, AllLimbs, Pow10, Scientific, Plain;
    ghost var was, num := buf[..], d.Abs();
    var i := (d.n - 1) / 4;
    var p := FindTop(d, i);
    if !(n >= d.n + d.e || exp) {
      rc, ptr := Put(buf, start, sz, QUESTION_MARK);
      return;
    }
    rc, ptr := Put(buf, start, sz, if d.sign == SIGN_NEG then MINUS else SPACE);
    if rc != 0 {
      return;
    }
    ghost var mid, at, out := buf[..], ptr, SignText(d.sign);
    if exp {
      rc, ptr := PutScientific(buf, ptr, sz, d, i, p, n, m);
    } else {
      rc, ptr := PutPlain(buf, ptr, sz, d, i, p, n, m);
    }
    if rc == 0 {
      WroteMore(was, start, mid, at, buf[..], ptr, out, if exp then Scientific(num, n, m) else Plain(num, n, m));
    }
  }

  method PutExponent(buf: array<int>, ptr: nat, sz: nat, e: int) returns (rc: int, ptr': nat)
    requires ptr <= sz <= buf.Length
    modifies buf
    ensures rc == if ptr + |ExponentText(e)| <= sz then 0 else 1
    ensures rc == 0 ==> ptr' == ptr + |ExponentText(e)| <= sz
    ensures rc == 0 ==> Wrote(old(buf[..]), ptr, buf[..], ptr', ExponentText(e))
    ensures buf[..ptr] == old(buf[..ptr])
  {
    hide Wrote, Numeral;
    ghost var was, sign, size := buf[..], if e >= 0 then PLUS else MINUS, if e >= 0 then e else -e;
    assert ExponentText(e) == [LETTER_E] + [sign] + Numeral(size);
    rc, ptr' := Put(buf, ptr, sz, LETTER_E);
    if rc != 0 {
      return;
    }
    ghost var mid, at := buf[..], ptr';
    rc, ptr' := Put(buf, ptr', sz, if e >= 0 then PLUS else MINUS);
    if rc != 0 {
      return;
    }
    WroteMore(was, ptr, mid, at, buf[..], ptr', [LETTER_E], [sign]);
    mid, at := buf[..], ptr';
    rc, ptr' := FmtUint64(buf, ptr', sz, if e >= 0 then e else -e);
    if rc != 0 {
      return;
    }
    WroteMore(was, ptr, mid, at, buf[..], ptr', [LETTER_E] + [sign], Numeral(size));
  }

  lemma ZeroExponent()
    ensures ExponentText(0) == [LETTER_E, PLUS, ZERO]
  {
    NumeralZero();
  }

  /** The fraction of zero. */
  method PutZeroFraction(buf: array<int>, ptr: nat, sz: nat, m: nat) returns (rc: int, ptr': nat)
    requires ptr <= sz <= buf.Length
    modifies buf
    ensures rc == if ptr + |ZeroFraction(m)| <= sz then 0 else 1
    ensures rc == 0 ==> ptr' == ptr + |ZeroFraction(m)| <= sz
    ensures rc == 0 ==> Wrote(old(buf[..]), ptr, buf[..], ptr', ZeroFraction(m))
  {
    hide Wrote, ZeroDigits;
    ghost var was := buf[..];
    if m == 0 {
      WroteNothing(was, ptr);
      return 0, ptr;
    }
    rc, ptr' := Put(buf, ptr, sz, POINT);
    if rc != 0 {
      return;
    }
    if sz - ptr' < m {
      return 1, ptr';
    }
    ghost var mid, at := buf[..], ptr';
    rc, ptr' := PutZeros(buf, ptr', sz, m);
    WroteMore(was, ptr, mid, at, buf[..], ptr', [POINT], ZeroDigits(m));
  }

  /** The exponent of zero, if one is asked for. */
  method PutZeroExponent(buf: array<int>, ptr: nat, sz: nat, exp: bool) returns (rc: int, ptr': nat)
    requires ptr <= sz <= buf.Length
    modifies buf
    ensures rc == if ptr + (if exp then 3 else 0) <= sz then 0 else 1
    ensures rc == 0 ==> ptr' == ptr + (if exp then 3 else 0) <= sz
    ensures rc == 0 ==> Wrote(old(buf[..]), ptr, buf[..], ptr', if exp then [LETTER_E, PLUS, ZERO] else [])
  {
    hide Wrote, ExponentText;
    ZeroExponent();
    WroteNothing(buf[..], ptr);
    if !exp {
      return 0, ptr;
    }
    if sz - ptr < 3 {
      return 1, ptr;
    }
    rc, ptr' := PutExponent(buf, ptr, sz, 0);
  }

  /** strop_fmt_decimal_pse for zero. */
  method FmtZero(buf: array<int>, start: nat, sz: nat, n: int, m: nat, exp: bool, d: Decimal)
    returns (rc: int, ptr: nat)
    requires start <= sz <= buf.Length && buf != d.m && d.Valid() && Normalized(d.Abs()) && d.n == 0
    modifies buf
    ensures rc == if start + |Printed(d.Abs(), n, m, exp)| <= sz then 0 else 1
    ensures rc == 0 ==> ptr == start + |Printed(d.Abs(), n, m, exp)| <= sz
    ensures rc == 0 ==> Wrote(old(buf[..]), start, buf[..], ptr, Printed(d.Abs(), n, m, exp))
  {
    hide Wrote, ZeroFraction, Val, Digits, AllLimbs, Pow10, Normalized, ExponentText, Numeral, Scientific, Plain;
    ghost var was, whole: Text := buf[..], if n > 0 then [ZERO] else [];
    WroteNothing(was, start);
    ptr := start;
    if n > 0 {
      rc, ptr := Put(buf, ptr, sz, ZERO);
      if rc != 0 {
        return;
      }
    }
    ghost var mid, at := buf[..], ptr;
    rc, ptr := PutZeroFraction(buf, ptr, sz, m);
    if rc != 0 {
      return;
    }
    WroteMore(was, start, mid, at, buf[..], ptr, whole, ZeroFraction(m));
    mid, at := buf[..], ptr;
    rc, ptr := PutZeroExponent(buf, ptr, sz, exp);
    if rc == 0 {
      WroteMore(was, start, mid, at, buf[..], ptr, whole + ZeroFraction(m), if exp then [LETTER_E, PLUS, ZERO] else []);
    }
  }

  /** strop_fmt_decimal_pse: the formatted number, if it fits; the caller's position moves only then. */
  method FmtDecimalPse(buf: array<int>, start: nat, sz: nat, precision: nat, scale: nat, exp: bool, d: Decimal)
    returns (rc: int, start': nat)
    requires start <= sz <= buf.Length && buf != d.m && d.Valid() && Normalized(d.Abs())
    modifies buf
    ensures rc == if start + |Printed(d.Abs(), precision - scale, scale, exp)| <= sz then 0 else 1
    ensures rc == 0 ==> Wrote(old(buf[..]), start, buf[..], start', Printed(d.Abs(), precision - scale, scale, exp))
    ensures rc == 1 ==> start' == start
  {
    hide Printed, Wrote;
    NormalSize(d.Abs());
    if d.n > 0 {
      rc, start' := FmtNonzero(buf, start, sz, precision - scale, scale, exp, d);
    } else {
      rc, start' := FmtZero(buf, start, sz, precision - scale, scale, exp, d);
    }
    if rc != 0 {
      start' := start;
    }
  }
}
