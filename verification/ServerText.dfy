/** session/pproto_server.c: the server reads a text character by character and converts it. */
module ServerTexts {
  import opened Encodings
  import opened Framing
  import opened Options
  import opened Receivers
  import opened TextSenders

  /** What one call reads: converted bytes, characters, the bytes left for later calls, and success. */
  datatype Reading = Reading(out: Bytes, count: nat, rest: Bytes, ok: bool)

  /** Characters of `s`, converted, until fewer than four bytes of room are left. A last character
      that is not complete is dropped without an error. */
  function ReadChars(from: Encoding, to: Encoding, s: Bytes, room: nat): (g: Reading)
    requires room >= MAXCHAR_LEN
    ensures |g.out| <= room && |g.rest| <= |s|
    ensures g.ok && s != [] ==> |g.rest| < |s|
    decreases |s|
  {
    match NextChar(from, s)
    case End => Reading([], 0, [], true)
    case Partial => Reading([], 0, [], true)
    case Bad(_) => Reading([], 0, s, false)
    case Char(n) =>
      var x := Convert(from, to, s[..n]);
      if room - |x| < MAXCHAR_LEN then Reading(x, 1, s[n..], true)
      else Then(x, 1, ReadChars(from, to, s[n..], room - |x|))
  }

  /** Bytes and characters read before the reading `g`. */
  function Then(x: Bytes, count: nat, g: Reading): Reading {
    g.(out := x + g.out, count := count + g.count)
  }

  /** The whole text, converted. */
  function Recoded(from: Encoding, to: Encoding, s: Bytes): (Bytes, bool)
    decreases |s|
  {
    match NextChar(from, s)
    case End => ([], true)
    case Partial => ([], true)
    case Bad(_) => ([], false)
    case Char(n) =>
      var (rest, ok) := Recoded(from, to, s[n..]);
      (Convert(from, to, s[..n]) + rest, ok)
  }

  /** Reading in pieces gives the whole text, whatever the buffer sizes. */
  lemma {:induction false} PiecesAddUp(from: Encoding, to: Encoding, s: Bytes, room: nat)
    requires room >= MAXCHAR_LEN
    ensures var g := ReadChars(from, to, s, room);
            if g.ok then
              && Recoded(from, to, s).0 == g.out + Recoded(from, to, g.rest).0
              && Recoded(from, to, s).1 == Recoded(from, to, g.rest).1
            else !Recoded(from, to, s).1
    decreases |s|
  {
    hide NextChar, Convert, ReadChars, Recoded;
    ReadStep(from, to, s, room);
    RecodedStep(from, to, s);
    if NextChar(from, s).Char? {
      var n := NextChar(from, s).n;
      var x := Convert(from, to, s[..n]);
      if room - |x| >= MAXCHAR_LEN {
        PiecesAddUp(from, to, s[n..], room - |x|);
        var g := ReadChars(from, to, s[n..], room - |x|);
        assert x + (g.out + Recoded(from, to, g.rest).0) == (x + g.out) + Recoded(from, to, g.rest).0;
      }
    } else {
      RecodedStep(from, to, []);
      assert [] + Recoded(from, to, []).0 == Recoded(from, to, []).0;
    }
  }

  lemma ReadStep(from: Encoding, to: Encoding, s: Bytes, room: nat)
    requires room >= MAXCHAR_LEN
    ensures var scan := NextChar(from, s);
            ReadChars(from, to, s, room) ==
              if scan.Bad? then Reading([], 0, s, false)
              else if !scan.Char? then Reading([], 0, [], true)
              else
                var x := Convert(from, to, s[..scan.n]);
                if room - |x| < MAXCHAR_LEN then Reading(x, 1, s[scan.n..], true)
                else Then(x, 1, ReadChars(from, to, s[scan.n..], room - |x|))
  {
    hide NextChar, Convert;
  }

  lemma RecodedStep(from: Encoding, to: Encoding, s: Bytes)
    ensures var scan := NextChar(from, s);
            Recoded(from, to, s) ==
              if scan.Bad? then ([], false)
              else if !scan.Char? then ([], true)
              else After(Convert(from, to, s[..scan.n]), Recoded(from, to, s[scan.n..]))
    ensures NextChar(from, []) == End
  {
    hide Convert;
  }

  /** Between equal encodings a text of whole valid characters is read as it was sent. */
  lemma {:induction false} RecodedSame(enc: Encoding, s: Bytes)
    requires Recoded(enc, enc, s).1 && !Truncated(enc, s)
    ensures Recoded(enc, enc, s).0 == s
    decreases |s|
  {
    hide NextChar;
    RecodedStep(enc, enc, s);
    match NextChar(enc, s)
    case End => EndIsEmpty(enc, s);
    case Char(n) =>
      RecodedSame(enc, s[n..]);
      assert s == s[..n] + s[n..];
  }

  /** The text ends inside a character. */
  predicate Truncated(enc: Encoding, s: Bytes)
    decreases |s|
  {
    match NextChar(enc, s)
    case End => false
    case Partial => true
    case Bad(_) => false
    case Char(n) => Truncated(enc, s[n..])
  }

  /** The sender makes of a valid text in its encoding what a reader would make of it. */
  lemma {:induction false} SentRecoded(from: Encoding, to: Encoding, s: Bytes)
    requires Recoded(from, to, s).1 && !Truncated(from, s)
    ensures WholeChars(from, s) && Converted(from, from, to, s) == Recoded(from, to, s)
    decreases |s|
  {
    hide NextChar, LengthAt, Recoded, Converted, WholeChars, Truncated;
    RecodedStep(from, to, s);
    TruncatedStep(from, s);
    match NextChar(from, s)
    case End =>
      EndIsEmpty(from, s);
      ConvertedNothing(from, to);
    case Char(n) =>
      CharIsWhole(from, s);
      SentRecoded(from, to, s[n..]);
      WholeStep(from, s);
      ConvertedStep(from, from, to, s);
  }

  /** A valid text in the encoding that server and client share passes the sender unchanged. */
  lemma SentUnchanged(enc: Encoding, s: Bytes)
    requires Recoded(enc, enc, s).1 && !Truncated(enc, s)
    ensures WholeChars(enc, s) && Converted(enc, enc, enc, s) == (s, true)
  {
    hide Recoded, Converted, WholeChars, Truncated;
    SentRecoded(enc, enc, s);
    RecodedSame(enc, s);
  }

  lemma ConvertedNothing(from: Encoding, to: Encoding)
    ensures WholeChars(from, []) && Converted(from, from, to, []) == ([], true)
  {
  }

  lemma WholeStep(enc: Encoding, s: Bytes)
    requires |s| > 0 && 0 < LengthAt(enc, s[0]) <= |s| && WholeChars(enc, s[LengthAt(enc, s[0])..])
    ensures WholeChars(enc, s)
  {
  }

  lemma TruncatedStep(enc: Encoding, s: Bytes)
    ensures !Truncated(enc, s) ==>
      !NextChar(enc, s).Partial? && (NextChar(enc, s).Char? ==> !Truncated(enc, s[NextChar(enc, s).n..]))
  {
    hide NextChar;
  }

  lemma EndIsEmpty(enc: Encoding, s: Bytes)
    requires NextChar(enc, s).End?
    ensures s == []
  {
  }

  lemma CharIsWhole(enc: Encoding, s: Bytes)
    requires NextChar(enc, s).Char?
    ensures NextChar(enc, s).n == LengthAt(enc, s[0])
  {
  }

  // ----- What a call stops at, and the characters it counts -----

  /** A call that leaves some of the text has less room left than the longest character. */
  lemma {:induction false} ReadsFull(from: Encoding, to: Encoding, s: Bytes, room: nat)
    requires room >= 4
    ensures var g := ReadChars(from, to, s, room);
            g.ok && g.rest != [] ==> room - |g.out| < 4
    decreases |s|
  {
    hide NextChar, Convert, ReadChars;
    ReadStep(from, to, s, room);
    if NextChar(from, s).Char? {
      var n := NextChar(from, s).n;
      var x := Convert(from, to, s[..n]);
      if room - |x| >= MAXCHAR_LEN {
        ReadsFull(from, to, s[n..], room - |x|);
      }
    }
  }

  /** The number of bytes that are not inside a character. */
  function Starts(s: Bytes): nat {
    if |s| == 0 then 0 else (if 0x80 <= s[0] <= 0xBF then 0 else 1) + Starts(s[1..])
  }

  lemma {:induction false} StartsInside(s: Bytes, n: nat)
    requires n <= |s| && forall j :: 0 <= j < n ==> 0x80 <= s[j] <= 0xBF
    ensures Starts(s) == Starts(s[n..])
  {
    if n > 0 {
      StartsInside(s[1..], n - 1);
      assert s[1..][n - 1..] == s[n..];
    } else {
      assert s[0..] == s;
    }
  }

  lemma OneStart(enc: Encoding, s: Bytes, n: nat)
    requires NextChar(enc, s) == Char(n)
    ensures Starts(s) == 1 + Starts(s[n..])
  {
    hide NextChar;
    CharacterIff(enc, s, n);
    forall j | 0 <= j < n - 1
      ensures 0x80 <= s[1..][j] <= 0xBF
    {
      assert s[1..][j] == s[j + 1];
    }
    StartsInside(s[1..], n - 1);
    assert s[1..][n - 1..] == s[n..];
  }

  /** A call counts the characters between what it was given and what it leaves. */
  lemma {:induction false} CountIsStarts(from: Encoding, to: Encoding, s: Bytes, room: nat)
    requires room >= MAXCHAR_LEN && Recoded(from, to, s).1 && !Truncated(from, s)
    ensures var g := ReadChars(from, to, s, room);
            g.count + Starts(g.rest) == Starts(s) && !Truncated(from, g.rest)
    decreases |s|
  {
    hide NextChar, Convert, ReadChars, Recoded, Truncated;
    ReadStep(from, to, s, room);
    RecodedStep(from, to, s);
    TruncatedStep(from, s);
    EmptyIsWhole(from);
    if NextChar(from, s).Char? {
      var n := NextChar(from, s).n;
      var x := Convert(from, to, s[..n]);
      OneStart(from, s, n);
      if room - |x| >= MAXCHAR_LEN {
        CountIsStarts(from, to, s[n..], room - |x|);
      }
    } else {
      EndIsEmpty(from, s);
    }
  }

  lemma EmptyIsWhole(enc: Encoding)
    ensures !Truncated(enc, []) && Starts([]) == 0
  {
  }

  /** What is read is a text of whole valid characters of the server's encoding. */
  lemma {:induction false} RecodedValid(from: Encoding, to: Encoding, s: Bytes)
    ensures var r := Recoded(from, to, s).0;
            Recoded(to, to, r) == (r, true) && !Truncated(to, r)
    decreases |s|
  {
    hide NextChar, Convert, Recoded, Truncated;
    RecodedStep(from, to, s);
    RecodedStep(to, to, []);
    EmptyIsWhole(to);
    if NextChar(from, s).Char? {
      var n := NextChar(from, s).n;
      var x, r := Convert(from, to, s[..n]), Recoded(from, to, s[n..]).0;
      FrontChar(from, s, n);
      RecodedValid(from, to, s[n..]);
      ConvertedCharacter(from, to, s[..n]);
      CharInFront(to, x, r);
    }
  }

  /** The conversion goes on behind a text of whole valid characters. */
  lemma {:induction false} RecodedAppend(from: Encoding, to: Encoding, s: Bytes, more: Bytes)
    requires Recoded(from, to, s).1 && !Truncated(from, s)
    ensures Recoded(from, to, s + more) == After(Recoded(from, to, s).0, Recoded(from, to, more))
    decreases |s|
  {
    hide NextChar, Convert, Recoded, Truncated;
    RecodedStep(from, to, s);
    TruncatedStep(from, s);
    if NextChar(from, s).Char? {
      var n := NextChar(from, s).n;
      CharacterIff(from, s, n);
      CharacterIff(from, s + more, n);
      RecodedStep(from, to, s + more);
      assert (s + more)[..n] == s[..n] && (s + more)[n..] == s[n..] + more;
      RecodedAppend(from, to, s[n..], more);
      Associated(Convert(from, to, s[..n]), Recoded(from, to, s[n..]).0, Recoded(from, to, more).0);
    } else {
      EndIsEmpty(from, s);
      assert s + more == more;
      AfterNothing(Recoded(from, to, more));
    }
  }

  /** Where no whole character comes next: a character that the text ends in is dropped, and a wrong byte is
      an error. */
  lemma NoCharacter(from: Encoding, to: Encoding, s: Bytes)
    requires |s| > 0 && !NextChar(from, s).Char?
    ensures Recoded(from, to, s) ==
      ([], from == Utf8 && exists n :: |s| < n <= 4 && LeadOf(s[0], n) && forall j :: 1 <= j < |s| ==> 0x80 <= s[j] <= 0xBF)
  {
    hide NextChar, Convert;
    RecodedStep(from, to, s);
    PartialIff(from, s);
  }

  lemma FrontChar(enc: Encoding, s: Bytes, n: nat)
    requires NextChar(enc, s) == Char(n)
    ensures NextChar(enc, s[..n]) == Char(n)
  {
    hide NextChar;
    CharacterIff(enc, s, n);
    CharacterIff(enc, s[..n], n);
  }

  lemma CharInFront(enc: Encoding, x: Bytes, r: Bytes)
    requires NextChar(enc, x) == Char(|x|) && Recoded(enc, enc, r) == (r, true) && !Truncated(enc, r)
    ensures Recoded(enc, enc, x + r) == (x + r, true) && !Truncated(enc, x + r)
  {
    hide NextChar;
    CharacterIff(enc, x, |x|);
    CharacterIff(enc, x + r, |x|);
    assert (x + r)[..|x|] == x && (x + r)[|x|..] == r;
    RecodedStep(enc, enc, x + r);
  }

  // ----- One call -----

  /** Having read `out`, and `p` of the next character, the call has `ahead` still to go through. */
  ghost predicate Progress(from: Encoding, to: Encoding, whole: Option<Text>, sz: nat,
                           out: Bytes, count: nat, p: Bytes, ahead: Option<Text>)
  {
    && Begun(from, p) && |out| + MAXCHAR_LEN <= sz
    && (whole.Some? <==> ahead.Some?)
    && (whole.Some? ==>
          && whole.value.tail == ahead.value.tail
          && ReadChars(from, to, whole.value.payload, sz)
             == Then(out, count, ReadChars(from, to, p + ahead.value.payload, sz - |out|)))
  }

  /** The call has read `out`, and leaves `ahead` to the next one. */
  ghost predicate Halted(from: Encoding, to: Encoding, whole: Option<Text>, sz: nat,
                           out: Bytes, count: nat, ahead: Option<Text>)
    requires sz >= MAXCHAR_LEN
  {
    && (whole.Some? <==> ahead.Some?)
    && (whole.Some? ==>
          && whole.value.tail == ahead.value.tail
          && ReadChars(from, to, whole.value.payload, sz) == Reading(out, count, ahead.value.payload, true))
  }

  lemma ProgressStarts(from: Encoding, to: Encoding, whole: Option<Text>, sz: nat)
    requires sz >= MAXCHAR_LEN
    ensures Progress(from, to, whole, sz, [], 0, [], whole)
  {
    hide ReadChars;
    if whole.Some? {
      assert [] + whole.value.payload == whole.value.payload;
      var g := ReadChars(from, to, whole.value.payload, sz);
      assert [] + g.out == g.out;
    }
  }

  lemma ProgressFacts(from: Encoding, to: Encoding, whole: Option<Text>, sz: nat,
                      out: Bytes, count: nat, p: Bytes, ahead: Option<Text>)
    requires Progress(from, to, whole, sz, out, count, p, ahead)
    ensures |out| + MAXCHAR_LEN <= sz && (whole.Some? <==> ahead.Some?)
  {
  }

  lemma ProgressEnds(from: Encoding, to: Encoding, whole: Option<Text>, sz: nat,
                     out: Bytes, count: nat, p: Bytes, tail: Bytes)
    requires Progress(from, to, whole, sz, out, count, p, Some(Text([], tail)))
    ensures Halted(from, to, whole, sz, out, count, Some(Text([], tail)))
  {
    hide ReadChars, NextChar;
    assert p + [] == p && out + [] == out;
    BegunIsPartial(from, p);
    ReadStep(from, to, p, sz - |out|);
  }

  /** One byte: an error, more of the character, or a character. */
  lemma ProgressByte(from: Encoding, to: Encoding, whole: Option<Text>, sz: nat,
                     out: Bytes, count: nat, p: Bytes, b: Byte, ahead: Option<Text>)
    requires Progress(from, to, whole, sz, out, count, p, Prepend([b], ahead))
    ensures var q := p + [b];
      match Built(from, p, b)
      case Invalid => whole.Some? ==> !ReadChars(from, to, whole.value.payload, sz).ok
      case Incomplete => Progress(from, to, whole, sz, out, count, q, ahead)
      case Complete =>
        && |q| <= MAXCHAR_LEN
        && var x := Convert(from, to, q);
           if sz - |out + x| < MAXCHAR_LEN then Halted(from, to, whole, sz, out + x, count + 1, ahead)
           else Progress(from, to, whole, sz, out + x, count + 1, [], ahead)
  {
    hide ReadChars, NextChar, Convert, Then, Built;
    var q := p + [b];
    QuotaOfChar(from, p, b);
    if whole.None? {
      ScanStep(from, p, b, []);
    } else {
      var rest := ahead.value.payload;
      assert p + ([b] + rest) == q + rest && [] + rest == rest;
      ScanStep(from, p, b, rest);
      ThenBad(from, to, q + rest, sz - |out|, out, count);
      if Built(from, p, b) == CharState.Complete {
        CharRead(from, to, q, rest, sz - |out|, out, count);
      }
    }
  }

  lemma ThenBad(from: Encoding, to: Encoding, s: Bytes, room: nat, out: Bytes, count: nat)
    requires room >= MAXCHAR_LEN
    ensures NextChar(from, s).Bad? ==> !Then(out, count, ReadChars(from, to, s, room)).ok
  {
    hide NextChar, Convert;
  }

  /** A character is read, in a call that has read `out` before. */
  lemma CharRead(from: Encoding, to: Encoding, q: Bytes, rest: Bytes, room: nat, out: Bytes, count: nat)
    requires room >= MAXCHAR_LEN && 0 < |q| <= MAXCHAR_LEN && NextChar(from, q + rest) == Char(|q|)
    ensures var x := Convert(from, to, q);
            Then(out, count, ReadChars(from, to, q + rest, room)) ==
              if room - |x| < MAXCHAR_LEN then Reading(out + x, count + 1, rest, true)
              else Then(out + x, count + 1, ReadChars(from, to, rest, room - |x|))
  {
    hide ReadChars, NextChar, Convert;
    var x := Convert(from, to, q);
    assert (q + rest)[..|q|] == q && (q + rest)[|q|..] == rest;
    ReadStep(from, to, q + rest, room);
    if room - |x| >= MAXCHAR_LEN {
      var g := ReadChars(from, to, rest, room - |x|);
      assert out + (x + g.out) == (out + x) + g.out;
    }
  }

  lemma QuotaOfChar(from: Encoding, p: Bytes, b: Byte)
    requires Begun(from, p)
    ensures |p + [b]| <= MAXCHAR_LEN
  {
  }

  class ServerText {
    const r: Receiver
    var chunkLenLeft: nat
    var clientEnc: Encoding
    var serverEnc: Encoding
    /** What the server has sent back. */
    ghost var sent: Bytes

    constructor (receiver: Receiver, client: Encoding, server: Encoding)
      requires receiver.Valid()
      ensures r == receiver && Valid() && sent == [] && clientEnc == client && serverEnc == server
    {
      r, chunkLenLeft, clientEnc, serverEnc, sent := receiver, 0, client, server, [];
    }

    ghost predicate Valid()
      reads this, r
    {
      r.Valid() && chunkLenLeft < 256
    }

    /** What is still to be read of the current text, and what follows it. */
    ghost function Ahead(): Option<Text>
      requires Valid()
      reads this, r, r.recvBuf
    {
      Decode(chunkLenLeft, r.Pending())
    }

    /** pproto_server_read_str_begin. */
    method ReadStrBegin() returns (rc: int, len: Option<nat>)
      requires Valid()
      modifies this`chunkLenLeft, r, r.recvBuf
      ensures Valid() && (rc == 0 || rc == 1)
      ensures rc == 0 ==> r.broken == old(r.broken) && old(r.Pending()) != []
      ensures rc == 0 ==>
        var s := old(r.Pending());
        if s[0] == 0xFE then
          |s| >= 10 && len == Some(BigEndian(s[1..9])) && s[9..] == [chunkLenLeft] + r.Pending()
        else len == None && s[1..] == [chunkLenLeft] + r.Pending()
      ensures rc == 1 ==> r.Failed() || TooShort(old(r.Pending()))
    {
      var chunkLen;
      rc, len, chunkLen := r.ReadStrBegin();
      if rc == 0 {
        chunkLenLeft := chunkLen;
      }
    }

    /** The end of the reading loops: past the byte at hand, and into the next chunk after the last one. */
    method Advance() returns (rc: int)
      requires Valid() && chunkLenLeft > 0 && r.recvBufPtr < r.recvBufUpperBound
      modifies this`chunkLenLeft, r, r.recvBuf
      ensures r.Valid() && (rc == 0 || rc == 1)
      ensures rc == 0 ==>
        && Valid() && r.broken == old(r.broken) && |r.Pending()| < |old(r.Pending())|
        && |old(r.Pending())| > 0 && Ahead() == NextAhead(old(chunkLenLeft), old(r.Pending()))
      ensures rc == 1 ==>
        r.Failed() || old(r.Pending()) == [] || NextAhead(old(chunkLenLeft), old(r.Pending())).None?
    {
      hide Decode, Prepend;
      ghost var s, left := r.Pending(), chunkLenLeft;
      ghost var b := r.recvBuf[r.recvBufPtr];
      assert r.recvBuf[r.recvBufPtr..r.recvBufUpperBound]
          == [b] + r.recvBuf[r.recvBufPtr + 1..r.recvBufUpperBound];
      DecodeByte(left, s);
      r.recvBufPtr := r.recvBufPtr + 1;
      assert r.Pending() == s[1..];
      chunkLenLeft := chunkLenLeft - 1;
      if chunkLenLeft == 0 {
        var next;
        rc, next := r.GetByte();
        if rc != 0 {
          return;
        }
        chunkLenLeft := next;
        assert s[1..][1..] == s[2..];
      }
      rc := 0;
    }

    /** The body of the reading loop: one more byte for the character, which is converted when complete. */
    method TakeByte(clientChr: CharInfo, strBuf: array<Byte>, sz: nat, wr: nat, chrcnt: nat, ghost whole: Option<Text>)
      returns (rc: int, wr': nat, chrcnt': nat, full: bool)
      requires Valid() && chunkLenLeft > 0 && clientChr.Valid(clientEnc)
      requires strBuf != r.recvBuf && clientChr.chr != r.recvBuf && clientChr.chr != strBuf
      requires wr <= sz <= strBuf.Length
      requires Progress(clientEnc, serverEnc, whole, sz, strBuf[..wr], chrcnt, clientChr.Bytes(), Ahead())
      modifies r, r.recvBuf, clientChr, clientChr.chr, strBuf
      ensures Valid() && (rc == 0 || rc == 1) && wr' <= sz
      ensures rc == 0 ==>
        && r.recvBufPtr < r.recvBufUpperBound && r.Pending() == old(r.Pending()) && r.Pending() != []
        && r.broken == old(r.broken) && clientChr.Valid(clientEnc)
      ensures rc == 0 && full ==>
        Halted(clientEnc, serverEnc, whole, sz, strBuf[..wr'], chrcnt', NextAhead(chunkLenLeft, r.Pending()))
      ensures rc == 0 && !full ==>
        Progress(clientEnc, serverEnc, whole, sz, strBuf[..wr'], chrcnt', clientChr.Bytes(),
                 NextAhead(chunkLenLeft, r.Pending()))
      ensures rc == 1 ==>
        r.Failed() || whole.None? || !ReadChars(clientEnc, serverEnc, whole.value.payload, sz).ok
    {
      hide Decode, Prepend, ReadChars, Convert, Progress, Halted, Built, Begun, NextAhead;
      wr', chrcnt', full := wr, chrcnt, false;
      ProgressFacts(clientEnc, serverEnc, whole, sz, strBuf[..wr], chrcnt, clientChr.Bytes(), Ahead());
      EmptyAhead(chunkLenLeft, r.Pending());
      rc := r.Refill();
      if rc != 0 {
        return;
      }
      var b := r.recvBuf[r.recvBufPtr];
      ghost var p, out, next := clientChr.Bytes(), strBuf[..wr], NextAhead(chunkLenLeft, r.Pending());
      DecodeByte(chunkLenLeft, r.Pending());
      ProgressByte(clientEnc, serverEnc, whole, sz, out, chrcnt, p, b, next);
      clientChr.Build(clientEnc, b);
      if clientChr.state == Invalid {
        rc := 1;
      } else if clientChr.state == Complete {
        ghost var x := Convert(clientEnc, serverEnc, p + [b]);
        ghost var was := strBuf[..];
        var len, _ := ConvertInto(clientEnc, serverEnc, clientChr.chr[..clientChr.length], strBuf, wr);
        Appended(was, strBuf[..], wr, x);
        wr' := wr + len;
        full := sz - wr' < MAXCHAR_LEN;
        chrcnt' := chrcnt + 1;
        clientChr.Restart();
      }
    }

    /** pproto_server_read_str: whole characters while the buffer has room for one more. */
    method ReadStr(strBuf: array<Byte>, sz: nat) returns (rc: int, wr: nat, chrcnt: nat)
      requires Valid() && strBuf != r.recvBuf && MAXCHAR_LEN <= sz <= strBuf.Length
      modifies this`chunkLenLeft, r, r.recvBuf, strBuf
      ensures r.Valid() && (rc == 0 || rc == 1) && wr <= sz
      ensures rc == 0 ==> Valid() && r.broken == old(r.broken)
      ensures rc == 0 ==> Halted(clientEnc, serverEnc, old(Ahead()), sz, strBuf[..wr], chrcnt, Ahead())
      ensures rc == 0 && old(chunkLenLeft) > 0 ==> |r.Pending()| < |old(r.Pending())|
      ensures old(chunkLenLeft) == 0 ==> rc == 0 && wr == 0
      ensures rc == 1 ==>
        r.Failed() || old(Ahead()).None? || !ReadChars(clientEnc, serverEnc, old(Ahead()).value.payload, sz).ok
    {
      hide Decode, Prepend, ReadChars, Convert, Progress, Halted, Built, Begun, NextAhead;
      ghost var whole := Ahead();
      wr, chrcnt := 0, 0;
      var clientChr := new CharInfo();
      var completed := chunkLenLeft == 0;
      ProgressStarts(clientEnc, serverEnc, whole, sz);
      assert strBuf[..0] == [];
      if completed {
        DecodeEnd(r.Pending());
        ProgressEnds(clientEnc, serverEnc, whole, sz, [], 0, [], r.Pending());
      }
      while !completed
        invariant Valid() && r.broken == old(r.broken) && wr <= sz
        invariant !completed ==> chunkLenLeft > 0 && clientChr.Valid(clientEnc)
        invariant !completed ==>
          Progress(clientEnc, serverEnc, whole, sz, strBuf[..wr], chrcnt, clientChr.Bytes(), Ahead())
        invariant completed ==> Halted(clientEnc, serverEnc, whole, sz, strBuf[..wr], chrcnt, Ahead())
        invariant |r.Pending()| <= |old(r.Pending())|
        invariant old(chunkLenLeft) == 0 ==> completed && wr == 0
        invariant completed && old(chunkLenLeft) > 0 ==> |r.Pending()| < |old(r.Pending())|
        decreases |r.Pending()|, !completed
      {
        rc, wr, chrcnt, completed := TakeByte(clientChr, strBuf, sz, wr, chrcnt, whole);
        if rc != 0 {
          return;
        }
        SameFate(clientEnc, serverEnc, whole, sz, strBuf[..wr], chrcnt, clientChr.Bytes(),
                 NextAhead(chunkLenLeft, r.Pending()), completed);
        rc := Advance();
        if rc != 0 {
          return;
        }
        if chunkLenLeft == 0 {
          if !completed {
            DecodeEnd(r.Pending());
            ProgressEnds(clientEnc, serverEnc, whole, sz, strBuf[..wr], chrcnt, clientChr.Bytes(), r.Pending());
          }
          completed := true;
        }
      }
      rc := 0;
    }

    /** One byte for pproto_server_read_char. */
    method TakeForChar(clientChr: CharInfo, ch: array<Byte>, ghost whole: Option<Text>)
      returns (rc: int, verdict: CharState, len: nat)
      requires Valid() && chunkLenLeft > 0 && clientChr.Valid(clientEnc) && MAXCHAR_LEN <= ch.Length
      requires ch != r.recvBuf && clientChr.chr != r.recvBuf && clientChr.chr != ch
      requires whole == Prepend(clientChr.Bytes(), Ahead())
      modifies r, r.recvBuf, clientChr, clientChr.chr, ch
      ensures Valid() && (rc == 0 || rc == 1) && len <= MAXCHAR_LEN
      ensures rc == 1 ==> r.Failed() || whole.None?
      ensures rc == 0 ==>
        && r.recvBufPtr < r.recvBufUpperBound && r.Pending() == old(r.Pending()) && r.Pending() != []
        && r.broken == old(r.broken)
        && var next := NextAhead(chunkLenLeft, r.Pending());
           && (whole.Some? <==> next.Some?)
           && (whole.Some? ==>
                 Told(clientEnc, serverEnc, whole.value, verdict, ch[..len], next))
           && (verdict == Incomplete ==>
                 clientChr.Valid(clientEnc) && len == 0 && whole == Prepend(clientChr.Bytes(), next))
    {
      hide Decode, Prepend, Convert, Built, Begun, NextAhead, NextChar, Told;
      rc, verdict, len := 0, Incomplete, 0;
      NothingIn(clientChr.Bytes(), Ahead());
      EmptyAhead(chunkLenLeft, r.Pending());
      rc := r.Refill();
      if rc != 0 {
        return;
      }
      var b := r.recvBuf[r.recvBufPtr];
      ghost var p, next := clientChr.Bytes(), NextAhead(chunkLenLeft, r.Pending());
      DecodeByte(chunkLenLeft, r.Pending());
      PrependTwice(p, [b], next);
      CharByte(clientEnc, serverEnc, whole, p, b, next);
      assert ch[..0] == [];
      clientChr.Build(clientEnc, b);
      verdict := clientChr.state;
      if verdict == CharState.Complete {
        ghost var was := ch[..];
        var state;
        len, state := ConvertInto(clientEnc, serverEnc, clientChr.chr[..clientChr.length], ch, 0);
        AtFront(was, ch[..], Convert(clientEnc, serverEnc, p + [b]));
      }
    }

    /** pproto_server_read_char. */
    method ReadChar(ch: array<Byte>) returns (rc: int, eos: bool, len: nat)
      requires Valid() && ch != r.recvBuf && MAXCHAR_LEN <= ch.Length
      modifies this`chunkLenLeft, r, r.recvBuf, ch
      ensures r.Valid() && (rc == 0 || rc == 1) && len <= MAXCHAR_LEN
      ensures old(chunkLenLeft) == 0 ==> rc == 0 && eos && Valid() && Ahead() == old(Ahead())
      ensures old(chunkLenLeft) > 0 && old(Ahead()).Some? ==>
        r.Failed() || (Valid() && OneChar(clientEnc, serverEnc, old(Ahead()).value, rc, eos, ch[..len], Ahead()))
    {
      hide Decode, Prepend, Convert, NextAhead, NextChar, OneChar, Told;
      ghost var whole := Ahead();
      rc, eos, len := 0, chunkLenLeft == 0, 0;
      if eos {
        return;
      }
      var clientChr := new CharInfo();
      var completed := false;
      PrependNothing(whole);
      while !completed
        invariant Valid() && 0 < chunkLenLeft && !eos && len <= MAXCHAR_LEN && (rc == 0 || rc == 1)
        invariant !completed ==>
          len == 0 && clientChr.Valid(clientEnc) && whole == Prepend(clientChr.Bytes(), Ahead())
        invariant completed && whole.Some? ==>
          OneChar(clientEnc, serverEnc, whole.value, rc, false, ch[..len], Ahead())
        decreases |r.Pending()|, !completed
      {
        var verdict;
        rc, verdict, len := TakeForChar(clientChr, ch, whole);
        if rc != 0 {
          return;
        }
        if verdict == Invalid {
          rc, completed := 1, true;
        } else if verdict == CharState.Complete {
          rc, completed := 0, true;
        }
        ghost var next := NextAhead(chunkLenLeft, r.Pending());
        var failed := Advance();
        if failed != 0 {
          return 1, eos, len;
        }
        EmptyPayload(chunkLenLeft, r.Pending());
        DecodeEnd(r.Pending());
        if whole.Some? {
          Tells(clientEnc, serverEnc, whole.value, verdict, ch[..len], next);
        }
        if chunkLenLeft == 0 {
          return 0, true, len;
        }
      }
    }

    /** pproto_server_read_str_end: tells the client to stop, and drops the rest of the text. */
    method ReadStrEnd() returns (rc: int)
      requires Valid()
      modifies this`chunkLenLeft, this`sent, r, r.recvBuf
      ensures r.Valid() && (rc == 0 || rc == 1)
      ensures rc == 0 ==>
        && chunkLenLeft == 0 && old(Ahead()).Some? && r.Pending() == old(Ahead()).value.tail
        && sent == old(sent) + if old(chunkLenLeft) == 0 then [] else [0x57]
      ensures rc == 1 ==> r.Failed() || old(Ahead()).None? || sent == old(sent)
    {
      hide Prepend, Decode;
      ghost var all, was := Ahead(), sent;
      DecodeEnd(r.Pending());
      if chunkLenLeft == 0 {
        assert sent == sent + [];
        return 0;
      }
      var delivered: bool := *;
      if !delivered {
        return 1;
      }
      sent := sent + [CANCEL_MAGIC];
      var strbuf := new Byte[255];
      ghost var dropped := [];
      PrependNothing(all);
      while true
        invariant Valid() && chunkLenLeft > 0 && sent == was + [CANCEL_MAGIC] && all == Prepend(dropped, Ahead())
        decreases |r.Pending()|
      {
        ghost var s, left := r.Pending(), chunkLenLeft;
        DecodeFront(left, s);
        NothingIn(dropped, Decode(left, s));
        rc := r.Get(strbuf, 0, chunkLenLeft);
        if rc != 0 {
          return;
        }
        var b;
        rc, b := r.GetByte();
        if rc != 0 {
          return;
        }
        chunkLenLeft := b;
        TailAfter(s, left, b, r.Pending());
        PrependTwice(dropped, s[..left], Ahead());
        dropped := dropped + s[..left];
        if chunkLenLeft == 0 {
          break;
        }
      }
      DecodeEnd(r.Pending());
      EndOf(dropped, r.Pending());
    }

    /** A text read to its end with buffers of any sizes from four on. */
    method ReadText() returns (rc: int, text: Bytes)
      requires Valid()
      modifies this`chunkLenLeft, r, r.recvBuf
      ensures r.Valid() && (rc == 0 || rc == 1)
      ensures rc == 0 && old(Ahead()).Some? ==>
        && Recoded(clientEnc, serverEnc, old(Ahead()).value.payload) == (text, true)
        && r.Pending() == old(Ahead()).value.tail
      ensures rc == 1 ==>
        r.Failed() || old(Ahead()).None? || !Recoded(clientEnc, serverEnc, old(Ahead()).value.payload).1
    {
      hide Decode, ReadChars, Recoded, Halted;
      ghost var whole := Ahead();
      text := [];
      SplitStarts(clientEnc, serverEnc, whole);
      while true
        invariant Valid() && Split(clientEnc, serverEnc, whole, text, Ahead())
        decreases |r.Pending()|
      {
        var sz: nat := *;
        if sz < MAXCHAR_LEN {
          sz := MAXCHAR_LEN;
        }
        var strBuf := new Byte[sz];
        ghost var before, had := Ahead(), text;
        if before.Some? {
          PiecesAddUp(clientEnc, serverEnc, before.value.payload, sz);
        }
        var wr, chrcnt;
        rc, wr, chrcnt := ReadStr(strBuf, sz);
        if rc != 0 {
          return;
        }
        text := text + strBuf[..wr];
        SplitStep(clientEnc, serverEnc, whole, had, before, sz, strBuf[..wr], chrcnt, Ahead());
        if wr == 0 {
          SplitEnds(clientEnc, serverEnc, whole, had, before, sz, chrcnt, chunkLenLeft, r.Pending());
          assert had + strBuf[..wr] == had;
          return;
        }
      }
    }
  }

  /** What reading one character of a text that is not finished gives: the character and whether it was
      the last; a last character that is not complete is dropped; a wrong byte is an error, but when it
      is the last byte of the text the end of the text is all that is reported. */
  ghost predicate OneChar(from: Encoding, to: Encoding, whole: Text, rc: int, eos: bool, out: Bytes, ahead: Option<Text>) {
    && ahead.Some? && ahead.value.tail == whole.tail
    && (eos <==> ahead.value.payload == [])
    && match NextChar(from, whole.payload)
       case End => false
       case Char(n) => rc == 0 && out == Convert(from, to, whole.payload[..n]) && ahead.value.payload == whole.payload[n..]
       case Partial => rc == 0 && eos && out == []
       case Bad(k) => out == [] && ahead.value.payload == whole.payload[k..] && rc == if eos then 0 else 1
  }

  /** The character read and what is left make up the converted text, as long as no wrong byte comes next. */
  lemma CharsAddUp(from: Encoding, to: Encoding, whole: Text, rc: int, eos: bool, out: Bytes, ahead: Option<Text>)
    requires OneChar(from, to, whole, rc, eos, out, ahead) && !NextChar(from, whole.payload).Bad?
    ensures rc == 0
    ensures Recoded(from, to, whole.payload) == After(out, Recoded(from, to, ahead.value.payload))
  {
    hide NextChar, Convert, Recoded;
    RecodedStep(from, to, whole.payload);
    RecodedStep(from, to, []);
    AfterNothing(Recoded(from, to, []));
  }

  /** Bytes that begin no character are reported exactly when more of the text follows them. */
  lemma WrongByteIff(from: Encoding, to: Encoding, whole: Text, rc: int, eos: bool, out: Bytes, ahead: Option<Text>)
    requires OneChar(from, to, whole, rc, eos, out, ahead) && NextChar(from, whole.payload).Bad?
    ensures rc == 1 <==> NextChar(from, whole.payload).n < |whole.payload|
  {
    hide NextChar;
  }

  /** The byte 0x80 is reported in front of the letter A, but not alone. */
  lemma ReadCharFails(from: Encoding, to: Encoding, tail: Bytes, rc: int, eos: bool, out: Bytes, ahead: Option<Text>)
    ensures OneChar(from, to, Text([0x80, 0x41], tail), rc, eos, out, ahead) ==> rc == 1
    ensures OneChar(from, to, Text([0x80], tail), rc, eos, out, ahead) ==> rc == 0 && eos
  {
    var alone: Bytes, before: Bytes := [0x80], [0x80, 0x41];
    assert NextChar(from, alone) == Bad(1) && NextChar(from, before) == Bad(1);
  }

  /** What a verdict on the byte before `next` means for the result. */
  ghost predicate Told(from: Encoding, to: Encoding, whole: Text, verdict: CharState, out: Bytes, next: Option<Text>)
    requires next.Some?
  {
    var eos := next.value.payload == [];
    match verdict
    case Invalid => OneChar(from, to, whole, if eos then 0 else 1, eos, out, next)
    case Complete => OneChar(from, to, whole, 0, eos, out, next)
    case Incomplete => eos ==> OneChar(from, to, whole, 0, true, out, next)
  }

  lemma Tells(from: Encoding, to: Encoding, whole: Text, verdict: CharState, out: Bytes, next: Option<Text>)
    requires next.Some? && Told(from, to, whole, verdict, out, next)
    ensures next.value.payload == [] ==> OneChar(from, to, whole, 0, true, out, next)
    ensures next.value.payload != [] && verdict == Invalid ==> OneChar(from, to, whole, 1, false, out, next)
    ensures next.value.payload != [] && verdict == CharState.Complete ==> OneChar(from, to, whole, 0, false, out, next)
  {
  }

  lemma CharByte(from: Encoding, to: Encoding, whole: Option<Text>, p: Bytes, b: Byte, next: Option<Text>)
    requires Begun(from, p) && whole == Prepend(p + [b], next)
    ensures |p + [b]| <= MAXCHAR_LEN && (whole.Some? <==> next.Some?)
    ensures whole.Some? ==>
      var verdict := Built(from, p, b);
      Told(from, to, whole.value, verdict, if verdict == CharState.Complete then Convert(from, to, p + [b]) else [], next)
  {
    hide Built, NextChar, Convert;
    QuotaOfChar(from, p, b);
    var q := p + [b];
    if whole.Some? {
      var rest := next.value.payload;
      ScanStep(from, p, b, rest);
      assert (q + rest)[..|q|] == q && (q + rest)[|q|..] == rest && q + [] == q;
      if Built(from, p, b) == Incomplete {
        BegunIsPartial(from, q);
      }
    } else {
      ScanStep(from, p, b, []);
    }
  }

  /** `text` is the beginning of the converted text, and `ahead` gives the rest. */
  ghost predicate Split(from: Encoding, to: Encoding, whole: Option<Text>, text: Bytes, ahead: Option<Text>) {
    && (whole.Some? <==> ahead.Some?)
    && (whole.Some? ==>
          && whole.value.tail == ahead.value.tail
          && Recoded(from, to, whole.value.payload) == After(text, Recoded(from, to, ahead.value.payload)))
  }

  lemma SplitStarts(from: Encoding, to: Encoding, whole: Option<Text>)
    ensures Split(from, to, whole, [], whole)
  {
    if whole.Some? {
      AfterNothing(Recoded(from, to, whole.value.payload));
    }
  }

  lemma SplitStep(from: Encoding, to: Encoding, whole: Option<Text>, text: Bytes, before: Option<Text>, sz: nat,
                  out: Bytes, count: nat, ahead: Option<Text>)
    requires sz >= MAXCHAR_LEN && Split(from, to, whole, text, before)
    requires Halted(from, to, before, sz, out, count, ahead)
    ensures Split(from, to, whole, text + out, ahead)
  {
    hide Recoded, ReadChars;
    if whole.Some? {
      PiecesAddUp(from, to, before.value.payload, sz);
      var rest := Recoded(from, to, ahead.value.payload).0;
      assert text + (out + rest) == (text + out) + rest;
    }
  }

  /** A call that reads nothing has reached the end. */
  lemma SplitEnds(from: Encoding, to: Encoding, whole: Option<Text>, text: Bytes, before: Option<Text>, sz: nat,
                  count: nat, left: nat, s: Bytes)
    requires sz >= MAXCHAR_LEN && Split(from, to, whole, text, before)
    requires Halted(from, to, before, sz, [], count, Decode(left, s))
    ensures whole.Some? ==> Recoded(from, to, whole.value.payload) == (text, true) && s == whole.value.tail
  {
    hide Recoded, ReadChars, NextChar, Decode;
    if whole.Some? {
      SplitStep(from, to, whole, text, before, sz, [], count, Decode(left, s));
      assert text + [] == text;
      ReadStep(from, to, before.value.payload, sz);
      EmptyPayload(left, s);
      RecodedStep(from, to, []);
    }
  }

  lemma EmptyPayload(left: nat, s: Bytes)
    ensures var d := Decode(left, s); d.Some? && d.value.payload == [] ==> left == 0 && d.value.tail == s
  {
  }

  lemma Appended(was: Bytes, now: Bytes, at: nat, x: Bytes)
    requires |now| == |was| && at + |x| <= |was|
    requires forall k :: 0 <= k < |was| ==> now[k] == if at <= k < at + |x| then x[k - at] else was[k]
    ensures now[..at + |x|] == was[..at] + x
  {
  }

  lemma AtFront(was: Bytes, now: Bytes, x: Bytes)
    requires |now| == |was| && |x| <= |was|
    requires forall k :: 0 <= k < |was| ==> now[k] == if 0 <= k < |x| then x[k] else was[k]
    ensures now[..|x|] == x
  {
  }

  lemma SameFate(from: Encoding, to: Encoding, whole: Option<Text>, sz: nat,
                 out: Bytes, count: nat, p: Bytes, ahead: Option<Text>, full: bool)
    requires sz >= MAXCHAR_LEN
    requires if full then Halted(from, to, whole, sz, out, count, ahead)
             else Progress(from, to, whole, sz, out, count, p, ahead)
    ensures whole.Some? <==> ahead.Some?
  {
  }

  /** What is ahead after the first of `left` bytes of a chunk. */
  function NextAhead(left: nat, s: Bytes): Option<Text>
    requires left > 0 && |s| > 0
  {
    if left > 1 then Decode(left - 1, s[1..])
    else if |s| > 1 then Decode(s[1], s[2..])
    else None
  }

  lemma DecodeByte(left: nat, s: Bytes)
    requires left > 0 && |s| > 0
    ensures Decode(left, s) == Prepend([s[0]], NextAhead(left, s))
    ensures NextAhead(left, s).None? ==> Decode(left, s).None?
    ensures left == 1 && |s| == 1 ==> NextAhead(left, s).None?
  {
    hide Decode;
    assert s[..1] == [s[0]];
    if left > 1 {
      DecodeSkip(left, s, 1);
    } else {
      DecodeFront(left, s);
    }
  }

  lemma EmptyAhead(left: nat, s: Bytes)
    ensures left > 0 && s == [] ==> Decode(left, s) == None
  {
  }
}
