/** session/pproto_server.c: text converted straight into the send buffer and cut into chunks. */
module TextSenders {
  import opened Encodings
  import opened Framing

  const SEND_BUF_SIZE := 8192

  /** The bytes that `send_str` appends for a text, and whether every character has a length.
      Lengths are always those of `lens`, the server encoding. */
  function Converted(lens: Encoding, from: Encoding, to: Encoding, s: Bytes): (Bytes, bool)
    requires WholeChars(lens, s)
  {
    if |s| == 0 then ([], true)
    else
      var n := LengthAt(lens, s[0]);
      if n == 0 then ([], false)
      else
        var (rest, ok) := Converted(lens, from, to, s[n..]);
        (Convert(from, to, s[..n]) + rest, ok)
  }

  /** The text does not end inside a character. */
  predicate WholeChars(lens: Encoding, s: Bytes) {
    |s| > 0 ==>
      var n := LengthAt(lens, s[0]);
      n > 0 ==> n <= |s| && WholeChars(lens, s[n..])
  }

  function After(sofar: Bytes, r: (Bytes, bool)): (Bytes, bool) {
    (sofar + r.0, r.1)
  }

  /** The conversion of the text from place `i`, one character at a time. */
  lemma ConvertedFrom(lens: Encoding, from: Encoding, to: Encoding, str: Bytes, i: nat, sofar: Bytes)
    requires i <= |str| && WholeChars(lens, str[i..])
    ensures i == |str| ==> After(sofar, Converted(lens, from, to, str[i..])) == (sofar, true)
    ensures i < |str| && LengthAt(lens, str[i]) == 0 ==>
      After(sofar, Converted(lens, from, to, str[i..])) == (sofar, false)
    ensures i < |str| && LengthAt(lens, str[i]) > 0 ==>
      var n := LengthAt(lens, str[i]);
      && i + n <= |str| && WholeChars(lens, str[i + n..])
      && After(sofar, Converted(lens, from, to, str[i..]))
        == After(sofar + Convert(from, to, str[i..i + n]), Converted(lens, from, to, str[i + n..]))
  {
    hide Convert, LengthAt, Converted, WholeChars;
    assert sofar + [] == sofar;
    ConvertedStep(lens, from, to, str[i..]);
    if i < |str| && LengthAt(lens, str[i]) > 0 {
      var n := LengthAt(lens, str[i]);
      assert str[i..][..n] == str[i..i + n] && str[i..][n..] == str[i + n..];
      var x, rest := Convert(from, to, str[i..i + n]), Converted(lens, from, to, str[i + n..]).0;
      assert sofar + (x + rest) == (sofar + x) + rest;
    }
  }

  lemma ConvertedStep(lens: Encoding, from: Encoding, to: Encoding, s: Bytes)
    requires WholeChars(lens, s)
    ensures |s| == 0 ==> Converted(lens, from, to, s) == ([], true)
    ensures |s| > 0 && LengthAt(lens, s[0]) == 0 ==> Converted(lens, from, to, s) == ([], false)
    ensures |s| > 0 && LengthAt(lens, s[0]) > 0 ==>
      var n := LengthAt(lens, s[0]);
      && n <= |s| && WholeChars(lens, s[n..])
      && Converted(lens, from, to, s) == After(Convert(from, to, s[..n]), Converted(lens, from, to, s[n..]))
  {
    hide Convert, LengthAt;
  }

  /** A byte that no UTF-8 character starts with ends the conversion, behind the characters before it. */
  lemma {:induction false} StopsAt(from: Encoding, to: Encoding, s: Bytes, b: Byte, more: Bytes)
    requires WholeChars(Utf8, s) && Converted(Utf8, from, to, s).1 && (0x80 <= b <= 0xBF || 0xF8 <= b)
    ensures var t := s + ([b] + more);
            WholeChars(Utf8, t) && Converted(Utf8, from, to, t) == (Converted(Utf8, from, to, s).0, false)
    decreases |s|
  {
    hide Convert, LengthAt, Converted;
    var t := s + ([b] + more);
    NoLength(b);
    ConvertedStep(Utf8, from, to, s);
    if |s| == 0 {
      assert t[0] == b;
    } else {
      var n := LengthAt(Utf8, s[0]);
      StopsAt(from, to, s[n..], b, more);
      assert t[..n] == s[..n] && t[n..] == s[n..] + ([b] + more);
    }
    ConvertedStep(Utf8, from, to, t);
  }

  lemma NoLength(b: Byte)
    requires 0x80 <= b <= 0xBF || 0xF8 <= b
    ensures LengthAt(Utf8, b) == 0
  {
    LeadByteRanges(b);
  }

  /** With a server in ASCII every byte is a character. */
  lemma {:induction false} AsciiGoesOn(from: Encoding, to: Encoding, s: Bytes)
    ensures WholeChars(Ascii, s) && Converted(Ascii, from, to, s).1
  {
    hide Convert;
    if |s| > 0 {
      AsciiGoesOn(from, to, s[1..]);
    }
  }

  lemma AfterNothing(r: (Bytes, bool))
    ensures After([], r) == r
  {
    assert [] + r.0 == r.0;
  }

  lemma Associated(a: Bytes, b: Bytes, c: Bytes)
    ensures a + b + c == a + (b + c)
  {
  }

  /** After the bytes `front`, sent or in the buffer, comes a reserved length byte and then `current`. */
  ghost predicate Laid(wire: Bytes, buf: Bytes, last: nat, ptr: nat, front: Bytes, current: Bytes) {
    && ptr == last + 1 + |current| && ptr <= |buf|
    && wire + buf[..last] == front && buf[last + 1..ptr] == current
  }

  lemma LaidPtr(wire: Bytes, buf: Bytes, last: nat, ptr: nat, front: Bytes, current: Bytes)
    requires Laid(wire, buf, last, ptr, front, current)
    ensures ptr == last + 1 + |current| && ptr <= |buf|
  {
  }

  lemma LaidPut(wire: Bytes, buf: Bytes, buf': Bytes, last: nat, ptr: nat, front: Bytes, current: Bytes, x: Bytes)
    requires Laid(wire, buf, last, ptr, front, current) && |buf'| == |buf| && ptr + |x| <= |buf|
    requires forall k :: 0 <= k < |buf| ==> buf'[k] == if ptr <= k < ptr + |x| then x[k - ptr] else buf[k]
    ensures Laid(wire, buf', last, ptr + |x|, front, current + x)
  {
    assert buf'[..last] == buf[..last];
    assert buf'[last + 1..ptr + |x|] == buf[last + 1..ptr] + x;
  }

  lemma LaidNext(wire: Bytes, buf: Bytes, buf': Bytes, last: nat, ptr: nat, front: Bytes, current: Bytes)
    requires Laid(wire, buf, last, ptr, front, current) && |buf'| == |buf| && |current| >= CHUNK && ptr < |buf|
    requires buf'[..last + 1 + CHUNK] == buf[last := CHUNK][..last + 1 + CHUNK]
    requires buf'[last + 2 + CHUNK..ptr + 1] == buf[last + 1 + CHUNK..ptr]
    ensures Laid(wire, buf', last + 1 + CHUNK, ptr + 1, front + ([CHUNK] + current[..CHUNK]), current[CHUNK..])
  {
    var chunk: Bytes := [CHUNK] + current[..CHUNK];
    assert buf[last + 1..last + 1 + CHUNK] == current[..CHUNK];
    assert buf'[..last + 1 + CHUNK] == buf[..last] + chunk;
    assert wire + (buf[..last] + chunk) == (wire + buf[..last]) + chunk;
    assert current[CHUNK..] == buf[last + 1 + CHUNK..ptr];
  }

  // ----- The cursor in the send buffer -----

  /** Where the reserved length byte of the open chunk lies, and how many bytes the chunk has. */
  datatype Cursor = Cursor(last: nat, chunk: nat)

  /** A call of send_str goes on only with room for a whole chunk and one more character. */
  predicate HasRoom(c: Cursor) {
    c.last + 1 + c.chunk < SEND_BUF_SIZE - 256 - MAXCHAR_LEN
  }

  /** Where the first chunk of a text starts when `ptr` bytes wait in the buffer. */
  function StartCursor(ptr: nat): Cursor {
    var p := (if ptr == SEND_BUF_SIZE then 0 else ptr) + 1;
    Cursor(if p >= SEND_BUF_SIZE - 257 - MAXCHAR_LEN then 0 else p, 0)
  }

  /** Complete chunks are flushed unless the open one has room. */
  function Settled(c: Cursor): Cursor {
    if HasRoom(c) then c else Cursor(0, c.chunk)
  }

  /** After one more character of `n` bytes. */
  function Advanced(c: Cursor, n: nat): Cursor {
    if c.chunk + n < CHUNK then Cursor(c.last, c.chunk + n)
    else Settled(Cursor(c.last + CHUNK + 1, c.chunk + n - CHUNK))
  }

  /** After the characters of a text that `Converted` converts. */
  function CursorAfter(lens: Encoding, from: Encoding, to: Encoding, s: Bytes, c: Cursor): Cursor
    requires WholeChars(lens, s)
  {
    if |s| == 0 then c
    else
      var n := LengthAt(lens, s[0]);
      if n == 0 then c else CursorAfter(lens, from, to, s[n..], Advanced(c, |Convert(from, to, s[..n])|))
  }

  lemma CursorFrom(lens: Encoding, from: Encoding, to: Encoding, str: Bytes, i: nat, c: Cursor)
    requires i <= |str| && WholeChars(lens, str[i..])
    ensures i == |str| ==> CursorAfter(lens, from, to, str[i..], c) == c
    ensures i < |str| && LengthAt(lens, str[i]) == 0 ==> CursorAfter(lens, from, to, str[i..], c) == c
    ensures i < |str| && LengthAt(lens, str[i]) > 0 ==>
      var n := LengthAt(lens, str[i]);
      && i + n <= |str| && WholeChars(lens, str[i + n..])
      && CursorAfter(lens, from, to, str[i..], c)
        == CursorAfter(lens, from, to, str[i + n..], Advanced(c, |Convert(from, to, str[i..i + n])|))
  {
    hide Convert, LengthAt, Advanced;
    if i < |str| && LengthAt(lens, str[i]) > 0 {
      var n := LengthAt(lens, str[i]);
      assert str[i..][..n] == str[i..i + n] && str[i..][n..] == str[i + n..];
    }
  }

  class Sender {
    const sendBuf: array<Byte>
    var sendBufPtr: nat
    var lastChunkLenPtr: nat
    var chunkLen: nat
    var clientEnc: Encoding
    var serverEnc: Encoding
    /** What has gone to the socket. */
    var wire: Bytes
    /** Whether the socket takes everything. */
    const reliable: bool
    ghost var broken: bool
    /** The text sent since `SendStrBegin`, and all that was emitted before its first chunk. */
    ghost var text: Bytes
    ghost var before: Bytes

    constructor (client: Encoding, server: Encoding, always: bool)
      ensures fresh(sendBuf) && Valid() && sendBufPtr == 0 && Emitted() == [] && !broken
      ensures clientEnc == client && serverEnc == server && reliable == always
    {
      sendBuf := new Byte[SEND_BUF_SIZE];
      sendBufPtr, lastChunkLenPtr, chunkLen := 0, 0, 0;
      clientEnc, serverEnc := client, server;
      wire, reliable, broken, text, before := [], always, false, [], [];
    }

    /** The socket has failed. */
    ghost predicate Failed()
      reads this
    {
      broken && !reliable
    }

    ghost predicate Valid()
      reads this
    {
      sendBuf.Length == SEND_BUF_SIZE && sendBufPtr <= SEND_BUF_SIZE
    }

    /** Everything sent or waiting in the buffer. */
    ghost function Emitted(): Bytes
      requires Valid()
      reads this, sendBuf
    {
      wire + sendBuf[..sendBufPtr]
    }

    /** The buffer holds, after the complete chunks `done`, a chunk with a reserved length byte and content `current`. */
    ghost predicate Filling(done: Bytes, current: Bytes)
      reads this, sendBuf
    {
      && sendBuf.Length == SEND_BUF_SIZE
      && sendBufPtr <= SEND_BUF_SIZE
      && chunkLen == |current| <= CHUNK + 3
      && Laid(wire, sendBuf[..], lastChunkLenPtr, sendBufPtr, before + done, current)
    }

    function Cur(): Cursor
      reads this
    {
      Cursor(lastChunkLenPtr, chunkLen)
    }

    lemma PtrIs(done: Bytes, current: Bytes)
      requires Filling(done, current)
      ensures sendBufPtr == lastChunkLenPtr + 1 + chunkLen
    {
    }

    /** There is room for a whole chunk, one character more and a length byte. */
    ghost predicate Roomy()
      reads this
    {
      lastChunkLenPtr <= SEND_BUF_SIZE - 262
    }

    /** Between calls that send parts of one text. */
    ghost predicate Open()
      reads this, sendBuf
    {
      Roomy() && Filling(FullChunks(text), Remainder(text))
    }

    /** pproto_server_send_fully on the front of the buffer: everything goes out, or the socket has failed. */
    method SendFully(n: nat) returns (rc: int)
      requires n <= sendBuf.Length
      modifies this`wire, this`broken
      ensures rc == 0 || rc == 1
      ensures rc == 0 ==> wire == old(wire) + sendBuf[..n] && broken == old(broken)
      ensures rc == 1 ==> Failed()
    {
      var written: bool := *;
      if !written && !reliable {
        broken := true;
        return 1;
      }
      wire := wire + sendBuf[..n];
      return 0;
    }

    /** pproto_server_send_uint8. */
    method SendByte(b: Byte) returns (rc: int)
      requires Valid()
      modifies this`wire, this`broken, this`sendBufPtr, sendBuf
      ensures Valid() && (rc == 0 || rc == 1)
      ensures rc == 0 ==> Emitted() == old(Emitted()) + [b] && broken == old(broken)
      ensures rc == 0 ==> sendBufPtr == (if old(sendBufPtr) == SEND_BUF_SIZE then 0 else old(sendBufPtr)) + 1
      ensures rc == 1 ==> Failed()
    {
      ghost var was := Emitted();
      if sendBufPtr == SEND_BUF_SIZE {
        var failed := SendFully(sendBufPtr);
        if failed != 0 {
          return 1;
        }
        sendBufPtr := 0;
      }
      assert wire + sendBuf[..sendBufPtr] == was;
      sendBuf[sendBufPtr] := b;
      sendBufPtr := sendBufPtr + 1;
      assert sendBuf[..sendBufPtr] == sendBuf[..sendBufPtr - 1] + [b];
      return 0;
    }

    /** pproto_server_flush_send. */
    method Flush() returns (rc: int)
      requires Valid()
      modifies this`wire, this`broken, this`sendBufPtr
      ensures Valid() && (rc == 0 || rc == 1)
      ensures rc == 0 ==> wire == old(Emitted()) && sendBufPtr == 0 && broken == old(broken)
      ensures rc == 1 ==> Failed()
    {
      rc := SendFully(sendBufPtr);
      if rc == 0 {
        sendBufPtr := 0;
      }
    }

    /** pproto_server_send_str_begin. */
    method SendStrBegin() returns (rc: int)
      requires Valid()
      modifies this, sendBuf
      ensures Valid() && (rc == 0 || rc == 1) && clientEnc == old(clientEnc) && serverEnc == old(serverEnc)
      ensures rc == 0 ==> Open() && text == [] && before == old(Emitted()) + [0x01] && broken == old(broken)
      ensures rc == 0 ==> Cur() == StartCursor(old(sendBufPtr)) && HasRoom(Cur())
      ensures rc == 1 ==> Failed()
    {
      var failed := SendByte(TEXT_MAGIC);
      if failed != 0 {
        return 1;
      }
      before, text := Emitted(), [];
      if sendBufPtr >= SEND_BUF_SIZE - 257 - MAXCHAR_LEN {
        failed := SendFully(sendBufPtr);
        if failed != 0 {
          return 1;
        }
        sendBufPtr := 0;
      }
      assert wire + sendBuf[..sendBufPtr] == before;
      lastChunkLenPtr := sendBufPtr;
      sendBufPtr := sendBufPtr + 1;
      chunkLen := 0;
      return 0;
    }

    /** Starts a new chunk when the current one has its 255 bytes: back-patches the length and makes
        room for the next length before the overflow. */
    method NextChunk(ghost done: Bytes, ghost current: Bytes)
      requires Filling(done, current) && Roomy() && CHUNK <= |current|
      modifies this`sendBufPtr, this`lastChunkLenPtr, this`chunkLen, sendBuf
      ensures Filling(done + ([CHUNK] + current[..CHUNK]), current[CHUNK..])
      ensures Cur() == Cursor(old(lastChunkLenPtr) + CHUNK + 1, old(chunkLen) - CHUNK)
    {
      hide Laid;
      ghost var was, last, ptr := sendBuf[..], lastChunkLenPtr, sendBufPtr;
      LaidPtr(wire, was, last, ptr, before + done, current);
      chunkLen := chunkLen - CHUNK;
      sendBuf[lastChunkLenPtr] := CHUNK;
      lastChunkLenPtr := sendBufPtr - chunkLen;
      assert sendBuf[..] == was[last := CHUNK];
      assert sendBuf[lastChunkLenPtr..ptr] == was[lastChunkLenPtr..ptr];
      ShiftRight(lastChunkLenPtr, chunkLen);
      sendBufPtr := sendBufPtr + 1;
      LaidNext(wire, was, sendBuf[..], last, ptr, before + done, current);
      Associated(before, done, [CHUNK] + current[..CHUNK]);
    }

    /** Flushes the complete chunks when the next chunk may not fit. */
    method MakeRoom(ghost done: Bytes, ghost current: Bytes) returns (rc: int)
      requires Filling(done, current) && |current| <= 3
      modifies this`wire, this`broken, this`sendBufPtr, this`lastChunkLenPtr, sendBuf
      ensures rc == 0 || rc == 1
      ensures rc == 0 ==> Filling(done, current) && Roomy() && broken == old(broken)
      ensures rc == 0 ==> Cur() == Settled(old(Cur()))
      ensures rc == 1 ==> Failed()
    {
      if sendBufPtr >= SEND_BUF_SIZE - 256 - MAXCHAR_LEN {
        var failed := SendFully(lastChunkLenPtr);
        if failed != 0 {
          return 1;
        }
        sendBufPtr := chunkLen + 1;
        MoveToFront(lastChunkLenPtr, sendBufPtr);
        lastChunkLenPtr := 0;
        assert sendBuf[..sendBufPtr][1..] == current;
      }
      return 0;
    }

    /** The overlapping copy by one place. */
    method ShiftRight(at: nat, n: nat)
      requires at + n < sendBuf.Length
      modifies sendBuf
      ensures sendBuf[..at] == old(sendBuf[..at])
      ensures sendBuf[at + 1..at + 1 + n] == old(sendBuf[at..at + n])
    {
      forall k | 0 <= k < n {
        sendBuf[at + 1 + k] := sendBuf[at + k];
      }
    }

    method MoveToFront(at: nat, n: nat)
      requires at + n <= sendBuf.Length
      modifies sendBuf
      ensures sendBuf[..n] == old(sendBuf[at..at + n])
    {
      forall k | 0 <= k < n {
        sendBuf[k] := sendBuf[at + k];
      }
    }

    /** One converted character goes behind the current chunk. */
    method PutChar(from: Encoding, ch: Bytes, ghost done: Bytes, ghost current: Bytes)
      requires Filling(done, current) && Roomy() && |current| < CHUNK && 0 < |ch| <= MAXCHAR_LEN
      modifies this`sendBufPtr, this`chunkLen, sendBuf
      ensures Filling(done, current + Convert(from, clientEnc, ch))
      ensures chunkLen == old(chunkLen) + |Convert(from, clientEnc, ch)|
    {
      hide Convert;
      hide Laid;
      ghost var was, x := sendBuf[..], Convert(from, clientEnc, ch);
      LaidPtr(wire, was, lastChunkLenPtr, sendBufPtr, before + done, current);
      var len, _ := ConvertInto(from, clientEnc, ch, sendBuf, sendBufPtr);
      LaidPut(wire, was, sendBuf[..], lastChunkLenPtr, sendBufPtr, before + done, current, x);
      sendBufPtr := sendBufPtr + len;
      chunkLen := chunkLen + len;
    }

    /** One character goes into the current chunk, which is closed when it is full. */
    method SendChar(from: Encoding, ch: Bytes) returns (rc: int)
      requires Open() && 0 < |ch| <= MAXCHAR_LEN
      modifies this`wire, this`broken, this`sendBufPtr, this`lastChunkLenPtr, this`chunkLen, this`text, sendBuf
      ensures rc == 0 || rc == 1
      ensures text == old(text) + Convert(from, clientEnc, ch)
      ensures rc == 0 ==> Open() && broken == old(broken)
      ensures rc == 0 ==> Cur() == Advanced(old(Cur()), |Convert(from, clientEnc, ch)|)
      ensures rc == 1 ==> Failed()
    {
      hide FullChunks, Remainder, Convert, Laid;
      ghost var done, current, x := FullChunks(text), Remainder(text), Convert(from, clientEnc, ch);
      PutChar(from, ch, done, current);
      TextGrows(text, x);
      text := text + x;
      if chunkLen >= CHUNK {
        NextChunk(done, current + x);
        rc := MakeRoom(done + ([CHUNK] + (current + x)[..CHUNK]), (current + x)[CHUNK..]);
        return rc;
      }
      return 0;
    }

    /** pproto_server_send_str. Besides a failed socket it refuses a character without a length, and a
        call that finds the buffer nearly full; either way the text stays open. */
    method SendStr(str: Bytes, srvEnc: bool) returns (rc: int)
      requires Open() && WholeChars(serverEnc, str)
      modifies this`wire, this`broken, this`sendBufPtr, this`lastChunkLenPtr, this`chunkLen, this`text, sendBuf
      ensures rc == 0 || rc == 1
      ensures var from := if srvEnc then serverEnc else Utf8;
              var (bytes, ok) := Converted(serverEnc, from, clientEnc, str);
              var room := HasRoom(old(Cur()));
              && (rc == 0 ==> room && ok && broken == old(broken))
              && (rc == 1 ==> !room || !ok || Failed())
              && (rc == 0 || !Failed() ==> Open() && text == old(text) + if room then bytes else [])
              && (rc == 0 || !Failed() ==>
                    Cur() == if room then CursorAfter(serverEnc, from, clientEnc, str, old(Cur())) else old(Cur()))
    {
      hide FullChunks, Remainder, Convert, Filling, LengthAt, Converted, CursorAfter, Advanced, WholeChars;
      var from := if srvEnc then serverEnc else Utf8;
      ghost var all := Converted(serverEnc, from, clientEnc, str);
      ghost var end := CursorAfter(serverEnc, from, clientEnc, str, Cur());
      PtrIs(FullChunks(text), Remainder(text));
      if sendBufPtr >= SEND_BUF_SIZE - 256 - MAXCHAR_LEN {
        assert text == text + [];
        return 1;
      }
      var i := 0;
      ghost var start, sofar: Bytes := text, [];
      AfterNothing(all);
      assert str[0..] == str;
      assert start + [] == start;
      while i < |str|
        invariant i <= |str| && Open() && WholeChars(serverEnc, str[i..])
        invariant text == start + sofar && broken == old(broken)
        invariant all == After(sofar, Converted(serverEnc, from, clientEnc, str[i..]))
        invariant end == CursorAfter(serverEnc, from, clientEnc, str[i..], Cur())
        decreases |str| - i
      {
        var n := LengthAt(serverEnc, str[i]);
        ConvertedFrom(serverEnc, from, clientEnc, str, i, sofar);
        CursorFrom(serverEnc, from, clientEnc, str, i, Cur());
        if n == 0 {
          return 1;
        }
        ghost var x := Convert(from, clientEnc, str[i..i + n]);
        var failed := SendChar(from, str[i..i + n]);
        if failed != 0 {
          return 1;
        }
        assert start + (sofar + x) == (start + sofar) + x;
        sofar := sofar + x;
        i := i + n;
      }
      ConvertedFrom(serverEnc, from, clientEnc, str, i, sofar);
      CursorFrom(serverEnc, from, clientEnc, str, i, Cur());
      return 0;
    }

    /** pproto_server_send_str_end. */
    method SendStrEnd() returns (rc: int)
      requires Open()
      modifies this`wire, this`broken, this`sendBufPtr, this`chunkLen, sendBuf
      ensures rc == 0 || rc == 1
      ensures rc == 0 ==> Valid() && sendBufPtr == 0 && wire == before + Chunked(text) && broken == old(broken)
      ensures rc == 1 ==> Failed()
    {
      ghost var done, t, last, was := FullChunks(text), Remainder(text), lastChunkLenPtr, sendBuf[..];
      hide FullChunks, Remainder;
      sendBuf[lastChunkLenPtr] := chunkLen;
      assert sendBuf[..sendBufPtr] == was[..last] + ([|t|] + t);
      Regroup(wire, was[..last], [|t|] + t, before, done);
      if chunkLen > 0 {
        var failed := SendByte(0);
        if failed != 0 {
          return 1;
        }
        chunkLen := 0;
        assert Emitted() == before + (done + ([|t|] + t)) + [0];
        assert before + (done + ([|t|] + t)) + [0] == before + (done + ([|t|] + t + [0]));
      } else {
        assert [|t|] + t == [0];
      }
      rc := Flush();
    }

    /** A whole run: begin, any number of parts, end. */
    method SendText(parts: seq<(Bytes, bool)>) returns (rc: int)
      requires Valid() && forall part :: part in parts ==> WholeChars(serverEnc, part.0)
      modifies this, sendBuf
      ensures clientEnc == old(clientEnc) && serverEnc == old(serverEnc)
      ensures rc == 0 ==> Valid() && wire == old(Emitted()) + [0x01] + Chunked(Joined(serverEnc, clientEnc, parts))
      ensures rc == 0 ==> sendBufPtr == 0 && broken == old(broken)
      ensures var accepted := Accepted(StartCursor(old(sendBufPtr)), serverEnc, clientEnc, parts);
              (rc == 0 ==> accepted) && (rc == 1 ==> Failed() || !accepted)
      ensures rc == 0 || rc == 1
    {
      hide Chunked, Converted, CursorAfter, HasRoom, StartCursor, WholeChars, Filling, Roomy;
      rc := SendStrBegin();
      if rc != 0 {
        return;
      }
      ghost var start, first := before, Cur();
      for i := 0 to |parts|
        invariant clientEnc == old(clientEnc) && serverEnc == old(serverEnc) && before == start
        invariant Open() && text == Joined(serverEnc, clientEnc, parts[..i]) && broken == old(broken)
        invariant RunOf(first, serverEnc, clientEnc, parts[..i]) == (Cur(), true)
      {
        assert parts[i] in parts;
        assert parts[..i + 1][..i] == parts[..i];
        rc := SendStr(parts[i].0, parts[i].1);
        if rc != 0 {
          if !Failed() {
            RefusedStays(first, serverEnc, clientEnc, parts, i + 1);
          }
          return;
        }
      }
      assert parts[..|parts|] == parts;
      rc := SendStrEnd();
    }
  }

  /** The text that a run of `send_str` calls sends. */
  ghost function Joined(server: Encoding, client: Encoding, parts: seq<(Bytes, bool)>): Bytes
    requires forall part :: part in parts ==> WholeChars(server, part.0)
  {
    if |parts| == 0 then []
    else
      var (str, srvEnc) := parts[|parts| - 1];
      Joined(server, client, parts[..|parts| - 1])
        + Converted(server, if srvEnc then server else Utf8, client, str).0
  }

  /** The cursor after a run of `send_str` calls, and whether each of them found room and only characters
      that have a length. */
  function RunOf(start: Cursor, server: Encoding, client: Encoding, parts: seq<(Bytes, bool)>): (Cursor, bool)
    requires forall part :: part in parts ==> WholeChars(server, part.0)
  {
    if |parts| == 0 then (start, true)
    else
      var (c, ok) := RunOf(start, server, client, parts[..|parts| - 1]);
      var (str, srvEnc) := parts[|parts| - 1];
      var from := if srvEnc then server else Utf8;
      if !ok || !HasRoom(c) then (c, false)
      else (CursorAfter(server, from, client, str, c), Converted(server, from, client, str).1)
  }

  predicate Accepted(start: Cursor, server: Encoding, client: Encoding, parts: seq<(Bytes, bool)>)
    requires forall part :: part in parts ==> WholeChars(server, part.0)
  {
    RunOf(start, server, client, parts).1
  }

  lemma {:induction false} RefusedStays(start: Cursor, server: Encoding, client: Encoding, parts: seq<(Bytes, bool)>,
                                        i: nat)
    requires i <= |parts| && forall part :: part in parts ==> WholeChars(server, part.0)
    requires !Accepted(start, server, client, parts[..i])
    ensures !Accepted(start, server, client, parts)
  {
    hide CursorAfter, Converted, HasRoom;
    if i < |parts| {
      var init := parts[..|parts| - 1];
      assert init[..i] == parts[..i];
      RefusedStays(start, server, client, init, i);
    } else {
      assert parts[..i] == parts;
    }
  }

  // ----- The cursor by the length of the text -----

  /** The complete chunks of a text that fit behind the place `s` before the first flush. */
  function FirstFill(s: nat): nat
    requires s <= SEND_BUF_SIZE - 262
  {
    (SEND_BUF_SIZE - 262 - s) / 256 + 1
  }

  /** Where the open chunk starts after `k` complete ones. */
  function LastAt(s: nat, k: nat): nat
    requires s <= SEND_BUF_SIZE - 262
  {
    if k < FirstFill(s) then s + 256 * k else 256 * ((k - FirstFill(s)) % 31)
  }

  /** The cursor after `n` bytes of a text whose first chunk started at `s`. */
  function CursorAt(s: nat, n: nat): Cursor
    requires s <= SEND_BUF_SIZE - 262
  {
    Cursor(LastAt(s, n / CHUNK), n % CHUNK)
  }

  /** The places from which the first flush does not depend on how the characters end. */
  predicate Steady(s: nat) {
    s <= SEND_BUF_SIZE - 262 && s % 256 != 248 && s % 256 != 249 && s % 256 != 250
  }

  lemma NextTurn(a: nat)
    ensures (a + 1) % 31 == if a % 31 == 30 then 0 else a % 31 + 1
  {
  }

  /** The chunk that is full when the next place is past the last one with room. */
  lemma FirstFillIs(s: nat)
    requires Steady(s)
    ensures var f := FirstFill(s);
            f > 0 && s + 256 * f > SEND_BUF_SIZE - 262 && s + 256 * (f - 1) <= SEND_BUF_SIZE - 265
  {
    var f := FirstFill(s);
    SamePlace(s, f - 1);
  }

  lemma SamePlace(s: nat, k: nat)
    ensures (s + 256 * k) % 256 == s % 256
  {
  }

  lemma ChunkStep(s: nat, k: nat, r: nat)
    requires Steady(s) && r <= 3
    ensures Settled(Cursor(LastAt(s, k) + CHUNK + 1, r)) == Cursor(LastAt(s, k + 1), r)
  {
    hide FirstFill, Steady;
    FirstFillIs(s);
    var f := FirstFill(s);
    if k >= f {
      NextTurn(k - f);
    }
  }

  lemma CursorStep(s: nat, n: nat, x: nat)
    requires Steady(s) && 0 < x <= MAXCHAR_LEN
    ensures Advanced(CursorAt(s, n), x) == CursorAt(s, n + x)
  {
    hide LastAt, Settled, Steady;
    var k, r := n / CHUNK, n % CHUNK;
    if r + x < CHUNK {
      assert (n + x) / CHUNK == k && (n + x) % CHUNK == r + x;
    } else {
      assert (n + x) / CHUNK == k + 1 && (n + x) % CHUNK == r + x - CHUNK;
      ChunkStep(s, k, r + x - CHUNK);
    }
  }

  lemma {:induction false} CursorByLength(lens: Encoding, from: Encoding, to: Encoding, str: Bytes, s: nat, n: nat)
    requires Steady(s) && WholeChars(lens, str)
    ensures CursorAfter(lens, from, to, str, CursorAt(s, n))
         == CursorAt(s, n + |Converted(lens, from, to, str).0|)
  {
    hide Convert, LengthAt, CursorAt, Advanced, Steady;
    if |str| > 0 && LengthAt(lens, str[0]) > 0 {
      var k := LengthAt(lens, str[0]);
      var x := |Convert(from, to, str[..k])|;
      CursorStep(s, n, x);
      CursorByLength(lens, from, to, str[k..], s, n + x);
    }
  }

  lemma {:induction false} RunByLength(s: nat, server: Encoding, client: Encoding, parts: seq<(Bytes, bool)>)
    requires Steady(s) && forall part :: part in parts ==> WholeChars(server, part.0)
    requires Accepted(CursorAt(s, 0), server, client, parts)
    ensures RunOf(CursorAt(s, 0), server, client, parts).0 == CursorAt(s, |Joined(server, client, parts)|)
  {
    hide Converted, CursorAfter, CursorAt, HasRoom, Steady;
    if |parts| > 0 {
      var init := parts[..|parts| - 1];
      var (str, srvEnc) := parts[|parts| - 1];
      RunByLength(s, server, client, init);
      CursorByLength(server, if srvEnc then server else Utf8, client, str, s, |Joined(server, client, init)|);
    }
  }

  /** The lengths of text after which a call of `send_str` is refused, when the text was begun with an
      empty buffer. */
  predicate RefusedAfter(n: nat) {
    if n < 7905 then n >= 7900 else n % 7905 >= 7901
  }

  lemma RefusedIff(n: nat)
    ensures HasRoom(CursorAt(1, n)) <==> !RefusedAfter(n)
  {
    var k, r := n / CHUNK, n % CHUNK;
    assert FirstFill(1) == 31;
    hide FirstFill;
    if k < 31 {
      LastFill(k, r);
    } else {
      var m, q := (k - 31) / 31, (k - 31) % 31;
      Remainder7905(n, m + 1, CHUNK * q + r);
      LastFill(q, r);
    }
  }

  lemma LastFill(q: nat, r: nat)
    requires q <= 30 && r < CHUNK
    ensures 256 * q + 1 + r >= 7932 <==> CHUNK * q + r >= 7901
    ensures 256 * q + 2 + r >= 7932 <==> CHUNK * q + r >= 7900
    ensures CHUNK * q + r < 7905
  {
    if q <= 29 {
      assert 256 * q <= 256 * 29;
    }
  }

  lemma Remainder7905(n: nat, m: nat, t: nat)
    requires n == 7905 * m + t && t < 7905
    ensures n % 7905 == t
  {
  }

  /** Part `i` is not refused. */
  ghost predicate Fits(server: Encoding, client: Encoding, parts: seq<(Bytes, bool)>, i: nat)
    requires i < |parts| && forall part :: part in parts ==> WholeChars(server, part.0)
  {
    && Converted(server, if parts[i].1 then server else Utf8, client, parts[i].0).1
    && !RefusedAfter(|Joined(server, client, parts[..i])|)
  }

  lemma AcceptedStep(server: Encoding, client: Encoding, parts: seq<(Bytes, bool)>)
    requires |parts| > 0 && forall part :: part in parts ==> WholeChars(server, part.0)
    ensures Accepted(StartCursor(0), server, client, parts) <==>
      Accepted(StartCursor(0), server, client, parts[..|parts| - 1]) && Fits(server, client, parts, |parts| - 1)
  {
    hide Converted, CursorAfter, CursorAt, StartCursor, HasRoom, RefusedAfter, Joined, Steady;
    EmptyStart();
    var init := parts[..|parts| - 1];
    if Accepted(StartCursor(0), server, client, init) {
      RunByLength(1, server, client, init);
      RefusedIff(|Joined(server, client, init)|);
    }
  }

  /** A text begun with an empty buffer is sent, if the socket does not fail, exactly when all characters
      have a length and no part follows a refused length of text. */
  lemma {:induction false} AcceptedIff(server: Encoding, client: Encoding, parts: seq<(Bytes, bool)>)
    requires forall part :: part in parts ==> WholeChars(server, part.0)
    ensures Accepted(StartCursor(0), server, client, parts) <==>
      forall i :: 0 <= i < |parts| ==> Fits(server, client, parts, i)
  {
    hide StartCursor, Accepted, Fits, WholeChars;
    if |parts| > 0 {
      var init := parts[..|parts| - 1];
      AcceptedIff(server, client, init);
      AcceptedStep(server, client, parts);
      forall i | 0 <= i < |init| ensures Fits(server, client, init, i) == Fits(server, client, parts, i) {
        SameFit(server, client, parts, i);
      }
    } else {
      NothingAccepted(server, client, parts);
    }
  }

  lemma NothingAccepted(server: Encoding, client: Encoding, parts: seq<(Bytes, bool)>)
    requires |parts| == 0
    ensures Accepted(StartCursor(0), server, client, parts)
  {
  }

  lemma SameFit(server: Encoding, client: Encoding, parts: seq<(Bytes, bool)>, i: nat)
    requires i + 1 < |parts| && forall part :: part in parts ==> WholeChars(server, part.0)
    ensures Fits(server, client, parts[..|parts| - 1], i) == Fits(server, client, parts, i)
  {
    hide Converted, RefusedAfter, Joined, WholeChars;
    assert parts[..|parts| - 1][..i] == parts[..i];
  }

  lemma EmptyStart()
    ensures StartCursor(0) == CursorAt(1, 0) && Steady(1)
  {
  }

  lemma {:induction false} PlainText(server: Encoding, from: Encoding, client: Encoding, str: Bytes)
    requires forall i :: 0 <= i < |str| ==> str[i] < 0x80
    ensures WholeChars(server, str) && Converted(server, from, client, str) == (str, true)
  {
    hide Converted;
    if |str| > 0 {
      PlainText(server, from, client, str[1..]);
      PlainChar(server, from, client, str[0]);
      assert str[..1] == [str[0]] && [str[0]] + str[1..] == str;
    }
    ConvertedStep(server, from, client, str);
  }

  lemma PlainChar(server: Encoding, from: Encoding, client: Encoding, b: Byte)
    requires b < 0x80
    ensures LengthAt(server, b) == 1 && Convert(from, client, [b]) == [b]
  {
  }

  /** After 7900 plain characters any further part is refused. */
  lemma SendFails(server: Encoding, client: Encoding, more: Bytes)
    requires WholeChars(server, more)
    ensures var first: Bytes := seq(7900, _ => 65);
            && WholeChars(server, first)
            && !Accepted(StartCursor(0), server, client, [(first, true), (more, true)])
  {
    hide Converted, WholeChars, StartCursor, Accepted;
    var first: Bytes := seq(7900, _ => 65);
    PlainText(server, server, client, first);
    var parts := [(first, true), (more, true)];
    AcceptedIff(server, client, parts);
    OnePart(server, client, parts);
    assert RefusedAfter(7900);
    assert !Fits(server, client, parts, 1);
  }

  lemma OnePart(server: Encoding, client: Encoding, parts: seq<(Bytes, bool)>)
    requires |parts| > 0 && parts[0].1 && forall part :: part in parts ==> WholeChars(server, part.0)
    ensures Joined(server, client, parts[..1]) == Converted(server, server, client, parts[0].0).0
  {
    hide Converted, WholeChars;
    var one := parts[..1];
    assert one[..0] == [];
    assert Joined(server, client, one[..0]) == [];
    assert [] + Converted(server, server, client, parts[0].0).0 == Converted(server, server, client, parts[0].0).0;
  }

  lemma Regroup(a: Bytes, b: Bytes, c: Bytes, d: Bytes, e: Bytes)
    requires a + b == d + e
    ensures a + (b + c) == d + (e + c)
  {
    assert a + (b + c) == (a + b) + c && d + (e + c) == (d + e) + c;
  }

  lemma TextGrows(text: Bytes, x: Bytes)
    requires |x| <= MAXCHAR_LEN
    ensures var t := Remainder(text) + x;
            && |t| < 2 * CHUNK
            && FullChunks(text + x) == (if |t| < CHUNK then FullChunks(text) else FullChunks(text) + ([CHUNK] + t[..CHUNK]))
            && Remainder(text + x) == (if |t| < CHUNK then t else t[CHUNK..])
  {
    ChunksContinue(text, x);
    var t := Remainder(text) + x;
    if |t| < CHUNK {
      assert FullChunks(text) + [] == FullChunks(text);
    } else {
      assert FullChunks(t[CHUNK..]) == [];
      assert [CHUNK] + t[..CHUNK] + [] == [CHUNK] + t[..CHUNK];
    }
  }
}
