/** A sender and a reader at the two ends of a connection. */
module TextExchange {
  import opened Encodings
  import opened Framing
  import opened Options
  import opened Receivers
  import opened TextSenders
  import ClientTexts
  import ServerTexts

  /** What a reader finds after the magic byte of a sent text. */
  lemma SentDecodes(text: Bytes, after: Bytes, stream: Bytes, first: Byte, rest: Bytes)
    requires stream == [TEXT_MAGIC] + Chunked(text) + after && stream[1..] == [first] + rest
    ensures Decode(first, rest) == Some(Text(text, after))
  {
    hide Chunked, Decode;
    DecodeChunked(text, after);
    assert stream[1..] == Chunked(text) + after;
    assert ([first] + rest)[1..] == rest;
  }

  lemma SentIsLong(text: Bytes, after: Bytes)
    ensures !TooShort([TEXT_MAGIC] + Chunked(text) + after)
  {
  }

  /** The client reads exactly the text of any run of sends, whatever the parts, the portions that recv
      delivers and its buffer sizes are, and leaves the stream right behind it. Unless a socket fails, the
      exchange succeeds exactly when no part is refused. */
  method ServerToClient(client: Encoding, server: Encoding, parts: seq<(Bytes, bool)>, after: Bytes, reliable: bool)
    returns (rc: int, text: Bytes, rest: Bytes)
    requires forall part :: part in parts ==> WholeChars(server, part.0)
    ensures rc == 0 || rc == 1
    ensures rc == 0 ==> Accepted(StartCursor(0), server, client, parts)
    ensures rc == 0 ==> text == Joined(server, client, parts) && rest == after
    ensures reliable && Accepted(StartCursor(0), server, client, parts) ==> rc == 0
  {
    hide Chunked, Decode, Joined, WholeChars, Accepted, StartCursor, TooShort;
    text, rest := [], [];
    var s := new Sender(client, server, reliable);
    rc := s.SendText(parts);
    if rc != 0 {
      return;
    }
    SentIsLong(Joined(server, client, parts), after);
    var r := new Receiver(s.wire + after, reliable);
    ghost var stream := r.Pending();
    assert stream == [TEXT_MAGIC] + Chunked(Joined(server, client, parts)) + after;
    var c := new ClientTexts.ClientText(r);
    var len;
    rc, len := c.ReadStrBegin();
    if rc != 0 {
      return;
    }
    SentDecodes(Joined(server, client, parts), after, stream, c.nextChunkLen, r.Pending());
    rc, text := c.ReadText();
    rest := r.recvBuf[r.recvBufPtr..r.recvBufUpperBound] + r.input;
  }

  /** Text in UTF-8 goes to a client with UTF-8 as it is; a server with ASCII takes every byte for a character. */
  lemma Utf8Sent(server: Encoding, s: Bytes)
    requires ServerTexts.Recoded(Utf8, Utf8, s).1 && !ServerTexts.Truncated(Utf8, s)
    ensures WholeChars(server, s) && Converted(server, Utf8, Utf8, s) == (s, true)
  {
    hide WholeChars, Converted, ServerTexts.Recoded, ServerTexts.Truncated;
    if server == Utf8 {
      ServerTexts.SentUnchanged(Utf8, s);
    } else {
      BytesSent(s);
    }
  }

  lemma {:induction false} BytesSent(s: Bytes)
    ensures WholeChars(Ascii, s) && Converted(Ascii, Utf8, Utf8, s) == (s, true)
  {
    if |s| > 0 {
      BytesSent(s[1..]);
      assert s[..1] + s[1..] == s;
    }
  }

  /** Each part adds its own text: a part in the server's encoding what a reader would make of it in the
      client's, and a part in UTF-8, for a client with UTF-8, itself. */
  lemma PartAdds(server: Encoding, client: Encoding, parts: seq<(Bytes, bool)>, str: Bytes)
    requires forall part :: part in parts ==> WholeChars(server, part.0)
    ensures ServerTexts.Recoded(server, client, str).1 && !ServerTexts.Truncated(server, str) ==>
      && WholeChars(server, str)
      && Joined(server, client, parts + [(str, true)])
         == Joined(server, client, parts) + ServerTexts.Recoded(server, client, str).0
    ensures ServerTexts.Recoded(Utf8, Utf8, str).1 && !ServerTexts.Truncated(Utf8, str) && client == Utf8 ==>
      && WholeChars(server, str)
      && Joined(server, client, parts + [(str, false)]) == Joined(server, client, parts) + str
  {
    hide WholeChars, Converted, ServerTexts.Recoded, ServerTexts.Truncated;
    assert (parts + [(str, true)])[..|parts|] == parts && (parts + [(str, false)])[..|parts|] == parts;
    if ServerTexts.Recoded(server, client, str).1 && !ServerTexts.Truncated(server, str) {
      ServerTexts.SentRecoded(server, client, str);
    }
    if ServerTexts.Recoded(Utf8, Utf8, str).1 && !ServerTexts.Truncated(Utf8, str) && client == Utf8 {
      Utf8Sent(server, str);
    }
  }

  /** One valid text is accepted and sent as it is. */
  lemma OneText(enc: Encoding, str: Bytes)
    requires ServerTexts.Recoded(enc, enc, str).1 && !ServerTexts.Truncated(enc, str)
    ensures WholeChars(enc, str)
    ensures Joined(enc, enc, [(str, true)]) == str && Accepted(StartCursor(0), enc, enc, [(str, true)])
  {
    hide Converted, WholeChars, StartCursor, Accepted, ServerTexts.Recoded, ServerTexts.Truncated;
    ServerTexts.SentUnchanged(enc, str);
    var parts := [(str, true)];
    OnePart(enc, enc, parts);
    assert parts[..1] == parts && parts[..0] == [];
    AcceptedIff(enc, enc, parts);
    assert Fits(enc, enc, parts, 0);
  }

  /** A valid text in a shared encoding is read back unchanged, character by character, unless a socket fails. */
  method ThereAndBack(enc: Encoding, str: Bytes, after: Bytes, reliable: bool)
    returns (rc: int, text: Bytes, rest: Bytes)
    requires ServerTexts.Recoded(enc, enc, str).1 && !ServerTexts.Truncated(enc, str)
    ensures rc == 0 || rc == 1
    ensures rc == 0 ==> text == str && rest == after
    ensures reliable ==> rc == 0
  {
    hide Chunked, Decode, Joined, WholeChars, Accepted, StartCursor, TooShort;
    hide ServerTexts.Recoded, ServerTexts.Truncated;
    text, rest := [], [];
    OneText(enc, str);
    ServerTexts.RecodedSame(enc, str);
    var s := new Sender(enc, enc, reliable);
    rc := s.SendText([(str, true)]);
    if rc != 0 {
      return;
    }
    SentIsLong(str, after);
    var r := new Receiver(s.wire + after, reliable);
    ghost var stream := r.Pending();
    assert stream == [TEXT_MAGIC] + Chunked(str) + after;
    var c := new ServerTexts.ServerText(r, enc, enc);
    var len;
    rc, len := c.ReadStrBegin();
    if rc != 0 {
      return;
    }
    SentDecodes(str, after, stream, c.chunkLenLeft, r.Pending());
    rc, text := c.ReadText();
    rest := r.recvBuf[r.recvBufPtr..r.recvBufUpperBound] + r.input;
  }
}
