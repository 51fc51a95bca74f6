/** The text frame of the protocol: chunks that carry their length in one byte, ended by a zero length. */
module Framing {
  import opened Encodings
  import opened Options

  const CHUNK := 255
  const TEXT_MAGIC: Byte := 0x01
  const LONG_TEXT_MAGIC: Byte := 0xFE
  const CANCEL_MAGIC: Byte := 0x57

  type Bytes = seq<Byte>

  // ----- What a sender emits -----

  /** The complete chunks of a text, each after its length byte. */
  function FullChunks(text: Bytes): Bytes {
    if |text| < CHUNK then [] else [CHUNK] + text[..CHUNK] + FullChunks(text[CHUNK..])
  }

  /** What is left of the text after its complete chunks. */
  function Remainder(text: Bytes): (t: Bytes)
    ensures |t| < CHUNK && |t| <= |text|
    ensures |t| == |text| % CHUNK
  {
    if |text| < CHUNK then text else Remainder(text[CHUNK..])
  }

  /** A text after its magic byte: complete chunks, one shorter chunk if needed, a single zero. */
  function Chunked(text: Bytes): Bytes {
    var t := Remainder(text);
    FullChunks(text) + (if t == [] then [0] else [|t|] + t + [0])
  }

  /** Text added to the remainder continues the chunks. */
  lemma {:induction false} ChunksContinue(text: Bytes, more: Bytes)
    ensures FullChunks(text + more) == FullChunks(text) + FullChunks(Remainder(text) + more)
    ensures Remainder(text + more) == Remainder(Remainder(text) + more)
  {
    if |text| >= CHUNK {
      assert (text + more)[..CHUNK] == text[..CHUNK];
      assert (text + more)[CHUNK..] == text[CHUNK..] + more;
      ChunksContinue(text[CHUNK..], more);
    }
  }

  /** A text shorter than 255 bytes is one chunk, and one of 255 bytes a chunk without a shorter one behind it. */
  lemma OneChunkForm(text: Bytes)
    ensures |text| == 0 ==> Chunked(text) == [0]
    ensures 0 < |text| <= 255 ==> Chunked(text) == [|text|] + text + [0]
  {
    if |text| == 255 {
      var none: Bytes := [];
      assert text[..CHUNK] == text && text[CHUNK..] == none;
      assert FullChunks(none) == none && Remainder(none) == none;
      assert [CHUNK] + text + none == [CHUNK] + text;
    }
  }

  /** A text takes a length byte for every 255 bytes or part of them, and a zero. */
  lemma {:induction false} ChunkedLength(text: Bytes)
    ensures |Chunked(text)| == |text| + (|text| + 254) / 255 + 1
    decreases |text|
  {
    hide Chunked, FullChunks;
    ChunkedFront(text);
    if |text| >= CHUNK {
      ChunkedLength(text[CHUNK..]);
    }
  }

  // ----- What a reader finds -----

  /** A decoded text, and the bytes after its terminator. */
  datatype Text = Text(payload: Bytes, tail: Bytes)

  function Prepend(head: Bytes, r: Option<Text>): Option<Text> {
    if r.None? then None else Some(r.value.(payload := head + r.value.payload))
  }

  /** What a stream holds when `left` bytes of the current chunk are still to come; `left` is 0 after the terminator. */
  function Decode(left: nat, s: Bytes): Option<Text>
    decreases |s|
  {
    if left == 0 then Some(Text([], s))
    else if |s| <= left then None
    else Prepend(s[..left], Decode(s[left], s[left + 1..]))
  }

  /** Reading `k` bytes of the current chunk. */
  lemma DecodeSkip(left: nat, s: Bytes, k: nat)
    requires k < left
    ensures k <= |s| ==> Decode(left, s) == Prepend(s[..k], Decode(left - k, s[k..]))
    ensures |s| < k ==> Decode(left, s) == None
  {
    if k <= |s| && left < |s| {
      assert s[k..][..left - k] == s[k..left];
      assert s[k..][left - k..] == s[left..];
      assert s[k..][left - k + 1..] == s[left + 1..];
      var r := Decode(s[left], s[left + 1..]);
      if r.Some? {
        assert s[..k] + (s[k..left] + r.value.payload) == s[..left] + r.value.payload;
      }
    }
  }

  lemma PrependTwice(a: Bytes, b: Bytes, r: Option<Text>)
    ensures Prepend(a, Prepend(b, r)) == Prepend(a + b, r)
  {
    if r.Some? {
      assert a + (b + r.value.payload) == (a + b) + r.value.payload;
    }
  }

  lemma PrependNothing(r: Option<Text>)
    ensures Prepend([], r) == r
  {
    if r.Some? {
      assert [] + r.value.payload == r.value.payload;
    }
  }

  /** A whole chunk in front of the next length byte. */
  lemma DecodeChunk(chunk: Bytes, next: Byte, s: Bytes)
    requires chunk != []
    ensures Decode(|chunk|, chunk + [next] + s) == Prepend(chunk, Decode(next, s))
  {
    var all := chunk + [next] + s;
    assert all[..|chunk|] == chunk && all[|chunk|] == next && all[|chunk| + 1..] == s;
  }

  /** Chunking from the front. */
  lemma ChunkedFront(text: Bytes)
    ensures Chunked(text) ==
      if |text| == 0 then [0]
      else if |text| < CHUNK then [|text|] + text + [0]
      else [CHUNK] + text[..CHUNK] + Chunked(text[CHUNK..])
  {
    if |text| < CHUNK {
      assert FullChunks(text) == [];
    } else {
      var t := Remainder(text);
      var last := if t == [] then [0] else [|t|] + t + [0];
      assert [CHUNK] + text[..CHUNK] + FullChunks(text[CHUNK..]) + last
          == [CHUNK] + text[..CHUNK] + (FullChunks(text[CHUNK..]) + last);
    }
  }

  /** Decoding undoes chunking, and stops right after the terminator. */
  lemma {:induction false} DecodeChunked(text: Bytes, tail: Bytes)
    ensures var s := Chunked(text) + tail;
            |s| > 0 && Decode(s[0], s[1..]) == Some(Text(text, tail))
    decreases |text|
  {
    hide Chunked, Decode, Prepend;
    ChunkedFront(text);
    DecodeEnd(tail);
    if |text| == 0 {
      assert ([0] + tail)[1..] == tail;
    } else if |text| < CHUNK {
      OneChunk(text, tail);
      DecodeChunk(text, 0, tail);
      PrependTo(text, [], tail);
    } else {
      var rest := Chunked(text[CHUNK..]) + tail;
      DecodeChunked(text[CHUNK..], tail);
      FullChunk(text[..CHUNK], Chunked(text[CHUNK..]), tail);
      DecodeChunk(text[..CHUNK], rest[0], rest[1..]);
      PrependTo(text[..CHUNK], text[CHUNK..], tail);
      assert text[..CHUNK] + text[CHUNK..] == text;
    }
  }

  lemma OneChunk(text: Bytes, tail: Bytes)
    requires |text| < CHUNK
    ensures var s := [|text|] + text + [0] + tail;
            s[0] == |text| && s[1..] == text + [0] + tail
  {
  }

  lemma FullChunk(chunk: Bytes, rest: Bytes, tail: Bytes)
    requires |rest + tail| > 0
    ensures var s, r := [CHUNK] + chunk + rest + tail, rest + tail;
            s[0] == CHUNK && s[1..] == chunk + [r[0]] + r[1..]
  {
  }

  lemma PrependTo(front: Bytes, back: Bytes, tail: Bytes)
    ensures Prepend(front, Some(Text(back, tail))) == Some(Text(front + back, tail))
    ensures back == [] ==> front + back == front
  {
  }

  lemma DecodeEnd(s: Bytes)
    ensures Decode(0, s) == Some(Text([], s))
  {
  }

  lemma DecodeFront(left: nat, s: Bytes)
    requires left > 0
    ensures |s| <= left ==> Decode(left, s) == None
    ensures |s| > left ==> Decode(left, s) == Prepend(s[..left], Decode(s[left], s[left + 1..]))
  {
  }

  lemma TailAfter(s: Bytes, k: nat, b: Byte, rest: Bytes)
    requires k <= |s| && s[k..] == [b] + rest
    ensures k < |s| && s[k] == b && s[k + 1..] == rest
  {
    assert s[k..][1..] == s[k + 1..];
  }

  lemma NothingIn(had: Bytes, r: Option<Text>)
    ensures r.None? ==> Prepend(had, r) == None
  {
  }

  lemma EndOf(text: Bytes, s: Bytes)
    ensures Prepend(text, Some(Text([], s))) == Some(Text(text, s))
  {
    assert text + [] == text;
  }
}
