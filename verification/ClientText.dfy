/** client/pproto_client.c: the client reads a text chunk by chunk. */
module ClientTexts {
  import opened Encodings
  import opened Framing
  import opened Options
  import opened Receivers

  class ClientText {
    const r: Receiver
    var nextChunkLen: Byte
    /** What the client has sent back. */
    ghost var sent: Bytes

    constructor (receiver: Receiver)
      requires receiver.Valid()
      ensures r == receiver && Valid() && sent == []
    {
      r, nextChunkLen, sent := receiver, 0, [];
    }

    ghost predicate Valid()
      reads this, r
    {
      r.Valid()
    }

    /** What is still to be read of the current text, and what follows it. */
    ghost function Ahead(): Option<Text>
      requires Valid()
      reads this, r, r.recvBuf
    {
      Decode(nextChunkLen, r.Pending())
    }

    /** pproto_client_read_str_begin. */
    method ReadStrBegin() returns (rc: int, len: Option<nat>)
      requires Valid()
      modifies this`nextChunkLen, r, r.recvBuf
      ensures Valid() && (rc == 0 || rc == 1)
      ensures rc == 0 ==> r.broken == old(r.broken) && old(r.Pending()) != []
      ensures rc == 0 ==>
        var s := old(r.Pending());
        if s[0] == 0xFE then
          |s| >= 10 && len == Some(BigEndian(s[1..9])) && s[9..] == [nextChunkLen] + r.Pending()
        else len == None && s[1..] == [nextChunkLen] + r.Pending()
      ensures rc == 1 ==> r.Failed() || TooShort(old(r.Pending()))
    {
      var chunkLen;
      rc, len, chunkLen := r.ReadStrBegin();
      if rc == 0 {
        nextChunkLen := chunkLen;
      }
    }

    /** pproto_client_read_str: as many whole chunks as fit into the buffer, at least one. */
    method ReadStr(strbuf: array<Byte>, sz: nat) returns (rc: int, n: nat)
      requires Valid() && strbuf != r.recvBuf && sz <= strbuf.Length
      modifies this`nextChunkLen, r, r.recvBuf, strbuf
      ensures Valid() && (rc == 0 || rc == 1)
      ensures rc == 0 ==> n <= sz && (n == 0 <==> old(nextChunkLen) == 0) && r.broken == old(r.broken)
      ensures rc == 0 ==> old(Ahead()) == Prepend(strbuf[..n], Ahead())
      ensures rc == 0 ==> nextChunkLen == 0 || n + nextChunkLen > sz
      ensures rc == 0 && n > 0 ==> |r.Pending()| < |old(r.Pending())|
      ensures rc == 1 ==> r.Failed() || old(Ahead()).None? || sz < old(nextChunkLen)
    {
      hide Decode, Prepend;
      n := 0;
      ghost var all := Ahead();
      PrependNothing(all);
      if nextChunkLen == 0 {
        assert strbuf[..0] == [];
        return 0, 0;
      }
      if sz < nextChunkLen {
        return 1, 0;
      }
      var read := 0;
      assert strbuf[..0] == [];
      while true
        invariant 0 < nextChunkLen && read + nextChunkLen <= sz && r.Valid() && r.broken == old(r.broken)
        invariant read == 0 ==> nextChunkLen == old(nextChunkLen)
        invariant |r.Pending()| <= |old(r.Pending())|
        invariant all == Prepend(strbuf[..read], Ahead())
        decreases sz - read
      {
        ghost var s, left, had := r.Pending(), nextChunkLen, strbuf[..read];
        DecodeFront(left, s);
        NothingIn(had, Decode(left, s));
        rc := r.Get(strbuf, read, nextChunkLen);
        if rc != 0 {
          return;
        }
        read := read + nextChunkLen;
        var b;
        rc, b := r.GetByte();
        if rc != 0 {
          return;
        }
        nextChunkLen := b;
        TailAfter(s, left, b, r.Pending());
        PrependTwice(had, s[..left], Ahead());
        if !(nextChunkLen != 0 && nextChunkLen + read <= sz) {
          break;
        }
      }
      n := read;
      rc := 0;
    }

    /** pproto_client_read_str_end: tells the server to stop, and drops the rest of the text. */
    method ReadStrEnd() returns (rc: int)
      requires Valid()
      modifies this, r, r.recvBuf
      ensures Valid() && (rc == 0 || rc == 1)
      ensures rc == 0 ==>
        && nextChunkLen == 0 && old(Ahead()).Some? && r.Pending() == old(Ahead()).value.tail
        && sent == old(sent) + if old(nextChunkLen) == 0 then [] else [0x57]
      ensures rc == 1 ==> r.Failed() || old(Ahead()).None? || sent == old(sent)
    {
      hide Prepend, Decode;
      ghost var all, was := Ahead(), sent;
      DecodeEnd(r.Pending());
      if nextChunkLen == 0 {
        assert sent == sent + [];
        return 0;
      }
      var delivered: bool := *;
      if !delivered {
        return 1;
      }
      sent := sent + [CANCEL_MAGIC];
      var strbuf := new Byte[255];
      ghost var dropped := [];
      PrependNothing(all);
      while true
        invariant Valid() && sent == was + [CANCEL_MAGIC] && all == Prepend(dropped, Ahead())
        decreases |r.Pending()|
      {
        var sz;
        NothingIn(dropped, Ahead());
        rc, sz := ReadStr(strbuf, 255);
        if rc != 0 {
          return;
        }
        PrependTwice(dropped, strbuf[..sz], Ahead());
        dropped := dropped + strbuf[..sz];
        if sz == 0 {
          break;
        }
      }
      DecodeEnd(r.Pending());
      EndOf(dropped, r.Pending());
    }

    /** A text read to its end with buffers of any sizes from 255 on. */
    method ReadText() returns (rc: int, text: Bytes)
      requires Valid()
      modifies this, r, r.recvBuf
      ensures Valid() && (rc == 0 || rc == 1)
      ensures rc == 0 ==> old(Ahead()) == Some(Text(text, r.Pending()))
      ensures rc == 1 ==> r.Failed() || old(Ahead()).None?
    {
      hide Prepend, Decode;
      ghost var all := Ahead();
      text := [];
      PrependNothing(all);
      while true
        invariant Valid() && all == Prepend(text, Ahead())
        decreases |r.Pending()|
      {
        var sz: nat := *;
        if sz < 255 {
          sz := 255;
        }
        var strbuf := new Byte[sz];
        NothingIn(text, Ahead());
        var n;
        rc, n := ReadStr(strbuf, sz);
        if rc != 0 {
          return;
        }
        PrependTwice(text, strbuf[..n], Ahead());
        text := text + strbuf[..n];
        if n == 0 {
          break;
        }
      }
      DecodeEnd(r.Pending());
      EndOf(text, r.Pending());
    }
  }
}
