/** The receive buffer that session/pproto_server.c and client/pproto_client.c both keep. */
module Receivers {
  import opened Encodings
  import opened Framing
  import opened Options

  const RECV_BUF_SIZE := 8192

  /** Value of bytes in network order. */
  function BigEndian(s: Bytes): nat {
    if |s| == 0 then 0 else 256 * BigEndian(s[..|s| - 1]) + s[|s| - 1]
  }

  lemma EightBytes(s: Bytes)
    requires |s| == 8
    ensures BigEndian(s) ==
      s[0] as int * 0x100_0000_0000_0000 + s[1] as int * 0x1_0000_0000_0000 + s[2] as int * 0x100_0000_0000
      + s[3] as int * 0x1_0000_0000 + s[4] as int * 0x100_0000 + s[5] as int * 0x1_0000 + s[6] as int * 0x100
      + s[7] as int
  {
    assert s[..7] == [s[0], s[1], s[2], s[3], s[4], s[5], s[6]];
    assert s[..7][..6] == s[..6] && s[..6][..5] == s[..5] && s[..5][..4] == s[..4];
    assert s[..4][..3] == s[..3] && s[..3][..2] == s[..2] && s[..2][..1] == s[..1] && s[..1][..0] == [];
    assert BigEndian(s[..1]) == s[0];
    assert BigEndian(s[..2]) == 256 * BigEndian(s[..1]) + s[1];
    assert BigEndian(s[..3]) == 256 * BigEndian(s[..2]) + s[2];
    assert BigEndian(s[..4]) == 256 * BigEndian(s[..3]) + s[3];
    assert BigEndian(s[..5]) == 256 * BigEndian(s[..4]) + s[4];
    assert BigEndian(s[..6]) == 256 * BigEndian(s[..5]) + s[5];
    assert BigEndian(s[..7]) == 256 * BigEndian(s[..6]) + s[6];
  }

  lemma TakeDrop(a: Bytes, b: Bytes, n: nat)
    requires n <= |a|
    ensures n <= |a + b| && (a + b)[..n] == a[..n] && (a + b)[n..] == a[n..] + b
  {
  }

  lemma NextSlice(was: Bytes, s: Bytes, i: nat, n: nat)
    requires i + n <= |s|
    ensures s[i..][n..] == s[i + n..] && was + s[..i] + s[i..][..n] == was + s[..i + n]
  {
  }

  /** Not even the head of a text and its first chunk length. */
  predicate TooShort(s: Bytes) {
    |s| < 2 || (s[0] == LONG_TEXT_MAGIC && |s| < 10)
  }

  class Receiver {
    const recvBuf: array<Byte>
    var recvBufPtr: nat
    var recvBufUpperBound: nat
    /** What the peer has sent and the socket has not delivered yet. */
    var input: Bytes
    /** Whether the socket delivers everything. */
    const reliable: bool
    ghost var broken: bool

    constructor (s: Bytes, always: bool)
      ensures fresh(recvBuf) && Valid() && Pending() == s && !broken && reliable == always
    {
      recvBuf := new Byte[RECV_BUF_SIZE];
      recvBufPtr, recvBufUpperBound, input, reliable, broken := 0, 0, s, always, false;
    }

    /** The socket has failed. */
    ghost predicate Failed()
      reads this
    {
      broken && !reliable
    }

    ghost predicate Valid()
      reads this
    {
      recvBuf.Length == RECV_BUF_SIZE && recvBufPtr <= recvBufUpperBound <= RECV_BUF_SIZE
    }

    /** The bytes still to be read. */
    ghost function Pending(): Bytes
      requires Valid()
      reads this, recvBuf
    {
      recvBuf[recvBufPtr..recvBufUpperBound] + input
    }

    /** read_portion: recv delivers any nonempty beginning of what the peer sent that fits, or fails. */
    method ReadPortion() returns (rc: int)
      requires Valid() && recvBufPtr == recvBufUpperBound
      modifies this, recvBuf
      ensures Valid() && (rc == 0 || rc == 1)
      ensures rc == 0 ==> Pending() == old(Pending()) && recvBufPtr < recvBufUpperBound && broken == old(broken)
      ensures rc == 1 ==> Failed() || old(Pending()) == []
    {
      var leftsz := RECV_BUF_SIZE - recvBufUpperBound;
      if leftsz == 0 {
        leftsz := RECV_BUF_SIZE;
        recvBufPtr, recvBufUpperBound := 0, 0;
      }
      var received: bool := *;
      if !received && !reliable {
        broken := true;
        return 1;
      }
      if |input| == 0 {
        return 1;
      }
      var readsz :| 0 < readsz <= |input| && readsz <= leftsz;
      forall k | 0 <= k < readsz {
        recvBuf[recvBufUpperBound + k] := input[k];
      }
      assert recvBuf[recvBufUpperBound..recvBufUpperBound + readsz] == input[..readsz];
      assert input[..readsz] + input[readsz..] == input;
      recvBufUpperBound := recvBufUpperBound + readsz;
      input := input[readsz..];
      return 0;
    }

    /** A portion is read when no byte is at hand. */
    method Refill() returns (rc: int)
      requires Valid()
      modifies this, recvBuf
      ensures Valid() && (rc == 0 || rc == 1)
      ensures rc == 0 ==> Pending() == old(Pending()) && recvBufPtr < recvBufUpperBound && broken == old(broken)
      ensures rc == 0 ==> |Pending()| > 0 && recvBuf[recvBufPtr] == Pending()[0]
      ensures rc == 1 ==> Failed() || old(Pending()) == []
    {
      rc := 0;
      if recvBufUpperBound == recvBufPtr {
        rc := ReadPortion();
      }
    }

    /** memcpy of `n` buffered bytes. */
    method CopyOut(buf: array<Byte>, at: nat, n: nat)
      requires Valid() && buf != recvBuf && at + n <= buf.Length && n <= recvBufUpperBound - recvBufPtr
      modifies this`recvBufPtr, buf
      ensures Valid() && n <= |old(Pending())| && recvBufPtr == old(recvBufPtr) + n
      ensures buf[..at + n] == old(buf[..at]) + old(Pending())[..n] && Pending() == old(Pending())[n..]
    {
      ghost var ready, was := recvBuf[recvBufPtr..recvBufUpperBound], buf[..at];
      forall k | 0 <= k < n {
        buf[at + k] := recvBuf[recvBufPtr + k];
      }
      TakeDrop(ready, input, n);
      assert buf[..at + n] == was + ready[..n];
      recvBufPtr := recvBufPtr + n;
      assert recvBuf[recvBufPtr..recvBufUpperBound] == ready[n..];
    }

    /** get: exactly `sz` bytes, across as many portions as it takes. */
    method Get(buf: array<Byte>, at: nat, sz: nat) returns (rc: int)
      requires Valid() && buf != recvBuf && at + sz <= buf.Length
      modifies this, recvBuf, buf
      ensures Valid() && (rc == 0 || rc == 1)
      ensures rc == 0 ==>
        && sz <= |old(Pending())| && broken == old(broken)
        && buf[..at + sz] == old(buf[..at]) + old(Pending())[..sz] && Pending() == old(Pending())[sz..]
      ensures rc == 1 ==> Failed() || |old(Pending())| < sz
    {
      hide Pending;
      ghost var s, was := Pending(), buf[..at];
      var got := 0;
      assert s[0..] == s && s[..0] == [];
      while got < sz
        invariant got <= sz && got <= |s| && Valid() && broken == old(broken)
        invariant buf[..at + got] == was + s[..got] && Pending() == s[got..]
        decreases sz - got, recvBufPtr == recvBufUpperBound
      {
        var diff := recvBufUpperBound - recvBufPtr;
        if diff > 0 {
          var cpsz := if diff > sz - got then sz - got else diff;
          CopyOut(buf, at + got, cpsz);
          NextSlice(was, s, got, cpsz);
          got := got + cpsz;
        } else {
          var failed := ReadPortion();
          if failed != 0 {
            return 1;
          }
        }
      }
      return 0;
    }

    /** get_uint8. */
    method GetByte() returns (rc: int, b: Byte)
      requires Valid()
      modifies this, recvBuf
      ensures Valid() && (rc == 0 || rc == 1)
      ensures rc == 0 ==> old(Pending()) == [b] + Pending() && broken == old(broken)
      ensures rc == 1 ==> Failed() || old(Pending()) == []
    {
      b := 0;
      rc := Refill();
      if rc != 0 {
        return;
      }
      b := recvBuf[recvBufPtr];
      assert recvBuf[recvBufPtr..recvBufUpperBound] == [b] + recvBuf[recvBufPtr + 1..recvBufUpperBound];
      recvBufPtr := recvBufPtr + 1;
    }

    /** read_str_begin: the type byte, for long texts the length, and the length of the first chunk. */
    method ReadStrBegin() returns (rc: int, len: Option<nat>, chunkLen: Byte)
      requires Valid()
      modifies this, recvBuf
      ensures Valid() && (rc == 0 || rc == 1)
      ensures rc == 0 ==> broken == old(broken) && old(Pending()) != []
      ensures rc == 0 ==>
           var s := old(Pending());
           if s[0] == 0xFE then
             |s| >= 10 && len == Some(BigEndian(s[1..9])) && s[9..] == [chunkLen] + Pending()
           else len == None && s[1..] == [chunkLen] + Pending()
      ensures rc == 1 ==> Failed() || TooShort(old(Pending()))
    {
      ghost var s := Pending();
      len, chunkLen := None, 0;
      var strType;
      rc, strType := GetByte();
      if rc != 0 {
        return;
      }
      if strType == LONG_TEXT_MAGIC {
        var strLen := new Byte[8];
        rc := Get(strLen, 0, 8);
        if rc != 0 {
          return;
        }
        assert s[1..][..8] == s[1..9] && s[1..][8..] == s[9..];
        assert strLen[..] == strLen[..8];
        len := Some(BigEndian(strLen[..]));
      }
      rc, chunkLen := GetByte();
    }
  }
}
