/** common/encoding.c: characters of the two encodings, built byte by byte and converted in place. */
module Encodings {
  type Byte = b: int | 0 <= b < 256

  datatype Encoding = Ascii | Utf8

  datatype CharState = Incomplete | Complete | Invalid

  const MAXCHAR_LEN := 4
  const QUESTION: Byte := 0x3F

  /** Length of the UTF-8 character that starts with `b`; 0 when no character starts with it.
      The quotients are the bits that the masks 0x80, 0xE0, 0xF0 and 0xF8 select. */
  function CharLength(b: Byte): (n: nat)
    ensures n <= MAXCHAR_LEN
  {
    if b / 0x80 == 0 then 1
    else if b / 0x20 == 6 then 2
    else if b / 0x10 == 14 then 3
    else if b / 0x08 == 30 then 4
    else 0
  }

  /** The ranges of lead bytes of RFC 3629, section 3, without its exclusions. */
  lemma LeadByteRanges(b: Byte)
    ensures CharLength(b) == 1 <==> b <= 0x7F
    ensures CharLength(b) == 2 <==> 0xC0 <= b <= 0xDF
    ensures CharLength(b) == 3 <==> 0xE0 <= b <= 0xEF
    ensures CharLength(b) == 4 <==> 0xF0 <= b <= 0xF7
    ensures CharLength(b) == 0 <==> 0x80 <= b <= 0xBF || 0xF8 <= b
    ensures Continues(b) <==> 0x80 <= b <= 0xBF
  {
  }

  predicate Continues(b: Byte) {
    b / 0x40 == 2
  }

  /** What encoding_ascii_char_len and encoding_utf8_char_len say. */
  function LengthAt(enc: Encoding, b: Byte): (n: nat)
    ensures n <= MAXCHAR_LEN
  {
    if enc == Ascii then 1 else CharLength(b)
  }

  /** What the converters make of one character. */
  function Convert(from: Encoding, to: Encoding, ch: seq<Byte>): (r: seq<Byte>)
    requires 0 < |ch| <= MAXCHAR_LEN
    ensures 0 < |r| <= MAXCHAR_LEN
  {
    if from == to then ch
    else if from == Ascii then [if ch[0] > 0x7F then QUESTION else ch[0]]
    else [if ch[0] < 0x80 then ch[0] else QUESTION]
  }

  /** The converter of the pair writes at `dst[at..]`; `len` and `state` are what it reports. */
  method ConvertInto(from: Encoding, to: Encoding, ch: seq<Byte>, dst: array<Byte>, at: nat)
    returns (len: nat, state: CharState)
    requires 0 < |ch| <= MAXCHAR_LEN && at + MAXCHAR_LEN <= dst.Length
    modifies dst
    ensures len == |Convert(from, to, ch)|
    ensures state == if from == Utf8 && to == Ascii && CharLength(ch[0]) != 1 then Invalid else Complete
    ensures forall k :: 0 <= k < dst.Length ==>
      dst[k] == if at <= k < at + len then Convert(from, to, ch)[k - at] else old(dst[k])
  {
    state := Complete;
    if from == to {
      for i := 0 to |ch|
        invariant forall k :: 0 <= k < dst.Length ==> dst[k] == if at <= k < at + i then ch[k - at] else old(dst[k])
      {
        dst[at + i] := ch[i];
      }
      len := |ch|;
    } else if from == Ascii {
      dst[at] := if ch[0] > 0x7F then QUESTION else ch[0];
      len := 1;
    } else {
      len := 1;
      if ch[0] < 0x80 {
        dst[at] := ch[0];
      } else {
        dst[at] := QUESTION;
        state := Invalid;
      }
    }
  }

  // ----- Characters of a byte stream -----

  /** How a stream of bytes begins; `n` bytes make the character, or show that there is none. */
  datatype Scan = End | Partial | Bad(n: nat) | Char(n: nat)

  function NextChar(enc: Encoding, s: seq<Byte>): (r: Scan)
    ensures r.Char? || r.Bad? ==> 0 < r.n <= |s| && r.n <= MAXCHAR_LEN
  {
    if |s| == 0 then End
    else if enc == Ascii then if s[0] < 0x80 then Char(1) else Bad(1)
    else if CharLength(s[0]) == 0 then Bad(1)
    else Follow(s, 1, CharLength(s[0]))
  }

  function Follow(s: seq<Byte>, i: nat, n: nat): (r: Scan)
    requires i <= |s| && i <= n
    ensures r.Char? ==> r.n == n && n <= |s|
    ensures r.Bad? ==> i < r.n <= n && r.n <= |s|
    decreases n - i
  {
    if i == n then Char(n)
    else if i == |s| then Partial
    else if !Continues(s[i]) then Bad(i + 1)
    else Follow(s, i + 1, n)
  }

  /** A byte that a character of `n` bytes starts with. */
  predicate LeadOf(b: Byte, n: nat) {
    || (n == 1 && b <= 0x7F) || (n == 2 && 0xC0 <= b <= 0xDF) || (n == 3 && 0xE0 <= b <= 0xEF)
    || (n == 4 && 0xF0 <= b <= 0xF7)
  }

  lemma {:induction false} FollowIff(s: seq<Byte>, i: nat, n: nat)
    requires i <= |s| && i <= n
    ensures Follow(s, i, n).Char? <==> n <= |s| && forall j :: i <= j < n ==> 0x80 <= s[j] <= 0xBF
    decreases n - i
  {
    if i < n && i < |s| && Continues(s[i]) {
      FollowIff(s, i + 1, n);
    }
  }

  /** A character is one ASCII byte, or in UTF-8 a lead byte and as many bytes from 0x80 to 0xBF as it asks for. */
  lemma CharacterIff(enc: Encoding, s: seq<Byte>, n: nat)
    ensures NextChar(enc, s) == Char(n) <==>
      && n <= |s|
      && if enc == Ascii then n == 1 && s[0] <= 0x7F
         else 0 < n && LeadOf(s[0], n) && forall j :: 1 <= j < n ==> 0x80 <= s[j] <= 0xBF
  {
    hide Follow;
    if |s| > 0 && enc == Utf8 {
      LeadByteRanges(s[0]);
      if CharLength(s[0]) > 0 {
        FollowIff(s, 1, CharLength(s[0]));
      }
    }
  }

  lemma {:induction false} FollowPartial(s: seq<Byte>, i: nat, n: nat)
    requires i <= |s| && i <= n
    ensures Follow(s, i, n).Partial? <==> |s| < n && forall j :: i <= j < |s| ==> 0x80 <= s[j] <= 0xBF
    ensures !Follow(s, i, n).End?
    decreases n - i
  {
    if i < n && i < |s| && Continues(s[i]) {
      FollowPartial(s, i + 1, n);
    }
  }

  /** A text ends inside its first character when the bytes that its lead byte asks for are missing. */
  lemma PartialIff(enc: Encoding, s: seq<Byte>)
    requires |s| > 0
    ensures !NextChar(enc, s).End?
    ensures NextChar(enc, s).Partial? <==>
      enc == Utf8 && exists n :: |s| < n <= 4 && LeadOf(s[0], n) && forall j :: 1 <= j < |s| ==> 0x80 <= s[j] <= 0xBF
  {
    hide Follow;
    if enc == Utf8 {
      LeadByteRanges(s[0]);
      var n := CharLength(s[0]);
      assert n > 0 ==> LeadOf(s[0], n);
      assert forall k: nat | LeadOf(s[0], k) :: n > 0 && k == n;
      if n > 0 {
        FollowPartial(s, 1, n);
      }
    }
  }

  /** A character stays the same between equal encodings, and so do those of one byte; any other becomes a
      question mark. What comes out is a character of the other encoding. */
  lemma ConvertedCharacter(from: Encoding, to: Encoding, ch: seq<Byte>)
    requires 0 < |ch| <= MAXCHAR_LEN && NextChar(from, ch) == Char(|ch|)
    ensures Convert(from, to, ch) == if from == to || |ch| == 1 then ch else [0x3F]
    ensures NextChar(to, Convert(from, to, ch)) == Char(|Convert(from, to, ch)|)
  {
    hide NextChar;
    CharacterIff(from, ch, |ch|);
    CharacterIff(to, Convert(from, to, ch), |Convert(from, to, ch)|);
    if |ch| > 1 {
      assert 0xC0 <= ch[0];
    }
  }

  /** `p` is the beginning of a character that needs more bytes. */
  predicate Begun(enc: Encoding, p: seq<Byte>) {
    |p| > 0 ==>
      && enc == Utf8 && |p| < CharLength(p[0])
      && forall i :: 0 < i < |p| ==> Continues(p[i])
  }

  lemma {:induction false} FollowFrom(s: seq<Byte>, i: nat, k: nat, n: nat)
    requires i <= k <= |s| && k <= n
    requires forall j :: i <= j < k ==> Continues(s[j])
    ensures Follow(s, i, n) == Follow(s, k, n)
    decreases k - i
  {
    if i < k {
      FollowFrom(s, i + 1, k, n);
    }
  }

  /** One more byte decides a begun character, or leaves it begun. */
  lemma ScanStep(enc: Encoding, p: seq<Byte>, b: Byte, rest: seq<Byte>)
    requires Begun(enc, p)
    ensures var q := p + [b];
            match Built(enc, p, b)
            case Invalid => NextChar(enc, q + rest) == Bad(|q|)
            case Complete => NextChar(enc, q + rest) == Char(|q|)
            case Incomplete => Begun(enc, q) && q != []
  {
    var q := p + [b];
    var s := q + rest;
    if enc == Utf8 && CharLength(s[0]) != 0 {
      assert s[|p|] == b;
      if |p| > 0 {
        assert forall i :: 0 <= i < |p| ==> s[i] == p[i];
        FollowFrom(s, 1, |p|, CharLength(s[0]));
      }
    }
  }

  lemma BegunIsPartial(enc: Encoding, p: seq<Byte>)
    requires Begun(enc, p)
    ensures NextChar(enc, p) == if p == [] then End else Partial
  {
    if p != [] {
      FollowFrom(p, 1, |p|, CharLength(p[0]));
    }
  }

  /** The state of a character after the bytes `p` and one more byte. */
  function Built(enc: Encoding, p: seq<Byte>, b: Byte): CharState
    requires Begun(enc, p)
  {
    if enc == Ascii then if b < 0x80 then Complete else Invalid
    else if |p| == 0 then
      if CharLength(b) == 0 then Invalid else if CharLength(b) == 1 then Complete else Incomplete
    else if !Continues(b) then Invalid
    else if |p| + 1 == CharLength(p[0]) then Complete
    else Incomplete
  }

  /** char_info with a buffer of its own. */
  class CharInfo {
    const chr: array<Byte>
    var length: nat
    var ptr: nat
    var state: CharState

    constructor ()
      ensures fresh(chr) && (forall enc :: Valid(enc)) && Bytes() == []
    {
      chr := new Byte[MAXCHAR_LEN];
      length, ptr, state := 0, 0, Incomplete;
    }

    /** Ready for the next byte of a character. */
    ghost predicate Valid(enc: Encoding)
      reads this, chr
    {
      && chr.Length == MAXCHAR_LEN && ptr <= MAXCHAR_LEN
      && state == Incomplete && Begun(enc, chr[..ptr])
      && (ptr > 0 ==> length == CharLength(chr[0]))
    }

    ghost function Bytes(): seq<Byte>
      requires ptr <= chr.Length
      reads this, chr
    {
      chr[..ptr]
    }

    /** encoding_build_utf8_char and encoding_build_ascii_char. */
    method Build(enc: Encoding, byte: Byte)
      requires Valid(enc)
      modifies this, chr
      ensures state == Built(enc, old(Bytes()), byte)
      ensures state == Incomplete ==> Valid(enc) && Bytes() == old(Bytes()) + [byte]
      ensures state == Complete ==> length <= chr.Length && chr[..length] == old(Bytes()) + [byte]
    {
      if enc == Ascii {
        chr[0] := byte;
        length := 1;
        state := if byte < 0x80 then Complete else Invalid;
      } else if ptr == 0 {
        chr[0] := byte;
        ptr := ptr + 1;
        length := CharLength(byte);
        state := if length == 0 then Invalid else if length == 1 then Complete else Incomplete;
      } else if byte / 0x40 != 2 {
        state := Invalid;
      } else {
        ghost var was := Bytes();
        chr[ptr] := byte;
        ptr := ptr + 1;
        assert chr[..ptr] == was + [byte];
        if length == ptr {
          state := Complete;
        }
      }
    }

    /** A reader starts the next character. */
    method Restart()
      requires chr.Length == MAXCHAR_LEN
      modifies this
      ensures (forall enc :: Valid(enc)) && Bytes() == []
    {
      ptr, state := 0, Incomplete;
    }
  }
}
