/** parser/lexer.c: the number lexer, fed from a sequence of character codes. */
module Lexers {
  import opened Decimals
  import opened Limbs
  import opened NumberText
  import ReservedWords

  datatype CharType = Undefined | UcaseLetter | LcaseLetter | Digit | Special | Other | Eos

  datatype LexemType = NoLexem | Token | NumLiteral | StrLiteral | Identifier | ReservedWord | EndOfText

  const LINE_FEED := 10
  const QUOTE := 39
  const UNDERSCORE := 95
  const UPPER_E := 69
  const MAX_IDENTIFIER := 256
  const MAX_LITERAL := 1024

  /** The largest value to which a digit may still be added in integer mode. */
  const INTEGER_LIMIT := (0x7FFF_FFFF_FFFF_FFFF - 10) / 10

  /** The character table; characters that do not convert to ASCII are `Other`. */
  function TypeOf(c: int): (t: CharType)
    ensures t == Digit <==> IsDigit(c)
    ensures t != Eos && t != Undefined
  {
    if 48 <= c <= 57 then Digit
    else if 65 <= c <= 90 then UcaseLetter
    else if 97 <= c <= 122 then LcaseLetter
    else if c == 9 || c == LINE_FEED || c == 13 || 32 <= c <= 126 then Special
    else Other
  }

  predicate IsSpace(c: int) {
    c == SPACE || c == 9 || c == LINE_FEED || c == 13
  }

  // ----- What a number literal is -----

  /** Length of the digits at the front. */
  function Run(s: Text): (r: nat)
    ensures r <= |s|
  {
    if |s| == 0 || !IsDigit(s[0]) then 0 else 1 + Run(s[1..])
  }

  function SkipZeros(s: Text): (t: Text)
    ensures |t| <= |s|
  {
    if |s| == 0 || s[0] != ZERO then s else SkipZeros(s[1..])
  }

  function SkipSpaces(s: Text): (t: Text)
    ensures |t| <= |s| && (t != [] ==> !IsSpace(t[0]))
  {
    if |s| == 0 || !IsSpace(s[0]) then s else SkipSpaces(s[1..])
  }

  /** A literal: number of digits kept, exponent, digits as a number, and the text after it. */
  datatype Literal = Bad | Literal(n: nat, e: int, v: int, rest: Text)

  /** Digits, and a fraction if a point follows; at most 40 digits after the leading zeros. */
  function Mantissa(s: Text): Literal {
    var t := SkipZeros(s);
    var w := Run(t);
    if w > POSITIONS then Bad
    else if w < |t| && t[w] == POINT then
      var f: int := Run(t[w + 1..]);
      if w + f > POSITIONS then Bad
      else Literal(w + f, -f, Value(t[..w] + t[w + 1..][..f]), t[w + 1..][f..])
    else Literal(w, 0, Value(t[..w]), t[w..])
  }

  /** A signed exponent, and the text after it. */
  datatype Scale = NoScale | Scale(d: int, rest: Text)

  /** A sign, and digits that may be missing. */
  function ScaleAt(s: Text): Scale {
    if |s| == 0 || (s[0] != PLUS && s[0] != MINUS) then NoScale
    else
      var r := s[1..];
      var size := Value(r[..Run(r)]);
      if size > 999 then NoScale else Scale(if s[0] == PLUS then size else -size, r[Run(r)..])
  }

  /** The exponent part, if the letter follows. */
  function Scaled(l: Literal): Literal {
    if l.Bad? || |l.rest| == 0 || (l.rest[0] != LETTER_E && l.rest[0] != UPPER_E) then l
    else match ScaleAt(l.rest[1..])
      case NoScale => Bad
      case Scale(d, rest) =>
        if l.e + d < MIN_EXPONENT || l.e + d > MAX_EXPONENT then Bad else Literal(l.n, l.e + d, l.v, rest)
  }

  /** The literal at the front of a text. */
  function Lexed(s: Text): Literal {
    Scaled(Mantissa(s))
  }

  lemma SkipZerosKeepsDigit(s: Text)
    requires |s| > 0 && IsDigit(s[0]) && s[0] != ZERO
    ensures SkipZeros(s) == s
  {
  }

  // ----- What an identifier and a string literal are -----

  /** Bytes of a character. */
  function CharBytes(c: int): (n: nat)
    ensures 1 <= n <= 4
  {
    if c < 0x80 then 1 else if c < 0x800 then 2 else if c < 0x1_0000 then 3 else 4
  }

  function Size(s: Text): nat {
    if |s| == 0 then 0 else Size(s[..|s| - 1]) + CharBytes(s[|s| - 1])
  }

  predicate IsLetter(c: int) {
    TypeOf(c) == UcaseLetter || TypeOf(c) == LcaseLetter
  }

  predicate InWord(c: int) {
    IsLetter(c) || TypeOf(c) == Digit || TypeOf(c) == Other || c == UNDERSCORE
  }

  /** Length of the identifier at the front. */
  function WordRun(s: Text): (r: nat)
    ensures r <= |s|
  {
    if |s| == 0 || !InWord(s[0]) then 0 else 1 + WordRun(s[1..])
  }

  predicate AllLetters(s: Text) {
    forall i :: 0 <= i < |s| ==> IsLetter(s[i])
  }

  function ToUpper(c: int): int {
    if TypeOf(c) == LcaseLetter then c - 32 else c
  }

  /** The form of an identifier that is compared with the reserved words: none when it is not all letters. */
  function UpperCase(s: Text): Text {
    if AllLetters(s) then seq(|s|, i requires 0 <= i < |s| => ToUpper(s[i])) else []
  }

  /** A quoted text behind its first quote: the text, with two quotes for each quote in it, and what follows. */
  datatype Quoted = Unclosed | Quoted(value: Text, rest: Text)

  function After(c: int, q: Quoted): Quoted {
    if q.Unclosed? then Unclosed else Quoted([c] + q.value, q.rest)
  }

  function Unquoted(s: Text): Quoted {
    if |s| == 0 then Unclosed
    else if s[0] != QUOTE then After(s[0], Unquoted(s[1..]))
    else if |s| > 1 && s[1] == QUOTE then After(QUOTE, Unquoted(s[2..]))
    else Quoted([], s[1..])
  }

  function Doubled(s: Text): Text {
    if |s| == 0 then [] else (if s[0] == QUOTE then [QUOTE, QUOTE] else [s[0]]) + Doubled(s[1..])
  }

  /** Quoting and reading a text gives it back. */
  lemma {:induction false} QuoteAndRead(s: Text, rest: Text)
    requires |rest| > 0 ==> rest[0] != QUOTE
    ensures Unquoted(Doubled(s) + ([QUOTE] + rest)) == Quoted(s, rest)
  {
    hide Unquoted;
    if |s| == 0 {
      assert Doubled(s) + ([QUOTE] + rest) == [QUOTE] + rest;
      ReadEnd(rest);
    } else {
      var u := Doubled(s[1..]) + ([QUOTE] + rest);
      QuoteAndRead(s[1..], rest);
      ReadChar(s[0], u);
      assert Doubled(s) + ([QUOTE] + rest) == (if s[0] == QUOTE then [QUOTE, QUOTE] else [s[0]]) + u;
      assert [s[0]] + s[1..] == s;
    }
  }

  lemma ReadEnd(rest: Text)
    requires |rest| > 0 ==> rest[0] != QUOTE
    ensures Unquoted([QUOTE] + rest) == Quoted([], rest)
  {
    assert ([QUOTE] + rest)[1..] == rest;
  }

  lemma ReadChar(c: int, u: Text)
    ensures Unquoted((if c == QUOTE then [QUOTE, QUOTE] else [c]) + u) == After(c, Unquoted(u))
  {
    if c == QUOTE {
      assert ([QUOTE, QUOTE] + u)[2..] == u;
    } else {
      assert ([c] + u)[1..] == u;
    }
  }

  lemma SizeSnoc(s: Text, c: int)
    ensures Size(s + [c]) == Size(s) + CharBytes(c)
  {
    assert (s + [c])[..|s|] == s;
  }

  lemma {:induction false} SizeConcat(a: Text, b: Text)
    ensures Size(a + b) == Size(a) + Size(b)
  {
    hide CharBytes;
    if |b| == 0 {
      assert a + b == a;
    } else {
      var c := b[..|b| - 1];
      SizeConcat(a, c);
      SizeSnoc(a + c, b[|b| - 1]);
      assert a + b == (a + c) + [b[|b| - 1]];
    }
  }

  // ----- The lexer -----

  class Lexer {
    const input: Text
    var fed: nat
    var chType: CharType
    var ch: int
    var line: nat
    var col: nat
    var numMode: bool
    var lexemType: LexemType
    var token: int
    var integer: nat
    /** The characters of an identifier, and its form in upper case while it can be a reserved word. */
    var identifier: Text
    var ucaseIdentifier: Text
    var reservedWord: nat
    /** The content of a string literal. */
    var literal: Text
    const num: Decimal

    constructor (s: Text)
      ensures input == s && fed == 0 && fresh(num) && fresh(num.m) && num.Valid()
    {
      input, fed, chType, ch, line, col, numMode := s, 0, Undefined, 0, 1, 0, false;
      lexemType, token, integer := NoLexem, 0, 0;
      identifier, ucaseIdentifier, reservedWord, literal := [], [], 0, [];
      num := new Decimal();
    }

    ghost predicate Valid()
      reads this, num, num.m
    {
      && fed <= |input| && num.Valid()
      && chType == (if chType == Eos then Eos else TypeOf(ch))
      && (chType == Eos ==> fed == |input|)
    }

    /** The current character and what follows it. */
    ghost function Ahead(): Text
      requires fed <= |input|
      reads this`fed, this`chType, this`ch
    {
      if chType == Eos then [] else [ch] + input[fed..]
    }

    /** lexer_next_ch. */
    method NextCh()
      requires fed <= |input| && num.Valid() && (chType == Eos ==> fed == |input|)
      modifies this`fed, this`chType, this`ch, this`line, this`col
      ensures Valid() && fed == if old(fed) < |input| then old(fed) + 1 else old(fed)
      ensures Ahead() == input[old(fed)..]
      ensures if Ahead() == [] then line == old(line) && col == old(col)
              else if ch == LINE_FEED then line == old(line) + 1 && col == 0
              else line == old(line) && col == old(col) + 1
    {
      if fed == |input| {
        chType := Eos;
        return;
      }
      ch := input[fed];
      fed := fed + 1;
      chType := TypeOf(ch);
      if ch == LINE_FEED {
        line, col := line + 1, 0;
      } else {
        col := col + 1;
      }
    }

    /** lexer_reset. */
    method Reset()
      requires fed == 0 && num.Valid()
      modifies this
      ensures Valid() && Ahead() == input && !numMode
    {
      chType, line, col, numMode := Undefined, 1, 0, false;
      NextCh();
      assert input[0..] == input;
    }

    /** The loop over leading zeros. */
    method DropZeros()
      requires Valid()
      modifies this`fed, this`chType, this`ch, this`line, this`col
      ensures Valid() && Ahead() == SkipZeros(old(Ahead()))
    {
      while chType == Digit && ch == ZERO
        invariant Valid() && SkipZeros(Ahead()) == SkipZeros(old(Ahead()))
        decreases |Ahead()|
      {
        assert Ahead()[1..] == input[fed..];
        NextCh();
      }
    }

    /** The loop over spaces. */
    method DropSpaces()
      requires Valid()
      modifies this`fed, this`chType, this`ch, this`line, this`col
      ensures Valid() && Ahead() == SkipSpaces(old(Ahead()))
    {
      while chType == Special && IsSpace(ch)
        invariant Valid() && SkipSpaces(Ahead()) == SkipSpaces(old(Ahead()))
        decreases |Ahead()|
      {
        assert Ahead()[1..] == input[fed..];
        NextCh();
      }
    }

    /** The character type tells whether the text ahead starts with a digit. */
    lemma DigitCheck()
      requires Valid()
      ensures chType == Digit <==> |Ahead()| > 0 && IsDigit(Ahead()[0])
      ensures |Ahead()| > 0 ==> Ahead()[0] == ch
    {
    }

    method KeepDigit(m: array<int>, n: nat, ghost got: Text)
      requires Valid() && chType == Digit && m != num.m && n < m.Length && Collected(m[..], n, got)
      modifies this`fed, this`chType, this`ch, this`line, this`col, m
      ensures Valid() && Collected(m[..], n + 1, got + [old(ch)]) && old(Ahead()) == [old(ch)] + Ahead()
    {
      hide Collected;
      ghost var was := m[..];
      CollectedMore(was, n, got, ch);
      m[n] := ch - ZERO;
      assert m[..] == was[n := ch - ZERO];
      NextCh();
    }

    /** Collects a run of digits behind the `n` that are already there; 1 when they do not fit. */
    method ReadDigits(m: array<int>, n: nat, ghost got: Text) returns (rc: int, n': nat, ghost got': Text)
      requires Valid() && m.Length == POSITIONS && m != num.m && Collected(m[..], n, got)
      modifies this`fed, this`chType, this`ch, this`line, this`col, m
      ensures Valid() && (rc == 0 || rc == 1)
      ensures rc == 1 <==> n + Run(old(Ahead())) > POSITIONS
      ensures rc == 0 ==>
        && got' == got + old(Ahead())[..Run(old(Ahead()))] && n' == |got'| && Collected(m[..], n', got')
        && Ahead() == old(Ahead())[Run(old(Ahead()))..]
    {
      hide Collected, Run, AllLimbs, TypeOf, Val;
      ghost var s := Ahead();
      rc, n', got' := 0, n, got;
      CollectedSize(m[..], n, got);
      while chType == Digit
        invariant Valid() && got' + Ahead() == got + s && n' + Run(Ahead()) == n + Run(s)
        invariant n' == |got'| <= POSITIONS && Collected(m[..], n', got')
        decreases Run(Ahead())
      {
        RunStep(Ahead());
        DigitCheck();
        if n' >= POSITIONS {
          return 1, n', got';
        }
        ghost var c := ch;
        KeepDigit(m, n', got');
        RunFront(c, Ahead());
        Shift(got', c, Ahead());
        n', got' := n' + 1, got' + [c];
      }
      RunStep(Ahead());
      DigitCheck();
      Taken(got, s, got', Ahead(), Run(s));
    }

    /** The loop that packs the digits into the limbs of the literal, last digit first. */
    method Pack(m: array<int>, n: nat, ghost text: Text)
      requires num.m.Length == PARTS && m != num.m && n <= POSITIONS && Collected(m[..], n, text)
      requires forall k :: 0 <= k < PARTS ==> num.m[k] == 0
      modifies num.m
      ensures num.Valid() && Val(num.m[..]) == Value(text)
    {
      hide Value, Packed, Pow10;
      var d, i := 1, 0;
      PackedZeros(num.m[..]);
      PowZero();
      assert text[n..] == [];
      while i < n
        invariant 0 <= i <= n && d == Pow10(i % 4) && Packed(num.m[..], i, Value(text[n - i..]))
        invariant m[..] == old(m[..])
      {
        ghost var was, c := num.m[..], text[n - i - 1] - ZERO;
        num.m[i / 4] := num.m[i / 4] + m[n - i - 1] * d;
        assert num.m[..] == was[i / 4 := was[i / 4] + c * d];
        PackStep(was, i, Value(text[n - i..]), c);
        FrontDigit(text, n - i - 1);
        i := i + 1;
        PowTurn(i);
        d := d * 10;
        if d == BASE {
          d := 1;
        }
      }
      assert text[0..] == text;
      PackedValue(num.m[..], i, Value(text[n - i..]));
    }

    /** The digit loop of integer mode. */
    method ReadInteger() returns (rc: int)
      requires Valid()
      modifies this`fed, this`chType, this`ch, this`line, this`col, this`integer
      ensures Valid() && rc == if TooBig(old(Ahead())) then 1 else 0
      ensures rc == 0 ==> integer == Value(old(Ahead())[..Run(old(Ahead()))])
      ensures rc == 0 ==> Ahead() == old(Ahead())[Run(old(Ahead()))..]
    {
      hide Run, AllLimbs, TypeOf, Val, Value, TooBig;
      ghost var s, got := Ahead(), [];
      integer := 0;
      ValueNothing();
      Shorter(s, got, s);
      while chType == Digit
        invariant Valid() && got + Ahead() == s && |got| + Run(Ahead()) == Run(s)
        invariant integer == Value(got) && (|got| == Run(s) ==> !TooBig(s))
        decreases Run(Ahead())
      {
        RunStep(Ahead());
        DigitCheck();
        Shorter(s, got, Ahead());
        if integer > INTEGER_LIMIT {
          return 1;
        }
        ghost var c := ch;
        integer := integer * 10;
        integer := integer + (ch - ZERO);
        NextCh();
        RunFront(c, Ahead());
        Shift(got, c, Ahead());
        ValueSnoc(got, c);
        got := got + [c];
      }
      RunStep(Ahead());
      DigitCheck();
      Taken([], s, got, Ahead(), Run(s));
      assert [] + s == s && [] + s[..Run(s)] == s[..Run(s)];
      return 0;
    }

    /** The digit loop of the exponent. */
    method ReadSize() returns (rc: int, d: nat)
      requires Valid()
      modifies this`fed, this`chType, this`ch, this`line, this`col
      ensures Valid() && rc == if Value(old(Ahead())[..Run(old(Ahead()))]) > 999 then 1 else 0
      ensures rc == 0 ==> d == Value(old(Ahead())[..Run(old(Ahead()))])
      ensures rc == 0 ==> Ahead() == old(Ahead())[Run(old(Ahead()))..]
    {
      hide Run, AllLimbs, TypeOf, Val, Value;
      ghost var s, got := Ahead(), [];
      d := 0;
      ValueNothing();
      while chType == Digit
        invariant Valid() && got + Ahead() == s && |got| + Run(Ahead()) == Run(s)
        invariant d == Value(got) <= 999
        decreases Run(Ahead())
      {
        RunStep(Ahead());
        DigitCheck();
        ghost var c := ch;
        ValueSnoc(got, c);
        Shift(got, c, input[fed..]);
        d := d * 10;
        d := d + (ch - ZERO);
        if d > 999 {
          PrefixValue(s, got + [c], input[fed..]);
          return 1, d;
        }
        NextCh();
        RunFront(c, Ahead());
        got := got + [c];
      }
      RunStep(Ahead());
      DigitCheck();
      Taken([], s, got, Ahead(), Run(s));
      assert [] + s == s && [] + s[..Run(s)] == s[..Run(s)];
      return 0, d;
    }

    /** The sign and the size of the exponent. */
    method ReadScale() returns (rc: int, d: int)
      requires Valid()
      modifies this`fed, this`chType, this`ch, this`line, this`col
      ensures Valid() && rc == if ScaleAt(old(Ahead())).NoScale? then 1 else 0
      ensures rc == 0 ==> ScaleAt(old(Ahead())) == Scale(d, Ahead())
    {
      hide Run, AllLimbs, TypeOf, Val, Value;
      AheadIs();
      var expSign;
      if chType == Special && ch == PLUS {
        expSign := 1;
      } else if chType == Special && ch == MINUS {
        expSign := -1;
      } else {
        return 1, 0;
      }
      NextCh();
      rc, d := ReadSize();
      d := d * expSign;
    }

    /** The exponent part of lexer_next_num_literal. */
    method ReadExponent(ghost l: Literal) returns (rc: int)
      requires Valid() && l.Literal? && num.Abs() == Num(SIGN_POS, l.e, l.n, l.v) && Ahead() == l.rest
      modifies this`fed, this`chType, this`ch, this`line, this`col, num`e
      ensures Valid() && rc == if Scaled(l).Bad? then 1 else 0
      ensures rc == 0 ==> num.Abs() == Num(SIGN_POS, Scaled(l).e, l.n, l.v) && Ahead() == Scaled(l).rest
      ensures rc == 0 ==> Scaled(l).n == l.n && Scaled(l).v == l.v
    {
      hide Run, AllLimbs, TypeOf, Val, Value, ScaleAt;
      AheadIs();
      if !(chType == LcaseLetter && ch == LETTER_E) && !(chType == UcaseLetter && ch == UPPER_E) {
        return 0;
      }
      NextCh();
      var d;
      rc, d := ReadScale();
      if rc != 0 {
        return;
      }
      d := d + num.e;
      if d < MIN_EXPONENT || d > MAX_EXPONENT {
        return 1;
      }
      num.e := d;
    }

    /** What the current character says about the text ahead. */
    lemma AheadIs()
      requires Valid()
      ensures |Ahead()| == 0 <==> chType == Eos
      ensures |Ahead()| > 0 ==> Ahead()[0] == ch && chType == TypeOf(ch) && Ahead()[1..] == input[fed..]
      ensures ch == POINT || ch == PLUS || ch == MINUS ==> TypeOf(ch) == Special
      ensures ch == LETTER_E ==> TypeOf(ch) == LcaseLetter
      ensures ch == UPPER_E ==> TypeOf(ch) == UcaseLetter
    {
    }

    /** lexer_next_num_literal. */
    method NextNumLiteral() returns (rc: int)
      requires Valid()
      modifies this`fed, this`chType, this`ch, this`line, this`col, this`integer, num, num.m
      ensures Valid() && (rc == 0 || rc == 1) && NumberRead(old(Ahead()), rc)
    {
      hide Run, AllLimbs, TypeOf, Val, Value, Scaled, Mantissa, SkipZeros;
      ghost var s := Ahead();
      integer := 0;
      Clear();
      DropZeros();
      if numMode {
        rc := ReadInteger();
        return;
      }
      rc := ReadMantissa(s);
      if rc != 0 {
        ScaledBad();
        return;
      }
      rc := ReadExponent(Mantissa(s));
    }

    /** The character in upper case goes to the candidate for a reserved word, or ends the candidacy. */
    method Record(recording: bool) returns (still: bool)
      requires Valid() && chType != Eos
      modifies this`ucaseIdentifier
      ensures still == (recording && IsLetter(ch))
      ensures still ==> ucaseIdentifier == old(ucaseIdentifier) + [ToUpper(ch)]
      ensures !still ==> ucaseIdentifier == if recording then [] else old(ucaseIdentifier)
    {
      still := recording;
      if recording {
        if chType == UcaseLetter {
          ucaseIdentifier := ucaseIdentifier + [ch];
        } else if chType == LcaseLetter {
          ucaseIdentifier := ucaseIdentifier + [ch - 32];
        } else {
          ucaseIdentifier := [];
          still := false;
        }
      }
    }

    /** The identifier at the front of `t` has been read. */
    ghost predicate WordRead(t: Text, rc: int)
      requires fed <= |input|
      reads this`fed, this`chType, this`ch, this`identifier
    {
      var id := t[..WordRun(t)];
      && rc == (if Size(id) > MAX_IDENTIFIER then 1 else 0)
      && (rc == 0 ==> identifier == id && Ahead() == t[WordRun(t)..])
    }

    /** lexer_next_identifier. */
    method NextIdentifier() returns (rc: int)
      requires Valid() && |Ahead()| > 0 && InWord(Ahead()[0]) && identifier == []
      modifies this`fed, this`chType, this`ch, this`line, this`col, this`identifier, this`ucaseIdentifier
      ensures Valid() && (rc == 0 || rc == 1) && WordRead(old(Ahead()), rc)
      ensures rc == 0 ==> ucaseIdentifier == UpperCase(identifier)
      ensures rc == 0 ==> |identifier| > 0 && identifier[0] == old(Ahead())[0]
    {
      hide AllLimbs, TypeOf, Val, WordRun, Size, InWord, UpperCase, ToUpper, IsLetter, CharBytes, Spelled;
      ghost var s := Ahead();
      WordCheck();
      var recording := chType == LcaseLetter || chType == UcaseLetter;
      var size := 0;
      ucaseIdentifier := [];
      SpelledStart(s);
      while true
        invariant Valid() && |Ahead()| > 0 && InWord(ch)
        invariant Spelled(s, identifier, Ahead(), size, ucaseIdentifier, recording)
        decreases |Ahead()|
      {
        ghost var had, got, c, rest := ucaseIdentifier, identifier, ch, input[fed..];
        SpelledSize(s, got, c, rest, size, had, recording);
        if size + CharBytes(ch) > MAX_IDENTIFIER {
          return 1;
        }
        identifier := identifier + [ch];
        size := size + CharBytes(ch);
        var still := Record(recording);
        SpelledStep(s, got, c, rest, size - CharBytes(ch), had, recording, ucaseIdentifier, still);
        recording := still;
        NextCh();
        WordCheck();
        if !(chType == LcaseLetter || chType == UcaseLetter || chType == Digit || chType == Other
             || (chType == Special && ch == UNDERSCORE)) {
          break;
        }
      }
      SpelledEnd(s, identifier, Ahead(), size, ucaseIdentifier, recording);
      return 0;
    }

    /** What the character type says about letters and identifiers. */
    lemma WordCheck()
      requires Valid()
      ensures |Ahead()| == 0 <==> chType == Eos
      ensures |Ahead()| > 0 ==> Ahead() == [ch] + input[fed..]
      ensures chType == LcaseLetter || chType == UcaseLetter <==> |Ahead()| > 0 && IsLetter(ch)
      ensures (chType == LcaseLetter || chType == UcaseLetter || chType == Digit || chType == Other
               || (chType == Special && ch == UNDERSCORE)) <==> |Ahead()| > 0 && InWord(ch)
    {
    }

    /** lexer_next_str_literal; the current character is the opening quote. */
    method NextStrLiteral() returns (rc: int)
      requires Valid() && chType == Special && ch == QUOTE
      modifies this`fed, this`chType, this`ch, this`line, this`col, this`literal
      ensures Valid() && (rc == 0 || rc == 1) && StringRead(old(Ahead()), rc)
    {
      hide AllLimbs, TypeOf, Val, Size, Unquoted, CharBytes;
      literal := [];
      var size := 0;
      assert Ahead()[1..] == input[fed..];
      ghost var all := Unquoted(input[fed..]);
      AllQuoted(all);
      while true
        invariant fed <= |input| && num.Valid() && (chType == Eos ==> fed == |input|)
        invariant all == Before(literal, Unquoted(input[fed..]))
        invariant size == Size(literal) <= MAX_LITERAL
        decreases |input| - fed
      {
        ghost var s := input[fed..];
        QuoteStep(s);
        NextCh();
        AheadIs();
        if chType == Special && ch == QUOTE {
          assert Ahead()[1..] == s[1..];
          NextCh();
          AheadIs();
          if !(chType == Special && ch == QUOTE) {
            LastQuote(literal, s[1..], all);
            return 0;
          }
        } else if chType == Eos {
          LastUnclosed(literal, all);
          return 1;
        }
        if size + CharBytes(ch) > MAX_LITERAL {
          TooLong(literal, ch, Unquoted(input[fed..]), all);
          return 1;
        }
        OneMore(literal, ch, Unquoted(input[fed..]));
        literal := literal + [ch];
        size := size + CharBytes(ch);
      }
    }

    /** The number literal at the front of `t` has been read. */
    ghost predicate NumberRead(t: Text, rc: int)
      requires fed <= |input|
      reads this, num, num.m
    {
      if !numMode then
        var l := Lexed(t);
        if l.Bad? then rc == 1
        else rc == 0 && num.Abs() == Num(SIGN_POS, l.e, l.n, l.v) && Ahead() == l.rest
      else
        var u := SkipZeros(t);
        && rc == (if TooBig(u) then 1 else 0)
        && (rc == 0 ==> integer == Value(u[..Run(u)]) && Ahead() == u[Run(u)..])
    }

    /** The string literal has been read; `t` starts with its opening quote. */
    ghost predicate StringRead(t: Text, rc: int)
      requires fed <= |input| && |t| > 0
      reads this
    {
      var q := Unquoted(t[1..]);
      && rc == (if q.Unclosed? || Size(q.value) > MAX_LITERAL then 1 else 0)
      && (rc == 0 ==> literal == q.value && Ahead() == q.rest)
    }

    /** An identifier is a reserved word exactly when its upper-case form is in the table. */
    ghost predicate WordTold()
      reads this
    {
      && (lexemType == ReservedWord ==> reservedWord > 0 && ReservedWords.Numbers(UpperCase(identifier), reservedWord))
      && (lexemType != ReservedWord ==> lexemType == Identifier && ReservedWords.Numbers(UpperCase(identifier), 0))
    }

    /** The part of lexer_next for identifiers and reserved words. */
    method NextWord() returns (rc: int)
      requires Valid() && |Ahead()| > 0 && InWord(Ahead()[0]) && identifier == []
      modifies this`fed, this`chType, this`ch, this`line, this`col, this`identifier, this`ucaseIdentifier,
        this`lexemType, this`reservedWord
      ensures Valid() && (rc == 0 || rc == 1) && WordRead(old(Ahead()), rc)
      ensures if rc == 0 then WordTold() else lexemType == Identifier
    {
      hide AllLimbs, TypeOf, Val, WordRead, UpperCase, InWord, IsLetter, ReservedWords.Numbers;
      lexemType := Identifier;
      WordCheck();
      var letter := chType == LcaseLetter || chType == UcaseLetter;
      rc := NextIdentifier();
      if rc != 0 {
        return;
      }
      if letter {
        UpperCaseFirst(identifier);
        var word := ReservedWords.MatchWord(ucaseIdentifier);
        if word > 0 {
          lexemType, reservedWord := ReservedWord, word;
        }
      } else {
        NotReserved(identifier);
      }
    }

    /** lexer_next. */
    method Next() returns (rc: int)
      requires Valid()
      modifies this, num, num.m
      ensures Valid() && (rc == 0 || rc == 1) && numMode == old(numMode)
      ensures var t := SkipSpaces(old(Ahead()));
        if t == [] then rc == 0 && lexemType == EndOfText && Ahead() == []
        else if IsDigit(t[0]) then lexemType == NumLiteral && NumberRead(t, rc)
        else if InWord(t[0]) then WordRead(t, rc) && if rc == 0 then WordTold() else lexemType == Identifier
        else if t[0] == QUOTE then lexemType == StrLiteral && StringRead(t, rc)
        else rc == 0 && lexemType == Token && token == t[0] && Ahead() == t[1..]
    {
      hide Run, AllLimbs, Val, Value, Lexed, SkipZeros, SkipSpaces, WordRead, WordTold, NumberRead, StringRead;
      lexemType := NoLexem;
      identifier := [];
      DropSpaces();
      AheadIs();
      if chType == LcaseLetter || chType == UcaseLetter || chType == Other {
        rc := NextWord();
      } else if chType == Special {
        var c := ch;
        if c == UNDERSCORE {
          rc := NextWord();
        } else if c == QUOTE {
          lexemType := StrLiteral;
          rc := NextStrLiteral();
        } else {
          lexemType := Token;
          token := c;
          NextCh();
          rc := 0;
        }
      } else if chType == Digit {
        lexemType := NumLiteral;
        rc := NextNumLiteral();
      } else {
        lexemType := EndOfText;
        rc := 0;
      }
    }

    /** memset of the literal. */
    method Clear()
      requires Valid()
      modifies num, num.m
      ensures Valid() && num.sign == SIGN_POS && num.e == 0 && num.n == 0
      ensures forall k :: 0 <= k < PARTS ==> num.m[k] == 0
    {
      num.sign, num.e, num.n := SIGN_POS, 0, 0;
      forall k | 0 <= k < num.m.Length {
        num.m[k] := 0;
      }
    }

    /** Digits and fraction, packed into the literal. */
    method ReadMantissa(ghost s: Text) returns (rc: int)
      requires Valid() && Ahead() == SkipZeros(s) && num.sign == SIGN_POS
      requires forall k :: 0 <= k < PARTS ==> num.m[k] == 0
      modifies this`fed, this`chType, this`ch, this`line, this`col, num, num.m
      ensures Valid() && rc == if Mantissa(s).Bad? then 1 else 0
      ensures rc == 0 ==>
        var l := Mantissa(s);
        num.Abs() == Num(SIGN_POS, l.e, l.n, l.v) && Ahead() == l.rest
    {
      hide Run, AllLimbs, TypeOf, Val, Value, Mantissa, Collected;
      var m := new int[POSITIONS];
      var n: nat, e: int;
      ghost var got;
      rc, n, e, got := CollectDigits(m, s);
      if rc != 0 {
        return;
      }
      num.e := 0 - e;
      num.n := n;
      Pack(m, n, got);
    }

    /** The two digit loops with the point between them. */
    method CollectDigits(m: array<int>, ghost s: Text) returns (rc: int, n: nat, e: nat, ghost got: Text)
      requires Valid() && m.Length == POSITIONS && m != num.m && Ahead() == SkipZeros(s)
      modifies this`fed, this`chType, this`ch, this`line, this`col, m
      ensures Valid() && rc == if Mantissa(s).Bad? then 1 else 0
      ensures rc == 0 ==>
        var l := Mantissa(s);
        && Collected(m[..], n, got) && n == l.n <= POSITIONS && l.e == 0 - e && l.v == Value(got) && Ahead() == l.rest
    {
      hide Run, AllLimbs, TypeOf, Val, Value, Mantissa, Collected;
      ghost var t := Ahead();
      MantissaCases(s, t);
      e := 0;
      CollectedNothing(m[..]);
      rc, n, got := ReadDigits(m, 0, []);
      if rc != 0 {
        return;
      }
      assert [] + t[..Run(t)] == t[..Run(t)];
      AheadIs();
      if chType == Special && ch == POINT {
        assert Ahead()[1..] == t[Run(t) + 1..];
        NextCh();
        var whole := n;
        rc, n, got := ReadDigits(m, n, got);
        if rc != 0 {
          return;
        }
        e := n - whole;
      }
    }
  }

  /** A text is quoted and lexed: it comes back exactly when it is not longer than a literal can be. */
  method QuoteAndLex(s: Text, rest: Text) returns (rc: int, lexer: Lexer)
    requires |rest| > 0 ==> rest[0] != QUOTE
    ensures lexer.Valid() && lexer.lexemType == StrLiteral && rc == if Size(s) > 1024 then 1 else 0
    ensures rc == 0 ==> lexer.literal == s && lexer.Ahead() == rest
  {
    hide Doubled, Unquoted, Size;
    var text := [QUOTE] + (Doubled(s) + ([QUOTE] + rest));
    QuoteAndRead(s, rest);
    QuoteStarts(text);
    assert text[1..] == Doubled(s) + ([QUOTE] + rest);
    lexer := new Lexer(text);
    lexer.Reset();
    rc := lexer.Next();
  }

  lemma QuoteStarts(t: Text)
    requires |t| > 0 && t[0] == QUOTE
    ensures SkipSpaces(t) == t && !IsDigit(QUOTE) && !InWord(QUOTE)
  {
  }

  // ----- Identifiers -----

  /** `upper` is the upper-case form of the letters `got` while they can be a reserved word. */
  ghost predicate Candidate(s: Text, got: Text, upper: Text, recording: bool) {
    && |s| > 0 && (|got| > 0 ==> got[0] == s[0])
    && (recording <==> IsLetter(s[0]) && AllLetters(got))
    && upper == if recording then UpperCase(got) else []
  }

  lemma UpperSnoc(got: Text, c: int)
    requires AllLetters(got) && IsLetter(c)
    ensures AllLetters(got + [c]) && UpperCase(got + [c]) == UpperCase(got) + [ToUpper(c)]
  {
    hide IsLetter, ToUpper;
  }

  lemma CandidateStep(s: Text, got: Text, c: int, rest: Text, upper: Text, recording: bool, upper': Text, still: bool)
    requires Candidate(s, got, upper, recording) && got + ([c] + rest) == s
    requires still == (recording && IsLetter(c))
    requires still ==> upper' == upper + [ToUpper(c)]
    requires !still ==> upper' == if recording then [] else upper
    ensures Candidate(s, got + [c], upper', still)
  {
    hide IsLetter, ToUpper, UpperCase;
    assert (got + ([c] + rest))[|got|] == c;
    assert (got + [c])[|got|] == c;
    assert forall i :: 0 <= i < |got| ==> (got + [c])[i] == got[i];
    if still {
      UpperSnoc(got, c);
    }
  }

  /** The loop state: `got` has been read, with `size` bytes. */
  ghost predicate Spelled(s: Text, got: Text, rest: Text, size: int, upper: Text, recording: bool) {
    && got + rest == s && |got| + WordRun(rest) == WordRun(s)
    && size == Size(got) <= MAX_IDENTIFIER && Candidate(s, got, upper, recording)
  }

  lemma SpelledStart(s: Text)
    requires |s| > 0 && InWord(s[0])
    ensures Spelled(s, [], s, 0, [], IsLetter(s[0]))
  {
    hide InWord, WordRun, IsLetter;
    assert [] + s == s;
  }

  lemma WordFront(s: Text, got: Text, c: int, rest: Text)
    requires got + ([c] + rest) == s && InWord(c) && |got| + WordRun([c] + rest) == WordRun(s)
    ensures |got| + 1 + WordRun(rest) == WordRun(s) && (got + [c]) + rest == s
    ensures var id := s[..WordRun(s)];
            |got| < |id| && id == (got + [c]) + id[|got| + 1..]
  {
    hide InWord;
    assert ([c] + rest)[1..] == rest;
    assert got + [c] == s[..|got| + 1];
  }

  lemma SpelledSize(s: Text, got: Text, c: int, rest: Text, size: int, upper: Text, recording: bool)
    requires Spelled(s, got, [c] + rest, size, upper, recording) && InWord(c)
    ensures size + CharBytes(c) <= Size(s[..WordRun(s)])
  {
    hide InWord, WordRun, Size, CharBytes, Candidate;
    WordFront(s, got, c, rest);
    SizeSnoc(got, c);
    SizeConcat(got + [c], s[..WordRun(s)][|got| + 1..]);
  }

  lemma SpelledStep(s: Text, got: Text, c: int, rest: Text, size: int, upper: Text, recording: bool,
                    upper': Text, still: bool)
    requires Spelled(s, got, [c] + rest, size, upper, recording) && InWord(c)
    requires size + CharBytes(c) <= MAX_IDENTIFIER && still == (recording && IsLetter(c))
    requires still ==> upper' == upper + [ToUpper(c)]
    requires !still ==> upper' == if recording then [] else upper
    ensures Spelled(s, got + [c], rest, size + CharBytes(c), upper', still)
  {
    hide InWord, WordRun, Size, CharBytes, IsLetter, ToUpper, Candidate;
    WordFront(s, got, c, rest);
    SizeSnoc(got, c);
    CandidateStep(s, got, c, rest, upper, recording, upper', still);
  }

  lemma SpelledEnd(s: Text, got: Text, rest: Text, size: int, upper: Text, recording: bool)
    requires Spelled(s, got, rest, size, upper, recording) && (|rest| > 0 ==> !InWord(rest[0])) && |got| > 0
    ensures got == s[..WordRun(s)] && rest == s[WordRun(s)..] && Size(got) <= MAX_IDENTIFIER
    ensures upper == UpperCase(got)
  {
    hide InWord, Size, IsLetter;
    assert WordRun(rest) == 0;
    assert (got + rest)[..|got|] == got && (got + rest)[|got|..] == rest;
  }

  lemma UpperCaseFirst(s: Text)
    ensures var u := UpperCase(s);
            |u| > 0 ==> ReservedWords.LETTER_A <= u[0] < ReservedWords.LETTER_A + ReservedWords.LETTERS
  {
  }

  lemma NotReserved(id: Text)
    requires |id| > 0 && !IsLetter(id[0])
    ensures ReservedWords.Numbers(UpperCase(id), 0)
  {
    hide ReservedWords.Numbers, IsLetter;
    ReservedWords.NoWordIsEmpty();
  }

  // ----- String literals -----

  /** A quoted text that continues `front`. */
  function Before(front: Text, q: Quoted): Quoted {
    if q.Unclosed? then Unclosed else Quoted(front + q.value, q.rest)
  }

  lemma AllQuoted(q: Quoted)
    ensures Before([], q) == q && Size([]) == 0
  {
    if q.Quoted? {
      assert [] + q.value == q.value;
    }
  }

  lemma QuoteStep(s: Text)
    ensures |s| == 0 ==> Unquoted(s) == Unclosed
    ensures |s| > 0 && s[0] != QUOTE ==> Unquoted(s) == After(s[0], Unquoted(s[1..]))
    ensures |s| > 0 && s[0] == QUOTE ==>
      Unquoted(s) == if |s| > 1 && s[1] == QUOTE then After(QUOTE, Unquoted(s[1..][1..])) else Quoted([], s[1..])
  {
    if |s| > 1 {
      assert s[1..][1..] == s[2..];
    }
  }

  lemma OneMore(front: Text, c: int, q: Quoted)
    ensures Before(front, After(c, q)) == Before(front + [c], q)
    ensures Size(front + [c]) == Size(front) + CharBytes(c)
  {
    SizeSnoc(front, c);
    if q.Quoted? {
      assert front + ([c] + q.value) == (front + [c]) + q.value;
    }
  }

  lemma LastQuote(front: Text, rest: Text, all: Quoted)
    requires all == Before(front, Quoted([], rest))
    ensures all == Quoted(front, rest)
  {
    assert front + [] == front;
  }

  lemma LastUnclosed(front: Text, all: Quoted)
    requires all == Before(front, Unclosed)
    ensures all.Unclosed?
  {
  }

  lemma TooLong(front: Text, c: int, q: Quoted, all: Quoted)
    requires all == Before(front, After(c, q)) && Size(front) + CharBytes(c) > MAX_LITERAL
    ensures all.Quoted? ==> Size(all.value) > MAX_LITERAL
  {
    hide CharBytes, Size;
    OneMore(front, c, q);
    if q.Quoted? {
      SizeConcat(front + [c], q.value);
    }
  }

  lemma CollectedNothing(m: seq<int>)
    ensures Collected(m, 0, [])
  {
  }

  lemma ScaledBad()
    ensures Scaled(Bad) == Bad
  {
  }

  lemma MantissaCases(s: Text, t: Text)
    requires t == SkipZeros(s)
    ensures var w := Run(t);
      if w > POSITIONS then Mantissa(s) == Bad
      else if w < |t| && t[w] == POINT then
        var u := t[w + 1..];
        Mantissa(s) == if w + Run(u) > POSITIONS then Bad
                       else Literal(w + Run(u), 0 - Run(u), Value(t[..w] + u[..Run(u)]), u[Run(u)..])
      else Mantissa(s) == Literal(w, 0, Value(t[..w]), t[w..])
  {
    hide Run, Value;
  }

  /** The value of a run is at least that of its beginnings. */
  lemma PrefixValue(s: Text, got: Text, rest: Text)
    requires got + rest == s && |got| <= Run(s)
    ensures Value(got) <= Value(s[..Run(s)])
  {
    RunDigits(s);
    assert got == s[..Run(s)][..|got|];
    ValuePrefix(s[..Run(s)], |got|);
  }

  /** In integer mode a literal is refused when there is another digit behind a value over the limit. */
  predicate TooBig(s: Text) {
    Run(s) > 0 && Value(s[..Run(s) - 1]) > INTEGER_LIMIT
  }

  lemma ValueNothing()
    ensures Value([]) == 0
  {
  }

  lemma ValueSnoc(s: Text, c: int)
    ensures Value(s + [c]) == 10 * Value(s) + (c - ZERO)
  {
    assert (s + [c])[..|s|] == s;
  }

  /** What a beginning of a run says about the limit. */
  lemma Shorter(s: Text, got: Text, rest: Text)
    requires got + rest == s && |got| <= Run(s)
    ensures |got| < Run(s) && Value(got) > INTEGER_LIMIT ==> TooBig(s)
    ensures |got| + 1 == Run(s) && Value(got) <= INTEGER_LIMIT ==> !TooBig(s)
    ensures Run(s) == 0 ==> !TooBig(s)
  {
    RunDigits(s);
    if |got| < Run(s) {
      var front := s[..Run(s) - 1];
      assert got == front[..|got|];
      ValuePrefix(front, |got|);
    }
  }

  lemma {:induction false} RunDigits(s: Text)
    ensures AllDigits(s[..Run(s)])
  {
    if Run(s) > 0 {
      RunDigits(s[1..]);
      assert s[..Run(s)] == [s[0]] + s[1..][..Run(s[1..])];
    }
  }

  /** The array holds the digits of the text. */
  ghost predicate Collected(m: seq<int>, n: nat, text: Text) {
    n == |text| <= |m| && AllDigits(text) && forall i :: 0 <= i < n ==> m[i] == text[i] - ZERO
  }

  lemma CollectedSize(m: seq<int>, n: nat, text: Text)
    requires Collected(m, n, text)
    ensures n == |text| <= |m|
  {
  }

  lemma CollectedMore(m: seq<int>, n: nat, text: Text, c: int)
    requires Collected(m, n, text) && n < |m| && IsDigit(c)
    ensures Collected(m[n := c - ZERO], n + 1, text + [c])
  {
  }

  lemma RunStep(s: Text)
    ensures Run(s) > 0 <==> |s| > 0 && IsDigit(s[0])
  {
  }

  lemma RunFront(c: int, s: Text)
    ensures IsDigit(c) ==> Run([c] + s) == 1 + Run(s)
    ensures !IsDigit(c) ==> Run([c] + s) == 0
  {
    assert ([c] + s)[1..] == s;
  }

  lemma Shift(got: Text, c: int, s: Text)
    ensures got + ([c] + s) == (got + [c]) + s
  {
  }

  lemma Taken(got: Text, s: Text, got': Text, rest: Text, k: nat)
    requires got' + rest == got + s && |got'| == |got| + k && k <= |s|
    ensures got' == got + s[..k] && rest == s[k..]
  {
    assert got' == (got + s)[..|got'|] && rest == (got + s)[|got'|..];
  }

  /** The first `i` digits are packed, with value `v`; the places above are zero. */
  ghost predicate Packed(limbs: seq<int>, i: nat, v: int) {
    && |limbs| == PARTS && AllLimbs(limbs) && Val(limbs) == v
    && (forall k :: 0 <= k < PARTS && 4 * k >= i ==> limbs[k] == 0)
    && (i < POSITIONS ==> limbs[i / 4] < Pow10(i % 4))
  }

  lemma PackedZeros(limbs: seq<int>)
    requires |limbs| == PARTS && forall k :: 0 <= k < PARTS ==> limbs[k] == 0
    ensures Packed(limbs, 0, Value([]))
  {
    ValZeros(limbs);
  }

  lemma PackedValue(limbs: seq<int>, i: nat, v: int)
    requires Packed(limbs, i, v)
    ensures |limbs| == PARTS && AllLimbs(limbs) && Val(limbs) == v
  {
  }

  lemma PackStep(limbs: seq<int>, i: nat, v: int, c: int)
    requires Packed(limbs, i, v) && i < POSITIONS && 0 <= c < 10
    ensures Packed(limbs[i / 4 := limbs[i / 4] + c * Pow10(i % 4)], i + 1, v + c * Pow10(i))
  {
    hide Pow10, Val;
    var j, r := i / 4, i % 4;
    var x := c * Pow10(r);
    NewLimb(limbs[j], c, r);
    ValUpdate(limbs, j, limbs[j] + x);
    PowAdd(r, 4 * j);
    NewWeight(Pow10(4 * j), c, Pow10(r));
  }

  lemma NewWeight(p: int, c: int, q: int)
    ensures p * (c * q) == c * (q * p)
  {
  }

  lemma NewLimb(limb: int, c: int, r: nat)
    requires 0 <= limb < Pow10(r) && r < 4 && 0 <= c < 10
    ensures 0 <= limb + c * Pow10(r) < Pow10(r + 1) <= BASE && Pow10(0) == 1
  {
    SmallPowers();
    PowMono(r + 1, 4);
    MulLe(Pow10(r), c, 9);
    MulNonNeg(c, Pow10(r));
  }

  lemma PowTurn(i: nat)
    requires i > 0
    ensures Pow10(i % 4) == if Pow10((i - 1) % 4) * 10 == BASE then 1 else Pow10((i - 1) % 4) * 10
  {
    SmallPowers();
    hide Pow10;
    assert (i - 1) % 4 == 3 ==> i % 4 == 0;
    assert (i - 1) % 4 != 3 ==> i % 4 == (i - 1) % 4 + 1;
  }

  /** A digit in front adds its weight. */
  lemma FrontDigit(text: Text, k: nat)
    requires k < |text|
    ensures Value(text[k..]) == Value(text[k + 1..]) + (text[k] - ZERO) * Pow10(|text| - k - 1)
  {
    assert text[k..] == [text[k]] + text[k + 1..];
    assert Value([text[k]]) == 10 * Value([]) + (text[k] - ZERO);
    hide Pow10, Value;
    ValueConcat([text[k]], text[k + 1..]);
  }

  // ----- Literals and normal form -----

  /** The first digit that a literal keeps. */
  function FirstKept(s: Text): int {
    var t := SkipZeros(s);
    if Run(t) > 0 then t[0]
    else if |t| > 1 && t[0] == POINT then t[1]
    else ZERO
  }

  /** Zeros right after the point are kept and counted: a literal that keeps digits has the digit count
      of its value exactly when the first one kept is not zero. */
  lemma LiteralNormalIff(s: Text)
    requires Mantissa(s).Literal? && Mantissa(s).n > 0
    ensures Mantissa(s).v >= 0
    ensures Mantissa(s).n == Digits(Mantissa(s).v) <==> FirstKept(s) != ZERO
  {
    var t := SkipZeros(s);
    var w := Run(t);
    MantissaCases(s, t);
    RunDigits(t);
    RunStep(t);
    if w < |t| && t[w] == POINT {
      var u := t[w + 1..];
      RunDigits(u);
      RunStep(u);
      FirstDigitCounts(t[..w] + u[..Run(u)]);
    } else {
      FirstDigitCounts(t[..w]);
    }
  }

  /** The literal 0.05 has the digit count 2 and the value 5, which has one digit. */
  lemma LiteralNormalFails()
    ensures Mantissa([ZERO, POINT, ZERO, 53]) == Literal(2, 0 - 2, 5, [])
    ensures Digits(5) == 1 && !Normalized(Num(SIGN_POS, 0 - 2, 2, 5))
  {
    var s: Text := [ZERO, POINT, ZERO, 53];
    var t: Text, u: Text := [POINT, ZERO, 53], [ZERO, 53];
    assert s[1..] == t && t[1..] == u;
    assert SkipZeros(s) == SkipZeros(t) == t;
    assert Run(t) == 0;
    TwoDigits(ZERO, 53);
    assert t[..0] + u[..2] == u && u[2..] == [];
    MantissaCases(s, t);
    assert Digits(5) == 1 + Digits(0);
  }

  lemma TwoDigits(a: int, b: int)
    requires IsDigit(a) && IsDigit(b)
    ensures Run([a, b]) == 2 && Value([a, b]) == 10 * (a - ZERO) + (b - ZERO)
  {
    assert [a, b][1..] == [b] && [b][1..] == [];
    assert Run([b]) == 1 + Run([]);
    assert [a, b][..1] == [a] && [a][..0] == [];
    assert Value([a]) == 10 * Value([]) + (a - ZERO);
  }

  lemma FirstDigitCounts(text: Text)
    requires |text| > 0 && AllDigits(text)
    ensures Value(text) >= 0
    ensures |text| == Digits(Value(text)) <==> text[0] != ZERO
  {
    hide Pow10, Value, Digits;
    var n := |text| - 1;
    FrontDigit(text, 0);
    assert text[0..] == text;
    ValueBounds(text[1..]);
    ValueBounds(text);
    var v := Value(text);
    if text[0] == ZERO {
      DigitsLe(v, n);
    } else {
      MulLe(Pow10(n), 1, text[0] - ZERO);
      DigitsUnique(v, n + 1);
    }
  }
}
