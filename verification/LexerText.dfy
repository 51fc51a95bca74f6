/** parser/lexer.c: what the lexer takes for words, tokens, numbers and literals, in the characters themselves. */
module LexedTexts {
  import opened Decimals
  import opened Lexers
  import opened Limbs
  import opened NumberText
  import opened PrintLex
  import ReservedWords

  // ----- Characters -----

  /** The characters that no word has in it: tab, line feed, carriage return, and the printing ones from the
      space to the tilde but for letters, digits and the underscore. */
  predicate EndsWord(c: int) {
    || c == 9 || c == 10 || c == 13 || 32 <= c <= 47 || 58 <= c <= 64 || 91 <= c <= 94 || c == 96 || 123 <= c <= 126
  }

  lemma WordCharacters(c: int)
    ensures InWord(c) <==> !EndsWord(c)
    ensures IsLetter(c) <==> 65 <= c <= 90 || 97 <= c <= 122
    ensures IsSpace(c) <==> c == 9 || c == 10 || c == 13 || c == 32
    ensures ToUpper(c) == if 97 <= c <= 122 then c - 32 else c
  {
  }

  /** A word goes on as far as its characters do. */
  lemma {:induction false} WordEnds(word: Text, rest: Text)
    requires forall j :: 0 <= j < |word| ==> InWord(word[j])
    requires |rest| > 0 ==> !InWord(rest[0])
    ensures WordRun(word + rest) == |word|
  {
    hide InWord;
    if |word| == 0 {
      assert word + rest == rest;
    } else {
      WordEnds(word[1..], rest);
      assert (word + rest)[1..] == word[1..] + rest;
    }
  }

  /** A character that ends words is a lexem of its own, unless it is a space or a quote. */
  method LexToken(c: int, rest: Text) returns (rc: int, lexer: Lexer)
    requires EndsWord(c) && c !in {9, 10, 13, 32, 39}
    ensures lexer.Valid() && rc == 0 && lexer.lexemType == Token && lexer.token == c && lexer.Ahead() == rest
  {
    hide Run, Lexed, SkipZeros;
    WordCharacters(c);
    assert ([c] + rest)[1..] == rest;
    lexer := new Lexer([c] + rest);
    lexer.Reset();
    rc := lexer.Next();
  }

  // ----- Words -----

  /** The letters of `s`, those in lower case replaced by their capitals, spell the word. */
  ghost predicate Spells(s: Text, word: Text) {
    && |s| == |word|
    && forall j :: 0 <= j < |s| ==> (65 <= s[j] <= 90 && word[j] == s[j]) || (97 <= s[j] <= 122 && word[j] == s[j] - 32)
  }

  lemma UpperCaseSpells(s: Text, word: Text)
    requires |word| > 0
    ensures UpperCase(s) == word <==> Spells(s, word)
  {
    hide IsLetter, ToUpper;
    if Spells(s, word) {
      forall j | 0 <= j < |s|
        ensures IsLetter(s[j]) && ToUpper(s[j]) == word[j]
      {
        WordCharacters(s[j]);
      }
    } else if UpperCase(s) == word {
      forall j | 0 <= j < |s|
        ensures (65 <= s[j] <= 90 && word[j] == s[j]) || (97 <= s[j] <= 122 && word[j] == s[j] - 32)
      {
        WordCharacters(s[j]);
        assert UpperCase(s)[j] == ToUpper(s[j]);
      }
    }
  }

  /** What a word is told to be. */
  ghost predicate Told(word: Text, lexemType: LexemType, number: nat) {
    if lexemType == ReservedWord then 0 < number < ReservedWords.TOP && Spells(word, ReservedWords.Word(number))
    else lexemType == Identifier && forall i: nat | 0 < i < ReservedWords.TOP :: !Spells(word, ReservedWords.Word(i))
  }

  lemma TellWord(word: Text, lexemType: LexemType, number: nat)
    requires if lexemType == ReservedWord then number > 0 && ReservedWords.Numbers(UpperCase(word), number)
             else lexemType == Identifier && ReservedWords.Numbers(UpperCase(word), 0)
    ensures Told(word, lexemType, number)
  {
    hide UpperCase, Spells, ReservedWords.Word;
    forall i: nat | 0 < i < ReservedWords.TOP
      ensures UpperCase(word) == ReservedWords.Word(i) <==> Spells(word, ReservedWords.Word(i))
    {
      ReservedWords.FirstLetterIs(i);
      UpperCaseSpells(word, ReservedWords.Word(i));
    }
  }

  /** A word of at most 256 bytes is read to its end, and is reserved exactly when it spells a word of the
      table, in letters of either case. */
  method LexWord(word: Text, rest: Text) returns (rc: int, lexer: Lexer)
    requires |word| > 0 && !IsDigit(word[0]) && forall j :: 0 <= j < |word| ==> !EndsWord(word[j])
    requires |rest| > 0 ==> EndsWord(rest[0])
    ensures lexer.Valid() && rc == if Size(word) <= 256 then 0 else 1
    ensures rc == 0 ==>
      lexer.identifier == word && lexer.Ahead() == rest && Told(word, lexer.lexemType, lexer.reservedWord)
  {
    hide Run, Lexed, SkipZeros, Size, InWord, EndsWord, WordRun, Told, UpperCase, ReservedWords.Numbers;
    ghost var s := word + rest;
    WordFront(word, rest);
    lexer := new Lexer(word + rest);
    lexer.Reset();
    rc := lexer.Next();
    if rc == 0 {
      TellWord(word, lexer.lexemType, lexer.reservedWord);
    }
  }

  lemma WordFront(word: Text, rest: Text)
    requires |word| > 0 && forall j :: 0 <= j < |word| ==> !EndsWord(word[j])
    requires |rest| > 0 ==> EndsWord(rest[0])
    ensures var s := word + rest;
      SkipSpaces(s) == s && InWord(s[0]) && WordRun(s) == |word| && s[..|word|] == word && s[|word|..] == rest
  {
    hide WordRun, InWord;
    forall j | 0 <= j < |word|
      ensures InWord(word[j])
    {
      WordCharacters(word[j]);
    }
    if |rest| > 0 {
      WordCharacters(rest[0]);
    }
    WordEnds(word, rest);
    assert (word + rest)[0] == word[0];
  }

  /** A text of ASCII characters has as many bytes as characters. */
  lemma {:induction false} AsciiSize(s: Text)
    requires forall j :: 0 <= j < |s| ==> s[j] < 128
    ensures Size(s) == |s|
  {
    if |s| > 0 {
      AsciiSize(s[..|s| - 1]);
    }
  }

  /** A character takes as many bytes as UTF-8 needs for its code: one for 7 bits, two for 11, three for 16,
      and four for 21. */
  lemma BytesNeeded(c: int)
    ensures CharBytes(c) <= 1 <==> c < 128
    ensures CharBytes(c) <= 2 <==> c < 32 * 64
    ensures CharBytes(c) <= 3 <==> c < 16 * 64 * 64
    ensures 1 <= CharBytes(c) <= 4
  {
  }

  // ----- Spaces and zeros -----

  /** Spaces before a lexem are skipped. */
  lemma {:induction false} SpacesSkipped(spaces: Text, s: Text)
    requires forall j :: 0 <= j < |spaces| ==> spaces[j] in {9, 10, 13, 32}
    requires |s| > 0 ==> s[0] !in {9, 10, 13, 32}
    ensures SkipSpaces(spaces + s) == s
  {
    if |spaces| == 0 {
      assert spaces + s == s;
    } else {
      SpacesSkipped(spaces[1..], s);
      assert (spaces + s)[1..] == spaces[1..] + s;
    }
  }

  /** Zeros before a number are skipped. */
  lemma {:induction false} ZerosSkipped(k: nat, s: Text)
    requires |s| > 0 ==> s[0] != 48
    ensures SkipZeros(ZeroDigits(k) + s) == s
  {
    if k == 0 {
      assert ZeroDigits(k) + s == s;
    } else {
      ZerosSkipped(k - 1, s);
      assert (ZeroDigits(k) + s)[1..] == ZeroDigits(k - 1) + s;
    }
  }

  // ----- Quoted texts -----

  /** What is read behind an opening quote is a text with its quotes doubled, and a quote that no other
      quote follows. */
  lemma {:induction false} ReadIsQuoted(s: Text)
    requires Unquoted(s).Quoted?
    ensures var q := Unquoted(s);
      s == Doubled(q.value) + [39] + q.rest && (q.rest != [] ==> q.rest[0] != 39)
    decreases |s|
  {
    hide Doubled;
    var q := Unquoted(s);
    if s[0] != 39 {
      ReadIsQuoted(s[1..]);
      DoubledFront(s[0], q.value[1..]);
      Reassembled(s, [s[0]], Doubled(q.value[1..]), q.rest);
    } else if |s| > 1 && s[1] == 39 {
      ReadIsQuoted(s[2..]);
      DoubledFront(39, q.value[1..]);
      Reassembled(s, [39, 39], Doubled(q.value[1..]), q.rest);
    } else {
      DoubledNothing();
      assert s == [39] + s[1..];
    }
  }

  lemma DoubledNothing()
    ensures Doubled([]) == []
  {
  }

  lemma DoubledFront(c: int, s: Text)
    ensures Doubled([c] + s) == (if c == 39 then [39, 39] else [c]) + Doubled(s)
  {
    assert ([c] + s)[1..] == s;
  }

  lemma Reassembled(s: Text, front: Text, d: Text, rest: Text)
    requires |front| <= |s| && s[..|front|] == front && s[|front|..] == d + [39] + rest
    ensures s == (front + d) + [39] + rest
  {
    assert s == s[..|front|] + s[|front|..];
  }

  // ----- Numbers -----

  /** The integers refused are those above 9223372036854775799: the eight largest that 63 bits hold are too. */
  lemma IntegerRange(s: Text)
    ensures TooBig(s) <==> Value(s[..Run(s)]) > 9223372036854775799
  {
    hide Run;
    RunDigits(s);
    var digits := s[..Run(s)];
    if Run(s) > 0 {
      assert digits[..|digits| - 1] == s[..Run(s) - 1];
      assert IsDigit(digits[|digits| - 1]);
      OneDigitMore(Value(s[..Run(s) - 1]), digits[|digits| - 1] - ZERO);
    }
  }

  lemma OneDigitMore(v: int, d: int)
    requires 0 <= d < 10
    ensures v > INTEGER_LIMIT <==> 10 * v + d > 9223372036854775799
  {
  }

  /** The exponent part: a letter e in either case, a sign, and any number of digits of value up to 999, as
      long as the exponent of the literal stays within -128 and 127. */
  lemma ExponentLexes(l: Literal, letter: int, sign: int, digits: Text, rest: Text)
    requires l.Literal? && l.rest == [letter, sign] + digits + rest && AllDigits(digits) && NoDigit(rest)
    requires (letter == 69 || letter == 101) && (sign == 43 || sign == 45)
    ensures var e := if sign == 43 then l.e + Value(digits) else l.e - Value(digits);
      Scaled(l) == if Value(digits) <= 999 && -128 <= e <= 127 then Literal(l.n, e, l.v, rest) else Bad
  {
    hide Value, Run;
    assert l.rest[1..] == [sign] + (digits + rest) && ([sign] + (digits + rest))[1..] == digits + rest;
    RunOf(digits, rest);
    TakeDrop(digits, rest);
  }

  /** The letter e must be followed by a sign. */
  lemma ExponentNeedsSign(l: Literal)
    requires l.Literal? && |l.rest| > 0 && l.rest[0] in {69, 101}
    requires |l.rest| == 1 || l.rest[1] !in {43, 45}
    ensures Scaled(l) == Bad
  {
  }

  /** The whole of a literal with an exponent, behind its leading zeros. */
  lemma LexScaled(s: Text, a: Text, b: Text, m: nat, letter: int, sign: int, digits: Text, rest: Text)
    requires AllDigits(a) && AllDigits(b) && |b| == m && AllDigits(digits) && NoDigit(rest)
    requires (letter == 69 || letter == 101) && (sign == 43 || sign == 45)
    requires SkipZeros(s) == Fixed(a, b, m) + ([letter, sign] + digits + rest)
    ensures var e := if sign == 43 then Value(digits) - m else -Value(digits) - m;
      Lexed(s) == if |a| + m <= 40 && Value(digits) <= 999 && -128 <= e <= 127
                  then Literal(|a| + m, e, Value(a + b), rest) else Bad
  {
    hide Value, Run, Mantissa, SkipZeros, AllDigits, Scaled;
    var tail := [letter, sign] + digits + rest;
    assert tail[0] == letter;
    MantissaFixed(s, a, b, m, tail);
    if |a| + m <= 40 {
      ExponentLexes(Mantissa(s), letter, sign, digits, rest);
    } else {
      ScaledBad();
    }
  }
}
