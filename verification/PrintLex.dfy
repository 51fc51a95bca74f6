/** Printing a decimal and lexing the text undo each other. */
module PrintLex {
  import opened Decimals
  import opened Lexers
  import opened Limbs
  import opened NumberText
  import opened PrintedValues
  import opened Printer
  import DecimalAdd

  /** The text does not go on with a digit. */
  predicate NoDigit(s: Text) {
    |s| > 0 ==> !IsDigit(s[0])
  }

  lemma {:induction false} RunOf(digits: Text, rest: Text)
    requires AllDigits(digits) && NoDigit(rest)
    ensures Run(digits + rest) == |digits|
  {
    if |digits| == 0 {
      assert digits + rest == rest;
    } else {
      RunOf(digits[1..], rest);
      assert (digits + rest)[1..] == digits[1..] + rest;
    }
  }

  /** The two ends of a mantissa of `n` digits. */
  lemma MantissaDigits(v: nat, n: nat)
    requires n > 0 && Pow10(n - 1) <= v < Pow10(n)
    ensures var s := DigitsOf(v, n);
            s[0] != ZERO && Value(s) == v && s == Places(v, n, 0, 1) + Places(v, n, 1, n)
  {
    var s := DigitsOf(v, n);
    hide Pow10, Value, Digits, DigitsOf;
    PlacesAll(v, n);
    PlacesSplit(v, n, 0, 1, n);
    ValueOfDigits(v, n);
    FirstDigitCounts(s);
    DigitsUnique(v, n);
  }

  /** One digit, and the others after the point. */
  function OneAndRest(d: Num): Text
    requires Normalized(d) && d.n > 0
  {
    var s := DigitsOf(d.v, d.n);
    if d.n == 1 then s else [s[0], POINT] + s[1..]
  }

  lemma ScientificText(d: Num)
    requires Normalized(d) && d.n > 0
    ensures Scientific(d, 1, d.n - 1) == OneAndRest(d) + ExponentText(d.n + d.e - 1)
  {
    hide Pow10, Digits, Place, Places, DigitsOf, Normalized, ExponentText, Body, ZeroDigits;
    NormalSize(d);
    var v: nat, n: nat := d.v, d.n;
    PlacesAll(v, n);
    PlacesSplit(v, n, 0, 1, n);
    BodyParts(v, n, 1, n - 1, 1, 0);
    PointAfterFirst(DigitsOf(v, n), Places(v, n, 0, 1), Places(v, n, 1, n));
  }

  lemma PointAfterFirst(s: Text, a: Text, b: Text)
    requires s == a + b && |a| == 1
    ensures a + ([POINT] + ZeroDigits(0) + b) == [s[0], POINT] + s[1..]
    ensures |s| == 1 ==> s == a
  {
    assert ZeroDigits(0) == [];
    assert s[1..] == b;
  }

  lemma LexOne(s: Text, rest: Text)
    requires |s| == 1 && AllDigits(s) && s[0] != ZERO && NoDigit(rest) && (rest != [] ==> rest[0] != POINT)
    ensures Mantissa(s + rest) == Literal(1, 0, Value(s), rest)
  {
    hide Value, Run, Mantissa;
    var t := s + rest;
    assert t[0] == s[0] && t[..1] == s && t[1..] == rest;
    SkipZerosKeepsDigit(t);
    RunOf(s, rest);
    MantissaCases(t, t);
  }

  lemma LexMore(s: Text, rest: Text)
    requires 1 < |s| <= POSITIONS && AllDigits(s) && s[0] != ZERO && NoDigit(rest)
    ensures Mantissa([s[0], POINT] + s[1..] + rest) == Literal(|s|, 1 - |s|, Value(s), rest)
  {
    hide Value, Run, Mantissa;
    var t, u := [s[0], POINT] + s[1..] + rest, s[1..] + rest;
    PointParts(s, rest, t, u);
    SkipZerosKeepsDigit(t);
    RunOf(s[..1], [POINT] + u);
    RunOf(s[1..], rest);
    TakeDrop(s[1..], rest);
    MantissaCases(t, t);
  }

  lemma PointParts(s: Text, rest: Text, t: Text, u: Text)
    requires |s| > 1 && t == [s[0], POINT] + s[1..] + rest && u == s[1..] + rest
    ensures t == s[..1] + ([POINT] + u) && t[0] == s[0] && t[1] == POINT && t[2..] == u && t[..1] + s[1..] == s
  {
  }

  lemma TakeDrop(a: Text, b: Text)
    ensures (a + b)[..|a|] == a && (a + b)[|a|..] == b
  {
  }

  lemma NormalDigits(d: Num)
    requires Normalized(d) && d.n > 0
    ensures Pow10(d.n - 1) <= d.v < Pow10(d.n)
  {
    DigitsBounds(d.v);
  }

  lemma LexMantissa(d: Num, rest: Text)
    requires Normalized(d) && d.n > 0 && NoDigit(rest) && (rest != [] ==> rest[0] != POINT)
    ensures Mantissa(OneAndRest(d) + rest) == Literal(d.n, 1 - d.n, d.v, rest)
    ensures |OneAndRest(d)| > 0 && IsDigit(OneAndRest(d)[0])
  {
    hide Pow10, Digits, Value, DigitsOf, Normalized, Run, Mantissa, Places;
    NormalSize(d);
    NormalDigits(d);
    MantissaDigits(d.v, d.n);
    var s := DigitsOf(d.v, d.n);
    if d.n == 1 {
      LexOne(s, rest);
    } else {
      LexMore(s, rest);
    }
  }

  lemma LexExponent(l: Literal, e: int, rest: Text)
    requires l.Literal? && l.rest == ExponentText(e) + rest && NoDigit(rest) && -999 <= e <= 999
    requires MIN_EXPONENT <= l.e + e <= MAX_EXPONENT
    ensures Scaled(l) == Literal(l.n, l.e + e, l.v, rest)
  {
    hide Pow10, Digits, Value, DigitsOf, Run, Numeral, ExponentText, ScaleAt;
    ScaleOfExponent(l.rest, e, rest);
  }

  lemma ScaleOfExponent(s: Text, e: int, rest: Text)
    requires s == ExponentText(e) + rest && NoDigit(rest) && -999 <= e <= 999
    ensures |s| > 1 && s[0] == LETTER_E && ScaleAt(s[1..]) == Scale(e, rest)
  {
    hide Pow10, Digits, Value, DigitsOf, Run, Numeral;
    var size := if e >= 0 then e else -e;
    NumeralIs(size);
    var t := s[1..];
    ExponentParts(Numeral(size), rest, if e >= 0 then PLUS else MINUS, s);
    RunOf(Numeral(size), rest);
    TakeDrop(Numeral(size), rest);
  }

  lemma ExponentParts(numeral: Text, rest: Text, sign: int, s: Text)
    requires s == [LETTER_E, sign] + numeral + rest
    ensures s[1..] == [sign] + (numeral + rest) && s[1..][1..] == numeral + rest
  {
  }

  lemma NumeralIs(v: nat)
    ensures AllDigits(Numeral(v)) && Value(Numeral(v)) == v && |Numeral(v)| > 0
  {
    DigitsBounds(v);
    var k := if v == 0 then 1 else Digits(v);
    assert Pow10(1) == 10 * Pow10(0);
    hide Digits, Value, DigitsOf;
    ValueOfDigits(v, k);
  }

  /** Lexing what was printed, without its sign, gives back the mantissa, the digit count and the exponent. */
  lemma PrintThenLex(d: Num, rest: Text)
    requires Normalized(d) && d.n > 0 && NoDigit(rest)
    ensures var t := Printed(d, 1, d.n - 1, true);
            && t[0] == (if d.sign == SIGN_NEG then MINUS else SPACE)
            && |t| > 1 && IsDigit(t[1])
            && Lexed(t[1..] + rest) == Literal(d.n, d.e, d.v, rest)
  {
    hide Pow10, Digits, Normalized, OneAndRest, Mantissa, Scaled, Scientific, ExponentText;
    NormalSize(d);
    var e := d.n + d.e - 1;
    var one, exponent := OneAndRest(d), ExponentText(e);
    ScientificText(d);
    ExponentStarts(e);
    LexMantissa(d, exponent + rest);
    NormalExponent(d);
    LexExponent(Mantissa(one + (exponent + rest)), e, rest);
    SignFirst(SignText(d.sign), one, exponent, rest);
  }

  lemma NormalExponent(d: Num)
    requires Normalized(d)
    ensures MIN_EXPONENT <= d.e <= MAX_EXPONENT
  {
  }

  lemma ExponentStarts(e: int)
    ensures |ExponentText(e)| > 0 && ExponentText(e)[0] == LETTER_E
  {
  }

  lemma SignFirst(sign: Text, one: Text, exponent: Text, rest: Text)
    requires |sign| == 1 && |one| > 0
    ensures var t := sign + (one + exponent);
            t[0] == sign[0] && t[1] == one[0] && t[1..] + rest == one + (exponent + rest)
  {
    assert (sign + (one + exponent))[1..] == one + exponent;
  }

  // ----- Without an exponent -----

  /** Digits, and digits after a point when `m` is not zero. */
  function Fixed(a: Text, b: Text, m: nat): Text {
    if m == 0 then a else a + ([POINT] + b)
  }

  /** What may follow a number without an exponent. */
  predicate Ends(rest: Text, m: nat) {
    NoDigit(rest) && (rest != [] ==> rest[0] != LETTER_E && rest[0] != UPPER_E && (m == 0 ==> rest[0] != POINT))
  }

  /** A text that is `a`, the point and `b` behind its leading zeros. */
  lemma LexFixed(s: Text, a: Text, b: Text, m: nat, rest: Text)
    requires AllDigits(a) && AllDigits(b) && |b| == m && Ends(rest, m) && SkipZeros(s) == Fixed(a, b, m) + rest
    ensures Lexed(s) == if |a| + m > POSITIONS then Bad else Literal(|a| + m, 0 - m, Value(a + b), rest)
  {
    hide Value, Run, Mantissa, SkipZeros, AllDigits, Scaled;
    MantissaFixed(s, a, b, m, rest);
    NoExponent(Mantissa(s), m);
  }

  lemma NoExponent(l: Literal, m: nat)
    requires l.Bad? || Ends(l.rest, m)
    ensures Scaled(l) == l
  {
  }

  lemma MantissaPoint(s: Text, a: Text, b: Text, rest: Text)
    requires AllDigits(a) && AllDigits(b) && NoDigit(rest) && SkipZeros(s) == a + ([POINT] + b) + rest
    ensures Mantissa(s) == if |a| + |b| > POSITIONS then Bad else Literal(|a| + |b|, 0 - |b|, Value(a + b), rest)
  {
    hide Value, Run, Mantissa, SkipZeros, AllDigits;
    var t := a + ([POINT] + (b + rest));
    PointInside(a, b, rest);
    MantissaCases(s, t);
    RunOf(a, [POINT] + (b + rest));
    RunOf(b, rest);
    TakeDrop(b, rest);
  }

  lemma PointInside(a: Text, b: Text, rest: Text)
    ensures var t := a + ([POINT] + (b + rest));
            && a + ([POINT] + b) + rest == t && t[|a|] == POINT && t[..|a|] == a && t[|a| + 1..] == b + rest
  {
  }

  /** The two parts of a number without an exponent, behind a leading zero that is skipped. */
  lemma PlainParts(d: Num, whole: int, m: nat) returns (a: Text, b: Text)
    requires Normalized(d) && d.n > 0 && whole > 0
    ensures AllDigits(a) && AllDigits(b) && |b| == m && |a| == if d.n + d.e > 0 then d.n + d.e else 0
    ensures d.v >= 0 && Value(a + b) == Moved(d.v, d.e + m)
    ensures Plain(d, whole, m) == (if |a| == 0 then [ZERO] else []) + Fixed(a, b, m)
    ensures |a| > 0 ==> a[0] != ZERO
  {
    hide Value, Body, Pow10, Digits, Moved, Places, ZeroDigits, DigitsOf, Normalized;
    NormalSize(d);
    var v: nat, n: int := d.v, d.n + d.e;
    var w: nat, gap: nat := if n > 0 then n else 0, if n >= 0 then 0 else if -n < m then -n else m;
    a, b := Places(v, d.n, 0, w), ZeroDigits(gap) + Places(v, d.n, w, w + m - gap);
    BodyParts(v, d.n, n, m, w, gap);
    FractionText(gap, Places(v, d.n, w, w + m - gap));
    PlacesAreDigits(v, d.n, 0, w);
    PlacesAreDigits(v, d.n, w, w + m - gap);
    PlainDenotes(d, whole, m);
    PointedParts(a, b, m);
    FirstPlace(d, w);
    if |a| == 0 {
      ZeroInFront(Fixed(a, b, m), m);
    } else {
      assert [] + Fixed(a, b, m) == Fixed(a, b, m);
    }
  }

  lemma FirstPlace(d: Num, w: nat)
    requires Normalized(d) && d.n > 0
    ensures d.v >= 0 && (w > 0 ==> Places(d.v, d.n, 0, w)[0] != ZERO)
  {
    hide Pow10, Digits, Value, DigitsOf, Place;
    NormalDigits(d);
    MantissaDigits(d.v, d.n);
    PlacesAll(d.v, d.n);
  }

  /** Lexing what was printed without an exponent: the number with `m` digits after the point, unless it has
      more digits than a literal can have. */
  lemma PlainThenLex(d: Num, whole: int, m: nat, rest: Text)
    requires Normalized(d) && d.n > 0 && whole > 0 && whole >= d.n + d.e && Ends(rest, m)
    ensures var t := Printed(d, whole, m, false);
            var w := if d.n + d.e > 0 then d.n + d.e else 0;
            && t[0] == (if d.sign == SIGN_NEG then MINUS else SPACE)
            && |t| > 1 && IsDigit(t[1]) && d.v >= 0
            && Lexed(t[1..] + rest)
               == if w + m > POSITIONS then Bad else Literal(w + m, 0 - m, Moved(d.v, d.e + m), rest)
  {
    hide Pow10, Digits, Normalized, Plain, Lexed, Value, Moved, Run;
    var a, b := PlainParts(d, whole, m);
    var s := Plain(d, whole, m);
    var t := Printed(d, whole, m, false);
    assert t[1..] == s;
    SkipsZero(a, Fixed(a, b, m), rest);
    LexFixed(s + rest, a, b, m, rest);
  }

  lemma SkipsZero(a: Text, fixed: Text, rest: Text)
    requires AllDigits(a) && (|a| > 0 ==> a[0] != ZERO && |fixed| > 0 && fixed[0] == a[0])
    requires |a| == 0 ==> fixed + rest == [] || (fixed + rest)[0] != ZERO
    ensures var s := (if |a| == 0 then [ZERO] else []) + fixed;
            |s| > 0 && IsDigit(s[0]) && SkipZeros(s + rest) == fixed + rest
  {
    if |a| == 0 {
      assert ([ZERO] + fixed + rest)[1..] == fixed + rest;
    } else {
      assert [] + fixed == fixed;
    }
  }

  /** With a digit for every place of the number nothing is lost: the literal denotes the decimal. */
  lemma PlainKeepsValue(d: Num, m: nat)
    requires Normalized(d) && d.n > 0 && m >= 0 - d.e && m <= POSITIONS
    ensures d.v >= 0 && d.e >= MIN_EXPONENT
    ensures Moved(d.v, d.e + m) * DecimalAdd.Unit(0 - m) == DecimalAdd.Magnitude(d)
  {
    hide Pow10, Digits;
    NormalSize(d);
    DecimalAdd.ScaleUp(d.v, d.e + m, d.e);
  }

  /** Zero comes back as zero with `m` digits after the point. */
  lemma ZeroThenLex(d: Num, whole: int, m: nat, exp: bool, rest: Text)
    requires Normalized(d) && d.n == 0 && whole > 0 && (if exp then NoDigit(rest) else Ends(rest, m))
    ensures Lexed(Printed(d, whole, m, exp) + rest)
         == if m > POSITIONS then Bad else Literal(m, 0 - m, 0, rest)
  {
    hide Normalized, Value, Run, Mantissa, SkipZeros, AllDigits, Scaled, ZeroDigits;
    var zeros, tail := ZeroDigits(m), if exp then ExponentText(0) else [];
    ZeroExponent();
    assert [] + rest == rest;
    var s := [ZERO] + Fixed([], zeros, m) + (tail + rest);
    ZeroText(zeros, m, tail, rest, Printed(d, whole, m, exp));
    SkipsZero([], Fixed([], zeros, m), tail + rest);
    TailEnds(tail, rest, exp, m);
    MantissaFixed(s, [], zeros, m, tail + rest);
    ZerosValue(m);
    assert [] + zeros == zeros;
    if m <= POSITIONS {
      if exp {
        LexExponent(Mantissa(s), 0, rest);
      } else {
        NoExponent(Mantissa(s), m);
      }
    } else {
      ScaledBad();
    }
  }

  lemma ZeroText(zeros: Text, m: nat, tail: Text, rest: Text, printed: Text)
    requires printed == [ZERO] + (if m > 0 then [POINT] + zeros else []) + tail
    ensures printed + rest == [ZERO] + Fixed([], zeros, m) + (tail + rest)
  {
    assert [] + ([POINT] + zeros) == [POINT] + zeros;
  }

  lemma TailEnds(tail: Text, rest: Text, exp: bool, m: nat)
    requires tail == (if exp then ExponentText(0) else []) && (if exp then NoDigit(rest) else Ends(rest, m))
    ensures NoDigit(tail + rest) && (m == 0 && tail + rest != [] ==> (tail + rest)[0] != POINT)
    ensures exp ==> (tail + rest)[0] == LETTER_E
  {
    ExponentStarts(0);
  }

  lemma MantissaFixed(s: Text, a: Text, b: Text, m: nat, rest: Text)
    requires AllDigits(a) && AllDigits(b) && |b| == m && NoDigit(rest) && (m == 0 && rest != [] ==> rest[0] != POINT)
    requires SkipZeros(s) == Fixed(a, b, m) + rest
    ensures Mantissa(s) == if |a| + m > POSITIONS then Bad else Literal(|a| + m, 0 - m, Value(a + b), rest)
  {
    hide Value, Run, Mantissa, SkipZeros, AllDigits;
    if m == 0 {
      MantissaCases(s, a + rest);
      RunOf(a, rest);
      TakeDrop(a, rest);
      assert a + b == a;
    } else {
      MantissaPoint(s, a, b, rest);
    }
  }

  /** A sign or a space, and a number. */
  method LexSigned(text: Text, ghost t: Text, ghost after: Text) returns (lexer: Lexer, rc: int)
    requires text == t + after && |t| > 1 && IsDigit(t[1]) && (t[0] == MINUS || t[0] == SPACE)
    requires Lexed(t[1..] + after).Literal?
    ensures fresh(lexer) && fresh(lexer.num) && fresh(lexer.num.m) && lexer.Valid()
    ensures rc == 0 && lexer.lexemType == NumLiteral
    ensures var l := Lexed(t[1..] + after);
            lexer.num.Abs() == Num(SIGN_POS, l.e, l.n, l.v) && lexer.Ahead() == l.rest
  {
    hide Lexed, Run, Val, Value, Pow10, Digits, InWord, SkipSpaces, AllLimbs;
    lexer := new Lexer(text);
    lexer.Reset();
    SignSkipped(t, after);
    MinusIsToken();
    rc := lexer.Next();
    if text[0] == MINUS {
      rc := lexer.Next();
    }
  }

  /** A decimal is printed into a buffer, the buffer is lexed, and the literal is the decimal, limb for limb. */
  method PrintAndLex(d: Decimal, buf: array<int>, after: Text) returns (printed: bool, lexer: Lexer)
    requires d.Valid() && Normalized(d.Abs()) && d.n > 0 && buf != d.m && NoDigit(after)
    modifies buf
    ensures printed <==> |Printed(d.Abs(), 1, d.n - 1, true)| <= buf.Length
    ensures printed ==>
      && lexer.Valid() && lexer.lexemType == NumLiteral && lexer.Ahead() == after
      && lexer.num.sign == SIGN_POS && lexer.num.n == d.n && lexer.num.e == d.e && lexer.num.m[..] == d.m[..]
  {
    hide Printed, Lexed, Normalized, Run, Val, Value, Pow10, Digits, InWord, SkipSpaces, AllLimbs, At;
    ghost var was, num := buf[..], d.Abs();
    PrintThenLex(num, after);
    NormalSize(num);
    var rc, ptr := FmtDecimalPse(buf, 0, buf.Length, d.n, d.n - 1, true, d);
    printed := rc == 0;
    if !printed {
      lexer := new Lexer([]);
      return;
    }
    ghost var t := Printed(num, 1, d.n - 1, true);
    assert buf[..ptr] == t;
    var rc';
    lexer, rc' := LexSigned(buf[..ptr] + after, t, after);
    ValInjective(lexer.num.m[..], d.m[..]);
  }

  /** A decimal is printed without an exponent, with a digit for every place it has, and lexed: the literal
      has its magnitude. */
  method PrintPlainAndLex(d: Decimal, buf: array<int>, whole: nat, m: nat, after: Text)
    returns (printed: bool, lexer: Lexer)
    requires d.Valid() && Normalized(d.Abs()) && d.n > 0 && buf != d.m && Ends(after, m)
    requires whole > 0 && d.n + d.e <= whole && 0 - d.e <= m && m <= POSITIONS && d.n + d.e + m <= POSITIONS
    modifies buf
    ensures printed <==> |Printed(d.Abs(), whole, m, false)| <= buf.Length
    ensures printed ==>
      && lexer.Valid() && lexer.lexemType == NumLiteral && lexer.Ahead() == after
      && lexer.num.e == 0 - m && d.Abs().e >= MIN_EXPONENT
      && DecimalAdd.Magnitude(lexer.num.Abs()) == DecimalAdd.Magnitude(d.Abs())
  {
    hide Printed, Lexed, Normalized, Run, Val, Value, Pow10, Digits, InWord, SkipSpaces, AllLimbs, At, DecimalAdd.Unit;
    ghost var num := d.Abs();
    PlainThenLex(num, whole, m, after);
    PlainKeepsValue(num, m);
    NormalSize(num);
    var rc, ptr := FmtDecimalPse(buf, 0, buf.Length, whole + m, m, false, d);
    printed := rc == 0;
    if !printed {
      lexer := new Lexer([]);
      return;
    }
    ghost var t := Printed(num, whole, m, false);
    assert buf[..ptr] == t;
    var rc';
    lexer, rc' := LexSigned(buf[..ptr] + after, t, after);
  }

  lemma MinusIsToken()
    ensures !IsDigit(MINUS) && !InWord(MINUS) && MINUS != QUOTE
  {
  }

  lemma SignSkipped(t: Text, after: Text)
    requires |t| > 1 && IsDigit(t[1]) && (t[0] == MINUS || t[0] == SPACE)
    ensures var s := t + after;
            && SkipSpaces(t[1..] + after) == t[1..] + after
            && SkipSpaces(s) == (if t[0] == SPACE then t[1..] + after else s)
            && s[1..] == t[1..] + after
  {
    assert (t + after)[1..] == t[1..] + after;
    assert (t[1..] + after)[0] == t[1];
  }
}
