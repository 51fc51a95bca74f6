# Verified model of the database server's core algorithms

This project models, in Dafny 4.11, the parts of the server and its client whose correctness is
arithmetic or a protocol, and proves what those parts are for:

* **40-digit decimals** (`common/decimal.c`): a mantissa is ten little-endian limbs in base 10000.
  `Limbs.Val` is the number a limb array stands for; every in-place loop (carry, borrow, shift,
  schoolbook multiplication, Algorithm D) is proved against exact integer arithmetic on that number,
  and the operations against the value of the decimals. `Decimals.Num` is a decimal as a value.
* **Constant folding of expression trees** (`execution/expression.c`, `common/stack.c`): the walk with
  an explicit stack and a `prev` pointer that overwrites nodes is proved equal to a recursive fold,
  and the fold to preserve strict evaluation.
* **Text framing** (`session/pproto_server.c`, `client/pproto_client.c`, `common/encoding.c`): texts
  travel in chunks of at most 255 bytes that carry their length. The sender writes converted
  characters straight into its buffer; the readers reassemble them across chunks and `recv` portions.
* **Printing numbers and lexing** (`common/strop.c`, `parser/lexer.c`): number literals, identifiers,
  reserved words, string literals and tokens; printing or quoting and then lexing gives the value back.
* **The hash table** (`common/htable.c`), **the calendar** (`calendar/grigorian.c`) and **SHA3-512**
  (`auth/auth_sha3.c`, against FIPS 202).

`dafny verify dfyconfig.toml` checks everything. One module per component: `Limbs`, `DecimalShift`,
`Decimals`, `DecimalMul`, `DecimalAdd`, `DecimalCmp`, `KnuthStep`, `DecimalDiv`; `Folding`,
`Expressions`, `DecimalFolding`, `FoldedValues`, `StringLiterals`, `Stacks`; `Encodings`, `Framing`,
`TextSenders`, `Receivers`, `ClientTexts`, `ServerTexts`, `TextExchange`; `NumberText`, `Printer`,
`PrintedValues`, `ReservedWords`, `Lexers`, `LexedTexts`, `PrintLex`; `HashTable`; `Calendar`; `Keccak`,
`KeccakSteps`, `KeccakPermutation`, `Sha3Constants`, `Sha3`. `Options` holds the one datatype that several
of them share.

A method that works in place is proved equal to a specification function of its inputs, and lemmas say
what that function means without it: in values, signs, texts and bits.

What is outside the code appears as a parameter or as a free choice: the hash function of the table,
the decimal and string routines that the evaluator calls (`DecimalFolding` puts the real ones in),
names and BETWEEN in evaluation, success of every `send` and `recv`, the size of every portion that
`recv` delivers, and the sizes of the readers' buffers. A `broken` flag records that a socket call has
failed, and a socket that is declared `reliable` never fails.

## Where the code does not do what its comments promise

Each of these is proved: a concrete input for the failure, and the exact condition under which the
code is right.

* Multiplication whose product has more than 40 digits truncates exactly when
  `DecimalMul.TruncatesExactly` holds: the digit count is 2 modulo 4, or it is 1 or 3 modulo 4 and the
  last limb shifted out is below 10 (`MulTruncationIff`, `MulTruncationFails`; `KeptInstead` says what is
  kept otherwise).
* Multiplication is refused when the exponents add up to more than 127, although a product of fewer than
  40 digits could be written with a smaller exponent (`MulDoneIff`, `MulRefuses`).
* Subtraction has the wrong sign when both operands have one sign and the first is smaller in
  magnitude, and when the signs differ and the first lies wholly below the last digit of the second
  (`SubWithinUnitIff`, `SubFails`).
* Division leaves low limbs of the result record unwritten when the dividend is more than one limb
  shorter than the divisor (`DivTruncatesIff`, `DivFails`).
  What the record held then decides the result, and with it what constant folding leaves in a node:
  `1/1000000000000` folds to different numbers in two nodes that differ only in the memory they got
  (`DivLeaves`, `DecimalFolding.SteadfastIff`, `SettledFolds`, `FoldFails`).
* `FALSE IS FALSE` folds to FALSE and `FALSE IS NOT FALSE` to TRUE: IS on booleans is right exactly when one
  of them is true (`FoldedValues.TruthTables`).
* Comparison orders decimals by value exactly when `DecimalCmp.ComparesRight` holds (`CmpIff`,
  `CmpFails`). It does not for two negative decimals that reach differently high, for zeros with a
  different exponent or sign, for a zero against a nonzero decimal of the same sign when the exponent of
  the zero is on the wrong side, and for two nonzero mantissas of different length that reach equally
  high, when one has sixteen digits or more (the code then divides by zero, `Verdict` is `None`), or when
  the digits that the code reads do not tell the order. Mantissas of 7, 10 and 13 digits are read right,
  others in another order inside each limb (`AlignedReadsIff`).
* A date whose timestamp exceeds 64 bits wraps (`MakeThenExtractIff`, `TimestampWraps`).
* A literal such as `0.05` keeps and counts the zeros after the point, so it is not in normal form
  (`LiteralNormalIff`, `LiteralNormalFails`).
* In integer mode the lexer refuses the eight largest numbers that 63 bits hold (`IntegerRange`).
* A `send_str` call can be refused although nobody touched the buffer, because the room test also
  runs in the middle of a chunk. For a text begun with an empty buffer a further part is refused exactly
  after 7900 to 7904 bytes, and after `n >= 7905` bytes when `n % 7905 >= 7901` (`AcceptedIff`,
  `RefusedIff`, `SendFails`). For every other start `CursorAfter` says where the open chunk lies, and
  `CursorByLength` says it by the length of the text alone, but for three starts modulo 256.
* `read_char` does not report a wrong byte when it is the last byte of the text (`WrongByteIff`,
  `ReadCharFails`).

## Model

| member | source | states |
|---|---|---|
| Decimals.AbsAdd | common/decimal.c:9-29 | the limb loop adds the values modulo 10^40 and returns the carry |
| Decimals.AbsSub | common/decimal.c:70-87 | for a minuend that is not smaller the limb loop gives the exact difference, and the final borrow is 0 |
| Decimals.AbsCmp | common/decimal.c:33-40 | the sign of the result is the order of the two mantissas as numbers |
| Decimals.Decimal.CopyFrom | common/decimal.c:463-480 | structure copy of a decimal: value and limbs |
| DecimalShift.ShiftRight | common/decimal.c:102-132 | shifting right by n digits in place gives floor(V / 10^n), limbs stay in range, for every n from 1 to 40 |
| DecimalShift.ShiftLeft | common/decimal.c:135-165 | shifting left by n digits in place gives V * 10^n modulo 10^40, limbs stay in range, for every n from 1 to 40 |
| DecimalShift.NumDigits | common/decimal.c:168-192 | the number of decimal digits of the mantissa, 0 for zero |
| Limbs.DigitsBounds | common/decimal.c:168-192 | the digit count D satisfies 10^(D-1) <= V < 10^D |
| DecimalShift.RightLimbsValue | common/decimal.c:102-132 | the limbs that the right shift writes have the value floor(V / 10^n) |
| DecimalShift.LeftLimbsValue | common/decimal.c:135-165 | the limbs that the left shift writes have the value V * 10^n modulo 10^40 |
| DecimalMul.MulRow | common/decimal.c:204-218 | one row of the schoolbook loop adds one limb's multiple at its place |
| DecimalMul.Multiply | common/decimal.c:204-218 | the schoolbook loops compute the 20-limb product for all limb inputs |
| DecimalMul.Mul | common/decimal.c:196-267 | result code, sign, exponent, digit count and mantissa are those of MulInto for all limb inputs, also when the result record is an operand; the rows from InPlaceIff to MulRefuses say what those are |
| DecimalMul.InPlaceIff | common/decimal.c:263-264 | multiplying into the first operand gives the same result except for the sign of a zero |
| DecimalMul.MulTruncationIff | common/decimal.c:222-262 | the mantissa is the product cut to its top 40 digits if and only if TruncatesExactly |
| DecimalMul.MulWithinUnit | common/decimal.c:222-262 | then the result is normalized and less than one unit of its last digit below the product |
| DecimalMul.WholeLimbLost | common/decimal.c:235-246 | which product digits are lost when the digit count is a multiple of 4 |
| DecimalMul.MulTruncationFails | common/decimal.c:235-246 | the square of the normalized decimal 10^20 + 50 succeeds and is not the truncated product |
| DecimalMul.KeptInstead | common/decimal.c:235-246 | what is kept of every product of more than 40 digits: the top 40 with the wrong part of the limb below them filled in, or, when the digit count is a multiple of 4, those 40 without the first four, and four zeros |
| DecimalMul.MulSigns | common/decimal.c:264 | the sign of a product of nonzero operands is the product of their signs |
| DecimalMul.MulTowardZeroIff | common/decimal.c:196-267 | the signed result is the signed product rounded toward zero to a unit of its last digit if and only if TruncatesExactly |
| DecimalMul.MulDoneIff | common/decimal.c:229-260 | refused exactly when the exponent of the fortieth digit, or of the last one of a shorter product, is out of range |
| DecimalMul.MulRefuses | common/decimal.c:256-260 | 10^127 times 10 is refused although the result record can hold it |
| DecimalAdd.AlignOperands | common/decimal.c:484-541 | the in-place shifts bring both mantissas to a common exponent as Align says |
| DecimalAdd.CombineInto | common/decimal.c:543-588 | adding or subtracting the aligned mantissas in place: sign, exponent, digit count, mantissa and the refusal of a carry are those of Combined |
| DecimalAdd.AddSub | common/decimal.c:463-590 | result code and record are those of AddSubResult for all normalized inputs; the rows from AddWithinUnit to ErrorBound say what those are |
| DecimalAdd.AddWithinUnit | common/decimal.c:463-590 | the sum is within one unit of its last digit of the true sum, for all normalized inputs |
| DecimalAdd.AddExact | common/decimal.c:498-588 | the sum is exact when alignment needs no right shift and no carry leaves the top |
| DecimalAdd.AddCommutes | common/decimal.c:463-590 | addition is commutative, bit for bit, unless the operands are two different zeros |
| DecimalAdd.SubWithinUnitIff | common/decimal.c:542-558 | the difference is within one unit of the true one if and only if SubtractsRight |
| DecimalAdd.AddSubNormalized | common/decimal.c:463-590 | sums and differences of normalized decimals are normalized |
| DecimalAdd.SubFails | common/decimal.c:542-558 | one minus two is one |
| DecimalAdd.AddSubDoneIff | common/decimal.c:463-590 | a sum or difference of normalized decimals is refused if and only if the exact one reaches 10^40 units of 10^127 |
| DecimalAdd.RoundedTo | common/decimal.c:484-588 | a sum of magnitudes is rounded down and a difference of magnitudes up, by less than one unit of the last digit of the result, for all normalized operands |
| DecimalAdd.ErrorBound | common/decimal.c:463-590 | the error is at most 10^-38 of the larger operand, against the exact result, or against its negation where decimal_sub has the wrong sign |
| DecimalAdd.EqualsCancel | common/decimal.c:559-564 | the difference of equal magnitudes is the positive zero with exponent 0 |
| DecimalAdd.DropsSmall | common/decimal.c:511-516 | an operand below the digits that the other can keep is dropped, and the other is copied as it is |
| DecimalCmp.AbsCmpWithShift | common/decimal.c:44-66 | the loop over digits at shrinking weights returns the first difference, zero, or nothing when it divides by zero |
| DecimalCmp.ShiftedDefined | common/decimal.c:50-58 | it divides by zero exactly when both mantissas have digits and one starts with weight zero |
| DecimalCmp.ShiftedOrder | common/decimal.c:55-65 | otherwise the result is the order of the two numbers made of the digits read |
| DecimalCmp.AlignedLeading | common/decimal.c:55-65 | read from its own weight on, the first digits are the leading digits of the mantissa |
| DecimalCmp.AlignedReadsIff | common/decimal.c:44-66 | for mantissas of 7, 10 and 13 digits the order is right if and only if the leading digits differ or the unread ones are zero |
| DecimalCmp.Cmp | common/decimal.c:608-623 | the sign of the result: by sign, by top position, by digits, by limbs |
| DecimalCmp.CmpIff | common/decimal.c:608-623 | for all normalized decimals, zeros included, the result is the numeric order if and only if ComparesRight |
| DecimalCmp.CmpFails | common/decimal.c:608-623 | -100 compares greater than -1, 0 greater than 0.001, and 123 greater than 130 |
| KnuthStep.Estimate | common/decimal.c:365-382 | the corrected estimate of the quotient limb is the true digit or one more |
| KnuthStep.TestDecides | common/decimal.c:372-382 | the test on the second divisor limb brings the estimate into that range |
| KnuthStep.SubtractProduct | common/decimal.c:384-398 | the window minus estimate times divisor, with the exact borrow |
| KnuthStep.AddBack | common/decimal.c:403-415 | adding the divisor back into the window, with the exact carry |
| KnuthStep.Correct | common/decimal.c:384-418 | quotient limb and remainder are exact; the divisor is added back at most once, and then carries out, so the assertion at 417 holds |
| KnuthStep.Step | common/decimal.c:363-420 | a window below base times divisor is replaced by its remainder, which is below the divisor, and the limb is the exact quotient |
| DecimalDiv.DivideByLimb | common/decimal.c:299-332 | division by a single limb: exact quotient of the scaled dividend, and whether the first limb is skipped |
| DecimalDiv.MulByDigit | common/decimal.c:90-99 | eleven limbs of the digit times the mantissa |
| DecimalDiv.Normalize | common/decimal.c:335-352 | dividend and divisor are scaled by the same factor without overflow |
| DecimalDiv.ScaleOfTop | common/decimal.c:335-352 | the factor makes the top divisor limb at least half the base |
| DecimalDiv.NextDigit | common/decimal.c:363-432 | one pass extends the quotient of the dividend prefix by its next limb and keeps the remainder invariant |
| DecimalDiv.LongDivision | common/decimal.c:355-432 | the limbs written are the quotient of the prefix used; at most one leading zero limb is skipped; which limbs stay unwritten |
| DecimalDiv.Div | common/decimal.c:272-459 | result code, sign, exponent, digit count and limbs are those of DivResult for all normalized inputs; the rows from DivTruncates to DivOfZero say what those are |
| DecimalDiv.DivTruncates | common/decimal.c:284-294 | when no limb stays unwritten: M3 = floor(M1 * 10^(4k) / M2), 10^36 <= M3 < 10^40, and the exponent that makes it the truncated quotient |
| DecimalDiv.DivTruncatesIff | common/decimal.c:363-432 | the mantissa is that quotient whatever the record held before if and only if no limb stays unwritten |
| DecimalDiv.DivFails | common/decimal.c:432-458 | one divided by 10^12 into a record whose lowest limb was 1 succeeds with a mantissa that is not the quotient |
| DecimalDiv.DivLeaves | common/decimal.c:296-458 | for all nonzero operands: with the one scale of k limbs that gives a quotient of ten limbs, the mantissa is that quotient with its lowest k - 11 limbs replaced by those the record held; its digit count and exponent |
| DecimalDiv.DivSigns | common/decimal.c:456 | the sign of a quotient of nonzero operands, times the divisor's, is the dividend's |
| DecimalDiv.DivTowardZero | common/decimal.c:272-459 | the signed quotient times the signed divisor has the sign of the dividend and falls short of it by less than one divisor, when no limb stays unwritten |
| DecimalDiv.DivDoneIff | common/decimal.c:444-452 | for nonzero operands refused if and only if the exponent of the quotient of 37 to 40 digits is out of range |
| DecimalDiv.DivOfZero | common/decimal.c:279-293 | a zero divisor is the one other refusal, and zero divided is a positive zero |
| Stacks.Stack.Push | common/stack.c:46-60 | refused exactly when full; otherwise the element is on top |
| Stacks.Stack.Pop | common/stack.c:71-85 | returns and removes the top element |
| Stacks.Stack.Reset | common/stack.c:38-43 | the stack is empty |
| Stacks.Stack.constructor | common/stack.c:23-35 | a new stack over the caller's buffer is empty |
| Stacks.Stack.ElNum | common/stack.c:63-68 | number of elements |
| Expressions.CalcBaseExpr | execution/expression.c:18-285 | content and result code after evaluating one node are those of Calculated, for every operator and operand kind and whatever its memory held, with and without name resolution; the FoldedValues rows say what those are |
| Expressions.TestSign | execution/expression.c:133-145 | the three-part sign test is the relation of Relates, which the FoldedValues rows pin down |
| Expressions.CalcConstExpr | execution/expression.c:288-330 | for every unshared tree and stack size the walk ends, the nodes hold the recursive fold, and the result is its first error, also for a full stack |
| Folding.RoomSuffices | execution/expression.c:288-330 | folding with a bounded stack succeeds if and only if the unbounded fold does and the operators nest no deeper than the stack |
| Folding.OperandsFirst | execution/expression.c:288-330 | the order of a fold, also of one that fails: the right operand changes only after the left one is done, the node only after both |
| Folding.FoldKeepsMeaning | execution/expression.c:18-330 | in every environment the folded tree evaluates as the original, and a failing fold means evaluation fails in every environment |
| Folding.GroundFoldsToValue | execution/expression.c:18-330 | without names and BETWEEN folding succeeds exactly when there is a value, and the root then holds it |
| Folding.FoldIsIdempotent | execution/expression.c:288-330 | a folded tree folds to itself |
| DecimalFolding.SteadfastIff | execution/expression.c:62-122 | with the decimal routines an operation on normalized operands depends on what the node's memory held if and only if it is a division that leaves limbs unwritten |
| DecimalFolding.SettledMeaning | execution/expression.c:18-330 | a tree whose operations do not has one meaning, whatever the memory of its nodes held |
| DecimalFolding.SettledFolds | execution/expression.c:288-330 | and its constants fold alike |
| DecimalFolding.FoldFails | execution/expression.c:78-83 | 1 / 10^12 folds to different numbers in nodes whose memory differed |
| FoldedValues.NumbersCompare | execution/expression.c:135-149 | where decimal_cmp orders the operands, the six comparisons and IS of two numbers fold to ==, !=, >, >=, <, <= of their values |
| FoldedValues.NumbersCompareOnlyIf | execution/expression.c:135-149 | and where it does not, > or < folds to the wrong truth value |
| FoldedValues.StringsCompare | execution/expression.c:150-168 | comparisons of strings, and IS, fold to equality and dictionary order of their bytes |
| FoldedValues.TruthTables | execution/expression.c:218-278 | AND, OR, NOT of booleans; IS and IS NOT are right if and only if one of the operands is true |
| FoldedValues.WithNull | execution/expression.c:55-229 | arithmetic with NULL gives NULL, a comparison false, and IS tells whether both are NULL |
| FoldedValues.KindsDiffer | execution/expression.c:183-187 | IS is false and IS NOT true for values of different kinds |
| FoldedValues.MismatchIff | execution/expression.c:62-285 | exactly which operators fail on which kinds of values, and that the node then stays as it was |
| FoldedValues.SumFolds | execution/expression.c:94-99 | a + b folds if and only if the exact sum is below the limit, and then to a number within 10^-38 of the larger operand |
| FoldedValues.DifferenceFolds | execution/expression.c:110-118 | a - b likewise, to the negated difference where decimal_sub has the wrong sign |
| FoldedValues.ProductFolds | execution/expression.c:62-67 | a * b folds to the signed product rounded toward zero, when it truncates exactly |
| FoldedValues.QuotientFolds | execution/expression.c:78-83 | a / b folds to the signed quotient rounded toward zero, when no limb stays unwritten |
| FoldedValues.ZeroDivisor | execution/expression.c:78-83 | a division by zero fails |
| FoldedValues.StaysUnfolded | execution/expression.c:43-50 | an operator over a name, and BETWEEN, stay as they are |
| StringLiterals.MemcmpDecides | common/string_literal.c:86-112 | the first byte that differs decides |
| StringLiterals.CompareOrder | common/string_literal.c:86-112 | the sign of the comparison is the dictionary order of the two texts, and zero means equality |
| Encodings.LeadByteRanges | common/encoding.c:67-74 | the masks select the lead and continuation byte ranges of UTF-8 |
| Encodings.CharacterIff | common/encoding.c:67-115 | exactly which bytes are a character: one ASCII byte, or a lead byte and as many continuation bytes as it asks for |
| Encodings.PartialIff | common/encoding.c:81-115 | exactly when a text ends inside its first character |
| Encodings.ConvertedCharacter | common/encoding.c:26-60 | a character stays the same between equal encodings and when it has one byte; any other becomes a question mark; the result is a character of the other encoding |
| Encodings.ConvertInto | common/encoding.c:26-60 | the converter writes the converted character in place and nothing else, and reports its length and state |
| Encodings.CharInfo.Build | common/encoding.c:81-115 | state and bytes of a character after one more byte |
| Encodings.CharInfo.Restart | session/pproto_server.c:443-444 | a reader starts the next character |
| Encodings.ScanStep | common/encoding.c:81-115 | byte by byte construction agrees with scanning the character in the whole text |
| Framing.ChunksContinue | session/pproto_server.c:311-341 | cutting into chunks can go on from the unfinished chunk |
| Framing.OneChunkForm | session/pproto_server.c:248-366 | the bytes on the wire of texts of up to 255 bytes |
| Framing.ChunkedLength | session/pproto_server.c:248-366 | a text takes one length byte for every 255 bytes or part of them, and a zero |
| Framing.DecodeChunked | session/pproto_server.c:248-366 | decoding a chunked text gives the text and stops right after its terminator, whatever follows |
| Framing.DecodeSkip | session/pproto_server.c:395-476 | reading part of a chunk leaves the rest of the text to decode |
| TextSenders.Sender.SendByte | session/pproto_server.c:199-224 | one byte is appended to what is emitted, flushing a full buffer |
| TextSenders.Sender.Flush | session/pproto_server.c:107-115 | everything emitted is on the wire |
| TextSenders.Sender.SendStrBegin | session/pproto_server.c:248-274 | the magic byte is emitted, where the first chunk starts, and that there is room for a whole one |
| TextSenders.Sender.NextChunk | session/pproto_server.c:311-328 | back-patched length and overlapping shift turn 255 bytes into a complete chunk and keep the overflow |
| TextSenders.Sender.MakeRoom | session/pproto_server.c:333-345 | complete chunks are flushed when the next chunk may not fit |
| TextSenders.Sender.SendChar | session/pproto_server.c:308-345 | one converted character goes into the chunks, and where the open chunk then lies |
| TextSenders.Sender.SendStr | session/pproto_server.c:277-352 | appends exactly the converted characters and moves the cursor past them; refused exactly without room or for a character without length, unless the socket fails; all buffer writes are in bounds |
| TextSenders.Sender.SendStrEnd | session/pproto_server.c:355-366 | what is on the wire after the magic byte is the text in chunks of 255, a shorter one, and a single zero |
| TextSenders.Sender.SendText | session/pproto_server.c:248-366 | a whole run of begin, any number of parts and end emits the framed concatenation, and fails only when the socket fails or a part is refused, and always then |
| TextSenders.CursorByLength | session/pproto_server.c:308-345 | where the open chunk lies depends only on where the text started and on its length, from all but three starts modulo 256 |
| TextSenders.RefusedIff | session/pproto_server.c:292-297 | the lengths of text after which the room test fails, for a text begun with an empty buffer |
| TextSenders.AcceptedIff | session/pproto_server.c:277-352 | such a text is sent if and only if its characters have lengths and no part follows one of those lengths |
| TextSenders.StopsAt | session/pproto_server.c:299-314 | a byte that no UTF-8 character starts with ends the sending behind the characters before it |
| TextSenders.SendFails | session/pproto_server.c:292-297 | after 7900 plain characters any further part is refused |
| Receivers.Receiver.ReadPortion | session/pproto_server.c:79-104 | a portion of any size keeps the bytes still to be read |
| Receivers.Receiver.Get | client/pproto_client.c:108-130 | exactly the next bytes of the stream, across any number of portions |
| Receivers.Receiver.GetByte | session/pproto_server.c:118-128 | the next byte of the stream |
| Receivers.EightBytes | session/pproto_server.c:369-392 | the weights of the eight bytes of a length in network order |
| Receivers.Receiver.ReadStrBegin | session/pproto_server.c:369-392 | type byte, length of a long text in network order, first chunk length; fails only on a broken socket or a stream too short for them |
| ClientTexts.ClientText.ReadStrBegin | client/pproto_client.c:313-334 | the same on the client |
| ClientTexts.ClientText.ReadStr | client/pproto_client.c:338-368 | whole chunks that fit, at least one; the text read and the rest decode to the text; when it fails |
| ClientTexts.ClientText.ReadStrEnd | client/pproto_client.c:372-392 | the stream is left right after the terminator; a cancel byte is sent exactly when the text was unfinished |
| ClientTexts.ClientText.ReadText | client/pproto_client.c:338-368 | repeated reads with buffers of any sizes from 255 on give the whole text and leave the stream right behind it |
| ServerTexts.ServerText.ReadStrBegin | session/pproto_server.c:369-392 | the first chunk length becomes the number of bytes left; when it fails |
| ServerTexts.ServerText.Advance | session/pproto_server.c:453-469 | past one byte, and into the next chunk after the last byte of one |
| ServerTexts.ServerText.TakeByte | session/pproto_server.c:419-451 | one byte extends the character or completes and converts it |
| ServerTexts.ServerText.ReadStr | session/pproto_server.c:395-476 | reads the converted characters that ReadChars prescribes, counts them, and leaves the rest; fails only on an invalid character, a broken socket or an incomplete text, and always on the first |
| ServerTexts.ServerText.ReadChar | session/pproto_server.c:479-554 | one character, the end of the text with the last one, and the treatment of incomplete and invalid characters |
| ServerTexts.WrongByteIff | session/pproto_server.c:513-550 | bytes that begin no character are reported if and only if more of the text follows them |
| ServerTexts.CharsAddUp | session/pproto_server.c:479-554 | the character read and what is left make up the converted text, unless a wrong byte comes next |
| ServerTexts.ReadCharFails | session/pproto_server.c:544-549 | the byte 0x80 is reported before the letter A and not alone |
| ServerTexts.ServerText.ReadStrEnd | session/pproto_server.c:557-575 | the stream is left right after the terminator, from any place inside the text |
| ServerTexts.ServerText.ReadText | session/pproto_server.c:395-476 | repeated reads with buffers of any sizes from four on give the whole converted text |
| ServerTexts.PiecesAddUp | session/pproto_server.c:395-476 | what one call reads and what is left add up to the converted text, for every buffer size |
| ServerTexts.ReadsFull | session/pproto_server.c:419-476 | a call that leaves some of the text has room for less than four bytes |
| ServerTexts.CountIsStarts | session/pproto_server.c:431-449 | the characters counted are the bytes outside 0x80 to 0xBF between what a call was given and what it left, for whole valid texts |
| ServerTexts.RecodedValid | session/pproto_server.c:428-446 | what is read is a text of whole valid characters of the server's encoding, whatever was sent |
| ServerTexts.RecodedAppend | session/pproto_server.c:395-476 | the conversion goes on behind a text of whole valid characters |
| ServerTexts.NoCharacter | session/pproto_server.c:419-451 | a character that the text ends in is dropped without an error, and a wrong byte is an error |
| ServerTexts.SentRecoded | session/pproto_server.c:299-309 | for any two encodings the sender makes of a valid text in its encoding what a reader makes of it |
| ServerTexts.RecodedSame | session/pproto_server.c:428-446 | between equal encodings a text of whole valid characters is read unchanged |
| ServerTexts.SentUnchanged | session/pproto_server.c:299-309 | between equal encodings a text of whole valid characters is sent unchanged |
| TextExchange.ServerToClient | session/pproto_server.c:248-366 | end to end: the client reads exactly the text of any run of sends, for all portions and buffer sizes; over sockets that do not fail it succeeds if and only if no part is refused |
| TextExchange.ThereAndBack | session/pproto_server.c:395-476 | end to end: a valid text in a shared encoding survives sending and reading by characters, always over sockets that do not fail |
| TextExchange.PartAdds | session/pproto_server.c:277-352 | a part in the server's encoding adds its conversion, and a part in UTF-8 for a client with UTF-8 adds itself |
| NumberText.ValueOfDigits | common/strop.c:86-117 | the digits of a number denote the number |
| NumberText.ValueOfLow | common/strop.c:123-158 | the k lowest digits denote the remainder modulo 10^k |
| NumberText.NumeralCanonical | common/strop.c:86-117 | the notation of a number is made of digits, denotes it, and starts with a zero only for zero |
| Printer.FmtUint64 | common/strop.c:86-117 | the number without leading zeros, if it fits |
| Printer.FmtUint64Padded | common/strop.c:123-158 | exactly the lowest `pad` digits, with leading zeros |
| Printer.FindTop | common/strop.c:450-453 | the weight of the first digit in the top limb |
| Printer.TakeDigit | common/strop.c:492-505 | the limb and weight cursor yields the digits of the mantissa in order, and zeros after the last |
| Printer.PutBody | common/strop.c:488-534 | digits, point, zeros and digits of the two passes |
| Printer.FmtZero | common/strop.c:560-600 | the text of zero, in every format |
| Printer.FmtNonzero | common/strop.c:455-557 | the text of a nonzero decimal written is that of Printed, with and without exponent, or a question mark; the PrintedValues and PrintLex rows say what it denotes |
| Printer.FmtDecimalPse | common/strop.c:438-605 | the text of Printed is written exactly when it fits, and only then the position moves |
| PrintedValues.PlainDenotes | common/strop.c:471-534 | the text without an exponent has its point before the last m digits and denotes floor(v * 10^(e + m)) of them |
| PrintedValues.PlainLength | common/strop.c:475-534 | how many digits it has before and after the point |
| PrintedValues.ScientificDenotes | common/strop.c:471-552 | the digits before the exponent denote the mantissa cut to whole + m digits, and the exponent makes up for it |
| PrintedValues.QuestionIff | common/strop.c:455-563 | the question mark is printed if and only if the magnitude is at least 10^whole |
| PrintedValues.ZeroLength | common/strop.c:565-601 | how the text of zero is made up in every format |
| Lexers.Lexer.NextCh | parser/lexer.c:443-477 | the next character, its type, line and column |
| Lexers.Lexer.Reset | parser/lexer.c:510-520 | the lexer stands at the first character |
| Lexers.Lexer.ReadDigits | parser/lexer.c:625-662 | a run of digits is collected, unless more than 40 are kept |
| Lexers.Lexer.ReadInteger | parser/lexer.c:629-643 | integer mode: the value of the digits, refused exactly when a digit follows a value over the limit |
| Lexers.Lexer.Pack | parser/lexer.c:687-695 | the digits are packed into limbs with the same value |
| Lexers.Lexer.ReadExponent | parser/lexer.c:697-738 | the signed exponent is added, within the range of exponents |
| Lexers.Lexer.NextNumLiteral | parser/lexer.c:608-741 | value, digit count, exponent and end of a literal, or the error, in both modes |
| LexedTexts.LexScaled | parser/lexer.c:608-741 | digits, point, digits and an exponent with either letter, a sign and any number of digits: value, digit count and exponent, and exactly when they are refused |
| LexedTexts.ExponentNeedsSign | parser/lexer.c:697-738 | the letter without a sign behind it is an error |
| LexedTexts.IntegerRange | parser/lexer.c:629-643 | in integer mode exactly the numbers above 9223372036854775799 are refused |
| LexedTexts.ZerosSkipped | parser/lexer.c:608-624 | zeros before a number are skipped |
| Lexers.Lexer.NextIdentifier | parser/lexer.c:552-605 | the longest run of word characters, refused exactly beyond 256 bytes, and its upper-case form when it is all letters |
| ReservedWords.IndexCovers | parser/lexer.c:38-125 | the words with a first letter lie between its entry in the index and the next entry that is not zero |
| ReservedWords.MatchWord | parser/lexer.c:524-549 | comparing only the words of the first letter finds the number of a word if and only if the table has it |
| ReservedWords.TableSorted | parser/lexer.c:44-125 | the table is strictly sorted by character codes |
| Lexers.Lexer.NextWord | parser/lexer.c:800-831 | an identifier, or the number of a reserved word when its upper-case form is in the table |
| LexedTexts.WordCharacters | parser/lexer.c:128-258 | exactly which characters words are made of, which are letters and which are spaces |
| LexedTexts.LexToken | parser/lexer.c:780-863 | every other character than these, a space or a quote is a token of its own |
| LexedTexts.LexWord | parser/lexer.c:524-605 | a word of at most 256 bytes is read to its end, and is a reserved word exactly when it spells one, in letters of either case |
| Lexers.Lexer.NextStrLiteral | parser/lexer.c:744-775 | the text up to the closing quote with doubled quotes taken once, refused exactly without closing quote or beyond 1024 bytes |
| Lexers.QuoteAndRead | parser/lexer.c:744-775 | doubling the quotes of any text and reading it behind a quote gives the text and what follows it |
| Lexers.QuoteAndLex | parser/lexer.c:780-863 | a quoted text is lexed back exactly when it has at most 1024 bytes |
| LexedTexts.ReadIsQuoted | parser/lexer.c:744-775 | and only such texts are read: what was read with its quotes doubled, a quote, and no other quote behind it |
| LexedTexts.BytesNeeded | parser/lexer.c:565-575 | the bytes counted for a character are those UTF-8 needs for the bits of its code |
| Lexers.Lexer.Next | parser/lexer.c:780-863 | for every text: spaces skipped; then a number, an identifier, a reserved word, a string, a one-character token, or the end |
| Lexers.LiteralNormalIff | parser/lexer.c:625-685 | a literal has the digit count of its value exactly when the first digit kept is not zero |
| Lexers.LiteralNormalFails | parser/lexer.c:664-685 | the literal 0.05 has the digit count 2 and a value of one digit |
| PrintLex.PrintThenLex | common/strop.c:438-605 | lexing the printed text gives mantissa, digit count and exponent back, for every normalized nonzero decimal |
| PrintLex.PrintAndLex | parser/lexer.c:780-848 | printing into a buffer and lexing it, after a minus token for a negative number, gives the decimal limb for limb |
| PrintLex.PlainThenLex | common/strop.c:438-605 | lexing the text printed without an exponent gives floor(v * 10^(e + m)) with exponent -m, unless it has more than 40 digits |
| PrintLex.PlainKeepsValue | common/strop.c:471-534 | that is the value printed whenever m >= -e |
| PrintLex.ZeroThenLex | common/strop.c:565-601 | the text of zero is lexed as zero, in every format |
| PrintLex.PrintPlainAndLex | parser/lexer.c:780-848 | printing into a buffer without an exponent and lexing it gives the decimal's value |
| HashTable.Table.constructor | common/htable.c:26-43 | an empty table |
| HashTable.Table.Search | common/htable.c:79-114 | the entry stored for the key or nothing; stopping after `used` probes loses no key |
| HashTable.Table.Add | common/htable.c:46-74 | the map gains the entry, unless `n` entries were added |
| HashTable.Table.FindSlot | common/htable.c:53-64 | probing ends at the key's slot or at a free one, after passing other keys only |
| HashTable.PassedOccupied | common/htable.c:79-114 | probes that pass over other keys are no more than the slots in use |
| HashTable.KeyAhead | common/htable.c:79-114 | a stored key is neither behind the probes made nor beyond a gap |
| HashTable.PlacedReachable | common/htable.c:53-74 | storing where probing stopped keeps all probe runs free of gaps |
| HashTable.PlacedRepresents | common/htable.c:53-74 | storing where probing stopped updates the represented map at the key only |
| HashTable.LastAdded | common/htable.c:46-114 | after any run of adds the table holds the last entry stored for each key, and nothing else |
| HashTable.AddAll | common/htable.c:26-74 | a run of adds on a new table |
| HashTable.AddAllThenSearch | common/htable.c:26-114 | a search after any run of adds finds the last entry stored for the key, or nothing |
| HashTable.StringHash | common/htable.c:123-135 | the shift-and-add hash is a polynomial in 33 modulo 2^32 |
| HashTable.PolynomialIs | common/htable.c:123-135 | its coefficients are the bytes, behind 5381 in front |
| Calendar.ClosedIsSum | calendar/grigorian.c:130-140 | the closed form counts the days of all earlier years |
| Calendar.YearOfDay | calendar/grigorian.c:31-77 | extract_year is the year that holds the day, trunc_to_year its January 1, and is_leap_year its leap rule |
| Calendar.DayNumberOrder | calendar/grigorian.c:124-143 | day numbers are in the lexicographic order of dates |
| Calendar.DateUnique | calendar/grigorian.c:65-107 | a day has one date |
| Calendar.NextDay | calendar/grigorian.c:124-143 | every valid date is followed by a valid date one day later |
| Calendar.NextSecond | calendar/grigorian.c:109-143 | the second after 23:59:59 is the first one of the next date |
| Calendar.Epoch | calendar/grigorian.c:124-143 | January 1 of year 1 is day 0, and January 1 of 1970 day 719162 |
| Calendar.MonthOfDate | calendar/grigorian.c:79-107 | the month and the day loops find the same date |
| Calendar.ExtractMonthOfYear | calendar/grigorian.c:79-92 | the month whose days include the day of the year |
| Calendar.ExtractDayOfMonth | calendar/grigorian.c:95-107 | the day within the month whose days include the day of the year |
| Calendar.MakeDate | calendar/grigorian.c:124-143 | accepts exactly the valid dates from year 1 on, with the error codes; the day number in seconds in 64 bits |
| Calendar.MakeDateWithTime | calendar/grigorian.c:109-122 | also checks the time of day, first; every result code and the 64-bit value |
| Calendar.MakeThenExtractIff | calendar/grigorian.c:65-143 | a made timestamp has the date it was made from if and only if it fits 64 bits |
| Calendar.TimestampWraps | calendar/grigorian.c:124-143 | January 1 of the year 600,000,000,001 is valid and does not come back |
| Calendar.ExtractMonthAndDay | calendar/grigorian.c:79-107 | year, month and day extracted are a valid date with the timestamp's day number |
| Calendar.MakeThenExtract | calendar/grigorian.c:65-143 | making a date and extracting its fields gives the inputs back, if the timestamp fits 64 bits |
| Calendar.Rebuild | calendar/grigorian.c:65-143 | making a date from the extracted fields gives the start of the day, for every 64-bit timestamp |
| Sha3.GetBit | auth/auth_sha3.c:9-13 | the bit (x, y, z) of the packed state |
| Sha3.PutBit | auth/auth_sha3.c:46-55 | exactly one bit of the packed state is set or cleared |
| Sha3.ThetaStep | auth/auth_sha3.c:31-59 | theta of FIPS 202, section 3.2.1 |
| Sha3.RhoStep | auth/auth_sha3.c:61-97 | rho of section 3.2.2, with the offsets of table 2 |
| Sha3.PiStep | auth/auth_sha3.c:99-115 | pi of section 3.2.3 |
| Sha3.ChiStep | auth/auth_sha3.c:117-133 | chi of section 3.2.4 |
| Sha3.IotaStep | auth/auth_sha3.c:135-152 | iota of section 3.2.5 |
| Sha3.RoundStep | auth/auth_sha3.c:21-152 | one round of the permutation, for every state and round |
| Sha3.Permute | auth/auth_sha3.c:166-169 | the 24 rounds |
| Sha3Constants.TableIsRc | auth/auth_sha3.c:16-19 | all 256 bits of the constant table are the output of the feedback shift register of algorithm 5 |
| Sha3Constants.OffsetOfTurn | auth/auth_sha3.c:78-95 | the offsets along the walk over the lanes are those of table 2 |
| Sha3Constants.TurnFollows | auth/auth_sha3.c:92-94 | the walk visits the lanes in the order of their turns |
| Keccak.RhoInjective | auth/auth_sha3.c:61-97 | rho keeps distinct states distinct |
| Keccak.PiInjective | auth/auth_sha3.c:99-115 | pi keeps distinct states distinct |
| Keccak.ChiInjective | auth/auth_sha3.c:117-133 | chi keeps distinct states distinct |
| Keccak.IotaInjective | auth/auth_sha3.c:135-152 | iota keeps distinct states distinct |
| KeccakPermutation.DisplacedInjective | auth/auth_sha3.c:31-44 | what theta does to the column parities keeps distinct parities distinct |
| KeccakPermutation.ThetaInjective | auth/auth_sha3.c:31-59 | theta keeps distinct states distinct |
| KeccakPermutation.RoundsInjective | auth/auth_sha3.c:21-169 | so does any number of rounds |
| KeccakPermutation.AbsorbInjective | auth/auth_sha3.c:160-178 | so does absorbing any sequence of blocks |
| Keccak.AbsorbLast | auth/auth_sha3.c:160-178 | the sponge absorbs block after block |
| KeccakSteps.Parameters | auth/auth_sha3.c:155-186 | with lanes of 2^l bits: 25 lanes, 12 + 2l rounds, and a capacity of twice the 512 bits of the hash |
| KeccakSteps.PadShape | auth/auth_sha3.c:174-175 | the padding is a one, zeros and a one, up to the end of a block of 576 bits |
| KeccakSteps.ShortHash | auth/auth_sha3.c:155-186 | the hash of every message of one block is the front of the permuted state of message, suffix, padding and 1024 zeros |
| KeccakSteps.RhoMoves | auth/auth_sha3.c:61-97 | rho turns every lane by its offset |
| KeccakSteps.PiMoves | auth/auth_sha3.c:99-115 | pi moves the lane (x, y) to (y, 2x + 3y) |
| KeccakSteps.RoundAt | auth/auth_sha3.c:21-152 | one round as a formula for each bit: theta, the bits that rho and pi bring, chi, and the round constant |
| KeccakSteps.RoundsInTurn | auth/auth_sha3.c:166-169 | the rounds are applied in turn, each with its own constant, as the loop of algorithm 7 does |
| KeccakSteps.ThetaSpreads | auth/auth_sha3.c:31-59 | in every state exactly the bits that theta changes when one bit of the state is changed: that bit and two columns |
| KeccakSteps.ChiSpreads | auth/auth_sha3.c:117-133 | the same for chi, where it depends on the neighbours of the bit |
| KeccakSteps.IotaChanges | auth/auth_sha3.c:135-152 | iota changes exactly the bits of the round constant in lane (0, 0) |
| Sha3.PaddingInBytes | auth/auth_sha3.c:174-175 | the bytes 0x06 and 0x80 are the suffix 01 and the padding pad10*1, also when they share a byte |
| Sha3.Sha3Hash | auth/auth_sha3.c:155-186 | for every message the byte-wise absorption computes SHA3-512 as FIPS 202 defines it |

## Left out

- Expressions.CalcBaseExpr: of what the union held before, the limbs of its number are modelled; a failing decimal routine leaves a number that depends on them and on the operands only. String comparison never fails, as `common/string_literal.c` never returns an error.
- Expressions.CalcConstExpr: the right pointer of a NOT node must be null, as the tests build it; nodes are not shared.
- Lexers.Lexer.Next: the input is a sequence of character codes, with the byte lengths of UTF-8; the error reporter and the character source always succeed. The position that a lexem records is left out, that of the current character is kept.
- DecimalCmp.CmpIff: where digits are read in another order, the condition is on the numbers so read; it has no simpler form here.
- DecimalAdd.AddSub: the result record must differ from the operands.
- DecimalDiv.Div: the result record must differ from the operands.
- DecimalDiv.LongDivision: the work buffer holds eleven limbs for the scaled divisor; the C buffer is one limb shorter than what is written to it.
- HashTable.Table.Add: key bytes and data are values; ownership of the caller's memory is not modelled, nor is the 32-bit width of the counters.
- TextSenders.Sender.SendFully: sends everything or fails; a partial send before a failure is not recorded.
- TextSenders.Sender.SendStr: the text must not end inside a character; the code reads past the end of such a text.
- ServerTexts.ServerText.ReadStr: nothing is promised about a text whose terminator never arrives, except that the buffers stay valid.
- Printer.PutBody: the two passes of the outer loop are written one after the other.
- Multi-byte sends of numbers and headers, messages other than texts, encoding names and lookup tables, logging, sockets, polling.
- Date and timestamp format templates, `strop_fmt_decimal` templates, `strop_cmp`, `strop_len`.
- The parser, semantic analysis, the interactive client, configuration, authentication storage, floating point: shallow or input and output.
