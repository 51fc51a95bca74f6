/** What one operator over two values folds to: comparisons, arithmetic, truth tables, and errors. */
module FoldedValues {
  import opened Decimals
  import opened DecimalFolding
  import opened Folding
  import opened Limbs
  import opened Options
  import DecimalAdd
  import DecimalCmp
  import DecimalDiv
  import DecimalMul
  import StringLiterals

  function Leaf(c: Content): Tree<int> {
    Node(1, c, Empty, Empty)
  }

  /** The constant that `a op b` folds to, when it folds. */
  function Folded(other: Routines, op: Op, residue: Residue, a: Content, b: Content): Option<Content> {
    var t := Node(0, Operator(op, residue), Leaf(a), if op == Not then Empty else Leaf(b));
    var (folded, ok) := Fold(DecimalRoutines(other), t);
    if ok && IsValue(folded.content) then Some(folded.content) else None
  }

  /** Folding an operator over values applies it. */
  lemma FoldedIs(other: Routines, op: Op, residue: Residue, a: Content, b: Content)
    requires IsValue(a) && IsValue(b) && op != Between
    ensures Folded(other, op, residue, a, b)
         == Apply(DecimalRoutines(other), op, residue, a, if op == Not then Null else b)
  {
    hide Apply, Calculated, DecimalRoutines;
    var r := DecimalRoutines(other);
    LeafFolds(r, a);
    LeafFolds(r, b);
    CalculatedCases(r, op, residue, a, if op == Not then Null else b);
  }

  lemma LeafFolds(r: Routines, c: Content)
    requires !c.Operator?
    ensures Fold(r, Leaf(c)) == (Leaf(c), true)
  {
  }

  // ----- Comparisons -----

  lemma CompareNumIs(other: Routines, a: Num, b: Num)
    requires Normalized(a) && Normalized(b)
    ensures a.n >= 0 && b.n >= 0
    ensures DecimalCmp.Verdict(a, b).Some? ==> DecimalRoutines(other).compareNum(a, b) == DecimalCmp.Verdict(a, b).value
  {
    hide DecimalCmp.Verdict;
  }

  lemma SignDecides(x: int, y: int)
    ensures DecimalCmp.Sign(x - y) == 0 <==> x == y
    ensures DecimalCmp.Sign(x - y) > 0 <==> x > y
    ensures DecimalCmp.Sign(x - y) < 0 <==> x < y
  {
  }

  /** Comparisons of numbers fold to the comparisons of their values, where decimal_cmp orders them. */
  lemma NumbersCompare(other: Routines, residue: Residue, a: Num, b: Num)
    requires Normalized(a) && Normalized(b)
    ensures a.e >= MIN_EXPONENT && b.e >= MIN_EXPONENT && a.n >= 0 && b.n >= 0
    ensures DecimalCmp.ComparesRight(a, b) ==>
      var x, y := DecimalAdd.Value(a), DecimalAdd.Value(b);
      && Folded(other, Eq, residue, Number(a), Number(b)) == Some(Boolean(x == y))
      && Folded(other, Ne, residue, Number(a), Number(b)) == Some(Boolean(x != y))
      && Folded(other, Gt, residue, Number(a), Number(b)) == Some(Boolean(x > y))
      && Folded(other, Ge, residue, Number(a), Number(b)) == Some(Boolean(x >= y))
      && Folded(other, Lt, residue, Number(a), Number(b)) == Some(Boolean(x < y))
      && Folded(other, Le, residue, Number(a), Number(b)) == Some(Boolean(x <= y))
      && Folded(other, Is, residue, Number(a), Number(b)) == Some(Boolean(x == y))
      && Folded(other, IsNot, residue, Number(a), Number(b)) == Some(Boolean(x != y))
  {
    hide Folded, Normalized, DecimalRoutines, DecimalCmp.Verdict, DecimalCmp.ComparesRight, DecimalAdd.Value, DecimalCmp.Sign;
    CompareNumIs(other, a, b);
    DecimalCmp.CmpIff(a, b);
    SignDecides(DecimalAdd.Value(a), DecimalAdd.Value(b));
    FoldedIs(other, Eq, residue, Number(a), Number(b));
    FoldedIs(other, Ne, residue, Number(a), Number(b));
    FoldedIs(other, Gt, residue, Number(a), Number(b));
    FoldedIs(other, Ge, residue, Number(a), Number(b));
    FoldedIs(other, Lt, residue, Number(a), Number(b));
    FoldedIs(other, Le, residue, Number(a), Number(b));
    FoldedIs(other, Is, residue, Number(a), Number(b));
    FoldedIs(other, IsNot, residue, Number(a), Number(b));
  }

  /** Where decimal_cmp has a verdict but a wrong one, some comparison folds wrong. */
  lemma NumbersCompareOnlyIf(other: Routines, residue: Residue, a: Num, b: Num)
    requires Normalized(a) && Normalized(b)
    ensures a.e >= MIN_EXPONENT && b.e >= MIN_EXPONENT && a.n >= 0 && b.n >= 0
    ensures var x, y := DecimalAdd.Value(a), DecimalAdd.Value(b);
            DecimalCmp.Verdict(a, b).Some? && !DecimalCmp.ComparesRight(a, b) ==>
              || Folded(other, Gt, residue, Number(a), Number(b)) != Some(Boolean(x > y))
              || Folded(other, Lt, residue, Number(a), Number(b)) != Some(Boolean(x < y))
  {
    hide Folded, Normalized, DecimalRoutines, DecimalCmp.Shifted, DecimalCmp.ComparesRight, DecimalAdd.Value;
    CompareNumIs(other, a, b);
    DecimalCmp.CmpIff(a, b);
    FoldedIs(other, Gt, residue, Number(a), Number(b));
    FoldedIs(other, Lt, residue, Number(a), Number(b));
    VerdictIsSign(a, b);
  }

  lemma VerdictIsSign(a: Num, b: Num)
    requires Normalized(a) && Normalized(b) && a.n >= 0 && b.n >= 0
    ensures DecimalCmp.Verdict(a, b).Some? ==> -1 <= DecimalCmp.Verdict(a, b).value <= 1
  {
    hide DecimalCmp.Shifted, DecimalCmp.FirstWeight;
  }

  lemma TextFolds(other: Routines, op: Op, residue: Residue, a: seq<bv8>, b: seq<bv8>)
    requires IsComparison(op) || op == Is || op == IsNot
    ensures IsComparison(op) ==>
      Folded(other, op, residue, Text(a), Text(b)) == Some(Boolean(Relates(op, StringLiterals.Compare(a, b))))
    ensures op == Is ==>
      Folded(other, op, residue, Text(a), Text(b)) == Some(Boolean(StringLiterals.Compare(a, b) == 0))
    ensures op == IsNot ==>
      Folded(other, op, residue, Text(a), Text(b)) == Some(Boolean(StringLiterals.Compare(a, b) != 0))
  {
    hide Folded, StringLiterals.Compare, Relates;
    FoldedIs(other, op, residue, Text(a), Text(b));
  }

  /** Comparisons of strings fold to the order of a dictionary. */
  lemma StringsCompare(other: Routines, residue: Residue, a: seq<bv8>, b: seq<bv8>)
    ensures Folded(other, Eq, residue, Text(a), Text(b)) == Some(Boolean(a == b))
    ensures Folded(other, Ne, residue, Text(a), Text(b)) == Some(Boolean(a != b))
    ensures Folded(other, Gt, residue, Text(a), Text(b)).Some? && Folded(other, Ge, residue, Text(a), Text(b)).Some?
    ensures Folded(other, Gt, residue, Text(a), Text(b)) == Some(Boolean(true)) <==> StringLiterals.Before(b, a)
    ensures Folded(other, Ge, residue, Text(a), Text(b)) == Some(Boolean(true)) <==> a == b || StringLiterals.Before(b, a)
    ensures Folded(other, Lt, residue, Text(a), Text(b)) == Some(Boolean(true)) <==> StringLiterals.Before(a, b)
    ensures Folded(other, Le, residue, Text(a), Text(b)) == Some(Boolean(true)) <==> a == b || StringLiterals.Before(a, b)
    ensures Folded(other, Is, residue, Text(a), Text(b)) == Some(Boolean(a == b))
    ensures Folded(other, IsNot, residue, Text(a), Text(b)) == Some(Boolean(a != b))
  {
    hide Folded, StringLiterals.Before, StringLiterals.Compare;
    StringLiterals.CompareOrder(a, b);
    TextFolds(other, Eq, residue, a, b);
    TextFolds(other, Ne, residue, a, b);
    TextFolds(other, Gt, residue, a, b);
    TextFolds(other, Ge, residue, a, b);
    TextFolds(other, Lt, residue, a, b);
    TextFolds(other, Le, residue, a, b);
    TextFolds(other, Is, residue, a, b);
    TextFolds(other, IsNot, residue, a, b);
  }

  // ----- Booleans, NULL, errors -----

  /** The truth tables. IS holds for two true operands only, so `FALSE IS FALSE` folds to FALSE. */
  lemma TruthTables(other: Routines, residue: Residue, p: bool, q: bool)
    ensures Folded(other, And, residue, Boolean(p), Boolean(q)) == Some(Boolean(p && q))
    ensures Folded(other, Or, residue, Boolean(p), Boolean(q)) == Some(Boolean(p || q))
    ensures Folded(other, Not, residue, Boolean(p), Null) == Some(Boolean(!p))
    ensures Folded(other, Is, residue, Boolean(p), Boolean(q)) == Some(Boolean(p == q)) <==> p || q
    ensures Folded(other, IsNot, residue, Boolean(p), Boolean(q)) == Some(Boolean(p != q)) <==> p || q
  {
    hide Folded, DecimalRoutines;
    FoldedIs(other, And, residue, Boolean(p), Boolean(q));
    FoldedIs(other, Or, residue, Boolean(p), Boolean(q));
    FoldedIs(other, Not, residue, Boolean(p), Null);
    FoldedIs(other, Is, residue, Boolean(p), Boolean(q));
    FoldedIs(other, IsNot, residue, Boolean(p), Boolean(q));
  }

  /** NULL makes arithmetic NULL and comparisons false; only NULL is NULL. */
  lemma WithNull(other: Routines, op: Op, residue: Residue, a: Content, b: Content)
    requires IsValue(a) && IsValue(b) && (a.Null? || b.Null?)
    ensures op in {Mul, Div, Add, Sub} ==> Folded(other, op, residue, a, b) == Some(Null)
    ensures op in {Eq, Ne, Gt, Ge, Lt, Le} ==> Folded(other, op, residue, a, b) == Some(Boolean(false))
    ensures op == Is ==> Folded(other, op, residue, a, b) == Some(Boolean(a.Null? && b.Null?))
    ensures op == IsNot ==> Folded(other, op, residue, a, b) == Some(Boolean(!a.Null? || !b.Null?))
  {
    hide Folded, DecimalRoutines;
    if op != Between {
      FoldedIs(other, op, residue, a, b);
    }
  }

  /** Values of different kinds are never the same. */
  lemma KindsDiffer(other: Routines, residue: Residue, a: Content, b: Content)
    requires IsValue(a) && IsValue(b) && !SameKind(a, b)
    ensures Folded(other, Is, residue, a, b) == Some(Boolean(false))
    ensures Folded(other, IsNot, residue, a, b) == Some(Boolean(true))
  {
    hide Folded, DecimalRoutines;
    FoldedIs(other, Is, residue, a, b);
    FoldedIs(other, IsNot, residue, a, b);
  }

  /** Which operators fail on which values; the node stays as it was then. */
  lemma MismatchIff(other: Routines, op: Op, residue: Residue, a: Content, b: Content)
    requires IsValue(a) && IsValue(b) && op != Between && !(op in {Mul, Div, Add, Sub} && a.Number? && b.Number?)
    ensures Folded(other, op, residue, a, b).None? <==>
      match op
      case Mul | Div | Add | Sub => !a.Null? && !b.Null?
      case Eq | Ne | Gt | Ge | Lt | Le =>
        !a.Null? && !b.Null? && !(a.Number? && b.Number?) && !(a.Text? && b.Text?)
      case Is | IsNot => false
      case And | Or => !a.Boolean? || !b.Boolean?
      case _ => !a.Boolean?
    ensures Folded(other, op, residue, a, b).None? ==>
      var t := Node(0, Operator(op, residue), Leaf(a), if op == Not then Empty else Leaf(b));
      Fold(DecimalRoutines(other), t) == (t, false)
  {
    hide Folded, DecimalRoutines;
    FoldedIs(other, op, residue, a, b);
  }

  // ----- Arithmetic -----

  lemma ArithFolds(other: Routines, op: Op, residue: Residue, a: Num, b: Num)
    requires IsArithmetic(op) && Normalized(a) && Normalized(b)
    ensures Folded(other, op, residue, Number(a), Number(b))
         == var r := ArithResult(op, a, b, residue); if r.Done? then Some(Number(r.value)) else None
  {
    hide Folded, DecimalRoutines, ArithResult, Normalized;
    FoldedIs(other, op, residue, Number(a), Number(b));
    ArithIs(other, op, a, b, residue);
  }

  /** The sum of two numbers: refused exactly beyond the limit, and precise to 10^-38 of the larger one. */
  lemma SumFolds(other: Routines, residue: Residue, a: Num, b: Num)
    requires Normalized(a) && Normalized(b)
    ensures a.e >= MIN_EXPONENT && b.e >= MIN_EXPONENT
    ensures var sum := DecimalAdd.Value(a) + DecimalAdd.Value(b);
            var f := Folded(other, Add, residue, Number(a), Number(b));
            && (f.Some? <==> Absolute(sum) < DecimalAdd.Limit())
            && (f.Some? ==>
                  && f.value.Number? && Normalized(f.value.num) && f.value.num.e >= MIN_EXPONENT
                  && Absolute(DecimalAdd.Value(f.value.num) - sum) * Pow10(POSITIONS - 2)
                       <= DecimalAdd.Larger(DecimalAdd.Magnitude(a), DecimalAdd.Magnitude(b)))
  {
    hide Folded, Pow10, DecimalAdd.Value, DecimalAdd.Magnitude, DecimalAdd.Limit, DecimalAdd.Larger, DecimalAdd.AddSubResult;
    ArithFolds(other, Add, residue, a, b);
    DecimalAdd.AddSubDoneIff(a, b, 1);
    if DecimalAdd.AddSubResult(a, b, 1).Done? {
      DecimalAdd.AddSubNormalized(a, b, 1);
      DecimalAdd.ErrorBound(a, b, 1);
    }
  }

  /** The difference likewise, with the wrong sign where decimal_sub has it. */
  lemma DifferenceFolds(other: Routines, residue: Residue, a: Num, b: Num)
    requires Normalized(a) && Normalized(b)
    ensures a.e >= MIN_EXPONENT && b.e >= MIN_EXPONENT
    ensures var difference := DecimalAdd.Value(a) - DecimalAdd.Value(b);
            var near := if DecimalAdd.SubtractsRight(a, b) then difference else 0 - difference;
            var f := Folded(other, Sub, residue, Number(a), Number(b));
            && (f.Some? <==> Absolute(difference) < DecimalAdd.Limit())
            && (f.Some? ==>
                  && f.value.Number? && Normalized(f.value.num) && f.value.num.e >= MIN_EXPONENT
                  && Absolute(DecimalAdd.Value(f.value.num) - near) * Pow10(POSITIONS - 2)
                       <= DecimalAdd.Larger(DecimalAdd.Magnitude(a), DecimalAdd.Magnitude(b)))
  {
    hide Folded, Pow10, DecimalAdd.Value, DecimalAdd.Magnitude, DecimalAdd.Limit, DecimalAdd.Larger,
      DecimalAdd.AddSubResult, DecimalAdd.SubtractsRight;
    ArithFolds(other, Sub, residue, a, b);
    DecimalAdd.AddSubDoneIff(a, b, -1);
    if DecimalAdd.AddSubResult(a, b, -1).Done? {
      DecimalAdd.AddSubNormalized(a, b, -1);
      DecimalAdd.ErrorBound(a, b, -1);
    }
  }

  /** The product: the exact signed product truncated toward zero, where decimal_mul truncates right. */
  lemma ProductFolds(other: Routines, residue: Residue, a: Num, b: Num)
    requires Normalized(a) && Normalized(b) && a.v >= 0 && b.v >= 0
    requires DecimalMul.TruncatesExactly(DecimalMul.Product(a, b))
    ensures var f := Folded(other, Mul, residue, Number(a), Number(b));
            f.Some? ==>
              && f.value.Number? && Normalized(f.value.num) && f.value.num.e >= a.e + b.e
              && DecimalMul.TowardZero(Significand(a) * Significand(b), Pow10(f.value.num.e - a.e - b.e),
                                       Significand(f.value.num))
  {
    hide Folded, Pow10, DecimalMul.TowardZero, DecimalMul.MulInto, DecimalMul.TruncatesExactly, DecimalMul.Product, Digits;
    ArithFolds(other, Mul, residue, a, b);
    if DecimalMul.MulResult(a, b).Done? {
      DecimalMul.MulWithinUnit(a, b);
      DecimalMul.MulTowardZeroIff(a, b);
    }
  }

  /** The quotient: times the divisor it falls short of the scaled dividend by less than one divisor, where
      decimal_div writes all limbs. */
  lemma QuotientFolds(other: Routines, residue: Residue, a: Num, b: Num)
    requires Normalized(a) && Normalized(b) && a.n > 0 && b.n > 0 && DecimalDiv.Stale(a, b) == 0
    ensures var f := Folded(other, Div, residue, Number(a), Number(b));
            var k := DecimalDiv.Scaling(a, b);
            f.Some? ==>
              && k >= 0 && f.value.Number? && Normalized(f.value.num) && f.value.num.e == a.e - b.e - 4 * k
              && var product, dividend := Significand(f.value.num) * Significand(b), Significand(a) * Pow10(4 * k);
                 if dividend > 0 then 0 < product <= dividend < product + b.v
                 else product - b.v < dividend <= product < 0
  {
    hide Folded, Pow10, DecimalDiv.DivResult, DecimalDiv.Scaling, DecimalDiv.Stale, Digits, Significand;
    ArithFolds(other, Div, residue, a, b);
    if DecimalDiv.DivResult(a, b, residue).Done? {
      DecimalDiv.DivTruncates(a, b, residue);
      DecimalDiv.DivTowardZero(a, b, residue);
    }
  }

  /** Division by zero is an error. */
  lemma ZeroDivisor(other: Routines, residue: Residue, a: Num, b: Num)
    requires Normalized(a) && Normalized(b) && b.v == 0
    ensures Folded(other, Div, residue, Number(a), Number(b)) == None
  {
    hide Folded, DecimalDiv.DivResult;
    ArithFolds(other, Div, residue, a, b);
    DecimalDiv.DivOfZero(a, b, residue);
  }

  /** An operator over a name, and BETWEEN, stay as they are. */
  lemma StaysUnfolded(other: Routines, op: Op, residue: Residue, a: Content, b: Content)
    requires !a.Operator? && !b.Operator? && (a.Name? || (op != Not && b.Name?) || op == Between)
    ensures var t := Node(0, Operator(op, residue), Leaf(a), if op == Not then Empty else Leaf(b));
            Fold(DecimalRoutines(other), t) == (t, true)
  {
    hide DecimalRoutines;
  }
}
