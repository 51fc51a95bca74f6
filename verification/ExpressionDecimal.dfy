/** Folding with the decimal routines themselves, and what the memory of an operator node does to it. */
module DecimalFolding {
  import opened Decimals
  import opened Folding
  import opened Limbs
  import opened Options
  import DecimalAdd
  import DecimalCmp
  import DecimalDiv
  import DecimalMul
  import StringLiterals

  /** An arithmetic operation on normalized operands. */
  function ArithResult(op: Op, a: Num, b: Num, before: Residue): Result
    requires IsArithmetic(op) && Normalized(a) && Normalized(b)
  {
    match op
    case Mul => DecimalMul.MulResult(a, b)
    case Div => DecimalDiv.DivResult(a, b, before)
    case Add => DecimalAdd.AddSubResult(a, b, 1)
    case _ => DecimalAdd.AddSubResult(a, b, -1)
  }

  /** The evaluator's routines: the decimal ones where they are modelled, `other` for operands that are not
      normalized and for what a failure leaves behind, and the comparison of string literals. */
  function DecimalRoutines(other: Routines): Routines {
    Routines(
      (op: Op, a: Num, b: Num, before: Residue) =>
        if IsArithmetic(op) && Normalized(a) && Normalized(b) && ArithResult(op, a, b, before).Done? then
          Outcome(true, ArithResult(op, a, b, before).value)
        else if IsArithmetic(op) && Normalized(a) && Normalized(b) then
          Outcome(false, other.arith(op, a, b, before).num)
        else other.arith(op, a, b, before),
      (a: Num, b: Num) =>
        if a.n >= 0 && b.n >= 0 && DecimalCmp.Verdict(a, b).Some? then DecimalCmp.Verdict(a, b).value
        else other.compareNum(a, b),
      (a: seq<bv8>, b: seq<bv8>) => StringLiterals.Compare(a, b))
  }

  /** An operation that leaves the same number whatever the node held before. */
  ghost predicate Steadfast(r: Routines, op: Op, a: Num, b: Num) {
    forall x: Residue, y: Residue ::
      var o, p := r.arith(op, a, b, x), r.arith(op, a, b, y);
      o.ok == p.ok && (o.ok ==> o.num == p.num)
  }

  /** The quotient has limbs that decimal_div does not write. */
  predicate LeavesLimbs(a: Num, b: Num)
    requires Normalized(a) && Normalized(b)
  {
    a.n > 0 && b.n > 0 && DecimalDiv.Stale(a, b) > 0 && DecimalDiv.DivResult(a, b, DecimalDiv.LowestLimb(0)).Done?
  }

  lemma ArithIs(other: Routines, op: Op, a: Num, b: Num, x: Residue)
    requires IsArithmetic(op) && Normalized(a) && Normalized(b)
    ensures var o, q := DecimalRoutines(other).arith(op, a, b, x), ArithResult(op, a, b, x);
            o.ok == q.Done? && (o.ok ==> o.num == q.value)
  {
    hide Normalized, ArithResult;
  }

  lemma QuotientsOf(a: Num, b: Num, x: Residue, y: Residue)
    requires Normalized(a) && Normalized(b)
    ensures var o, p := DecimalDiv.DivResult(a, b, x), DecimalDiv.DivResult(a, b, y);
            && o.Done? == p.Done?
            && (a.n > 0 && b.n > 0 ==> DecimalDiv.Stale(a, b) < PARTS)
            && (o.Done? && (a.n <= 0 || b.n <= 0 || DecimalDiv.Stale(a, b) == 0) ==> o.value == p.value)
            && (o.Done? && a.n > 0 && b.n > 0 ==>
                  p.value.v - o.value.v == Val(y[..DecimalDiv.Stale(a, b)]) - Val(x[..DecimalDiv.Stale(a, b)]))
  {
    hide Pow10, Digits, Val, Cut, DecimalDiv.Scaling, DecimalDiv.Stale, DecimalDiv.Quotient, Normalized;
    DecimalAdd.NormalizedDigits(a);
    DecimalAdd.NormalizedDigits(b);
    if a.n > 0 && b.n > 0 {
      DecimalDiv.ScalingRange(a, b);
      ValEmpty(x[..0]);
      ValEmpty(y[..0]);
    }
  }

  /** Only a division that leaves limbs unwritten depends on what the node held before. */
  lemma SteadfastIff(other: Routines, op: Op, a: Num, b: Num)
    requires IsArithmetic(op) && Normalized(a) && Normalized(b)
    ensures Steadfast(DecimalRoutines(other), op, a, b) <==> op != Div || !LeavesLimbs(a, b)
  {
    hide Normalized, DecimalRoutines, DecimalDiv.DivResult, DecimalDiv.Stale, Val;
    forall x: Residue
      ensures var o, q := DecimalRoutines(other).arith(op, a, b, x), ArithResult(op, a, b, x);
              o.ok == q.Done? && (o.ok ==> o.num == q.value)
    {
      ArithIs(other, op, a, b, x);
    }
    if op == Div {
      var zero: Residue, one: Residue := DecimalDiv.LowestLimb(0), DecimalDiv.LowestLimb(1);
      QuotientsOf(a, b, zero, one);
      if LeavesLimbs(a, b) {
        LowestDiffers(DecimalDiv.Stale(a, b));
        var o, p := DecimalRoutines(other).arith(op, a, b, zero), DecimalRoutines(other).arith(op, a, b, one);
        assert o.ok && p.ok && o.num.v != p.num.v;
      } else {
        forall x: Residue
          ensures var o, p := DecimalDiv.DivResult(a, b, zero), DecimalDiv.DivResult(a, b, x);
                  o.Done? == p.Done? && (o.Done? ==> o == p)
        {
          QuotientsOf(a, b, zero, x);
        }
      }
    }
  }

  lemma LowestDiffers(u: nat)
    requires 0 < u < PARTS
    ensures Val(DecimalDiv.LowestLimb(1)[..u]) == Val(DecimalDiv.LowestLimb(0)[..u]) + 1
  {
    var zero, one := DecimalDiv.LowestLimb(0)[..u], DecimalDiv.LowestLimb(1)[..u];
    assert zero[1..] == one[1..];
  }

  // ----- Whole trees -----

  predicate SameButResidue(a: Content, b: Content) {
    a == b || (a.Operator? && b.Operator? && a.op == b.op)
  }

  /** The same tree, but for what the memory of its operator nodes held before. */
  predicate Alike<N>(t: Tree<N>, u: Tree<N>) {
    && t.Node? == u.Node?
    && (t.Node? ==> SameButResidue(t.content, u.content) && Alike(t.left, u.left) && Alike(t.right, u.right))
  }

  /** Every operation that the evaluation of the tree comes to is steadfast. */
  ghost predicate Settled<N>(r: Routines, env: seq<bv8> -> Option<Content>,
                             between: (Content, Content) -> Option<Content>, t: Tree<N>)
  {
    IsOp(t) ==>
      && Settled(r, env, between, t.left) && Settled(r, env, between, t.right)
      && var a, b := Eval(r, env, between, t.left), Eval(r, env, between, t.right);
         (IsArithmetic(t.content.op) && a.Some? && b.Some? && a.value.Number? && b.value.Number? ==>
            Steadfast(r, t.content.op, a.value.num, b.value.num))
  }

  /** The meaning of such a tree does not depend on what the memory of its nodes held before. */
  lemma {:induction false} SettledMeaning<N>(r: Routines, env: seq<bv8> -> Option<Content>,
                                             between: (Content, Content) -> Option<Content>, t: Tree<N>, u: Tree<N>)
    requires Alike(t, u) && Settled(r, env, between, t)
    ensures Eval(r, env, between, t) == Eval(r, env, between, u)
  {
    if IsOp(t) {
      SettledMeaning(r, env, between, t.left, u.left);
      SettledMeaning(r, env, between, t.right, u.right);
      var a, b := Eval(r, env, between, t.left), Eval(r, env, between, t.right);
      if a.Some? && b.Some? {
        SteadfastApply(r, t.content.op, t.content.residue, u.content.residue, a.value, b.value);
      }
    }
  }

  lemma SteadfastApply(r: Routines, op: Op, x: Residue, y: Residue, a: Content, b: Content)
    requires IsArithmetic(op) && a.Number? && b.Number? ==> Steadfast(r, op, a.num, b.num)
    ensures Apply(r, op, x, a, b) == Apply(r, op, y, a, b)
  {
  }

  lemma {:induction false} AlikeShape<N>(t: Tree<N>, u: Tree<N>)
    requires Alike(t, u)
    ensures Proper(t) ==> Proper(u)
    ensures Ground(t) ==> Ground(u)
  {
    if t.Node? {
      AlikeShape(t.left, u.left);
      AlikeShape(t.right, u.right);
    }
  }

  /** Folded constants do not depend on it either. */
  lemma SettledFolds<N>(r: Routines, env: seq<bv8> -> Option<Content>,
                        between: (Content, Content) -> Option<Content>, t: Tree<N>, u: Tree<N>)
    requires t.Node? && Proper(t) && Ground(t) && Alike(t, u) && Settled(r, env, between, t)
    ensures Fold(r, t).1 == Fold(r, u).1
    ensures Fold(r, t).1 ==> Fold(r, t).0.content == Fold(r, u).0.content
  {
    AlikeShape(t, u);
    SettledMeaning(r, env, between, t, u);
    GroundFoldsToValue(r, env, between, t);
    GroundFoldsToValue(r, env, between, u);
  }

  /** 1 / 10^12, in a node whose memory held the limb `low`. */
  function Trillionth(low: int): Tree<int> {
    Node(0, Operator(Div, DecimalDiv.LowestLimb(low)), Node(1, Number(DecimalDiv.ONE), Empty, Empty),
         Node(2, Number(DecimalDiv.Trillion()), Empty, Empty))
  }

  /** The two foldings succeed and differ. */
  lemma FoldFails(other: Routines)
    ensures var r, t, u := DecimalRoutines(other), Trillionth(0), Trillionth(1);
            && Alike(t, u) && Fold(r, t).1 && Fold(r, u).1
            && Fold(r, t).0.content.Number? && Fold(r, u).0.content.Number?
            && Fold(r, t).0.content != Fold(r, u).0.content
  {
    hide Normalized, Pow10, Val, DecimalDiv.Stale, DecimalRoutines, DecimalDiv.DivResult;
    DecimalDiv.DivFails();
    DecimalDiv.TrillionScaling();
    var a, b := DecimalDiv.ONE, DecimalDiv.Trillion();
    QuotientsOf(a, b, DecimalDiv.LowestLimb(0), DecimalDiv.LowestLimb(1));
    LowestDiffers(1);
    ArithIs(other, Div, a, b, DecimalDiv.LowestLimb(0));
    ArithIs(other, Div, a, b, DecimalDiv.LowestLimb(1));
  }
}
