/** The meaning of expression trees and the recursive form of constant folding. */
module Folding {
  import opened Decimals
  import opened Limbs
  import opened Options

  datatype Op = Mul | Div | Add | Sub | Eq | Ne | Gt | Ge | Lt | Le | Is | IsNot | Between | Not | And | Or

  /** The limbs of the number in a union that holds an operator: what was in that memory before. */
  type Residue = s: seq<int> | |s| == PARTS witness seq(PARTS, _ => 0)

  /** The tag of a node together with the union member that the tag selects. */
  datatype Content =
    | Operator(op: Op, residue: Residue)
    | Number(num: Num)
    | Text(str: seq<bv8>)
    | Name(name: seq<bv8>)
    | Null
    | Boolean(b: bool)

  /** Result code of a decimal operation, and what it leaves in the result record. */
  datatype Outcome = Outcome(ok: bool, num: Num)

  /** The decimal and string routines that the evaluator calls. The arithmetic ones also see what the
      limbs of the result record held before. */
  datatype Routines = Routines(
    arith: (Op, Num, Num, Residue) -> Outcome,
    compareNum: (Num, Num) -> int,
    compareStr: (seq<bv8>, seq<bv8>) -> int)

  predicate IsArithmetic(op: Op) {
    op in {Mul, Div, Add, Sub}
  }

  predicate IsComparison(op: Op) {
    op in {Eq, Ne, Gt, Ge, Lt, Le}
  }

  predicate IsValue(c: Content) {
    !c.Operator? && !c.Name?
  }

  predicate SameKind(a: Content, b: Content) {
    (a.Number? <==> b.Number?) && (a.Text? <==> b.Text?) && (a.Null? <==> b.Null?) && (a.Boolean? <==> b.Boolean?)
  }

  /** The relation that a comparison operator denotes on the sign of a three-way comparison. */
  predicate Relates(op: Op, sign: int)
    requires IsComparison(op)
  {
    match op
    case Eq => sign == 0
    case Ne => sign != 0
    case Gt => sign > 0
    case Ge => sign >= 0
    case Lt => sign < 0
    case Le => sign <= 0
  }

  /** The value of an operator applied to values; `None` is an error. `b` is not used by NOT. */
  function Apply(r: Routines, op: Op, residue: Residue, a: Content, b: Content): Option<Content> {
    if IsArithmetic(op) then
      if a.Number? && b.Number? then
        var o := r.arith(op, a.num, b.num, residue);
        if o.ok then Some(Number(o.num)) else None
      else if a.Null? || b.Null? then Some(Null)
      else None
    else if IsComparison(op) then
      if a.Number? && b.Number? then Some(Boolean(Relates(op, r.compareNum(a.num, b.num))))
      else if a.Text? && b.Text? then Some(Boolean(Relates(op, r.compareStr(a.str, b.str))))
      else if a.Null? || b.Null? then Some(Boolean(false))
      else None
    else match op
      case Is => Some(Boolean(Same(r, a, b)))
      case IsNot => Some(Boolean(!Same(r, a, b)))
      case And => if a.Boolean? && b.Boolean? then Some(Boolean(a.b && b.b)) else None
      case Or => if a.Boolean? && b.Boolean? then Some(Boolean(a.b || b.b)) else None
      case Not => if a.Boolean? then Some(Boolean(!a.b)) else None
      case Between => None
  }

  /** IS: values of one kind that compare equal; two booleans are the same when both are true. */
  predicate Same(r: Routines, a: Content, b: Content) {
    match (a, b)
    case (Number(x), Number(y)) => r.compareNum(x, y) == 0
    case (Text(x), Text(y)) => r.compareStr(x, y) == 0
    case (Boolean(x), Boolean(y)) => x && y
    case (Null, Null) => true
    case _ => false
  }

  /** An operator node waits while an operand it uses is a name or an unfolded operator. */
  predicate Waits(op: Op, a: Content, b: Content) {
    !IsValue(a) || (op != Not && !IsValue(b)) || op == Between
  }

  /** What evaluating an operator node with operand contents `a` and `b` leaves in it, and its success. */
  function Calculated(r: Routines, op: Op, residue: Residue, a: Content, b: Content): (Content, bool) {
    if Waits(op, a, b) then (Operator(op, residue), true)
    else match Apply(r, op, residue, a, b)
      case Some(v) => (v, true)
      case None =>
        if IsArithmetic(op) && a.Number? && b.Number? then (Number(r.arith(op, a.num, b.num, residue).num), false)
        else (Operator(op, residue), false)
  }

  lemma CalculatedCases(r: Routines, op: Op, residue: Residue, a: Content, b: Content)
    ensures var (c, ok) := Calculated(r, op, residue, a, b);
            && (Waits(op, a, b) ==> c == Operator(op, residue) && ok)
            && (!Waits(op, a, b) ==> (ok <==> Apply(r, op, residue, a, b).Some?))
            && (!Waits(op, a, b) && ok ==> Apply(r, op, residue, a, b) == Some(c) && IsValue(c))
  {
  }

  // ----- Trees -----

  /** A tree whose nodes are identified by `id`; a node keeps its children after it is folded. */
  datatype Tree<+N> = Empty | Node(id: N, content: Content, left: Tree, right: Tree)

  function ContentOf<N>(t: Tree<N>): Content {
    if t.Node? then t.content else Null
  }

  predicate IsOp<N>(t: Tree<N>) {
    t.Node? && t.content.Operator?
  }

  /** Operators have the operands they need. */
  predicate Proper<N>(t: Tree<N>) {
    IsOp(t) ==>
      && t.left.Node? && Proper(t.left)
      && if t.content.op == Not then t.right.Empty? else t.right.Node? && Proper(t.right)
  }

  /** Evaluates the root of a tree whose operands are finished. */
  function Base<N>(r: Routines, t: Tree<N>): (Tree<N>, bool)
    requires IsOp(t)
  {
    var (c, ok) := Calculated(r, t.content.op, t.content.residue, ContentOf(t.left), ContentOf(t.right));
    (t.(content := c), ok)
  }

  predicate GoesRight<N>(t: Tree<N>)
    requires IsOp(t)
  {
    t.content.op != Not && IsOp(t.right)
  }

  /** The bottom-up fold: left operand, right operand, node; it stops at the first error. */
  function Fold<N>(r: Routines, t: Tree<N>): (Tree<N>, bool) {
    if !IsOp(t) then (t, true)
    else
      var (left, ok) := Fold(r, t.left);
      if !ok then (t.(left := left), false)
      else
        var (right, ok') := if t.content.op == Not then (t.right, true) else Fold(r, t.right);
        if !ok' then (t.(left := left, right := right), false)
        else Base(r, t.(left := left, right := right))
  }

  /** The depth of the operator nodes below the root. */
  function Need<N>(t: Tree<N>): nat {
    if !IsOp(t) then 0
    else
      var l := if IsOp(t.left) then 1 + Need(t.left) else 0;
      var r := if GoesRight(t) then 1 + Need(t.right) else 0;
      if l < r then r else l
  }

  /** The bottom-up fold when a descent takes one of `room` stack places. */
  function FoldWithin<N>(r: Routines, t: Tree<N>, room: nat): (Tree<N>, bool)
    decreases t, 2
  {
    if !IsOp(t) then (t, true)
    else if IsOp(t.left) then
      if room == 0 then (t, false)
      else
        var (left, ok) := FoldWithin(r, t.left, room - 1);
        if ok then AfterLeft(r, t, left, room) else (t.(left := left), false)
    else AfterLeft(r, t, t.left, room)
  }

  /** The rest of the fold of `t` once its left operand is `left`. */
  function AfterLeft<N>(r: Routines, t: Tree<N>, left: Tree<N>, room: nat): (Tree<N>, bool)
    requires IsOp(t)
    decreases t, 1
  {
    if GoesRight(t) then
      if room == 0 then (t.(left := left), false)
      else
        var (right, ok) := FoldWithin(r, t.right, room - 1);
        if ok then Base(r, t.(left := left, right := right)) else (t.(left := left, right := right), false)
    else Base(r, t.(left := left))
  }

  /** A stack of `room` places serves exactly the trees that are no deeper. */
  lemma {:induction false} RoomSuffices<N>(r: Routines, t: Tree<N>, room: nat)
    ensures Need(t) <= room ==> FoldWithin(r, t, room) == Fold(r, t)
    ensures FoldWithin(r, t, room).1 <==> Fold(r, t).1 && Need(t) <= room
  {
    if IsOp(t) {
      if room > 0 {
        RoomSuffices(r, t.left, room - 1);
        RoomSuffices(r, t.right, room - 1);
      }
    }
  }

  // ----- Order -----

  /** An operand has been folded without an error, or was no operator. */
  predicate OperandDone<N>(r: Routines, t: Tree<N>, room: nat) {
    IsOp(t) ==> room > 0 && FoldWithin(r, t, room - 1).1
  }

  /** The order of the fold, also of one that fails: nothing changes in the right operand before the left one
      is done, and nothing in the node before both are; an operand changes only as its own fold changes it. */
  lemma OperandsFirst<N>(r: Routines, t: Tree<N>, room: nat)
    requires IsOp(t)
    ensures var u := FoldWithin(r, t, room).0;
      && u.Node? && u.id == t.id
      && (u.left != t.left ==> room > 0 && u.left == FoldWithin(r, t.left, room - 1).0)
      && (u.right != t.right ==>
            room > 0 && u.right == FoldWithin(r, t.right, room - 1).0 && OperandDone(r, t.left, room))
      && (u.content != t.content ==>
            OperandDone(r, t.left, room) && (t.content.op != Not ==> OperandDone(r, t.right, room)))
  {
    hide Calculated;
  }

  // ----- Meaning -----

  /** Strict evaluation: names come from `env`, and every operand an operator uses must have a value. */
  ghost function Eval<N>(r: Routines, env: seq<bv8> -> Option<Content>,
                         between: (Content, Content) -> Option<Content>, t: Tree<N>): (v: Option<Content>)
  {
    if t.Empty? then Some(Null)
    else match t.content
      case Name(x) => if env(x).Some? && IsValue(env(x).value) then env(x) else None
      case Operator(op, residue) =>
        var a := Eval(r, env, between, t.left);
        var b := if op == Not then Some(Null) else Eval(r, env, between, t.right);
        if a.None? || b.None? then None
        else if op == Between then between(a.value, b.value)
        else Apply(r, op, residue, a.value, b.value)
      case _ => Some(t.content)
  }

  /** Folding keeps the meaning in every environment, and folds into an error only what has no
      value in any environment. */
  lemma {:induction false} FoldKeepsMeaning<N>(r: Routines, env: seq<bv8> -> Option<Content>,
                                               between: (Content, Content) -> Option<Content>, t: Tree<N>)
    requires Proper(t)
    ensures Fold(r, t).1 ==> Eval(r, env, between, Fold(r, t).0) == Eval(r, env, between, t)
    ensures !Fold(r, t).1 ==> Eval(r, env, between, t) == None
  {
    hide Apply, Calculated;
    if IsOp(t) {
      FoldKeepsMeaning(r, env, between, t.left);
      FoldKeepsMeaning(r, env, between, t.right);
      var op, left, right := t.content.op, Fold(r, t.left).0, Fold(r, t.right).0;
      CalculatedCases(r, op, t.content.residue, ContentOf(left), ContentOf(if op == Not then t.right else right));
    }
  }

  predicate Ground<N>(t: Tree<N>) {
    t.Node? ==>
      && !t.content.Name?
      && (IsOp(t) ==> t.content.op != Between && Ground(t.left) && Ground(t.right))
  }

  /** Without names and BETWEEN folding is evaluation: it succeeds exactly when there is a value,
      and the root then holds it. */
  lemma {:induction false} GroundFoldsToValue<N>(r: Routines, env: seq<bv8> -> Option<Content>,
                                                 between: (Content, Content) -> Option<Content>, t: Tree<N>)
    requires t.Node? && Proper(t) && Ground(t)
    ensures Fold(r, t).1 <==> Eval(r, env, between, t).Some?
    ensures Fold(r, t).1 ==> IsValue(Fold(r, t).0.content) && Eval(r, env, between, t) == Some(Fold(r, t).0.content)
  {
    if IsOp(t) {
      GroundFoldsToValue(r, env, between, t.left);
      if t.content.op != Not {
        GroundFoldsToValue(r, env, between, t.right);
      }
    }
  }

  /** A folded tree has nothing left to fold. */
  lemma {:induction false} FoldIsIdempotent<N>(r: Routines, t: Tree<N>)
    requires Fold(r, t).1
    ensures Fold(r, Fold(r, t).0) == (Fold(r, t).0, true)
  {
    if IsOp(t) {
      FoldIsIdempotent(r, t.left);
      if t.content.op != Not {
        FoldIsIdempotent(r, t.right);
      }
    }
  }
}
