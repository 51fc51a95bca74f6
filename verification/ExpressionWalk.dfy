/** execution/expression.c: constant folding by a walk that overwrites the nodes in place. */
module Expressions {
  import opened Folding
  import Stacks

  class AstExpr {
    var content: Content
    const left: AstExpr?
    const right: AstExpr?

    constructor (c: Content, l: AstExpr?, r: AstExpr?)
      ensures content == c && left == l && right == r
    {
      content, left, right := c, l, r;
    }
  }

  type Ast = Tree<AstExpr>

  ghost function Ids(t: Ast): set<AstExpr> {
    if t.Empty? then {} else {t.id} + Ids(t.left) + Ids(t.right)
  }

  predicate PointsTo(p: AstExpr?, t: Ast) {
    if t.Empty? then p == null else p == t.id
  }

  /** The heap holds the tree. What the pointers of a node that was never an operator hold is irrelevant. */
  ghost predicate Holds(t: Ast)
    reads Ids(t)
  {
    t.Node? ==>
      && t.id.content == t.content
      && (t.content.Operator? ==> PointsTo(t.id.left, t.left) && PointsTo(t.id.right, t.right))
      && Holds(t.left) && Holds(t.right)
  }

  /** No node occurs twice. */
  ghost predicate Unshared(t: Ast) {
    t.Node? ==>
      && t.id !in Ids(t.left) && t.id !in Ids(t.right) && Ids(t.left) !! Ids(t.right)
      && Unshared(t.left) && Unshared(t.right)
  }

  // ----- The tree around the current node -----

  /** The path from the root down to the current node. */
  datatype Context =
    | Top
    | WentLeft(up: Context, id: AstExpr, content: Content, right: Ast)
    | WentRight(up: Context, id: AstExpr, content: Content, left: Ast)

  ghost function Plug(c: Context, t: Ast): Ast {
    match c
    case Top => t
    case WentLeft(up, id, content, right) => Plug(up, Node(id, content, t, right))
    case WentRight(up, id, content, left) => Plug(up, Node(id, content, left, t))
  }

  ghost function Path(c: Context): (s: seq<AstExpr>) {
    if c.Top? then [] else Path(c.up) + [c.id]
  }

  ghost function Around(c: Context): set<AstExpr> {
    match c
    case Top => {}
    case WentLeft(up, id, _, right) => {id} + Ids(right) + Around(up)
    case WentRight(up, id, _, left) => {id} + Ids(left) + Around(up)
  }

  ghost predicate ContextHolds(c: Context, hole: AstExpr)
    reads Around(c)
  {
    match c
    case Top => true
    case WentLeft(up, id, content, right) =>
      && id.content == content && content.Operator? && id.left == hole && PointsTo(id.right, right)
      && Holds(right) && ContextHolds(up, id)
    case WentRight(up, id, content, left) =>
      && id.content == content && content.Operator? && id.right == hole && PointsTo(id.left, left)
      && Holds(left) && ContextHolds(up, id)
  }

  ghost predicate ContextUnshared(c: Context) {
    match c
    case Top => true
    case WentLeft(up, id, _, t) => ContextUnshared(up) && Apart(up, id, t)
    case WentRight(up, id, _, t) => ContextUnshared(up) && Apart(up, id, t)
  }

  ghost predicate Apart(up: Context, id: AstExpr, t: Ast) {
    && Unshared(t) && id !in Ids(t) && id !in Around(up) && Ids(t) !! Around(up)
  }

  ghost predicate ContextProper(c: Context) {
    match c
    case Top => true
    case WentLeft(up, _, content, t) =>
      content.Operator? && (if content.op == Not then t.Empty? else t.Node? && Proper(t)) && ContextProper(up)
    case WentRight(up, _, content, t) => content.Operator? && content.op != Not && t.Node? && ContextProper(up)
  }

  /** The final tree and success once the subtree in the context has been folded to `t` with `ok`. */
  ghost function Continue(r: Routines, c: Context, t: Ast, ok: bool, capacity: nat): (Ast, bool)
    requires |Path(c)| <= capacity && ContextProper(c)
  {
    match c
    case Top => (t, ok)
    case WentLeft(up, id, content, right) =>
      if ok then
        var (t', ok') := AfterLeft(r, Node(id, content, t, right), t, capacity - |Path(up)|);
        Continue(r, up, t', ok', capacity)
      else Continue(r, up, Node(id, content, t, right), false, capacity)
    case WentRight(up, id, content, left) =>
      if ok then
        var (t', ok') := Base(r, Node(id, content, left, t));
        Continue(r, up, t', ok', capacity)
      else Continue(r, up, Node(id, content, left, t), false, capacity)
  }

  /** An error leaves the rest of the tree as it is. */
  lemma {:induction false} ErrorEnds(r: Routines, c: Context, t: Ast, capacity: nat)
    requires |Path(c)| <= capacity && ContextProper(c)
    ensures Continue(r, c, t, false, capacity) == (Plug(c, t), false)
  {
    match c
    case Top =>
    case WentLeft(up, id, content, right) => ErrorEnds(r, up, Node(id, content, t, right), capacity);
    case WentRight(up, id, content, left) => ErrorEnds(r, up, Node(id, content, left, t), capacity);
  }

  lemma {:induction false} PlugHolds(c: Context, t: Ast)
    requires t.Node? && Holds(t) && ContextHolds(c, t.id)
    ensures Holds(Plug(c, t))
  {
    match c
    case Top =>
    case WentLeft(up, id, content, right) => PlugHolds(up, Node(id, content, t, right));
    case WentRight(up, id, content, left) => PlugHolds(up, Node(id, content, left, t));
  }

  lemma {:induction false} PlugIds(c: Context, t: Ast)
    ensures Ids(Plug(c, t)) == Ids(t) + Around(c)
  {
    match c
    case Top =>
    case WentLeft(up, id, content, right) => PlugIds(up, Node(id, content, t, right));
    case WentRight(up, id, content, left) => PlugIds(up, Node(id, content, left, t));
  }

  // ----- One node -----

  /** expression_calc_base_expr. With `ignoreName` an operator over names or operators is left alone;
      without it a name is an error, since names cannot be resolved yet. */
  method CalcBaseExpr(r: Routines, expr: AstExpr, ignoreName: bool) returns (rc: int)
    requires expr.content.Operator? && expr.left != null && (expr.content.op != Not ==> expr.right != null)
    requires expr.left != expr && (expr.content.op != Not ==> expr.right != expr)
    requires !ignoreName ==> !expr.left.content.Operator? && (expr.content.op != Not ==> !expr.right.content.Operator?)
    modifies expr`content
    ensures var op, residue := old(expr.content.op), old(expr.content.residue);
            var a, b := expr.left.content, if op == Not then Null else expr.right.content;
            if !ignoreName && (a.Name? || b.Name?) then rc == -1 && expr.content == old(expr.content)
            else (expr.content, rc == 0) == Calculated(r, op, residue, a, b) && (rc == 0 || rc == -1)
  {
    var op, residue := expr.content.op, expr.content.residue;
    var left, right := expr.left, expr.right;
    if !ignoreName {
      if left.content.Name? || (op != Not && right.content.Name?) {
        return -1;
      }
    } else if left.content.Name? || left.content.Operator?
      || (op != Not && (right.content.Operator? || right.content.Name?)) {
      return 0;
    }
    var argNull := left.content.Null? || (op != Not && right.content.Null?);
    match op {
      case Mul | Div | Add | Sub =>
        if left.content.Number? && right.content.Number? {
          var o := r.arith(op, left.content.num, right.content.num, residue);
          expr.content := Number(o.num);
          if !o.ok {
            return -1;
          }
        } else if argNull {
          expr.content := Null;
        } else {
          return -1;
        }
      case Eq | Ne | Gt | Ge | Lt | Le =>
        if left.content.Number? && right.content.Number? {
          var res := r.compareNum(left.content.num, right.content.num);
          expr.content := Boolean(TestSign(op, res));
        } else if left.content.Text? && right.content.Text? {
          var res := r.compareStr(left.content.str, right.content.str);
          expr.content := Boolean(TestSign(op, res));
        } else if argNull {
          expr.content := Boolean(false);
        } else {
          return -1;
        }
      case Is | IsNot =>
        var b;
        if !SameKind(left.content, right.content) {
          b := false;
        } else if left.content.Number? {
          b := r.compareNum(left.content.num, right.content.num) == 0;
        } else if left.content.Text? {
          b := r.compareStr(left.content.str, right.content.str) == 0;
        } else if left.content.Boolean? {
          b := left.content.b && right.content.b;
        } else {
          assert argNull;
          b := true;
        }
        expr.content := Boolean(if op == IsNot then !b else b);
      case Between =>
      case Not =>
        if left.content.Boolean? {
          expr.content := Boolean(!left.content.b);
        } else {
          return -1;
        }
      case And =>
        if left.content.Boolean? && right.content.Boolean? {
          expr.content := Boolean(left.content.b && right.content.b);
        } else {
          return -1;
        }
      case Or =>
        if left.content.Boolean? && right.content.Boolean? {
          expr.content := Boolean(left.content.b || right.content.b);
        } else {
          return -1;
        }
    }
    return 0;
  }

  /** The three-part test on the sign that the comparison branches share. */
  predicate TestSign(op: Op, res: int)
    requires IsComparison(op)
    ensures TestSign(op, res) <==> Relates(op, res)
  {
    || (res == 0 && (op == Eq || op == Ge || op == Le))
    || (res < 0 && (op == Ne || op == Lt || op == Le))
    || (res > 0 && (op == Ne || op == Gt || op == Ge))
  }

  // ----- The walk -----

  /** What the walk has done at the current node: nothing, its left operand, or both operands. */
  datatype Phase = Enter | LeftDone | RightDone

  /** The operands that the phase still relies on are in place. */
  ghost predicate Ready(phase: Phase, t: Ast) {
    && IsOp(t) && t.left.Node?
    && (if t.content.op == Not then t.right.Empty? else t.right.Node?)
    && match phase
       case Enter => Proper(t)
       case LeftDone => t.content.op == Not || Proper(t.right)
       case RightDone => t.content.op != Not
  }

  ghost function Pending(r: Routines, phase: Phase, t: Ast, room: nat): (Ast, bool)
    requires IsOp(t)
  {
    match phase
    case Enter => FoldWithin(r, t, room)
    case LeftDone => AfterLeft(r, t, t.left, room)
    case RightDone => Base(r, t)
  }

  ghost function Remaining(r: Routines, c: Context, phase: Phase, t: Ast, capacity: nat): (Ast, bool)
    requires IsOp(t) && |Path(c)| <= capacity && ContextProper(c)
  {
    var (t', ok) := Pending(r, phase, t, capacity - |Path(c)|);
    Continue(r, c, t', ok, capacity)
  }

  /** The walk is at `t`, and finishing it from here gives `goal`. */
  ghost predicate Walking(r: Routines, c: Context, phase: Phase, t: Ast, capacity: nat, goal: (Ast, bool))
    reads Ids(t), Around(c)
  {
    && Ready(phase, t) && Holds(t) && ContextHolds(c, t.id)
    && Unshared(t) && ContextUnshared(c) && Ids(t) !! Around(c)
    && ContextProper(c) && |Path(c)| <= capacity
    && Remaining(r, c, phase, t, capacity) == goal
  }

  /** `prev` tells the phases apart. */
  ghost predicate Marks(prev: AstExpr, phase: Phase, t: Ast)
    requires Ready(phase, t)
  {
    match phase
    case Enter => prev !in Ids(t.left) && prev !in Ids(t.right)
    case LeftDone => prev == t.left.id
    case RightDone => prev == t.right.id
  }

  ghost function Work(t: Ast): nat {
    if t.Empty? then 0 else 3 + Work(t.left) + Work(t.right)
  }

  ghost function WorkHere(phase: Phase, t: Ast): nat
    requires t.Node?
  {
    match phase
    case Enter => 3 + Work(t.left) + Work(t.right)
    case LeftDone => 2 + Work(t.right)
    case RightDone => 1
  }

  ghost function WorkAround(c: Context): nat {
    match c
    case Top => 0
    case WentLeft(up, _, _, right) => 2 + Work(right) + WorkAround(up)
    case WentRight(up, _, _, _) => 1 + WorkAround(up)
  }

  /** The parent with `t` as its finished operand, and the phase the parent is then in. */
  ghost function Above(c: Context, t: Ast): Ast
    requires !c.Top?
  {
    if c.WentLeft? then Node(c.id, c.content, t, c.right) else Node(c.id, c.content, c.left, t)
  }

  ghost function PhaseAbove(c: Context): Phase {
    if c.WentLeft? then LeftDone else RightDone
  }

  lemma LeftGoal(r: Routines, c: Context, t: Ast, capacity: nat)
    requires IsOp(t) && IsOp(t.left) && Ready(Enter, t) && ContextProper(c) && |Path(c)| < capacity
    ensures var c' := WentLeft(c, t.id, t.content, t.right);
            |Path(c')| == |Path(c)| + 1 && ContextProper(c') &&
            Remaining(r, c', Enter, t.left, capacity) == Remaining(r, c, Enter, t, capacity)
  {
    var c' := WentLeft(c, t.id, t.content, t.right);
    var room := capacity - |Path(c)|;
    assert |Path(c')| == |Path(c)| + 1;
    var (left, ok) := FoldWithin(r, t.left, room - 1);
    assert AfterLeft(r, t.(left := left), left, room) == AfterLeft(r, t, left, room);
  }

  lemma DescendLeft(r: Routines, c: Context, t: Ast, capacity: nat, goal: (Ast, bool))
    requires Walking(r, c, Enter, t, capacity, goal) && IsOp(t.left) && |Path(c)| < capacity
    ensures Walking(r, WentLeft(c, t.id, t.content, t.right), Enter, t.left, capacity, goal)
  {
    hide Remaining, FoldWithin, AfterLeft, Continue, Path, Plug;
    assert Proper(t.left);
    LeftGoal(r, c, t, capacity);
  }

  lemma RightGoal(r: Routines, c: Context, phase: Phase, t: Ast, capacity: nat)
    requires Ready(phase, t) && GoesRight(t) && ContextProper(c) && |Path(c)| < capacity
    requires phase == LeftDone || (phase == Enter && !IsOp(t.left))
    ensures var c' := WentRight(c, t.id, t.content, t.left);
            |Path(c')| == |Path(c)| + 1 && ContextProper(c') &&
            Remaining(r, c', Enter, t.right, capacity) == Remaining(r, c, phase, t, capacity)
  {
    var c' := WentRight(c, t.id, t.content, t.left);
    var room := capacity - |Path(c)|;
    assert |Path(c')| == |Path(c)| + 1;
    assert Pending(r, phase, t, room) == AfterLeft(r, t, t.left, room);
  }

  lemma DescendRight(r: Routines, c: Context, phase: Phase, t: Ast, capacity: nat, goal: (Ast, bool))
    requires Walking(r, c, phase, t, capacity, goal) && GoesRight(t) && |Path(c)| < capacity
    requires phase == LeftDone || (phase == Enter && !IsOp(t.left))
    ensures Walking(r, WentRight(c, t.id, t.content, t.left), Enter, t.right, capacity, goal)
  {
    hide Remaining, FoldWithin, AfterLeft, Continue, Path, Plug;
    assert Proper(t.right);
    RightGoal(r, c, phase, t, capacity);
  }

  lemma UpGoal(r: Routines, c: Context, t: Ast, capacity: nat)
    requires !c.Top? && t.Node? && ContextProper(c) && |Path(c)| <= capacity
    ensures |Path(c)| == |Path(c.up)| + 1 && ContextProper(c.up)
    ensures Continue(r, c, t, true, capacity) == Remaining(r, c.up, PhaseAbove(c), Above(c, t), capacity)
  {
    assert |Path(c)| == |Path(c.up)| + 1;
  }

  /** The walk returns to the parent of a finished node. */
  lemma Ascend(r: Routines, c: Context, t: Ast, capacity: nat, goal: (Ast, bool))
    requires !c.Top? && t.Node? && Holds(t) && ContextHolds(c, t.id)
    requires Unshared(t) && ContextUnshared(c) && Ids(t) !! Around(c)
    requires ContextProper(c) && |Path(c)| <= capacity && Continue(r, c, t, true, capacity) == goal
    ensures Walking(r, c.up, PhaseAbove(c), Above(c, t), capacity, goal)
  {
    hide Remaining, FoldWithin, AfterLeft, Continue, Path, Plug;
    UpGoal(r, c, t, capacity);
  }

  /** The node comes next, or the descent it needs finds the stack full. */
  ghost predicate AtBase(phase: Phase, t: Ast)
    requires IsOp(t)
  {
    match phase
    case Enter => !IsOp(t.left) && !GoesRight(t)
    case LeftDone => !GoesRight(t)
    case RightDone => true
  }

  lemma BaseGoal(r: Routines, c: Context, phase: Phase, t: Ast, content: Content, ok: bool, capacity: nat)
    requires Ready(phase, t) && AtBase(phase, t) && ContextProper(c) && |Path(c)| <= capacity
    requires (content, ok) == Calculated(r, t.content.op, t.content.residue, ContentOf(t.left), ContentOf(t.right))
    ensures Continue(r, c, t.(content := content), ok, capacity) == Remaining(r, c, phase, t, capacity)
    ensures !ok ==> Remaining(r, c, phase, t, capacity) == (Plug(c, t.(content := content)), false)
  {
    var room := capacity - |Path(c)|;
    assert t.(left := t.left) == t;
    assert phase != RightDone ==> Pending(r, phase, t, room) == AfterLeft(r, t, t.left, room);
    assert !GoesRight(t) ==> AfterLeft(r, t, t.left, room) == Base(r, t);
    ErrorEnds(r, c, t.(content := content), capacity);
  }

  lemma FullGoal(r: Routines, c: Context, phase: Phase, t: Ast, capacity: nat)
    requires Ready(phase, t) && !AtBase(phase, t) && ContextProper(c) && |Path(c)| == capacity
    ensures Remaining(r, c, phase, t, capacity) == (Plug(c, t), false)
  {
    assert t.(left := t.left) == t;
    assert GoesRight(t) ==> AfterLeft(r, t, t.left, 0) == (t, false);
    assert phase == LeftDone ==> Pending(r, phase, t, 0) == AfterLeft(r, t, t.left, 0);
    assert phase == Enter && !IsOp(t.left) ==> Pending(r, phase, t, 0) == AfterLeft(r, t, t.left, 0);
    ErrorEnds(r, c, t, capacity);
  }

  lemma Start(r: Routines, t: Ast, capacity: nat)
    requires t.Node? && Holds(t) && Unshared(t) && Proper(t)
    ensures IsOp(t) ==> Walking(r, Top, Enter, t, capacity, FoldWithin(r, t, capacity))
    ensures !IsOp(t) ==> FoldWithin(r, t, capacity) == (t, true)
  {
  }

  lemma AtTop(r: Routines, c: Context, t: Ast, capacity: nat)
    requires Path(c) == [] && ContextProper(c)
    ensures c.Top? && Continue(r, c, t, true, capacity) == (t, true) && Plug(c, t) == t
  {
  }

  /** The loop state: the walk is at `expr`, inside the tree whose nodes are `ids` and whose root is `root`. */
  ghost predicate State(r: Routines, ids: set<AstExpr>, root: AstExpr, c: Context, phase: Phase, cur: Ast,
                        expr: AstExpr, prev: AstExpr, capacity: nat, goal: (Ast, bool))
    reads Ids(cur), Around(c)
  {
    && Walking(r, c, phase, cur, capacity, goal) && cur.id == expr && Marks(prev, phase, cur)
    && Ids(cur) + Around(c) == ids && Plug(c, cur).Node? && Plug(c, cur).id == root
  }

  ghost predicate Finished(folded: Ast, root: AstExpr)
    reads Ids(folded)
  {
    folded.Node? && folded.id == root && Holds(folded)
  }

  /** The pointer tests of the loop decide what the phase leaves to do. */
  lemma Decide(r: Routines, ids: set<AstExpr>, root: AstExpr, c: Context, phase: Phase, cur: Ast,
               expr: AstExpr, prev: AstExpr, capacity: nat, goal: (Ast, bool))
    requires State(r, ids, root, c, phase, cur, expr, prev, capacity, goal)
    ensures Ready(phase, cur) && ContextProper(c) && |Path(c)| <= capacity && Ids(cur) + Around(c) == ids
    ensures Remaining(r, c, phase, cur, capacity) == goal
    ensures expr == cur.id && expr.content == cur.content && expr in ids
    ensures expr.left == cur.left.id && expr.left.content == cur.left.content && expr.left != expr
    ensures expr.right == if expr.content.op == Not then null else cur.right.id
    ensures expr.content.op != Not ==> expr.right.content == cur.right.content && expr.right != expr
    ensures prev != expr.left && prev != expr.right && expr.left.content.Operator? <==>
      phase == Enter && IsOp(cur.left)
    ensures !(phase == Enter && IsOp(cur.left)) ==>
      (expr.content.op != Not && prev != expr.right && expr.right.content.Operator? <==>
       phase != RightDone && GoesRight(cur))
  {
    hide FoldWithin, AfterLeft, Base, Continue, ContextHolds, ContextUnshared, ContextProper, Plug, Remaining, Pending;
    assert Holds(cur.left) && Holds(cur.right);
  }

  lemma GoLeft(r: Routines, ids: set<AstExpr>, root: AstExpr, c: Context, cur: Ast,
               expr: AstExpr, prev: AstExpr, capacity: nat, goal: (Ast, bool))
    requires State(r, ids, root, c, Enter, cur, expr, prev, capacity, goal)
    requires IsOp(cur.left) && |Path(c)| < capacity
    ensures var c' := WentLeft(c, cur.id, cur.content, cur.right);
            && State(r, ids, root, c', Enter, cur.left, cur.left.id, prev, capacity, goal)
            && Path(c') == Path(c) + [expr]
            && WorkHere(Enter, cur.left) + WorkAround(c') < WorkHere(Enter, cur) + WorkAround(c)
  {
    hide FoldWithin, AfterLeft, Base, Continue, ContextHolds, ContextUnshared, ContextProper, Remaining, Pending;
    DescendLeft(r, c, cur, capacity, goal);
    hide Walking;
    assert Node(cur.id, cur.content, cur.left, cur.right) == cur;
  }

  lemma GoRight(r: Routines, ids: set<AstExpr>, root: AstExpr, c: Context, phase: Phase, cur: Ast,
                expr: AstExpr, prev: AstExpr, capacity: nat, goal: (Ast, bool))
    requires State(r, ids, root, c, phase, cur, expr, prev, capacity, goal)
    requires phase == LeftDone || (phase == Enter && !IsOp(cur.left))
    requires GoesRight(cur) && |Path(c)| < capacity
    ensures var c' := WentRight(c, cur.id, cur.content, cur.left);
            && State(r, ids, root, c', Enter, cur.right, cur.right.id, prev, capacity, goal)
            && Path(c') == Path(c) + [expr]
            && WorkHere(Enter, cur.right) + WorkAround(c') < WorkHere(phase, cur) + WorkAround(c)
  {
    hide FoldWithin, AfterLeft, Base, Continue, ContextHolds, ContextUnshared, ContextProper, Remaining, Pending;
    DescendRight(r, c, phase, cur, capacity, goal);
    assert Node(cur.id, cur.content, cur.left, cur.right) == cur;
  }

  lemma Full(r: Routines, ids: set<AstExpr>, root: AstExpr, c: Context, phase: Phase, cur: Ast,
             expr: AstExpr, prev: AstExpr, capacity: nat, goal: (Ast, bool))
    requires State(r, ids, root, c, phase, cur, expr, prev, capacity, goal)
    requires !AtBase(phase, cur) && |Path(c)| == capacity
    ensures !goal.1 && Finished(goal.0, root)
  {
    hide FoldWithin, AfterLeft, Base, Continue, ContextHolds, ContextUnshared, ContextProper, Remaining, Pending;
    FullGoal(r, c, phase, cur, capacity);
    PlugHolds(c, cur);
  }

  lemma {:induction false} PlugRoot(c: Context, t: Ast, u: Ast)
    requires t.Node? && u.Node? && t.id == u.id
    ensures Plug(c, t).Node? && Plug(c, u).Node? && Plug(c, t).id == Plug(c, u).id
  {
    match c
    case Top =>
    case WentLeft(up, id, content, x) => PlugRoot(up, Node(id, content, t, x), Node(id, content, u, x));
    case WentRight(up, id, content, x) => PlugRoot(up, Node(id, content, x, t), Node(id, content, x, u));
  }

  /** Everything in the heap except the content of the current node. */
  ghost predicate Surrounded(ids: set<AstExpr>, root: AstExpr, c: Context, cur: Ast)
    requires cur.Node?
    reads Ids(cur.left), Ids(cur.right), Around(c)
  {
    && Holds(cur.left) && Holds(cur.right) && ContextHolds(c, cur.id)
    && PointsTo(cur.id.left, cur.left) && PointsTo(cur.id.right, cur.right)
    && Unshared(cur) && ContextUnshared(c) && Ids(cur) !! Around(c) && ContextProper(c)
    && Ids(cur) + Around(c) == ids && Plug(c, cur).Node? && Plug(c, cur).id == root
  }

  lemma Surrounds(r: Routines, ids: set<AstExpr>, root: AstExpr, c: Context, phase: Phase, cur: Ast,
                  expr: AstExpr, prev: AstExpr, capacity: nat, goal: (Ast, bool))
    requires State(r, ids, root, c, phase, cur, expr, prev, capacity, goal)
    ensures cur.Node? && Surrounded(ids, root, c, cur)
    ensures Ids(cur.left) + Ids(cur.right) + Around(c) <= ids - {expr}
  {
    hide Remaining, Plug, ContextHolds, ContextUnshared, ContextProper;
  }

  lemma SameLast<T>(a: seq<T>, x: T, b: seq<T>, y: T)
    ensures a + [x] == b + [y] ==> a == b && x == y
  {
    if a + [x] == b + [y] {
      assert |a + [x]| == |b + [y]|;
      assert a == (a + [x])[..|a|] && b == (b + [y])[..|b|];
      assert x == (a + [x])[|a|] && y == (b + [y])[|b|];
    }
  }

  /** The node is calculated: an error finishes the walk, and so does a node at the top;
      otherwise the walk is back at the parent. */
  lemma Settle(r: Routines, ids: set<AstExpr>, root: AstExpr, c: Context, was: Ast, cur: Ast, ok: bool,
               capacity: nat, goal: (Ast, bool))
    requires was.Node? && Surrounded(ids, root, c, was) && cur == was.(content := was.id.content)
    requires |Path(c)| <= capacity && ContextProper(c) && Continue(r, c, cur, ok, capacity) == goal
    ensures !ok ==> !goal.1 && Finished(goal.0, root)
    ensures ok && Path(c) == [] ==> goal.1 && Finished(goal.0, root)
    ensures ok && Path(c) != [] ==>
      && State(r, ids, root, c.up, PhaseAbove(c), Above(c, cur), c.id, cur.id, capacity, goal)
      && Path(c) == Path(c.up) + [c.id]
      && Ids(Above(c, cur)) + Around(c.up) == ids
      && WorkHere(PhaseAbove(c), Above(c, cur)) + WorkAround(c.up) == WorkAround(c)
  {
    hide FoldWithin, AfterLeft, Base, Continue, ContextHolds, ContextUnshared, ContextProper, Remaining, Pending;
    PlugRoot(c, was, cur);
    if !ok {
      ErrorEnds(r, c, cur, capacity);
      PlugHolds(c, cur);
    } else if Path(c) == [] {
      AtTop(r, c, cur, capacity);
    } else {
      Ascend(r, c, cur, capacity, goal);
    }
  }

  lemma Begin(r: Routines, t: Ast, capacity: nat)
    requires t.Node? && Holds(t) && Unshared(t) && Proper(t)
    ensures IsOp(t) ==> State(r, Ids(t), t.id, Top, Enter, t, t.id, t.id, capacity, FoldWithin(r, t, capacity))
    ensures IsOp(t) <==> t.id.content.Operator?
    ensures !IsOp(t) ==> FoldWithin(r, t, capacity) == (t, true) && Finished(t, t.id)
    ensures Path(Top) == []
  {
    hide AfterLeft;
    Start(r, t, capacity);
  }

  /** expression_calc_const_expr. The nodes end up holding the recursive fold, and the result is its
      result, also when it stops at an error or at a full stack. */
  method CalcConstExpr(r: Routines, root: AstExpr, sh: Stacks.Stack<AstExpr>, ghost t: Ast) returns (rc: int)
    requires t.Node? && t.id == root && Holds(t) && Unshared(t) && Proper(t) && sh.Valid()
    modifies Ids(t), sh, sh.dataBuf
    ensures sh.Valid()
    ensures var (folded, ok) := FoldWithin(r, t, sh.elNum);
            Finished(folded, root) && rc == if ok then 0 else -1
  {
    hide Walking, Marks, State, Surrounded, Finished, Pending, AfterLeft, Base, ContextHolds,
      ContextUnshared, Work, Need, Eval, Apply, Apart, PointsTo, FoldWithin, Continue, Remaining, Path, Plug,
      Holds, Ids, Around, Proper, Unshared, WorkAround, ContextProper, Calculated, GoesRight;
    assert allocated(Ids(t));
    sh.Reset();
    Begin(r, t, sh.elNum);
    var expr: AstExpr, prev: AstExpr := root, root;
    if root.content.Operator? {
      ghost var ids, goal := Ids(t), FoldWithin(r, t, sh.elNum);
      ghost var c: Context, phase, cur := Top, Enter, t;
      while true
        invariant State(r, ids, root, c, phase, cur, expr, prev, sh.elNum, goal)
        invariant sh.Valid() && sh.Elements() == Path(c)
        decreases (if cur.Node? then WorkHere(phase, cur) else 0) + WorkAround(c)
      {
        Decide(r, ids, root, c, phase, cur, expr, prev, sh.elNum, goal);
        if prev != expr.left && prev != expr.right && expr.left.content.Operator? {
          var full := sh.Push(expr);
          if full != 0 {
            Full(r, ids, root, c, phase, cur, expr, prev, sh.elNum, goal);
            return -1;
          }
          GoLeft(r, ids, root, c, cur, expr, prev, sh.elNum, goal);
          c, cur, expr := WentLeft(c, cur.id, cur.content, cur.right), cur.left, expr.left;
        } else if expr.content.op != Not && prev != expr.right && expr.right.content.Operator? {
          var full := sh.Push(expr);
          if full != 0 {
            Full(r, ids, root, c, phase, cur, expr, prev, sh.elNum, goal);
            return -1;
          }
          GoRight(r, ids, root, c, phase, cur, expr, prev, sh.elNum, goal);
          c, phase, cur, expr := WentRight(c, cur.id, cur.content, cur.left), Enter, cur.right, expr.right;
        } else {
          Surrounds(r, ids, root, c, phase, cur, expr, prev, sh.elNum, goal);
          assert allocated(ids);
          var failed := CalcBaseExpr(r, expr, true);
          ghost var done := cur.(content := expr.content);
          BaseGoal(r, c, phase, cur, expr.content, failed == 0, sh.elNum);
          if failed != 0 {
            Settle(r, ids, root, c, cur, done, false, sh.elNum, goal);
            return -1;
          }
          var n := sh.ElNum();
          Settle(r, ids, root, c, cur, done, true, sh.elNum, goal);
          if n > 0 {
            prev := expr;
            expr := sh.Pop();
            SameLast(sh.Elements(), expr, Path(c.up), c.id);
            c, phase, cur := c.up, PhaseAbove(c), Above(c, done);
          } else {
            break;
          }
        }
      }
    }
    return 0;
  }
}
