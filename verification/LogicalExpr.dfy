/** Operands joined by `&&` and `||`: how `read_expr`, `read_logical` and `finalize_logical`
    (src/parser.c:2397-2545, 2667-2675, 3040-3196) turn them into basic blocks. */
module LogicalExpr {
  import opened Options
  import opened Words

  datatype LogOp = And | Or

  /** An operand without a logical operator of its own, or a parenthesised chain. */
  datatype Operand = Leaf(id: nat) | Paren(first: Operand, rest: Chain)

  /** What follows an operand: operators and operands, left to right. */
  datatype Chain = End | Link(op: LogOp, operand: Operand, rest: Chain)

  // ---- what C99 requires -------------------------------------------------------------------------

  /** The grammar's tree: `&&` binds tighter than `||`, both group to the left. */
  datatype Tree = Atom(operand: Operand) | AndOf(l: Tree, o: Operand) | OrOf(l: Tree, r: Tree)

  function OrElse(before: Option<Tree>, term: Tree): Tree
  {
    match before case None => term case Some(t) => OrOf(t, term)
  }

  /** `before` is the disjunction left of the current conjunction `term`. */
  function Parse(before: Option<Tree>, term: Tree, rest: Chain): Tree
    decreases rest
  {
    match rest
    case End => OrElse(before, term)
    case Link(And, o, r) => Parse(before, AndOf(term, o), r)
    case Link(Or, o, r) => Parse(Some(OrElse(before, term)), Atom(o), r)
  }

  /** The value of a leaf evaluated after others: side effects may matter. */
  type Oracle = (seq<nat>, nat) -> int

  /** A value and the leaves evaluated so far. */
  datatype Outcome = Outcome(value: int, trace: seq<nat>)

  function OperandSize(o: Operand): (n: nat)
    ensures n > 0
  {
    match o case Leaf(_) => 1 case Paren(first, rest) => 1 + OperandSize(first) + ChainSize(rest)
  }

  function ChainSize(c: Chain): nat
  {
    match c case End => 0 case Link(_, o, r) => OperandSize(o) + ChainSize(r)
  }

  function TreeSize(t: Tree): nat
  {
    match t
    case Atom(o) => OperandSize(o)
    case AndOf(l, r) => TreeSize(l) + OperandSize(r)
    case OrOf(l, r) => TreeSize(l) + TreeSize(r)
  }

  lemma {:induction false} ParseSize(before: Option<Tree>, term: Tree, rest: Chain)
    ensures TreeSize(Parse(before, term, rest)) == TreeSize(OrElse(before, term)) + ChainSize(rest)
    decreases rest
  {
    match rest {
      case End =>
      case Link(And, o, r) => ParseSize(before, AndOf(term, o), r);
      case Link(Or, o, r) => ParseSize(Some(OrElse(before, term)), Atom(o), r);
    }
  }

  /** Sections 6.5.13 and 6.5.14 of C99: left to right, the second operand only when the first
      does not decide, and a result of 0 or 1. */
  function EvalTree(f: Oracle, t: Tree, trace: seq<nat>): Outcome
    decreases TreeSize(t), 1
  {
    match t
    case Atom(o) => EvalOperand(f, o, trace)
    case AndOf(l, r) =>
      var a := (OperandPositive(r); EvalTree(f, l, trace));
      if a.value == 0 then Outcome(0, a.trace)
      else (TreePositive(l); var b := EvalOperand(f, r, a.trace); Outcome(Flag(b.value != 0), b.trace))
    case OrOf(l, r) =>
      var a := (TreePositive(r); EvalTree(f, l, trace));
      if a.value != 0 then Outcome(1, a.trace)
      else (TreePositive(l); var b := EvalTree(f, r, a.trace); Outcome(Flag(b.value != 0), b.trace))
  }

  /** A chain in parentheses has the value of its tree, a lone operand its own value. */
  function EvalOperand(f: Oracle, o: Operand, trace: seq<nat>): Outcome
    decreases OperandSize(o), 0
  {
    match o
    case Leaf(id) => Outcome(f(trace, id), trace + [id])
    case Paren(first, rest) =>
      ParseSize(None, Atom(first), rest);
      EvalTree(f, Parse(None, Atom(first), rest), trace)
  }

  lemma TreePositive(t: Tree)
    ensures TreeSize(t) > 0
  {
  }

  lemma OperandPositive(o: Operand)
    ensures OperandSize(o) > 0
  {
  }

  // ---- left to right with the decision so far ------------------------------------------------------

  /** Having an operand's value, about to evaluate the next one, or skipping: the current
      conjunction is false, or the disjunction is true. */
  datatype Scan = Have(value: int, trace: seq<nat>) | Go(trace: seq<nat>) | AndFalse(trace: seq<nat>)
      | OrTrue(trace: seq<nat>)

  function Operator(s: Scan, op: LogOp): Scan
  {
    match s
    case Have(v, t) =>
      if op == And then (if v == 0 then AndFalse(t) else Go(t)) else (if v != 0 then OrTrue(t) else Go(t))
    case AndFalse(t) => if op == Or then Go(t) else s
    case _ => s
  }

  function Advance(f: Oracle, s: Scan, o: Operand): Scan
  {
    if s.Go? then var r := EvalOperand(f, o, s.trace); Have(r.value, r.trace) else s
  }

  function ScanAll(f: Oracle, s: Scan, rest: Chain): Scan
    decreases rest
  {
    match rest case End => s case Link(op, o, r) => ScanAll(f, Advance(f, Operator(s, op), o), r)
  }

  /** The result of a scan; after an operator it is 0 or 1. */
  function Result(s: Scan, plain: bool): Outcome
  {
    match s
    case Have(v, t) => Outcome(if plain then v else Flag(v != 0), t)
    case Go(t) => Outcome(0, t)
    case AndFalse(t) => Outcome(0, t)
    case OrTrue(t) => Outcome(1, t)
  }

  /** The scan agrees with the tree read so far, evaluated from `t0`. */
  ghost predicate Agrees(f: Oracle, before: Option<Tree>, term: Tree, t0: seq<nat>, s: Scan)
  {
    var left := if before.Some? then EvalTree(f, before.value, t0) else Outcome(0, t0);
    match s
    case Have(v, t) =>
      var r := EvalTree(f, term, left.trace);
      left.value == 0 && r.trace == t && (r.value == 0 <==> v == 0) && (term.Atom? ==> r.value == v)
    case AndFalse(t) => left.value == 0 && EvalTree(f, term, left.trace) == Outcome(0, t)
    case OrTrue(t) => before.Some? && left.value != 0 && left.trace == t
    case Go(_) => false
  }

  lemma OperatorAgrees(f: Oracle, before: Option<Tree>, term: Tree, t0: seq<nat>, s: Scan, op: LogOp, o: Operand)
    requires Agrees(f, before, term, t0, s)
    ensures var s2 := Advance(f, Operator(s, op), o);
            if op == And then Agrees(f, before, AndOf(term, o), t0, s2)
              else Agrees(f, Some(OrElse(before, term)), Atom(o), t0, s2)
  {
    var left := if before.Some? then EvalTree(f, before.value, t0) else Outcome(0, t0);
    var whole := EvalTree(f, OrElse(before, term), t0);
    if op == And && left.value == 0 {
      assert EvalTree(f, AndOf(term, o), left.trace) ==
        var a := EvalTree(f, term, left.trace);
        if a.value == 0 then Outcome(0, a.trace)
        else var b := EvalOperand(f, o, a.trace); Outcome(Flag(b.value != 0), b.trace);
    }
  }

  lemma {:induction false} ScanIsTree(f: Oracle, before: Option<Tree>, term: Tree, t0: seq<nat>, s: Scan, rest: Chain)
    requires Agrees(f, before, term, t0, s)
    ensures EvalTree(f, Parse(before, term, rest), t0) ==
            Result(ScanAll(f, s, rest), before == None && term.Atom? && rest == End)
    decreases rest
  {
    match rest {
      case End =>
      case Link(op, o, r) =>
        OperatorAgrees(f, before, term, t0, s, op, o);
        var s2 := Advance(f, Operator(s, op), o);
        if op == And {
          ScanIsTree(f, before, AndOf(term, o), t0, s2, r);
        } else {
          ScanIsTree(f, Some(OrElse(before, term)), Atom(o), t0, s2, r);
        }
    }
  }

  /** Scanning with short circuits is evaluating the precedence tree. */
  lemma ScanIsOperand(f: Oracle, first: Operand, rest: Chain, t0: seq<nat>)
    ensures var a := EvalOperand(f, first, t0);
            EvalOperand(f, Paren(first, rest), t0) == Result(ScanAll(f, Have(a.value, a.trace), rest), rest == End)
  {
    var a := EvalOperand(f, first, t0);
    ScanIsTree(f, None, Atom(first), t0, Have(a.value, a.trace), rest);
  }

  // ---- the blocks ------------------------------------------------------------------------------------

  /** Instructions over numbered variables; `Eval` stands for the straight-line code of a leaf. */
  datatype Ins =
    | Eval(dest: nat, id: nat)
    | LoadConst(dest: nat, value: int)
    | Copy(dest: nat, src: nat)
    | Test(src: nat) // OP_branch

  datatype Bb = Bb(insns: seq<Ins>, next: Option<nat>, then_: Option<nat>, else_: Option<nat>)

  type Blocks = seq<Bb>

  datatype Edge = NEXT | THEN | ELSE

  /** Where control is, the variables, and the leaves evaluated so far. */
  datatype Point = Point(bb: nat, pos: nat, env: map<nat, int>, trace: seq<nat>)

  function Val(env: map<nat, int>, v: nat): int { if v in env then env[v] else 0 }

  function Step(f: Oracle, g: Blocks, p: Point): Option<Point>
  {
    if p.bb >= |g| then None
    else if p.pos < |g[p.bb].insns| then
      match g[p.bb].insns[p.pos]
      case Eval(d, id) => Some(p.(pos := p.pos + 1, env := p.env[d := f(p.trace, id)], trace := p.trace + [id]))
      case LoadConst(d, x) => Some(p.(pos := p.pos + 1, env := p.env[d := x]))
      case Copy(d, s) => Some(p.(pos := p.pos + 1, env := p.env[d := Val(p.env, s)]))
      case Test(s) => Enter(if Val(p.env, s) != 0 then g[p.bb].then_ else g[p.bb].else_, p)
    else Enter(g[p.bb].next, p)
  }

  function Enter(to: Option<nat>, p: Point): Option<Point>
  {
    match to case None => None case Some(b) => Some(p.(bb := b, pos := 0))
  }

  function Run(f: Oracle, g: Blocks, p: Point, n: nat): Option<Point>
  {
    if n == 0 then Some(p) else match Run(f, g, p, n - 1) case None => None case Some(q) => Step(f, g, q)
  }

  ghost predicate Leads(f: Oracle, g: Blocks, p: Point, q: Point)
  {
    exists n: nat :: Run(f, g, p, n) == Some(q)
  }

  /** `g2` has grown from `g`: blocks got instructions or edges only where they were open. */
  ghost predicate Grown(g: Blocks, g2: Blocks)
  {
    |g| <= |g2| && forall b :: 0 <= b < |g| ==> GrownBb(g[b], g2[b])
  }

  predicate GrownBb(a: Bb, b: Bb)
  {
    && a.insns <= b.insns && (a.next.Some? ==> b.next == a.next && b.insns == a.insns)
    && (a.then_.Some? ==> b.then_ == a.then_) && (a.else_.Some? ==> b.else_ == a.else_)
  }

  lemma StepGrows(f: Oracle, g: Blocks, g2: Blocks, p: Point)
    requires Grown(g, g2) && Step(f, g, p).Some?
    ensures Step(f, g2, p) == Step(f, g, p)
  {
    assert GrownBb(g[p.bb], g2[p.bb]);
  }

  lemma {:induction false} RunGrows(f: Oracle, g: Blocks, g2: Blocks, p: Point, n: nat)
    requires Grown(g, g2) && Run(f, g, p, n).Some?
    ensures Run(f, g2, p, n) == Run(f, g, p, n)
  {
    hide Step, Grown;
    if n > 0 {
      RunGrows(f, g, g2, p, n - 1);
      StepGrows(f, g, g2, Run(f, g, p, n - 1).value);
    }
  }

  lemma LeadsGrows(f: Oracle, g: Blocks, g2: Blocks, p: Point, q: Point)
    requires Grown(g, g2) && Leads(f, g, p, q)
    ensures Leads(f, g2, p, q)
  {
    var n: nat :| Run(f, g, p, n) == Some(q);
    RunGrows(f, g, g2, p, n);
  }

  lemma LeadsSelf(f: Oracle, g: Blocks, p: Point)
    ensures Leads(f, g, p, p)
  {
    assert Run(f, g, p, 0) == Some(p);
  }

  lemma LeadsStep(f: Oracle, g: Blocks, p: Point, q: Point) returns (r: Point)
    requires Leads(f, g, p, q) && Step(f, g, q).Some?
    ensures Step(f, g, q) == Some(r) && Leads(f, g, p, r)
  {
    hide Step;
    var n: nat :| Run(f, g, p, n) == Some(q);
    r := Step(f, g, q).value;
    assert Run(f, g, p, n + 1) == Some(r);
  }

  lemma {:induction false} RunAdds(f: Oracle, g: Blocks, p: Point, q: Point, n: nat, m: nat)
    requires Run(f, g, p, n) == Some(q)
    ensures Run(f, g, p, n + m) == Run(f, g, q, m)
  {
    if m > 0 {
      RunAdds(f, g, p, q, n, m - 1);
    }
  }

  lemma LeadsOn(f: Oracle, g: Blocks, p: Point, q: Point, r: Point)
    requires Leads(f, g, p, q) && Leads(f, g, q, r)
    ensures Leads(f, g, p, r)
  {
    var n: nat :| Run(f, g, p, n) == Some(q);
    var m: nat :| Run(f, g, q, m) == Some(r);
    RunAdds(f, g, p, q, n, m);
  }

  lemma GrownTransitive(a: Blocks, b: Blocks, c: Blocks)
    requires Grown(a, b) && Grown(b, c)
    ensures Grown(a, c)
  {
    forall i | 0 <= i < |a| ensures GrownBb(a[i], c[i]) {
      assert GrownBb(a[i], b[i]) && GrownBb(b[i], c[i]);
    }
  }

  // ---- the builder -------------------------------------------------------------------------------------

  /** The blocks, the operand stack and the next unused variable. */
  datatype State = State(g: Blocks, stack: seq<nat>, fresh_: nat)
  {
    function Create(): (r: State)
      ensures |r.g| == |g| + 1 && r.stack == stack && r.fresh_ == fresh_
    {
      this.(g := g + [Bb([], None, None, None)])
    }

    function Connect(a: nat, b: nat, e: Edge): (r: State)
      requires a < |g|
      ensures |r.g| == |g| && r.stack == stack && r.fresh_ == fresh_
    {
      this.(g := g[a := match e
                        case NEXT => g[a].(next := Some(b))
                        case THEN => g[a].(then_ := Some(b))
                        case ELSE => g[a].(else_ := Some(b))])
    }

    function Add(b: nat, i: Ins): (r: State)
      requires b < |g|
      ensures |r.g| == |g| && r.stack == stack && r.fresh_ == fresh_
    {
      this.(g := g[b := g[b].(insns := g[b].insns + [i])])
    }

    function Push(v: nat): (r: State)
      ensures |r.g| == |g| && |r.stack| == |stack| + 1
    {
      this.(stack := stack + [v])
    }

    function Top(): nat
      requires stack != []
    {
      stack[|stack| - 1]
    }

    function Pop(): (r: State)
      requires stack != []
      ensures |r.g| == |g| && |r.stack| == |stack| - 1 && r.fresh_ == fresh_
    {
      this.(stack := stack[..|stack| - 1])
    }

    function Fresh(): (r: State)
      ensures |r.g| == |g| && r.stack == stack
    {
      this.(fresh_ := fresh_ + 1)
    }
  }

  /** `read_logical`: test the operand, go on in a new block. */
  function ReadLogical(op: LogOp, st: State, bb: nat): (r: (State, nat))
    requires bb < |st.g| && st.stack != []
    ensures r.1 < |r.0.g| == |st.g| + 1 && |r.0.stack| == |st.stack| - 1
  {
    var new_ := |st.g|;
    (st.Pop().Add(bb, Test(st.Top())).Create().Connect(bb, new_, if op == And then THEN else ELSE), new_)
  }

  /** `finalize_logical`: test the last operand; one new block loads the value of getting there,
      the shared block the other one, and both go on in a third. */
  function FinalizeLogical(op: LogOp, st: State, bb: nat, shared: nat): (r: (State, nat))
    requires bb < |st.g| && shared < |st.g| && st.stack != []
    ensures r.1 < |r.0.g| == |st.g| + 2 && |r.0.stack| == |st.stack|
  {
    var end, own := |st.g|, |st.g| + 1;
    var s1 := st.Create().Create();
    var s2 := s1.Connect(bb, if op == And then own else shared, THEN)
                .Connect(bb, if op == And then shared else own, ELSE);
    var s3 := s2.Connect(own, end, NEXT).Connect(shared, end, NEXT).Pop().Add(bb, Test(st.Top()));
    var v1, res, v2 := st.fresh_, st.fresh_ + 1, st.fresh_ + 2;
    var s4 := s3.Fresh().Fresh().Fresh();
    var s5 := s4.Add(own, LoadConst(v1, Flag(op == And))).Add(own, Copy(res, v1));
    var s6 := s5.Add(shared, LoadConst(v2, Flag(op != And))).Add(shared, Copy(res, v2));
    (s6.Push(res), end)
  }

  /** The variables of `read_expr`. */
  datatype Work = Work(st: State, bb: nat, andBb: nat, orBb: nat, prev: Option<LogOp>, pprev: Option<LogOp>)
  {
    predicate Ok() {
      bb < |st.g| && andBb < |st.g| && orBb < |st.g|
    }

    function Shared(op: LogOp): nat {
      if op == And then andBb else orBb
    }
  }

  /** A logical operator after an operand: what `read_expr` does with it. */
  function OnOperator(w: Work, op: LogOp): (r: Work)
    requires w.Ok() && w.st.stack != []
    ensures r.Ok() && |r.st.g| >= |w.st.g| && |r.st.stack| == |w.st.stack| - 1
  {
    if w.prev == None || w.prev == Some(op) then
      var s1 := w.st.Connect(w.bb, w.Shared(op), if op == And then ELSE else THEN);
      var r := ReadLogical(op, s1, w.bb);
      w.(st := r.0, bb := r.1, prev := Some(op))
    else if w.prev == Some(And) then
      var fin := FinalizeLogical(And, w.st, w.bb, w.andBb);
      var s1 := fin.0.Create();
      var r := ReadLogical(op, s1.Connect(fin.1, w.orBb, THEN), fin.1);
      w.(st := r.0, bb := r.1, andBb := |fin.0.g|, prev := Some(op), pprev := None)
    else
      var r := ReadLogical(op, w.st.Connect(w.bb, w.andBb, ELSE), w.bb);
      w.(st := r.0, bb := r.1, prev := Some(op), pprev := w.prev)
  }

  /** The loop at the end of `read_expr`. */
  function FinishAll(w: Work): (r: Work)
    requires w.Ok() && w.st.stack != []
    ensures r.Ok() && |r.st.g| >= |w.st.g| && |r.st.stack| == |w.st.stack|
    decreases if w.prev == None then 0 else if w.pprev == None then 1 else 2
  {
    match w.prev
    case None => w
    case Some(op) =>
      var fin := FinalizeLogical(op, w.st, w.bb, w.Shared(op));
      FinishAll(w.(st := fin.0, bb := fin.1, prev := w.pprev, pprev := None))
  }

  /** `read_expr_operand`: a leaf's code goes into the current block. */
  function ReadOperand(st: State, bb: nat, o: Operand): (r: (State, nat))
    requires bb < |st.g|
    ensures r.1 < |r.0.g| && |r.0.g| >= |st.g| && |r.0.stack| == |st.stack| + 1
    decreases OperandSize(o), 0
  {
    match o
    case Leaf(id) => (st.Fresh().Add(bb, Eval(st.fresh_, id)).Push(st.fresh_), bb)
    case Paren(first, rest) => ReadExpr(st, bb, first, rest)
  }

  /** `read_expr` over a chain of operands joined by logical operators. */
  function ReadExpr(st: State, bb: nat, first: Operand, rest: Chain): (r: (State, nat))
    requires bb < |st.g|
    ensures r.1 < |r.0.g| && |r.0.g| >= |st.g| && |r.0.stack| == |st.stack| + 1
    decreases OperandSize(first) + ChainSize(rest), 1
  {
    var andBb := |st.g|;
    var a := ReadOperand(st.Create().Create(), bb, first);
    var w := ReadRest(Work(a.0, a.1, andBb, andBb + 1, None, None), rest);
    var fin := FinishAll(w);
    (fin.st, fin.bb)
  }

  function ReadRest(w: Work, rest: Chain): (r: Work)
    requires w.Ok() && w.st.stack != []
    ensures r.Ok() && |r.st.g| >= |w.st.g| && |r.st.stack| == |w.st.stack|
    decreases ChainSize(rest), 1
  {
    match rest
    case End => w
    case Link(op, o, more) =>
      var w1 := OnOperator(w, op);
      var a := ReadOperand(w1.st, w1.bb, o);
      ReadRest(w1.(st := a.0, bb := a.1), more)
  }

  // ---- what the builder keeps ----------------------------------------------------------------------------

  /** A block that still may grow. */
  predicate Open(g: Blocks, b: nat)
  {
    b < |g| && g[b].next == None && g[b].then_ == None && g[b].else_ == None
  }

  const EMPTY := Bb([], None, None, None)

  predicate Empty(g: Blocks, b: nat)
  {
    b < |g| && g[b] == EMPTY
  }

  /** Between two steps of `read_expr`. */
  ghost predicate Shape(w: Work)
  {
    && Open(w.st.g, w.bb) && Empty(w.st.g, w.andBb) && Empty(w.st.g, w.orBb)
    && w.bb != w.andBb && w.bb != w.orBb && w.andBb != w.orBb
    && (w.pprev == None || (w.pprev == Some(Or) && w.prev == Some(And)))
  }

  /** Only the blocks of `s` and new ones have changed. */
  ghost predicate Elsewhere(g: Blocks, g2: Blocks, s: set<nat>)
  {
    |g| <= |g2| && forall b: nat :: b < |g| && b !in s ==> g2[b] == g[b]
  }

  /** The graph `finalize_logical` leaves. */
  lemma FinalizeGraph(op: LogOp, st: State, bb: nat, shared: nat)
    requires Open(st.g, bb) && Empty(st.g, shared) && bb != shared && st.stack != []
    ensures var r := FinalizeLogical(op, st, bb, shared);
            var g, end, own, res := r.0.g, |st.g|, |st.g| + 1, st.fresh_ + 1;
            && r.1 == end && |g| == |st.g| + 2 && r.0.stack == st.stack[..|st.stack| - 1] + [res]
            && g[bb] == Bb(st.g[bb].insns + [Test(st.Top())], None, Some(if op == And then own else shared),
                           Some(if op == And then shared else own))
            && g[own] == Bb([LoadConst(st.fresh_, Flag(op == And)), Copy(res, st.fresh_)], Some(end), None, None)
            && g[shared] == Bb([LoadConst(st.fresh_ + 2, Flag(op != And)), Copy(res, st.fresh_ + 2)],
                               Some(end), None, None)
            && g[end] == EMPTY && Elsewhere(st.g, g, {bb, shared}) && Grown(st.g, g)
  {
    var r := FinalizeLogical(op, st, bb, shared);
    forall b | 0 <= b < |st.g| ensures GrownBb(st.g[b], r.0.g[b]) {
    }
  }

  /** Where the run is, according to the scan. */
  ghost predicate Located(f: Oracle, w: Work, s: Scan, p0: Point)
    requires w.Ok() && (s.Have? ==> w.st.stack != [])
  {
    match s
    case Have(v, t) => exists env ::
      Leads(f, w.st.g, p0, Point(w.bb, |w.st.g[w.bb].insns|, env, t)) && Val(env, w.st.Top()) == v
    case Go(t) => exists env :: Leads(f, w.st.g, p0, Point(w.bb, |w.st.g[w.bb].insns|, env, t))
    case AndFalse(t) => w.prev == Some(And) && exists env :: Leads(f, w.st.g, p0, Point(w.andBb, 0, env, t))
    case OrTrue(t) =>
      (w.prev == Some(Or) || w.pprev == Some(Or)) && exists env :: Leads(f, w.st.g, p0, Point(w.orBb, 0, env, t))
  }

  /** One arm of a finalized operator: load the value, go to the common end. */
  lemma ThroughArm(f: Oracle, g: Blocks, p0: Point, arm: nat, env: map<nat, int>, t: seq<nat>, x: int, v: nat,
                   res: nat, end: nat)
    returns (env2: map<nat, int>)
    requires Leads(f, g, p0, Point(arm, 0, env, t)) && arm < |g|
    requires g[arm] == Bb([LoadConst(v, x), Copy(res, v)], Some(end), None, None)
    ensures Leads(f, g, p0, Point(end, 0, env2, t)) && Val(env2, res) == x
  {
    hide Leads;
    var q1 := LeadsStep(f, g, p0, Point(arm, 0, env, t));
    var q2 := LeadsStep(f, g, p0, q1);
    var q3 := LeadsStep(f, g, p0, q2);
    env2 := q3.env;
  }

  /** Finalizing turns a value into 0 or 1 and a decision into its value. */
  lemma FinalizeRuns(f: Oracle, op: LogOp, st: State, bb: nat, shared: nat, s: Scan, p0: Point)
    returns (env: map<nat, int>)
    requires Open(st.g, bb) && Empty(st.g, shared) && bb != shared && st.stack != []
    requires s.Have? ==> exists e ::
      Leads(f, st.g, p0, Point(bb, |st.g[bb].insns|, e, s.trace)) && Val(e, st.Top()) == s.value
    requires !s.Have? ==> exists e :: Leads(f, st.g, p0, Point(shared, 0, e, s.trace))
    ensures var r := FinalizeLogical(op, st, bb, shared);
            && r.0.stack != [] && Leads(f, r.0.g, p0, Point(r.1, 0, env, s.trace))
            && Val(env, r.0.Top()) == if s.Have? then Flag(s.value != 0) else Flag(op == Or)
  {
    hide Leads, FinalizeLogical, Grown;
    FinalizeGraph(op, st, bb, shared);
    var r := FinalizeLogical(op, st, bb, shared);
    var g, end, own, res := r.0.g, |st.g|, |st.g| + 1, st.fresh_ + 1;
    if s.Have? {
      var e :| Leads(f, st.g, p0, Point(bb, |st.g[bb].insns|, e, s.trace)) && Val(e, st.Top()) == s.value;
      LeadsGrows(f, st.g, g, p0, Point(bb, |st.g[bb].insns|, e, s.trace));
      var q := LeadsStep(f, g, p0, Point(bb, |st.g[bb].insns|, e, s.trace));
      if q.bb == own {
        env := ThroughArm(f, g, p0, own, e, s.trace, Flag(op == And), st.fresh_, res, end);
      } else {
        env := ThroughArm(f, g, p0, shared, e, s.trace, Flag(op != And), st.fresh_ + 2, res, end);
      }
    } else {
      var e :| Leads(f, st.g, p0, Point(shared, 0, e, s.trace));
      LeadsGrows(f, st.g, g, p0, Point(shared, 0, e, s.trace));
      env := ThroughArm(f, g, p0, shared, e, s.trace, Flag(op != And), st.fresh_ + 2, res, end);
    }
  }

  /** The test of an operand before operator `op`: on one side the next block, on the other the
      shared one. */
  lemma TestGraph(op: LogOp, st: State, bb: nat, shared: nat)
    requires Open(st.g, bb) && shared < |st.g| && bb != shared && st.stack != []
    ensures var r := ReadLogical(op, st.Connect(bb, shared, if op == And then ELSE else THEN), bb);
            && r.1 == |st.g| && |r.0.g| == |st.g| + 1 && r.0.stack == st.stack[..|st.stack| - 1] && r.0.g[r.1] == EMPTY
            && r.0.g[bb] == Bb(st.g[bb].insns + [Test(st.Top())], None, Some(if op == And then r.1 else shared),
                               Some(if op == And then shared else r.1))
            && Elsewhere(st.g, r.0.g, {bb}) && Grown(st.g, r.0.g)
  {
    var r := ReadLogical(op, st.Connect(bb, shared, if op == And then ELSE else THEN), bb);
    forall b | 0 <= b < |st.g| ensures GrownBb(st.g[b], r.0.g[b]) {
    }
  }

  lemma TestRuns(f: Oracle, op: LogOp, st: State, bb: nat, shared: nat, e: map<nat, int>, t: seq<nat>, p0: Point)
    requires Open(st.g, bb) && shared < |st.g| && bb != shared && st.stack != []
    requires Leads(f, st.g, p0, Point(bb, |st.g[bb].insns|, e, t))
    ensures var r := ReadLogical(op, st.Connect(bb, shared, if op == And then ELSE else THEN), bb);
            var v := Val(e, st.Top());
            Leads(f, r.0.g, p0, Point(if (op == And) == (v != 0) then r.1 else shared, 0, e, t))
  {
    hide Leads, ReadLogical, Grown;
    TestGraph(op, st, bb, shared);
    var g := ReadLogical(op, st.Connect(bb, shared, if op == And then ELSE else THEN), bb).0.g;
    LeadsGrows(f, st.g, g, p0, Point(bb, |st.g[bb].insns|, e, t));
    var q := LeadsStep(f, g, p0, Point(bb, |st.g[bb].insns|, e, t));
  }

  /** What one call of `read_expr` on block `bb0` of graph `g0` may have done so far. */
  ghost predicate Own(g0: Blocks, bb0: nat, base: seq<nat>, w: Work)
  {
    && Grown(g0, w.st.g) && Elsewhere(g0, w.st.g, {bb0})
    && (w.bb == bb0 || w.bb >= |g0|) && w.andBb >= |g0| && w.orBb >= |g0|
    && |w.st.stack| > 0 && w.st.stack[..|w.st.stack| - 1] == base
  }

  /** The same before an operand is read. */
  ghost predicate OwnGo(g0: Blocks, bb0: nat, base: seq<nat>, w: Work)
  {
    && Grown(g0, w.st.g) && Elsewhere(g0, w.st.g, {bb0})
    && (w.bb == bb0 || w.bb >= |g0|) && w.andBb >= |g0| && w.orBb >= |g0| && w.st.stack == base
  }

  lemma GrownAt(f: Oracle, g: Blocks, g2: Blocks, p0: Point, b: nat, t: seq<nat>)
    requires Grown(g, g2) && exists e :: Leads(f, g, p0, Point(b, 0, e, t))
    ensures exists e :: Leads(f, g2, p0, Point(b, 0, e, t))
  {
    var e :| Leads(f, g, p0, Point(b, 0, e, t));
    LeadsGrows(f, g, g2, p0, Point(b, 0, e, t));
  }

  /** The first operator, or one like the last. */
  lemma OnSame(f: Oracle, w: Work, op: LogOp, s: Scan, p0: Point, g0: Blocks, bb0: nat, base: seq<nat>)
    requires Shape(w) && !s.Go? && Own(g0, bb0, base, w) && Located(f, w, s, p0)
    requires (w.prev == None || w.prev == Some(op))
    ensures var w2 := OnOperator(w, op);
            Shape(w2) && OwnGo(g0, bb0, base, w2) && Located(f, w2, Operator(s, op), p0)
  {
    hide Leads, ReadLogical, FinalizeLogical, Grown;
    var w2, g := OnOperator(w, op), w.st.g;
    TestGraph(op, w.st, w.bb, w.Shared(op));
    GrownTransitive(g0, g, w2.st.g);
    match s {
      case Have(v, t) =>
        var e :| Leads(f, g, p0, Point(w.bb, |g[w.bb].insns|, e, t)) && Val(e, w.st.Top()) == v;
        TestRuns(f, op, w.st, w.bb, w.Shared(op), e, t, p0);
      case AndFalse(t) => GrownAt(f, g, w2.st.g, p0, w.andBb, t);
      case OrTrue(t) => GrownAt(f, g, w2.st.g, p0, w.orBb, t);
    }
  }

  /** `&&` after `||`: the operand belongs to a new conjunction. */
  lemma OnAndAfterOr(f: Oracle, w: Work, s: Scan, p0: Point, g0: Blocks, bb0: nat, base: seq<nat>)
    requires Shape(w) && !s.Go? && Own(g0, bb0, base, w) && Located(f, w, s, p0) && w.prev == Some(Or)
    ensures var w2 := OnOperator(w, And);
            Shape(w2) && OwnGo(g0, bb0, base, w2) && Located(f, w2, Operator(s, And), p0)
  {
    hide Leads, ReadLogical, FinalizeLogical, Grown;
    var w2, g := OnOperator(w, And), w.st.g;
    TestGraph(And, w.st, w.bb, w.andBb);
    GrownTransitive(g0, g, w2.st.g);
    match s {
      case Have(v, t) =>
        var e :| Leads(f, g, p0, Point(w.bb, |g[w.bb].insns|, e, t)) && Val(e, w.st.Top()) == v;
        TestRuns(f, And, w.st, w.bb, w.andBb, e, t, p0);
      case OrTrue(t) => GrownAt(f, g, w2.st.g, p0, w.orBb, t);
    }
  }

  /** `||` after `&&`: the conjunction is finalized and its value tested. */
  lemma OnOrAfterAnd(f: Oracle, w: Work, s: Scan, p0: Point, g0: Blocks, bb0: nat, base: seq<nat>)
    requires Shape(w) && !s.Go? && Own(g0, bb0, base, w) && Located(f, w, s, p0) && w.prev == Some(And)
    ensures var w2 := OnOperator(w, Or);
            Shape(w2) && OwnGo(g0, bb0, base, w2) && Located(f, w2, Operator(s, Or), p0)
  {
    hide Leads, ReadLogical, FinalizeLogical, Grown;
    var w2, g := OnOperator(w, Or), w.st.g;
    FinalizeGraph(And, w.st, w.bb, w.andBb);
    var fin := FinalizeLogical(And, w.st, w.bb, w.andBb);
    var st1 := fin.0.Create();
    CreateGrows(fin.0);
    TestGraph(Or, st1, fin.1, w.orBb);
    GrownTransitive(g0, g, fin.0.g);
    GrownTransitive(g0, fin.0.g, st1.g);
    GrownTransitive(g0, st1.g, w2.st.g);
    if s.OrTrue? {
      GrownAt(f, g, fin.0.g, p0, w.orBb, s.trace);
      GrownAt(f, fin.0.g, st1.g, p0, w.orBb, s.trace);
      GrownAt(f, st1.g, w2.st.g, p0, w.orBb, s.trace);
    } else {
      var env := FinalizeRuns(f, And, w.st, w.bb, w.andBb, s, p0);
      LeadsGrows(f, fin.0.g, st1.g, p0, Point(fin.1, 0, env, s.trace));
      TestRuns(f, Or, st1, fin.1, w.orBb, env, s.trace, p0);
    }
  }

  lemma CreateGrows(st: State)
    ensures Grown(st.g, st.Create().g)
  {
  }

  lemma OnOperatorKeeps(f: Oracle, w: Work, op: LogOp, s: Scan, p0: Point, g0: Blocks, bb0: nat, base: seq<nat>)
    requires Shape(w) && !s.Go? && Own(g0, bb0, base, w) && Located(f, w, s, p0)
    ensures var w2 := OnOperator(w, op);
            Shape(w2) && OwnGo(g0, bb0, base, w2) && Located(f, w2, Operator(s, op), p0)
  {
    hide Located, Own, OwnGo, OnOperator;
    if w.prev == None || w.prev == Some(op) {
      OnSame(f, w, op, s, p0, g0, bb0, base);
    } else if w.prev.value.And? {
      OnOrAfterAnd(f, w, s, p0, g0, bb0, base);
    } else {
      OnAndAfterOr(f, w, s, p0, g0, bb0, base);
    }
  }

  /** What is left to finalize is in place. */
  ghost predicate Finishing(w: Work)
  {
    && Open(w.st.g, w.bb) && w.Ok()
    && (w.prev.Some? ==> Empty(w.st.g, w.Shared(w.prev.value)) && w.Shared(w.prev.value) != w.bb)
    && (w.pprev == None
        || (w.pprev == Some(Or) && w.prev == Some(And)
            && Empty(w.st.g, w.orBb) && w.orBb != w.bb && w.orBb != w.andBb))
  }

  /** The final loop of `read_expr` ends in one block with the value of the chain. */
  lemma {:induction false} FinishKeeps(f: Oracle, w: Work, s: Scan, p0: Point, g0: Blocks, bb0: nat, base: seq<nat>)
    returns (env: map<nat, int>)
    requires Finishing(w) && !s.Go? && Own(g0, bb0, base, w) && Located(f, w, s, p0)
    ensures var w2 := FinishAll(w);
            && Open(w2.st.g, w2.bb) && Own(g0, bb0, base, w2)
            && Leads(f, w2.st.g, p0, Point(w2.bb, |w2.st.g[w2.bb].insns|, env, s.trace))
            && Val(env, w2.st.Top()) == Result(s, w.prev == None).value
    decreases if w.prev == None then 0 else if w.pprev == None then 1 else 2
  {
    hide Leads, FinalizeLogical, Grown;
    match w.prev {
      case None =>
        env :| Leads(f, w.st.g, p0, Point(w.bb, |w.st.g[w.bb].insns|, env, s.trace)) && Val(env, w.st.Top()) == s.value;
      case Some(op) =>
        FinalizeGraph(op, w.st, w.bb, w.Shared(op));
        var fin := FinalizeLogical(op, w.st, w.bb, w.Shared(op));
        var w1 := w.(st := fin.0, bb := fin.1, prev := w.pprev, pprev := None);
        GrownTransitive(g0, w.st.g, w1.st.g);
        if s.OrTrue? && op == And {
          GrownAt(f, w.st.g, w1.st.g, p0, w.orBb, s.trace);
          env := FinishKeeps(f, w1, s, p0, g0, bb0, base);
        } else {
          var e := FinalizeRuns(f, op, w.st, w.bb, w.Shared(op), s, p0);
          env := FinishKeeps(f, w1, Have(Val(e, fin.0.Top()), s.trace), p0, g0, bb0, base);
        }
    }
  }

  /** Reading an operand extends the current block and leaves its value on the stack. */
  lemma {:induction false} OperandRuns(f: Oracle, st: State, bb: nat, o: Operand, env: map<nat, int>, t: seq<nat>)
    returns (env2: map<nat, int>)
    requires Open(st.g, bb)
    ensures var r := ReadOperand(st, bb, o);
            && Open(r.0.g, r.1) && Grown(st.g, r.0.g) && Elsewhere(st.g, r.0.g, {bb}) && (r.1 == bb || r.1 >= |st.g|)
            && r.0.stack[..|r.0.stack| - 1] == st.stack
            && Leads(f, r.0.g, Point(bb, |st.g[bb].insns|, env, t),
                Point(r.1, |r.0.g[r.1].insns|, env2, EvalOperand(f, o, t).trace))
            && Val(env2, r.0.Top()) == EvalOperand(f, o, t).value
    decreases OperandSize(o), 0
  {
    match o {
      case Leaf(id) =>
        var r := ReadOperand(st, bb, o);
        var p := Point(bb, |st.g[bb].insns|, env, t);
        LeadsSelf(f, r.0.g, p);
        var q := LeadsStep(f, r.0.g, p, p);
        env2 := q.env;
      case Paren(first, rest) => env2 := ExprRuns(f, st, bb, first, rest, env, t);
    }
  }

  /** The rest of a chain, from a position that agrees with the scan. */
  lemma {:induction false} RestRuns(f: Oracle, w: Work, rest: Chain, s: Scan, p0: Point, g0: Blocks, bb0: nat,
                                    base: seq<nat>)
    requires Shape(w) && !s.Go? && Own(g0, bb0, base, w) && Located(f, w, s, p0)
    ensures var w2 := ReadRest(w, rest);
            && Shape(w2) && Own(g0, bb0, base, w2) && !ScanAll(f, s, rest).Go?
            && Located(f, w2, ScanAll(f, s, rest), p0)
            && (w2.prev == None <==> w.prev == None && rest == End)
    decreases ChainSize(rest), 1
  {
    hide Leads, Grown, FinalizeLogical, ReadLogical, OnOperator, EvalOperand;
    match rest {
      case End =>
      case Link(op, o, more) =>
        OnOperatorKeeps(f, w, op, s, p0, g0, bb0, base);
        var w1, s1 := OnOperator(w, op), Operator(s, op);
        PrevSet(w, op);
        var s2 := Advance(f, s1, o);
        var env, t := map[], [];
        if s1.Go? {
          env :| Leads(f, w1.st.g, p0, Point(w1.bb, |w1.st.g[w1.bb].insns|, env, s1.trace));
          t := s1.trace;
        }
        var env2 := OperandRuns(f, w1.st, w1.bb, o, env, t);
        var a := ReadOperand(w1.st, w1.bb, o);
        var w2 := w1.(st := a.0, bb := a.1);
        OperandKeepsOwn(w1, o, g0, bb0, base, a);
        if s1.Go? {
          var p1 := Point(w1.bb, |w1.st.g[w1.bb].insns|, env, t);
          LeadsGrows(f, w1.st.g, a.0.g, p0, p1);
          LeadsOn(f, a.0.g, p0, p1, Point(a.1, |a.0.g[a.1].insns|, env2, s2.trace));
        } else if s1.AndFalse? {
          GrownAt(f, w1.st.g, a.0.g, p0, w1.andBb, s1.trace);
        } else {
          GrownAt(f, w1.st.g, a.0.g, p0, w1.orBb, s1.trace);
        }
        RestRuns(f, w2, more, s2, p0, g0, bb0, base);
    }
  }

  lemma PrevSet(w: Work, op: LogOp)
    requires w.Ok() && w.st.stack != []
    ensures OnOperator(w, op).prev == Some(op)
  {
  }

  lemma OperandKeepsOwn(w: Work, o: Operand, g0: Blocks, bb0: nat, base: seq<nat>, a: (State, nat))
    requires Shape(w) && OwnGo(g0, bb0, base, w)
    requires Open(a.0.g, a.1) && Grown(w.st.g, a.0.g) && Elsewhere(w.st.g, a.0.g, {w.bb})
    requires (a.1 == w.bb || a.1 >= |w.st.g|)
    requires a.0.stack != [] && a.0.stack[..|a.0.stack| - 1] == w.st.stack
    ensures var w2 := w.(st := a.0, bb := a.1); Shape(w2) && Own(g0, bb0, base, w2)
  {
    GrownTransitive(g0, w.st.g, a.0.g);
    var w2 := w.(st := a.0, bb := a.1);
    forall b: nat | b < |g0| && b !in {bb0} ensures w2.st.g[b] == g0[b] {
      assert w.st.g[b] == g0[b] && b != w.bb;
    }
  }

  /** `read_expr`: running the blocks it built evaluates exactly the operands C99 requires, in
      order, and leaves the value of the chain in the variable on top of the stack. */
  lemma {:induction false} ExprRuns(f: Oracle, st: State, bb: nat, first: Operand, rest: Chain, env: map<nat, int>,
                                    t: seq<nat>)
    returns (env2: map<nat, int>)
    requires Open(st.g, bb)
    ensures var r, want := ReadExpr(st, bb, first, rest), EvalOperand(f, Paren(first, rest), t);
            && Open(r.0.g, r.1) && Grown(st.g, r.0.g) && Elsewhere(st.g, r.0.g, {bb}) && (r.1 == bb || r.1 >= |st.g|)
            && r.0.stack[..|r.0.stack| - 1] == st.stack
            && Leads(f, r.0.g, Point(bb, |st.g[bb].insns|, env, t), Point(r.1, |r.0.g[r.1].insns|, env2, want.trace))
            && Val(env2, r.0.Top()) == want.value
    decreases OperandSize(first) + ChainSize(rest), 1
  {
    hide Leads, Grown, FinalizeLogical, ReadLogical, OnOperator, EvalOperand, Located;
    var st2, andBb := st.Create().Create(), |st.g|;
    CreateGrows(st);
    CreateGrows(st.Create());
    GrownTransitive(st.g, st.Create().g, st2.g);
    var p0 := Point(bb, |st.g[bb].insns|, env, t);
    var e := OperandRuns(f, st2, bb, first, env, t);
    var a, v := ReadOperand(st2, bb, first), EvalOperand(f, first, t);
    var w := Work(a.0, a.1, andBb, andBb + 1, None, None);
    OperandKeepsOwn(Work(st2, bb, andBb, andBb + 1, None, None), first, st.g, bb, st.stack, a);
    HaveLocated(f, w, p0, e, v.value, v.trace);
    RestRuns(f, w, rest, Have(v.value, v.trace), p0, st.g, bb, st.stack);
    var w2, s2 := ReadRest(w, rest), ScanAll(f, Have(v.value, v.trace), rest);
    env2 := FinishKeeps(f, w2, s2, p0, st.g, bb, st.stack);
    ScanIsOperand(f, first, rest, t);
  }

  lemma HaveLocated(f: Oracle, w: Work, p0: Point, e: map<nat, int>, v: int, t: seq<nat>)
    requires w.Ok() && w.st.stack != []
    requires Leads(f, w.st.g, p0, Point(w.bb, |w.st.g[w.bb].insns|, e, t)) && Val(e, w.st.Top()) == v
    ensures Located(f, w, Have(v, t), p0)
  {
  }

  // ---- in place ----------------------------------------------------------------------------------------

  /** The parser's state: basic blocks connected in place and the operand stack. */
  class Parser {
    var blocks: Blocks
    var operandStack: seq<nat>
    var nextVar: nat

    constructor ()
      ensures Snap() == State([], [], 0)
    {
      blocks, operandStack, nextVar := [], [], 0;
    }

    function Snap(): State
      reads this
    {
      State(blocks, operandStack, nextVar)
    }

    method BbCreate() returns (b: nat)
      modifies this
      ensures b == |old(blocks)| && Snap() == old(Snap()).Create()
    {
      b := |blocks|;
      blocks := blocks + [Bb([], None, None, None)];
    }

    method BbConnect(pred: nat, succ: nat, e: Edge)
      requires pred < |blocks|
      modifies this
      ensures Snap() == old(Snap()).Connect(pred, succ, e)
    {
      match e {
        case NEXT => blocks := blocks[pred := blocks[pred].(next := Some(succ))];
        case THEN => blocks := blocks[pred := blocks[pred].(then_ := Some(succ))];
        case ELSE => blocks := blocks[pred := blocks[pred].(else_ := Some(succ))];
      }
    }

    method AddInsn(b: nat, i: Ins)
      requires b < |blocks|
      modifies this
      ensures Snap() == old(Snap()).Add(b, i)
    {
      blocks := blocks[b := blocks[b].(insns := blocks[b].insns + [i])];
    }

    method OpstackPush(v: nat)
      modifies this
      ensures Snap() == old(Snap()).Push(v)
    {
      operandStack := operandStack + [v];
    }

    method OpstackPop() returns (v: nat)
      requires operandStack != []
      modifies this
      ensures v == old(Snap()).Top() && Snap() == old(Snap()).Pop()
    {
      v := operandStack[|operandStack| - 1];
      operandStack := operandStack[..|operandStack| - 1];
    }

    method RequireVar() returns (v: nat)
      modifies this
      ensures v == old(nextVar) && Snap() == old(Snap()).Fresh()
    {
      v := nextVar;
      nextVar := nextVar + 1;
    }

    method ReadLogicalOp(op: LogOp, bb: nat) returns (newBb: nat)
      requires bb < |blocks| && operandStack != []
      modifies this
      ensures (Snap(), newBb) == ReadLogical(op, old(Snap()), bb)
    {
      var vd := OpstackPop();
      AddInsn(bb, Test(vd));
      newBb := BbCreate();
      BbConnect(bb, newBb, if op == And then THEN else ELSE);
    }

    method Finalize(op: LogOp, bb: nat, shared: nat) returns (end: nat)
      requires bb < |blocks| && shared < |blocks| && operandStack != []
      modifies this
      ensures (Snap(), end) == FinalizeLogical(op, old(Snap()), bb, shared)
    {
      hide State.Create, State.Connect, State.Add, State.Push, State.Pop;
      end := BbCreate();
      var own := BbCreate();
      if op == And {
        BbConnect(bb, own, THEN);
        BbConnect(bb, shared, ELSE);
      } else {
        BbConnect(bb, shared, THEN);
        BbConnect(bb, own, ELSE);
      }
      BbConnect(own, end, NEXT);
      BbConnect(shared, end, NEXT);
      var vd := OpstackPop();
      AddInsn(bb, Test(vd));
      var v1 := RequireVar();
      var res := RequireVar();
      var v2 := RequireVar();
      AddInsn(own, LoadConst(v1, if op == And then 1 else 0));
      AddInsn(own, Copy(res, v1));
      AddInsn(shared, LoadConst(v2, if op == And then 0 else 1));
      AddInsn(shared, Copy(res, v2));
      OpstackPush(res);
    }

    method ReadExprOperand(bb: nat, o: Operand) returns (end: nat)
      requires bb < |blocks|
      modifies this
      ensures (Snap(), end) == ReadOperand(old(Snap()), bb, o) && end < |blocks| && operandStack != []
      decreases OperandSize(o), 0
    {
      match o {
        case Leaf(id) =>
          var vd := RequireVar();
          AddInsn(bb, Eval(vd, id));
          OpstackPush(vd);
          end := bb;
        case Paren(first, rest) => end := ReadExprChain(bb, first, rest);
      }
    }

    method ReadExprChain(bb0: nat, first: Operand, rest: Chain) returns (bb: nat)
      requires bb0 < |blocks|
      modifies this
      ensures (Snap(), bb) == ReadExpr(old(Snap()), bb0, first, rest) && bb < |blocks| && operandStack != []
      decreases OperandSize(first) + ChainSize(rest), 1
    {
      hide ReadLogical, FinalizeLogical, State.Create, State.Connect;
      ghost var st0 := Snap();
      var prev: Option<LogOp>, pprev: Option<LogOp> := None, None;
      var andBb := BbCreate();
      var orBb := BbCreate();
      bb := ReadExprOperand(bb0, first);
      ghost var want := ReadRest(Work(Snap(), bb, andBb, orBb, prev, pprev), rest);
      var todo := rest;
      while todo.Link?
        invariant Work(Snap(), bb, andBb, orBb, prev, pprev).Ok() && operandStack != []
        invariant ChainSize(todo) <= ChainSize(rest)
        invariant ReadRest(Work(Snap(), bb, andBb, orBb, prev, pprev), todo) == want
        decreases todo
      {
        var op := todo.op;
        if prev == None || prev == Some(op) {
          BbConnect(bb, if op == And then andBb else orBb, if op == And then ELSE else THEN);
          bb := ReadLogicalOp(op, bb);
          prev := Some(op);
        } else if prev == Some(And) {
          bb := Finalize(And, bb, andBb);
          andBb := BbCreate();
          BbConnect(bb, orBb, THEN);
          bb := ReadLogicalOp(op, bb);
          prev, pprev := Some(op), None;
        } else {
          BbConnect(bb, andBb, ELSE);
          bb := ReadLogicalOp(op, bb);
          prev, pprev := Some(op), prev;
        }
        OperandPositive(todo.operand);
        bb := ReadExprOperand(bb, todo.operand);
        todo := todo.rest;
      }
      ghost var final := FinishAll(want);
      while prev.Some?
        invariant Work(Snap(), bb, andBb, orBb, prev, pprev).Ok() && operandStack != []
        invariant FinishAll(Work(Snap(), bb, andBb, orBb, prev, pprev)) == final
        decreases if prev == None then 0 else if pprev == None then 1 else 2
      {
        bb := Finalize(prev.value, bb, if prev.value == And then andBb else orBb);
        prev, pprev := pprev, None;
      }
    }
  }
}
