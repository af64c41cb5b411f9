/** Running a function before and after SSA construction along the same path: every
    instruction sees the same operand values. */
module SsaMeaning {
  import opened Cfg
  import opened Options
  import opened Dominators
  import opened PhiPlacement
  import opened SsaForm

  type Env = Name -> int

  /** What the instruction at a place of a block computes from its operands. */
  type Semantics = (nat, nat, Option<int>, Option<int>) -> int

  function Put(e: Env, n: Name, v: int): Env
  {
    m => if m == n then v else e(m)
  }

  function Val(e: Env, o: Option<Name>): Option<int>
  {
    match o case None => None case Some(n) => Some(e(n))
  }

  /** Phis do nothing when the block runs: their copies happen on the edge. */
  function Step(f: Semantics, b: nat, j: nat, i: Insn, e: Env): Env
  {
    match i
    case Phi(_) => e
    case Op(rd, rs1, rs2) =>
      match rd
      case None => e
      case Some(d) => Put(e, d, f(b, j, Val(e, rs1), Val(e, rs2)))
  }

  /** The environment after the first `j` instructions of block `b`. */
  function Exec(f: Semantics, b: nat, insns: seq<Insn>, j: nat, e: Env): Env
    requires j <= |insns|
  {
    if j == 0 then e else Step(f, b, j - 1, insns[j - 1], Exec(f, b, insns, j - 1, e))
  }

  function OperandFrom(ops: seq<PhiOp>, from: nat): Option<nat>
  {
    if ops == [] then None else if ops[0].from == from then ops[0].sub else OperandFrom(ops[1..], from)
  }

  /** The copies of the first `j` phis on the edge from block `from`, all reading `old`. */
  function Arrive(insns: seq<Insn>, ops: seq<seq<PhiOp>>, from: nat, old_: Env, j: nat): Env
    requires j <= |insns| == |ops|
  {
    if j == 0 then old_
    else
      var e := Arrive(insns, ops, from, old_, j - 1);
      match insns[j - 1]
      case Phi(d) => Put(e, d, old_(Name(d.base, OperandFrom(ops[j - 1], from))))
      case Op(_, _, _) => e
  }

  ghost predicate Fit(code: seq<seq<Insn>>, p: seq<nat>) {
    forall i :: 0 <= i < |p| ==> p[i] < |code|
  }

  /** The original function on reaching the `k`-th block of a path. */
  ghost function Before(f: Semantics, src: seq<seq<Insn>>, p: seq<nat>, k: nat, e: Env): Env
    requires Fit(src, p) && k < |p|
  {
    if k == 0 then e else Exec(f, p[k - 1], src[p[k - 1]], |src[p[k - 1]]|, Before(f, src, p, k - 1, e))
  }

  /** The function in SSA form on reaching the `k`-th block, after the copies of its phis. */
  ghost function BeforeSsa(f: Semantics, code: seq<seq<Insn>>, ops: seq<seq<seq<PhiOp>>>, p: seq<nat>, k: nat,
                           e: Env): Env
    requires Fit(code, p) && k < |p| && |ops| == |code| && forall b: nat :: b < |code| ==> |ops[b]| == |code[b]|
  {
    if k == 0 then e
    else
      var end := Exec(f, p[k - 1], code[p[k - 1]], |code[p[k - 1]]|, BeforeSsa(f, code, ops, p, k - 1, e));
      Arrive(code[p[k]], ops[p[k]], p[k - 1], end, |code[p[k]]|)
  }

  /** Phis stand at the head of their block, at most one for a variable. */
  ghost predicate PhisLead(insns: seq<Insn>, lead: nat)
  {
    && lead <= |insns|
    && (forall j :: 0 <= j < |insns| ==> (insns[j].Phi? <==> j < lead))
    && (forall i, j :: 0 <= i < j < lead ==> insns[i].dest.base != insns[j].dest.base)
  }

  /** Copies of phis for other variables leave `n` alone. */
  lemma {:induction false} ArriveElsewhere(insns: seq<Insn>, ops: seq<seq<PhiOp>>, from: nat, e: Env, j: nat, n: Name)
    requires j <= |insns| == |ops|
    requires forall i :: 0 <= i < j && insns[i].Phi? ==> insns[i].dest.base != n.base
    ensures Arrive(insns, ops, from, e, j)(n) == e(n)
  {
    if j > 0 {
      ArriveElsewhere(insns, ops, from, e, j - 1, n);
    }
  }

  lemma {:induction false} ArriveHere(insns: seq<Insn>, ops: seq<seq<PhiOp>>, from: nat, e: Env, lead: nat, i: nat,
                                      j: nat)
    requires PhisLead(insns, lead) && i < lead && i < j <= |insns| == |ops|
    ensures Arrive(insns, ops, from, e, j)(insns[i].dest) == e(Name(insns[i].dest.base, OperandFrom(ops[i], from)))
  {
    if i < j - 1 {
      ArriveHere(insns, ops, from, e, lead, i, j - 1);
    }
  }

  lemma {:induction false} OperandFromOk(ops: seq<PhiOp>, from: nat, sub: Option<nat>)
    requires exists i :: 0 <= i < |ops| && ops[i].from == from
    requires forall i :: 0 <= i < |ops| && ops[i].from == from ==> ops[i].sub == sub
    ensures OperandFrom(ops, from) == sub
  {
    if ops[0].from != from {
      var i :| 0 <= i < |ops| && ops[i].from == from;
      assert ops[1..][i - 1] == ops[i];
      OperandFromOk(ops[1..], from, sub);
    }
  }

  /** After the leading phis, the subscript of `x` is that of its phi, if it has one. */
  lemma {:induction false} LastDefOfLead(insns: seq<Insn>, lead: nat, x: nat, cur: Option<nat>, j: nat)
    requires PhisLead(insns, lead) && j <= lead
    ensures (forall i :: 0 <= i < j ==> insns[i].dest.base != x) ==> LastDef(insns[..j], x, cur) == cur
    ensures forall i :: 0 <= i < j && insns[i].dest.base == x ==> LastDef(insns[..j], x, cur) == insns[i].dest.sub
  {
    if j > 0 {
      LastDefOfLead(insns, lead, x, cur, j - 1);
      assert insns[..j][..j - 1] == insns[..j - 1];
    }
  }

  lemma {:induction false} ExecPhis(f: Semantics, b: nat, insns: seq<Insn>, j: nat, e: Env)
    requires j <= |insns| && forall i :: 0 <= i < j ==> insns[i].Phi?
    ensures Exec(f, b, insns, j, e) == e
  {
    if j > 0 {
      ExecPhis(f, b, insns, j - 1, e);
    }
  }

  // ---- the simulation --------------------------------------------------------------------

  /** Everything about one function that the simulation needs; gathered to keep the statements
      below readable. */
  datatype Fn = Fn(g: Graph, t: DomTree, init: seq<Option<nat>>, src: seq<seq<Insn>>, code: seq<seq<Insn>>,
                   ops: seq<seq<seq<PhiOp>>>, outs: map<nat, seq<Option<nat>>>)
  {
    ghost predicate Ready() {
      && Settled(g, t, init, src, code, ops, outs)
      && (forall b: nat :: b < |src| ==> PhisLead(src[b], Lead(src[b])))
      && Lead(src[t.entry]) == 0
      && (forall b: nat, x: nat :: b < |src| && StartsWithPhi(src[b], x) ==> Numbered(code, outs, x))
      && (forall b: nat, j :: b < |src| && 0 <= j < |src[b]| && Def(src[b][j]).Some? ==>
            Def(src[b][j]).value.sub == None)
    }

    ghost predicate SameShape() {
      |code| == |src| == |ops| && forall b: nat :: b < |src| ==> |code[b]| == |src[b]| == |ops[b]|
    }
  }

  function Lead(insns: seq<Insn>): (r: nat)
    ensures r <= |insns| && (forall j :: 0 <= j < r ==> insns[j].Phi?) && (r < |insns| ==> insns[r].Op?)
  {
    if insns == [] || insns[0].Op? then 0 else 1 + Lead(insns[1..])
  }

  /** `x` has been assigned in the block before place `j`, or is tracked up to the block. */
  ghost predicate Live(fn: Fn, p: seq<nat>, k: nat, j: nat, x: nat)
    requires fn.t.Valid() && |fn.g| == |fn.t.idom| == |fn.src| && k < |p| && Fit(fn.src, p) && j <= |fn.src[p[k]]|
  {
    Assigns(fn.src[p[k]][..j], x) || Tracked(fn.g, fn.t, fn.init, fn.src, p, k, x)
  }

  /** The `j`-th instruction of the `k`-th block on the path reads `n`. */
  predicate Reads(src: seq<seq<Insn>>, p: seq<nat>, k: nat, j: nat, n: Name)
    requires k < |p| && p[k] < |src|
  {
    j < |src[p[k]]| && src[p[k]][j].Op? && (src[p[k]][j].rs1 == Some(n) || src[p[k]][j].rs2 == Some(n))
  }

  ghost predicate UsesLive(fn: Fn, p: seq<nat>, k: nat)
    requires fn.t.Valid() && |fn.g| == |fn.t.idom| == |fn.src| && k < |p| && Fit(fn.src, p)
  {
    forall j: nat, n: Name :: Reads(fn.src, p, k, j, n) ==>
      n.sub == None && n.base < |fn.init| && Live(fn, p, k, j, n.base)
  }

  /** Before place `j`, live variables have equal values: under their own name in the original,
      under the reaching subscript in SSA form. */
  ghost predicate Match(fn: Fn, p: seq<nat>, k: nat, j: nat, e: Env, e2: Env)
    requires fn.t.Valid() && |fn.g| == |fn.t.idom| == |fn.src| && k < |p| && Fit(fn.src, p) && fn.SameShape()
    requires j <= |fn.src[p[k]]|
  {
    forall x: nat :: x < |fn.init| && Live(fn, p, k, j, x) ==>
      e2(Name(x, LastDef(fn.code[p[k]][..j], x, Reaching(fn.code, p, k, x, fn.init[x])))) == e(Name(x, None))
  }

  lemma ShapeOf(fn: Fn)
    requires Settled(fn.g, fn.t, fn.init, fn.src, fn.code, fn.ops, fn.outs)
    ensures fn.SameShape()
  {
    forall b: nat | b < |fn.src| ensures |fn.code[b]| == |fn.src[b]| {
      if b in fn.outs {
        assert BlockRenamed(fn.src[b], fn.code[b], InOf(fn.t, fn.init, fn.outs, b));
      }
    }
  }

  lemma PathFits(fn: Fn, p: seq<nat>)
    requires IsPath(fn.g, p) && |fn.g| == |fn.src|
    ensures Fit(fn.src, p)
  {
  }

  lemma LiveIsKnown(fn: Fn, p: seq<nat>, k: nat, j: nat, x: nat)
    requires fn.t.Valid() && |fn.g| == |fn.t.idom| == |fn.src| && k < |p| && Fit(fn.src, p) && j <= |fn.src[p[k]]|
    requires Live(fn, p, k, j, x)
    ensures KnownAt(fn.g, fn.t, fn.init, fn.src, p, k, j, x)
  {
    if Assigns(fn.src[p[k]][..j], x) {
      var insns := fn.src[p[k]][..j];
      var i :| 0 <= i < |insns| && insns[i].Op? && Def(insns[i]).Some? && Def(insns[i]).value.base == x;
      DefinesHere(insns, i);
    }
  }

  /** A live operand has the same value in both forms. */
  lemma SameOperand(fn: Fn, p: seq<nat>, k: nat, j: nat, n: Name, e: Env, e2: Env)
    requires fn.Ready() && OnPath(fn.g, fn.t, p, k) && Fit(fn.src, p) && fn.SameShape()
    requires Reads(fn.src, p, k, j, n) && n.sub == None && n.base < |fn.init| && Live(fn, p, k, j, n.base)
    requires Match(fn, p, k, j, e, e2)
    ensures fn.code[p[k]][j].Op?
    ensures fn.src[p[k]][j].rs1 == Some(n) ==> Val(e2, fn.code[p[k]][j].rs1) == Some(e(n))
    ensures fn.src[p[k]][j].rs2 == Some(n) ==> Val(e2, fn.code[p[k]][j].rs2) == Some(e(n))
  {
    LiveIsKnown(fn, p, k, j, n.base);
    hide Settled, Tracked, Assigns, Live;
    UseIsReaching(fn.g, fn.t, fn.init, fn.src, fn.code, fn.ops, fn.outs, p, k, j, n);
    assert n == Name(n.base, None);
  }

  lemma ShapeOfInsn(fn: Fn, p: seq<nat>, k: nat, j: nat)
    requires fn.Ready() && OnPath(fn.g, fn.t, p, k) && Fit(fn.src, p) && fn.SameShape() && j < |fn.src[p[k]]|
    ensures fn.src[p[k]][j].Phi? <==> fn.code[p[k]][j].Phi?
    ensures DefRenamed(Def(fn.src[p[k]][j]), Def(fn.code[p[k]][j]))
    ensures fn.src[p[k]][j].Op? ==> (fn.src[p[k]][j].rs1 == None <==> fn.code[p[k]][j].rs1 == None)
    ensures fn.src[p[k]][j].Op? ==> (fn.src[p[k]][j].rs2 == None <==> fn.code[p[k]][j].rs2 == None)
  {
    PathInside(fn.g, fn.t, fn.init, fn.src, fn.code, fn.ops, fn.outs, p, k);
    var b := p[k];
    assert BlockRenamed(fn.src[b], fn.code[b], InOf(fn.t, fn.init, fn.outs, b));
    assert InsnRenamed(fn.src[b][j], fn.code[b][j], fn.code[b][..j], InOf(fn.t, fn.init, fn.outs, b));
  }

  /** Both forms hand the `j`-th instruction of the `k`-th block the same operand values. */
  ghost predicate SameInputs(fn: Fn, p: seq<nat>, k: nat, j: nat, e: Env, e2: Env)
    requires k < |p| && Fit(fn.src, p) && fn.SameShape() && j < |fn.src[p[k]]|
  {
    var i, i2 := fn.src[p[k]][j], fn.code[p[k]][j];
    (i.Op? <==> i2.Op?) && (i.Op? ==> Val(e, i.rs1) == Val(e2, i2.rs1) && Val(e, i.rs2) == Val(e2, i2.rs2))
  }

  lemma InputsMatch(fn: Fn, p: seq<nat>, k: nat, j: nat, e: Env, e2: Env)
    requires fn.Ready() && OnPath(fn.g, fn.t, p, k) && Fit(fn.src, p) && fn.SameShape() && j < |fn.src[p[k]]|
    requires UsesLive(fn, p, k) && Match(fn, p, k, j, e, e2)
    ensures SameInputs(fn, p, k, j, e, e2)
  {
    ShapeOfInsn(fn, p, k, j);
    hide Settled, Tracked, Assigns, Live, Match;
    var i := fn.src[p[k]][j];
    if i.Op? && i.rs1.Some? {
      assert Reads(fn.src, p, k, j, i.rs1.value);
      SameOperand(fn, p, k, j, i.rs1.value, e, e2);
    }
    if i.Op? && i.rs2.Some? {
      assert Reads(fn.src, p, k, j, i.rs2.value);
      SameOperand(fn, p, k, j, i.rs2.value, e, e2);
    }
  }

  lemma AssignsGrows(insns: seq<Insn>, j: nat, x: nat)
    requires j < |insns|
    ensures Assigns(insns[..j + 1], x) <==>
      Assigns(insns[..j], x) || (insns[j].Op? && Def(insns[j]).Some? && Def(insns[j]).value.base == x)
  {
    var a, b := insns[..j], insns[..j + 1];
    if Assigns(a, x) {
      var i :| 0 <= i < |a| && a[i].Op? && Def(a[i]).Some? && Def(a[i]).value.base == x;
      assert b[i] == a[i];
    }
    if Assigns(b, x) {
      var i :| 0 <= i < |b| && b[i].Op? && Def(b[i]).Some? && Def(b[i]).value.base == x;
      if i < j { assert a[i] == b[i]; }
    }
    if insns[j].Op? && Def(insns[j]).Some? && Def(insns[j]).value.base == x {
      assert b[j] == insns[j];
    }
  }

  /** One instruction behind the phis keeps the environments matching. */
  lemma StepMatches(fn: Fn, f: Semantics, p: seq<nat>, k: nat, j: nat, e: Env, e2: Env)
    requires fn.Ready() && OnPath(fn.g, fn.t, p, k) && Fit(fn.src, p) && fn.SameShape()
    requires j < |fn.src[p[k]]| && fn.src[p[k]][j].Op?
    requires fn.src[p[k]][j].rd.Some? ==> fn.src[p[k]][j].rd.value.sub == None
    requires SameInputs(fn, p, k, j, e, e2) && Match(fn, p, k, j, e, e2)
    ensures Match(fn, p, k, j + 1, Step(f, p[k], j, fn.src[p[k]][j], e), Step(f, p[k], j, fn.code[p[k]][j], e2))
  {
    ShapeOfInsn(fn, p, k, j);
    hide Settled, Live, IsPath, Reaching, LastDef, Step;
    forall x: nat | x < |fn.init| && Live(fn, p, k, j + 1, x)
      ensures Step(f, p[k], j, fn.code[p[k]][j], e2)
                  (Name(x, LastDef(fn.code[p[k]][..j + 1], x, Reaching(fn.code, p, k, x, fn.init[x]))))
        == Step(f, p[k], j, fn.src[p[k]][j], e)(Name(x, None))
    {
      LiveStep(fn, p, k, j, x);
      var i := fn.src[p[k]][j];
      assert (i.rd.Some? && i.rd.value.base == x) || Live(fn, p, k, j, x);
      StepOf(f, p[k], j, i, fn.code[p[k]], e, e2, x, Reaching(fn.code, p, k, x, fn.init[x]));
    }
  }

  /** What one instruction, read in both forms, does to one variable. */
  lemma StepOf(f: Semantics, b: nat, j: nat, i: Insn, code: seq<Insn>, e: Env, e2: Env, x: nat, cur: Option<nat>)
    requires j < |code| && i.Op? && code[j].Op? && DefRenamed(Def(i), Def(code[j]))
    requires (i.rd.Some? ==> i.rd.value.sub == None)
    requires Val(e, i.rs1) == Val(e2, code[j].rs1) && Val(e, i.rs2) == Val(e2, code[j].rs2)
    requires (i.rd.Some? && i.rd.value.base == x) || e2(Name(x, LastDef(code[..j], x, cur))) == e(Name(x, None))
    ensures Step(f, b, j, code[j], e2)(Name(x, LastDef(code[..j + 1], x, cur))) == Step(f, b, j, i, e)(Name(x, None))
  {
    assert code[..j + 1][..j] == code[..j];
    if i.rd.Some? && i.rd.value.base == x {
      assert i.rd.value == Name(x, None) && code[j].rd.value == Name(x, code[j].rd.value.sub);
    }
  }

  lemma LiveStep(fn: Fn, p: seq<nat>, k: nat, j: nat, x: nat)
    requires fn.t.Valid() && |fn.g| == |fn.t.idom| == |fn.src| && k < |p| && Fit(fn.src, p) && j < |fn.src[p[k]]|
    requires Live(fn, p, k, j + 1, x) && fn.src[p[k]][j].Op?
    ensures (fn.src[p[k]][j].rd.Some? && fn.src[p[k]][j].rd.value.base == x) || Live(fn, p, k, j, x)
  {
    hide Tracked, Assigns;
    AssignsGrows(fn.src[p[k]], j, x);
  }

  lemma LeadRenamed(fn: Fn, p: seq<nat>, k: nat)
    requires fn.Ready() && OnPath(fn.g, fn.t, p, k) && Fit(fn.src, p) && fn.SameShape()
    ensures PhisLead(fn.code[p[k]], Lead(fn.src[p[k]]))
    ensures forall i :: 0 <= i < Lead(fn.src[p[k]]) ==> fn.code[p[k]][i].dest.base == fn.src[p[k]][i].dest.base
  {
    var src, code := fn.src[p[k]], fn.code[p[k]];
    assert PhisLead(src, Lead(src));
    forall i | 0 <= i < |src|
      ensures (src[i].Phi? <==> code[i].Phi?) && (src[i].Phi? ==> code[i].dest.base == src[i].dest.base) {
      ShapeOfInsn(fn, p, k, i);
    }
  }

  lemma NoAssignInLead(insns: seq<Insn>, lead: nat, x: nat)
    requires PhisLead(insns, lead)
    ensures !Assigns(insns[..lead], x)
  {
  }

  lemma PhiOperandValue(fn: Fn, p: seq<nat>, k: nat, i: nat, x: nat)
    requires fn.Ready() && OnPath(fn.g, fn.t, p, k) && Fit(fn.src, p) && fn.SameShape() && k > 0 && x < |fn.init|
    requires i < |fn.src[p[k]]| && fn.src[p[k]][i].Phi? && fn.src[p[k]][i].dest.base == x
    requires TrackedToEnd(fn.g, fn.t, fn.init, fn.src, p, k - 1, x) && Tracked(fn.g, fn.t, fn.init, fn.src, p, k, x)
    ensures OperandFrom(fn.ops[p[k]][i], p[k - 1]) == Reaching(fn.code, p, k, x, fn.init[x])
  {
    assert i < Lead(fn.src[p[k]]) && StartsWithPhi(fn.src[p[k]], x);
    PhiIsReaching(fn.g, fn.t, fn.init, fn.src, fn.code, fn.ops, fn.outs, p, k, i, x);
    OperandFromOk(fn.ops[p[k]][i], p[k - 1], Reaching(fn.code, p, k, x, fn.init[x]));
  }

  /** One live variable across an edge. */
  lemma ArriveMatchesAt(fn: Fn, p: seq<nat>, k: nat, e: Env, e2: Env, x: nat)
    requires fn.Ready() && OnPath(fn.g, fn.t, p, k) && Fit(fn.src, p) && fn.SameShape() && k > 0 && x < |fn.init|
    requires Match(fn, p, k - 1, |fn.src[p[k - 1]]|, e, e2)
    requires Live(fn, p, k, Lead(fn.src[p[k]]), x)
    ensures var code, lead := fn.code[p[k]], Lead(fn.src[p[k]]);
      Arrive(code, fn.ops[p[k]], p[k - 1], e2, |code|)(Name(x,
          LastDef(code[..lead], x, Reaching(fn.code, p, k, x, fn.init[x]))))
        == e(Name(x, None))
  {
    LeadRenamed(fn, p, k);
    LeavesMatching(fn, p, k, e, e2, x);
    hide *;
    ArriveCopies(fn, p, k, e2, x);
  }

  /** What is live behind the phis of a block was live at the end of the block before. */
  lemma LeavesMatching(fn: Fn, p: seq<nat>, k: nat, e: Env, e2: Env, x: nat)
    requires fn.Ready() && OnPath(fn.g, fn.t, p, k) && Fit(fn.src, p) && fn.SameShape() && k > 0 && x < |fn.init|
    requires Match(fn, p, k - 1, |fn.src[p[k - 1]]|, e, e2)
    requires Live(fn, p, k, Lead(fn.src[p[k]]), x)
    ensures Tracked(fn.g, fn.t, fn.init, fn.src, p, k, x) && TrackedToEnd(fn.g, fn.t, fn.init, fn.src, p, k - 1, x)
    ensures e2(Name(x, Reaching(fn.code, p, k, x, fn.init[x]))) == e(Name(x, None))
  {
    hide ChainsAreDominators, Renamed, PhisOk, Reaches, WellFormed, StartsWithPhi, Given, FilteredOut;
    NoAssignInLead(fn.src[p[k]], Lead(fn.src[p[k]]), x);
    var last := fn.src[p[k - 1]];
    assert last[..|last|] == last && fn.code[p[k - 1]][..|last|] == fn.code[p[k - 1]];
    assert Tracked(fn.g, fn.t, fn.init, fn.src, p, k, x);
    assert TrackedToEnd(fn.g, fn.t, fn.init, fn.src, p, k - 1, x);
    assert Live(fn, p, k - 1, |last|, x);
  }

  /** The copies on an edge hand a tracked variable over to the name it has behind the phis. */
  lemma ArriveCopies(fn: Fn, p: seq<nat>, k: nat, e2: Env, x: nat)
    requires fn.Ready() && OnPath(fn.g, fn.t, p, k) && Fit(fn.src, p) && fn.SameShape() && k > 0 && x < |fn.init|
    requires Tracked(fn.g, fn.t, fn.init, fn.src, p, k, x) && TrackedToEnd(fn.g, fn.t, fn.init, fn.src, p, k - 1, x)
    requires PhisLead(fn.code[p[k]], Lead(fn.src[p[k]]))
    requires forall i :: 0 <= i < Lead(fn.src[p[k]]) ==> fn.code[p[k]][i].dest.base == fn.src[p[k]][i].dest.base
    ensures var code, lead, cur := fn.code[p[k]], Lead(fn.src[p[k]]), Reaching(fn.code, p, k, x, fn.init[x]);
      Arrive(code, fn.ops[p[k]], p[k - 1], e2, |code|)(Name(x, LastDef(code[..lead], x, cur))) == e2(Name(x, cur))
  {
    hide Settled, Tracked, TrackedToEnd, Reaching, Numbered, StartsWithPhi;
    var code, lead := fn.code[p[k]], Lead(fn.src[p[k]]);
    var cur := Reaching(fn.code, p, k, x, fn.init[x]);
    LastDefOfLead(code, lead, x, cur, lead);
    if i: nat :| i < lead && code[i].dest.base == x {
      PhiOperandValue(fn, p, k, i, x);
      ArriveHere(code, fn.ops[p[k]], p[k - 1], e2, lead, i, |code|);
      assert code[i].dest == Name(x, code[i].dest.sub);
    } else {
      ArriveElsewhere(code, fn.ops[p[k]], p[k - 1], e2, |code|, Name(x, cur));
    }
  }

  /** Behind the leading phis of a block every instruction sees the same inputs. */
  lemma {:induction false} BlockMatches(fn: Fn, f: Semantics, p: seq<nat>, k: nat, j: nat, e: Env, e2: Env)
    requires fn.Ready() && OnPath(fn.g, fn.t, p, k) && Fit(fn.src, p) && fn.SameShape()
    requires UsesLive(fn, p, k) && Lead(fn.src[p[k]]) <= j <= |fn.src[p[k]]|
    requires Match(fn, p, k, Lead(fn.src[p[k]]), e, e2)
    ensures Match(fn, p, k, j, Exec(f, p[k], fn.src[p[k]], j, e), Exec(f, p[k], fn.code[p[k]], j, e2))
  {
    hide Settled, Tracked, Match, Live, UsesLive, Step, SameInputs, IsPath;
    var src, code, lead := fn.src[p[k]], fn.code[p[k]], Lead(fn.src[p[k]]);
    LeadRenamed(fn, p, k);
    if j == lead {
      ExecPhis(f, p[k], src, lead, e);
      ExecPhis(f, p[k], code, lead, e2);
    } else {
      BlockMatches(fn, f, p, k, j - 1, e, e2);
      assert PhisLead(src, lead) && src[j - 1].Op?;
      InputsMatch(fn, p, k, j - 1, Exec(f, p[k], src, j - 1, e), Exec(f, p[k], code, j - 1, e2));
      StepMatches(fn, f, p, k, j - 1, Exec(f, p[k], src, j - 1, e), Exec(f, p[k], code, j - 1, e2));
    }
  }

  ghost predicate AllUsesLive(fn: Fn, p: seq<nat>)
    requires fn.t.Valid() && |fn.g| == |fn.t.idom| == |fn.src| && Fit(fn.src, p)
  {
    forall k: nat :: k < |p| ==> UsesLive(fn, p, k)
  }

  /** Both programs start from the same values. */
  ghost predicate SameStart(fn: Fn, e: Env, e2: Env) {
    forall x: nat :: x < |fn.init| ==> e2(Name(x, fn.init[x])) == e(Name(x, None))
  }

  lemma {:induction false} PathMatches(fn: Fn, f: Semantics, p: seq<nat>, k: nat, e: Env, e2: Env)
    requires fn.Ready() && OnPath(fn.g, fn.t, p, k) && Fit(fn.src, p) && fn.SameShape()
    requires AllUsesLive(fn, p) && SameStart(fn, e, e2)
    ensures Match(fn, p, k, Lead(fn.src[p[k]]), Before(f, fn.src, p, k, e), BeforeSsa(f, fn.code, fn.ops, p, k, e2))
  {
    if k == 0 {
      assert fn.code[p[0]][..0] == [];
    } else {
      assert OnPath(fn.g, fn.t, p, k - 1) && UsesLive(fn, p, k - 1);
      PathMatches(fn, f, p, k - 1, e, e2);
      var b, len := p[k - 1], |fn.src[p[k - 1]]|;
      var a, a2 := Before(f, fn.src, p, k - 1, e), BeforeSsa(f, fn.code, fn.ops, p, k - 1, e2);
      BlockMatches(fn, f, p, k - 1, len, a, a2);
      var z, z2 := Exec(f, b, fn.src[b], len, a), Exec(f, b, fn.code[b], len, a2);
      forall x: nat | x < |fn.init| && Live(fn, p, k, Lead(fn.src[p[k]]), x)
        ensures Arrive(fn.code[p[k]], fn.ops[p[k]], b, z2, |fn.code[p[k]]|)
                  (Name(x, LastDef(fn.code[p[k]][..Lead(fn.src[p[k]])], x, Reaching(fn.code, p, k, x, fn.init[x]))))
                == z(Name(x, None))
      {
        ArriveMatchesAt(fn, p, k, z, z2, x);
      }
    }
  }

  /** SSA construction preserves meaning: run the function before and after it along the same
      path, from the same values, phis copying on the edges. If every use on the path is live,
      then every instruction on the path sees the same operand values in both. */
  lemma SsaKeepsMeaning(fn: Fn, f: Semantics, p: seq<nat>, k: nat, j: nat, e: Env, e2: Env)
    requires fn.Ready() && OnPath(fn.g, fn.t, p, k) && fn.SameShape() && j < |fn.src[p[k]]|
    requires AllUsesLive(fn, p) && SameStart(fn, e, e2)
    ensures SameInputs(fn, p, k, j,
              Exec(f, p[k], fn.src[p[k]], j, Before(f, fn.src, p, k, e)),
              Exec(f, p[k], fn.code[p[k]], j, BeforeSsa(f, fn.code, fn.ops, p, k, e2)))
  {
    PathFits(fn, p);
    assert UsesLive(fn, p, k);
    PathMatches(fn, f, p, k, e, e2);
    var a, a2 := Before(f, fn.src, p, k, e), BeforeSsa(f, fn.code, fn.ops, p, k, e2);
    var lead := Lead(fn.src[p[k]]);
    if j < lead {
      ShapeOfInsn(fn, p, k, j);
    } else {
      BlockMatches(fn, f, p, k, j, a, a2);
      InputsMatch(fn, p, k, j, Exec(f, p[k], fn.src[p[k]], j, a), Exec(f, p[k], fn.code[p[k]], j, a2));
    }
  }
}
