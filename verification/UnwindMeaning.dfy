/** Running the unwound function along a path: every instruction sees what it sees in the source.
    The copies at the end of a block are those of all edges out of it; none gets in the way of
    another, since all copies of one variable there read the version it has at that end. */
module UnwindMeaning {
  import opened Cfg
  import opened Dominators
  import opened Options
  import opened PhiPlacement
  import opened SsaForm
  import opened SsaMeaning
  import opened PhiUnwind

  function StepItem(f: Semantics, b: nat, i: Item, e: Env): Env
  {
    match i
    case Keep(place, insn) => Step(f, b, place, insn, e)
    case Do(c) => Put(e, c.dest, e(c.src))
  }

  function RunItems(f: Semantics, b: nat, items: seq<Item>, e: Env): Env
  {
    if items == [] then e else StepItem(f, b, items[|items| - 1], RunItems(f, b, items[..|items| - 1], e))
  }

  lemma {:induction false} RunAppend(f: Semantics, b: nat, x: seq<Item>, y: seq<Item>, e: Env)
    ensures RunItems(f, b, x + y, e) == RunItems(f, b, y, RunItems(f, b, x, e))
  {
    if y == [] {
      assert x + y == x;
    } else {
      RunAppend(f, b, x, y[..|y| - 1], e);
      assert (x + y)[..|x + y| - 1] == x + y[..|y| - 1];
    }
  }

  lemma {:induction false} RunDone(f: Semantics, b: nat, cs: seq<Copy>, j: nat, e: Env)
    requires j <= |cs|
    ensures RunItems(f, b, Done(cs[..j]), e) == InTurn(cs, j, e)
  {
    if j > 0 {
      RunDone(f, b, cs, j - 1, e);
      assert Done(cs[..j])[..j - 1] == Done(cs[..j - 1]);
    }
  }

  /** The unwound function on reaching the `k`-th block of a path. */
  ghost function BeforeUnwound(f: Semantics, lists: seq<seq<Item>>, p: seq<nat>, k: nat, e: Env): Env
    requires k < |p| && forall i :: 0 <= i < |p| ==> p[i] < |lists|
  {
    if k == 0 then e else RunItems(f, p[k - 1], lists[p[k - 1]], BeforeUnwound(f, lists, p, k - 1, e))
  }

  /** Instructions of a block, with or without its phis, run as in SSA form. */
  lemma {:induction false} RunKept(f: Semantics, b: nat, insns: seq<Insn>, i: nat, j: nat, e: Env)
    requires i <= j <= |insns| && i <= Lead(insns)
    ensures RunItems(f, b, Kept(insns, i, j), e) == Exec(f, b, insns, j, e)
    decreases j
  {
    if j == i {
      ExecPhis(f, b, insns, i, e);
    } else {
      RunKept(f, b, insns, i, j - 1, e);
      assert Kept(insns, i, j)[..j - 1 - i] == Kept(insns, i, j - 1);
    }
  }

  /** Any list of a block, cut in three. */
  lemma ListParts(u: Unwinding, b: nat, list: seq<Item>) returns (i: nat)
    requires u.Ok() && b < |u.code| && u.ListOf(list, b)
    ensures var m := Body(u.code[b], u.branch[b]);
            && i <= Lead(u.code[b]) <= m
            && list == Kept(u.code[b], i, m) + Done(u.copies[b]) + Kept(u.code[b], m, |u.code[b]|)
  {
    i := if list == Layout(u.code[b], u.branch[b], u.copies[b], true) then Lead(u.code[b]) else 0;
  }

  /** The branch changes nothing. */
  lemma RunBranch(u: Unwinding, f: Semantics, b: nat, e: Env)
    requires u.Ok() && b < |u.code|
    ensures var insns, m := u.code[b], Body(u.code[b], u.branch[b]);
            RunItems(f, b, Kept(insns, m, |insns|), e) == e && Exec(f, b, insns, |insns|, e) == Exec(f, b, insns, m, e)
  {
    var insns, m := u.code[b], Body(u.code[b], u.branch[b]);
    if m < |insns| {
      assert Kept(insns, m, |insns|) == [Keep(m, insns[m])];
      assert Kept(insns, m, |insns|)[..0] == [];
    }
  }

  /** Up to and with its copies. */
  lemma RunToCopies(u: Unwinding, f: Semantics, b: nat, i: nat, e: Env)
    requires u.Ok() && b < |u.code| && i <= Lead(u.code[b]) <= Body(u.code[b], u.branch[b])
    ensures var m, cs := Body(u.code[b], u.branch[b]), u.copies[b];
            RunItems(f, b, Kept(u.code[b], i, m) + Done(cs), e) == InTurn(cs, |cs|, Exec(f, b, u.code[b], m, e))
  {
    var m, cs := Body(u.code[b], u.branch[b]), u.copies[b];
    RunAppend(f, b, Kept(u.code[b], i, m), Done(cs), e);
    RunKept(f, b, u.code[b], i, m, e);
    RunDone(f, b, cs, |cs|, Exec(f, b, u.code[b], m, e));
    assert cs[..|cs|] == cs;
  }

  /** A block runs as its instructions and then its copies. */
  lemma RunList(u: Unwinding, f: Semantics, b: nat, list: seq<Item>, e: Env)
    requires u.Ok() && b < |u.code| && u.ListOf(list, b)
    ensures var cs := u.copies[b];
            RunItems(f, b, list, e) == InTurn(cs, |cs|, Exec(f, b, u.code[b], |u.code[b]|, e))
  {
    var insns, m, cs := u.code[b], Body(u.code[b], u.branch[b]), u.copies[b];
    var i := ListParts(u, b, list);
    RunToCopies(u, f, b, i, e);
    RunAppend(f, b, Kept(insns, i, m) + Done(cs), Kept(insns, m, |insns|), e);
    RunBranch(u, f, b, e);
    RunBranch(u, f, b, InTurn(cs, |cs|, Exec(f, b, insns, m, e)));
  }

  /** What runs before instruction `j` of a block: the copies too if it is the branch. */
  lemma RunUpTo(u: Unwinding, f: Semantics, b: nat, list: seq<Item>, j: nat, at: nat, e: Env)
    requires u.Ok() && b < |u.code| && u.ListOf(list, b) && j < |u.code[b]| && u.code[b][j].Op?
    requires at < |list| && list[at] == Keep(j, u.code[b][j])
    ensures var cs, before := u.copies[b], Exec(f, b, u.code[b], j, e);
            RunItems(f, b, list[..at], e)
            == if j < Body(u.code[b], u.branch[b]) then before else InTurn(cs, |cs|, before)
  {
    var insns, m, cs := u.code[b], Body(u.code[b], u.branch[b]), u.copies[b];
    var i := ListParts(u, b, list);
    if j < m {
      assert list[..at] == Kept(insns, i, j);
      RunKept(f, b, insns, i, j, e);
    } else {
      assert list[..at] == Kept(insns, i, m) + Done(cs);
      RunToCopies(u, f, b, i, e);
    }
  }

  // ---- what the copies of renamed phis read ---------------------------------------------------

  /** A copy at the end of a reachable block is of one variable; it reads the version the variable
      has at that end, if it has one, and its destination has a version. */
  lemma CopyReads(fn: Fn, order: seq<nat>, a: nat, c: Copy)
    requires fn.Ready() && fn.SameShape() && a in fn.outs && Shapes(fn.code, fn.ops)
    requires forall k :: 0 <= k < |order| ==> order[k] < |fn.code|
    requires c in GoingTo(AllCopies(fn.code, fn.ops, order), a)
    ensures var x := c.dest.base;
            && c.src.base == x < |fn.outs[a]| && c.dest.sub.Some?
            && (fn.outs[a][x].Some? ==> c.src == Name(x, fn.outs[a][x]))
  {
    GoingToHas(AllCopies(fn.code, fn.ops, order), a, c);
    var s, i, k := AllFrom(fn.code, fn.ops, order, (a, c));
    OperandReads(fn, a, s, i, k);
  }

  lemma OperandReads(fn: Fn, a: nat, s: nat, i: nat, k: nat)
    requires fn.Ready() && fn.SameShape() && a in fn.outs && Shapes(fn.code, fn.ops)
    requires s < |fn.code| && i < Lead(fn.code[s]) && k < |fn.ops[s][i]| && fn.ops[s][i][k].from == a
    ensures var x := fn.code[s][i].dest.base;
            && x < |fn.outs[a]| && fn.code[s][i].dest.sub.Some?
            && (fn.outs[a][x].Some? ==> fn.ops[s][i][k].sub == fn.outs[a][x])
  {
    PhisOfSource(fn, s);
    var x := fn.src[s][i].dest.base;
    assert OperandsOk(fn.g, fn.outs, fn.outs.Keys, s, x, fn.ops[s][i]);
    assert StartsWithPhi(fn.src[s], x);
    assert Numbered(fn.code, fn.outs, x);
    ReachesStep(fn.g, fn.t.entry, a, s);
    assert NumberedIn(fn.code[s], x);
    assert Def(fn.code[s][i]).Some?;
  }

  /** Renaming turns phis into phis of the same variable. */
  lemma PhisOfSource(fn: Fn, s: nat)
    requires fn.Ready() && fn.SameShape() && s < |fn.code|
    ensures forall i :: 0 <= i < |fn.src[s]| ==> (fn.src[s][i].Phi? <==> fn.code[s][i].Phi?)
    ensures forall i :: 0 <= i < |fn.src[s]| && fn.src[s][i].Phi? ==>
              fn.src[s][i].dest.base == fn.code[s][i].dest.base
  {
    if s in fn.outs {
      assert BlockRenamed(fn.src[s], fn.code[s], InOf(fn.t, fn.init, fn.outs, s));
      forall i | 0 <= i < |fn.src[s]|
        ensures (fn.src[s][i].Phi? <==> fn.code[s][i].Phi?)
        ensures fn.src[s][i].Phi? ==> fn.src[s][i].dest.base == fn.code[s][i].dest.base
      {
        assert InsnRenamed(fn.src[s][i], fn.code[s][i], fn.code[s][..i], InOf(fn.t, fn.init, fn.outs, s));
      }
    }
  }

  /** The copies SSA construction leads to can be done in turn: of a variable that has a version at
      the end of the block, none reads what another has overwritten. */
  lemma CopiesNeverClash(fn: Fn, order: seq<nat>, a: nat, first: Copy, later: Copy)
    requires fn.Ready() && fn.SameShape() && a in fn.outs && Shapes(fn.code, fn.ops)
    requires forall k :: 0 <= k < |order| ==> order[k] < |fn.code|
    requires var cs := GoingTo(AllCopies(fn.code, fn.ops, order), a); first in cs && later in cs
    requires var x := first.dest.base; x < |fn.outs[a]| && fn.outs[a][x].Some?
    ensures !Clash(first, later)
  {
    CopyReads(fn, order, a, first);
    CopyReads(fn, order, a, later);
  }

  // ---- along a path -----------------------------------------------------------------------------

  /** The function is unwound from its SSA form, every block of the path among those visited. */
  ghost predicate Unwound(fn: Fn, u: Unwinding, order: seq<nat>, p: seq<nat>)
  {
    && u.From(order) && u.code == fn.code && u.ops == fn.ops
    && (forall i :: 0 <= i < |p| ==> p[i] < |u.code| && p[i] in order)
  }

  /** The copies leave every variable that is tracked to the end of the block alone. */
  lemma CopiesKeep(fn: Fn, u: Unwinding, order: seq<nat>, p: seq<nat>, k: nat, e: Env, x: nat)
    requires fn.Ready() && OnPath(fn.g, fn.t, p, k) && Fit(fn.src, p) && fn.SameShape() && x < |fn.init|
    requires Unwound(fn, u, order, p) && TrackedToEnd(fn.g, fn.t, fn.init, fn.src, p, k, x)
    ensures var cs, cur := u.copies[p[k]], LastDef(fn.code[p[k]], x, Reaching(fn.code, p, k, x, fn.init[x]));
            InTurn(cs, |cs|, e)(Name(x, cur)) == e(Name(x, cur))
  {
    var cs, cur := u.copies[p[k]], LastDef(fn.code[p[k]], x, Reaching(fn.code, p, k, x, fn.init[x]));
    AgreesToEnd(fn.g, fn.t, fn.init, fn.src, fn.code, fn.ops, fn.outs, p, k, x);
    hide Tracked, TrackedToEnd, Settled, GoingTo, AllCopies, LastDef, Reaching;
    forall i | 0 <= i < |cs| && cs[i].dest == Name(x, cur) ensures cs[i].src == Name(x, cur) {
      CopyReads(fn, order, p[k], cs[i]);
    }
    InTurnKeeps(cs, |cs|, e, Name(x, cur));
  }

  /** Every phi has an operand for the edge a path takes. */
  lemma EdgeHasOperand(fn: Fn, p: seq<nat>, k: nat, i: nat) returns (x: nat)
    requires fn.Ready() && OnPath(fn.g, fn.t, p, k) && Fit(fn.src, p) && fn.SameShape() && k > 0
    requires i < Lead(fn.code[p[k]])
    ensures x < |fn.ops[p[k]][i]| && fn.ops[p[k]][i][x].from == p[k - 1]
  {
    hide Renamed, ChainsAreDominators, Dominates, Reaches, DomTree.Valid, DomTree.Chain;
    var a, s := p[k - 1], p[k];
    PathInside(fn.g, fn.t, fn.init, fn.src, fn.code, fn.ops, fn.outs, p, k - 1);
    PhisOfSource(fn, s);
    assert Edge(fn.g, p[k - 1], p[k - 1 + 1]);
    assert OperandsOk(fn.g, fn.outs, fn.outs.Keys, s, fn.src[s][i].dest.base, fn.ops[s][i]);
    x :| 0 <= x < |fn.ops[s][i]| && fn.ops[s][i][x].from == a;
  }

  /** The copy of phi `i` for the edge from the block before is there. */
  lemma CopyIsThere(fn: Fn, u: Unwinding, order: seq<nat>, p: seq<nat>, k: nat, i: nat)
    returns (at: nat)
    requires fn.Ready() && OnPath(fn.g, fn.t, p, k) && Fit(fn.src, p) && fn.SameShape() && k > 0
    requires Unwound(fn, u, order, p) && i < Lead(fn.code[p[k]])
    ensures at < |u.copies[p[k - 1]]| && u.copies[p[k - 1]][at].dest == fn.code[p[k]][i].dest
  {
    hide Settled, GoingTo, AllCopies, Fn.Ready, IsPath, BlockCopies;
    var a, s := p[k - 1], p[k];
    var x := EdgeHasOperand(fn, p, k, i);
    var c := Copy(fn.code[s][i].dest, Name(fn.code[s][i].dest.base, fn.ops[s][i][x].sub));
    BlockHas(fn.code[s], fn.ops[s], Lead(fn.code[s]), i, x);
    AllHas(fn.code, fn.ops, order, s, (a, c));
    GoingToHas(AllCopies(fn.code, fn.ops, order), a, c);
    at :| 0 <= at < |u.copies[a]| && u.copies[a][at] == c;
  }

  /** The copies hand a tracked variable over to the name it has behind the phis of the next block. */
  lemma CopiesArrive(fn: Fn, u: Unwinding, order: seq<nat>, p: seq<nat>, k: nat, e: Env, x: nat)
    requires fn.Ready() && OnPath(fn.g, fn.t, p, k) && Fit(fn.src, p) && fn.SameShape() && k > 0 && x < |fn.init|
    requires Unwound(fn, u, order, p) && Tracked(fn.g, fn.t, fn.init, fn.src, p, k, x)
    requires TrackedToEnd(fn.g, fn.t, fn.init, fn.src, p, k - 1, x)
    ensures var cs, lead := u.copies[p[k - 1]], Lead(fn.src[p[k]]);
            var cur := Reaching(fn.code, p, k, x, fn.init[x]);
            InTurn(cs, |cs|, e)(Name(x, LastDef(fn.code[p[k]][..lead], x, cur))) == e(Name(x, cur))
  {
    var code, lead, cs := fn.code[p[k]], Lead(fn.src[p[k]]), u.copies[p[k - 1]];
    var cur := Reaching(fn.code, p, k, x, fn.init[x]);
    LeadRenamed(fn, p, k);
    LastDefOfLead(code, lead, x, cur, lead);
    if i: nat :| i < lead && code[i].dest.base == x {
      PhiGetsValue(fn, u, order, p, k, i, e, x);
      assert code[i].dest == Name(x, code[i].dest.sub);
    } else {
      CopiesKeep(fn, u, order, p, k - 1, e, x);
    }
  }

  /** A tracked variable with a phi has a version on the edge, and the renamer knows it. */
  lemma PhiHasVersion(fn: Fn, p: seq<nat>, k: nat, i: nat, x: nat)
    requires fn.Ready() && OnPath(fn.g, fn.t, p, k) && Fit(fn.src, p) && fn.SameShape() && k > 0 && x < |fn.init|
    requires Tracked(fn.g, fn.t, fn.init, fn.src, p, k, x)
    requires TrackedToEnd(fn.g, fn.t, fn.init, fn.src, p, k - 1, x)
    requires i < Lead(fn.src[p[k]]) && fn.code[p[k]][i].Phi? && fn.code[p[k]][i].dest.base == x
    ensures var cur := Reaching(fn.code, p, k, x, fn.init[x]);
            cur.Some? && p[k - 1] in fn.outs && x < |fn.outs[p[k - 1]]| && fn.outs[p[k - 1]][x] == cur
  {
    hide ChainsAreDominators, PhisOk, Reaches, TrackedToEnd, FilteredOut;
    PhisOfSource(fn, p[k]);
    assert StartsWithPhi(fn.src[p[k]], x);
    GivenHasSubscript(fn.g, fn.t, fn.init, fn.src, fn.code, fn.ops, fn.outs, p, k, x);
    AgreesToEnd(fn.g, fn.t, fn.init, fn.src, fn.code, fn.ops, fn.outs, p, k - 1, x);
  }

  lemma PhiGetsValue(fn: Fn, u: Unwinding, order: seq<nat>, p: seq<nat>, k: nat, i: nat, e: Env, x: nat)
    requires fn.Ready() && OnPath(fn.g, fn.t, p, k) && Fit(fn.src, p) && fn.SameShape() && k > 0 && x < |fn.init|
    requires Unwound(fn, u, order, p) && Tracked(fn.g, fn.t, fn.init, fn.src, p, k, x)
    requires TrackedToEnd(fn.g, fn.t, fn.init, fn.src, p, k - 1, x)
    requires i < Lead(fn.src[p[k]]) && fn.code[p[k]][i].Phi? && fn.code[p[k]][i].dest.base == x
    ensures var cs, cur := u.copies[p[k - 1]], Reaching(fn.code, p, k, x, fn.init[x]);
            InTurn(cs, |cs|, e)(fn.code[p[k]][i].dest) == e(Name(x, cur))
  {
    hide Tracked, TrackedToEnd, Settled, GoingTo, AllCopies, LastDef;
    var cs, cur := u.copies[p[k - 1]], Reaching(fn.code, p, k, x, fn.init[x]);
    PhiHasVersion(fn, p, k, i, x);
    LeadsAgree(fn, p, k);
    var at := CopyIsThere(fn, u, order, p, k, i);
    forall l | 0 <= l < |cs| && cs[l].dest.base == x ensures cs[l].src == Name(x, cur) {
      CopyReads(fn, order, p[k - 1], cs[l]);
    }
    InTurnGives(cs, |cs|, e, Name(x, cur), at);
  }

  lemma LeadsAgree(fn: Fn, p: seq<nat>, k: nat)
    requires fn.Ready() && OnPath(fn.g, fn.t, p, k) && Fit(fn.src, p) && fn.SameShape()
    ensures Lead(fn.code[p[k]]) == Lead(fn.src[p[k]])
  {
    LeadRenamed(fn, p, k);
  }

  /** The unwound function keeps step with the source: on reaching a block, live variables have
      equal values. */
  lemma {:induction false} UnwoundMatches(fn: Fn, u: Unwinding, order: seq<nat>, f: Semantics, lists: seq<seq<Item>>,
                                          p: seq<nat>, k: nat, e: Env, e2: Env)
    requires fn.Ready() && OnPath(fn.g, fn.t, p, k) && Fit(fn.src, p) && fn.SameShape()
    requires AllUsesLive(fn, p) && SameStart(fn, e, e2) && Unwound(fn, u, order, p) && u.Lists(lists)
    ensures Match(fn, p, k, Lead(fn.src[p[k]]), Before(f, fn.src, p, k, e), BeforeUnwound(f, lists, p, k, e2))
  {
    hide ChainsAreDominators, Renamed, PhisOk, Reaches, Tracked, InTurn, GoingTo, AllCopies, RunItems, Exec;
    if k == 0 {
      assert fn.code[p[0]][..0] == [];
    } else {
      assert OnPath(fn.g, fn.t, p, k - 1) && UsesLive(fn, p, k - 1);
      UnwoundMatches(fn, u, order, f, lists, p, k - 1, e, e2);
      var b, len := p[k - 1], |fn.src[p[k - 1]]|;
      var a, a2 := Before(f, fn.src, p, k - 1, e), BeforeUnwound(f, lists, p, k - 1, e2);
      BlockMatches(fn, f, p, k - 1, len, a, a2);
      assert u.ListOf(lists[b], b);
      RunList(u, f, b, lists[b], a2);
      EdgeMatches(fn, u, order, p, k, Exec(f, b, fn.src[b], len, a), Exec(f, b, fn.code[b], len, a2));
    }
  }

  /** Over an edge, through the copies. */
  lemma EdgeMatches(fn: Fn, u: Unwinding, order: seq<nat>, p: seq<nat>, k: nat, e: Env, e2: Env)
    requires fn.Ready() && OnPath(fn.g, fn.t, p, k) && Fit(fn.src, p) && fn.SameShape() && k > 0
    requires Unwound(fn, u, order, p) && Match(fn, p, k - 1, |fn.src[p[k - 1]]|, e, e2)
    ensures var cs := u.copies[p[k - 1]]; Match(fn, p, k, Lead(fn.src[p[k]]), e, InTurn(cs, |cs|, e2))
  {
    var cs, lead := u.copies[p[k - 1]], Lead(fn.src[p[k]]);
    forall x: nat | x < |fn.init| && Live(fn, p, k, lead, x)
      ensures InTurn(cs, |cs|, e2)
                (Name(x, LastDef(fn.code[p[k]][..lead], x, Reaching(fn.code, p, k, x, fn.init[x]))))
              == e(Name(x, None))
    {
      hide Settled, Tracked, TrackedToEnd, Assigns, Live, Match, InTurn, LastDef, Reaching;
      LeavesMatching(fn, p, k, e, e2, x);
      CopiesArrive(fn, u, order, p, k, e2, x);
    }
  }

  /** What is live at the branch is tracked to the end of the block and keeps its version there. */
  lemma LiveAtBranch(fn: Fn, u: Unwinding, p: seq<nat>, k: nat, x: nat, cur: Option<nat>)
    requires fn.t.Valid() && |fn.g| == |fn.t.idom| == |fn.src| && k < |p| && Fit(fn.src, p) && fn.SameShape()
    requires u.Ok() && u.code == fn.code && u.branch[p[k]] && |fn.src[p[k]]| > 0
    requires Live(fn, p, k, |fn.src[p[k]]| - 1, x)
    ensures TrackedToEnd(fn.g, fn.t, fn.init, fn.src, p, k, x)
    ensures LastDef(fn.code[p[k]][..|fn.src[p[k]]| - 1], x, cur) == LastDef(fn.code[p[k]], x, cur)
  {
    hide Tracked;
    var b, j := p[k], |fn.src[p[k]]| - 1;
    assert BranchLast(fn.code[b], u.branch[b]);
    AssignsGrows(fn.src[b], j, x);
    assert fn.src[b][..j + 1] == fn.src[b];
  }

  /** At a branch the copies of the block have been done; its operands are still there. */
  lemma BranchMatches(fn: Fn, u: Unwinding, order: seq<nat>, p: seq<nat>, k: nat, e: Env, e2: Env)
    requires fn.Ready() && OnPath(fn.g, fn.t, p, k) && Fit(fn.src, p) && fn.SameShape() && Unwound(fn, u, order, p)
    requires u.branch[p[k]] && |fn.src[p[k]]| > 0 && Match(fn, p, k, |fn.src[p[k]]| - 1, e, e2)
    ensures var cs := u.copies[p[k]]; Match(fn, p, k, |fn.src[p[k]]| - 1, e, InTurn(cs, |cs|, e2))
  {
    hide ChainsAreDominators, Renamed, PhisOk, Reaches, IsPath, Live, TrackedToEnd, InTurn, LastDef, Reaching, GoingTo,
         AllCopies, BranchLast;
    var b, cs := p[k], u.copies[p[k]];
    var j := |fn.src[b]| - 1;
    forall x: nat | x < |fn.init| && Live(fn, p, k, j, x)
      ensures var n := Name(x, LastDef(fn.code[b][..j], x, Reaching(fn.code, p, k, x, fn.init[x])));
              InTurn(cs, |cs|, e2)(n) == e2(n)
    {
      LiveAtBranch(fn, u, p, k, x, Reaching(fn.code, p, k, x, fn.init[x]));
      CopiesKeep(fn, u, order, p, k, e2, x);
    }
  }

  lemma OpsBehindPhis(insns: seq<Insn>, j: nat)
    requires j < |insns| && insns[j].Op?
    ensures Lead(insns) <= j
  {
  }

  /** Inside a block, with or without its copies done. */
  lemma InstructionMatches(fn: Fn, u: Unwinding, order: seq<nat>, f: Semantics, list: seq<Item>, p: seq<nat>, k: nat,
                           j: nat, at: nat, e: Env, e2: Env)
    requires fn.Ready() && OnPath(fn.g, fn.t, p, k) && Fit(fn.src, p) && fn.SameShape() && UsesLive(fn, p, k)
    requires Unwound(fn, u, order, p) && u.ListOf(list, p[k]) && Match(fn, p, k, Lead(fn.src[p[k]]), e, e2)
    requires j < |fn.src[p[k]]| && fn.src[p[k]][j].Op? && at < |list| && list[at] == Keep(j, fn.code[p[k]][j])
    ensures SameInputs(fn, p, k, j, Exec(f, p[k], fn.src[p[k]], j, e), RunItems(f, p[k], list[..at], e2))
  {
    hide ChainsAreDominators, Renamed, PhisOk, Reaches, Live, Match, InTurn, GoingTo, AllCopies, UsesLive, Tracked;
    hide RunItems, Exec, Layout, IsPath;
    var b := p[k];
    OpsBehindPhis(fn.src[b], j);
    BlockMatches(fn, f, p, k, j, e, e2);
    ShapeOfInsn(fn, p, k, j);
    RunUpTo(u, f, b, list, j, at, e2);
    if j >= Body(u.code[b], u.branch[b]) {
      BranchMatches(fn, u, order, p, k, Exec(f, b, fn.src[b], j, e), Exec(f, b, fn.code[b], j, e2));
    }
    InputsMatch(fn, p, k, j, Exec(f, b, fn.src[b], j, e), RunItems(f, b, list[..at], e2));
  }

  /** From the source to the unwound function: run along the same path, from the same values, the
      copies of unwound phis done in turn before the branch of their block, every instruction sees
      the operand values it saw before SSA construction, if every use on the path is live. */
  lemma SourceToUnwound(fn: Fn, u: Unwinding, order: seq<nat>, f: Semantics, lists: seq<seq<Item>>, p: seq<nat>,
                        k: nat, j: nat, at: nat, e: Env, e2: Env)
    requires fn.Ready() && OnPath(fn.g, fn.t, p, k) && fn.SameShape() && j < |fn.src[p[k]]| && fn.src[p[k]][j].Op?
    requires AllUsesLive(fn, p) && SameStart(fn, e, e2) && Unwound(fn, u, order, p) && u.Lists(lists)
    requires at < |lists[p[k]]| && lists[p[k]][at] == Keep(j, fn.code[p[k]][j])
    ensures SameInputs(fn, p, k, j,
              Exec(f, p[k], fn.src[p[k]], j, Before(f, fn.src, p, k, e)),
              RunItems(f, p[k], lists[p[k]][..at], BeforeUnwound(f, lists, p, k, e2)))
  {
    PathFits(fn, p);
    assert UsesLive(fn, p, k) && u.ListOf(lists[p[k]], p[k]);
    hide Settled, Match, UsesLive, Exec, RunItems, AllUsesLive, SameInputs;
    UnwoundMatches(fn, u, order, f, lists, p, k, e, e2);
    InstructionMatches(fn, u, order, f, lists[p[k]], p, k, j, at, Before(f, fn.src, p, k, e),
                       BeforeUnwound(f, lists, p, k, e2));
  }
}
