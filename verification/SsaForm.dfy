/** What a function in SSA form looks like, and why renaming over the dominator tree is right
    on every path (src/ssa.c:641-890). */
module SsaForm {
  import opened Cfg
  import opened Options
  import opened Dominators
  import opened PhiPlacement

  /** An operand of a phi: the subscript that reaches along the edge from block `from`. */
  datatype PhiOp = PhiOp(from: nat, sub: Option<nat>)

  function Def(i: Insn): Option<Name>
  {
    match i
    case Phi(d) => Some(d)
    case Op(rd, _, _) => rd
  }

  /** The subscript of `x` after `insns` when `inn` is the one before them. */
  function LastDef(insns: seq<Insn>, x: nat, inn: Option<nat>): Option<nat>
  {
    if insns == [] then inn
    else
      var last := Def(insns[|insns| - 1]);
      if last.Some? && last.value.base == x then last.value.sub
      else LastDef(insns[..|insns| - 1], x, inn)
  }

  ghost predicate Defines(insns: seq<Insn>, x: nat)
  {
    exists j :: 0 <= j < |insns| && Def(insns[j]).Some? && Def(insns[j]).value.base == x
  }

  /** `x` is defined by an instruction other than a phi. */
  ghost predicate Assigns(insns: seq<Insn>, x: nat)
  {
    exists j :: 0 <= j < |insns| && insns[j].Op? && Def(insns[j]).Some? && Def(insns[j]).value.base == x
  }

  /** What happens to one operand: the base stays, the subscript is the last one defined. */
  ghost predicate UseRenamed(src: Option<Name>, dst: Option<Name>, before: seq<Insn>, inn: seq<Option<nat>>)
  {
    if src == None then dst == None
    else (dst.Some? && dst.value.base == src.value.base < |inn| &&
          dst.value.sub == LastDef(before, src.value.base, inn[src.value.base]))
  }

  ghost predicate DefRenamed(src: Option<Name>, dst: Option<Name>)
  {
    if src == None then dst == None else dst.Some? && dst.value.base == src.value.base
  }

  ghost predicate InsnRenamed(src: Insn, dst: Insn, before: seq<Insn>, inn: seq<Option<nat>>)
  {
    && (src.Phi? <==> dst.Phi?) && DefRenamed(Def(src), Def(dst))
    && (src.Op? ==> UseRenamed(src.rs1, dst.rs1, before, inn) && UseRenamed(src.rs2, dst.rs2, before, inn))
  }

  ghost predicate BlockRenamed(src: seq<Insn>, dst: seq<Insn>, inn: seq<Option<nat>>)
  {
    |dst| == |src| && forall j :: 0 <= j < |src| ==> InsnRenamed(src[j], dst[j], dst[..j], inn)
  }

  ghost predicate BlockOut(dst: seq<Insn>, inn: seq<Option<nat>>, out: seq<Option<nat>>)
  {
    |out| == |inn| && forall x: nat :: x < |inn| ==> out[x] == LastDef(dst, x, inn[x])
  }

  /** The subscripts at the start of a block: those at the end of its immediate dominator. */
  ghost function InOf(t: DomTree, init: seq<Option<nat>>, outs: map<nat, seq<Option<nat>>>, b: nat): seq<Option<nat>>
  {
    if b != t.entry && t.Up(b) in outs then outs[t.Up(b)] else init
  }

  /** The blocks in `outs` have been renamed, each starting from its immediate dominator. */
  ghost predicate Renamed(t: DomTree, init: seq<Option<nat>>, src: seq<seq<Insn>>, code: seq<seq<Insn>>,
                          outs: map<nat, seq<Option<nat>>>)
  {
    && |code| == |src|
    && (forall b: nat :: b in outs ==>
          (b < |src| && (b == t.entry || t.Up(b) in outs) && |outs[b]| == |init|
           && BlockRenamed(src[b], code[b], InOf(t, init, outs, b))
           && BlockOut(code[b], InOf(t, init, outs, b), outs[b])))
    && (forall b: nat :: b < |src| && b !in outs ==> code[b] == src[b])
  }

  /** Operands of one phi, of variable `x`, come from renamed predecessors and carry the
      subscript at the end of that predecessor, if it has one; `filled` predecessors are all there. */
  ghost predicate OperandsOk(g: Graph, outs: map<nat, seq<Option<nat>>>, filled: set<nat>, b: nat, x: nat,
                             ops: seq<PhiOp>)
  {
    && (forall k :: 0 <= k < |ops| ==>
          (Edge(g, ops[k].from, b) && ops[k].from in outs
           && x < |outs[ops[k].from]| && (outs[ops[k].from][x].Some? ==> ops[k].sub == outs[ops[k].from][x])))
    && (forall a: nat :: a in filled && Edge(g, a, b) ==> exists k :: 0 <= k < |ops| && ops[k].from == a)
  }

  ghost predicate PhisOk(g: Graph, src: seq<seq<Insn>>, ops: seq<seq<seq<PhiOp>>>,
                         outs: map<nat, seq<Option<nat>>>, filled: set<nat>)
    requires |src| == |g|
  {
    && |ops| == |src| && (forall b: nat :: b < |src| ==> |ops[b]| == |src[b]|)
    && (forall b: nat, j :: b < |src| && 0 <= j < |src[b]| && src[b][j].Phi? ==>
          OperandsOk(g, outs, filled, b, src[b][j].dest.base, ops[b][j]))
  }

  // ---- correctness on paths ----------------------------------------------------------

  lemma {:induction false} LastDefSkips(insns: seq<Insn>, x: nat, inn: Option<nat>)
    ensures !Defines(insns, x) ==> LastDef(insns, x, inn) == inn
    ensures forall i2 :: Defines(insns, x) ==> LastDef(insns, x, inn) == LastDef(insns, x, i2)
  {
    if insns != [] {
      var init := insns[..|insns| - 1];
      LastDefSkips(init, x, inn);
      var last := Def(insns[|insns| - 1]);
      if !(last.Some? && last.value.base == x) {
        if Defines(init, x) {
          var j :| 0 <= j < |init| && Def(init[j]).Some? && Def(init[j]).value.base == x;
          assert Def(insns[j]).Some?;
        }
        if Defines(insns, x) {
          var j :| 0 <= j < |insns| && Def(insns[j]).Some? && Def(insns[j]).value.base == x;
          assert Def(init[j]).Some?;
        }
        forall i2 ensures Defines(insns, x) ==> LastDef(insns, x, inn) == LastDef(insns, x, i2) {
          LastDefSkips(init, x, i2);
        }
      }
    }
  }

  lemma SameDefs(src: seq<Insn>, dst: seq<Insn>, inn: seq<Option<nat>>, x: nat)
    requires BlockRenamed(src, dst, inn)
    ensures Defines(dst, x) <==> Defines(src, x)
  {
    if Defines(src, x) {
      var j :| 0 <= j < |src| && Def(src[j]).Some? && Def(src[j]).value.base == x;
      assert InsnRenamed(src[j], dst[j], dst[..j], inn);
    }
    if Defines(dst, x) {
      var j :| 0 <= j < |dst| && Def(dst[j]).Some? && Def(dst[j]).value.base == x;
      assert InsnRenamed(src[j], dst[j], dst[..j], inn);
    }
  }

  /** `y` is in the frontier of a definition of `x` and yet defines nothing itself: a phi
      was filtered out there. */
  ghost predicate FilteredOut(g: Graph, t: DomTree, src: seq<seq<Insn>>, x: nat, y: nat)
    requires t.Valid() && |g| == |t.idom| == |src|
  {
    && y < |src| && !StartsWithPhi(src[y], x)
    && exists c: nat, p: nat :: c < |src| && Defines(src[c], x) && Edge(g, p, y) && t.Done(p) && t.Done(y)
         && c in t.Chain(p) && c !in t.Chain(t.Up(y))
  }

  /** The leading phis of a block include one for `x`. */
  ghost predicate StartsWithPhi(insns: seq<Insn>, x: nat)
  {
    exists j :: 0 <= j < |insns| && insns[j].Phi? && insns[j].dest.base == x && forall i :: 0 <= i < j ==> insns[i].Phi?
  }

  /** The renamed function together with what is known of its graph. */
  ghost predicate Settled(g: Graph, t: DomTree, init: seq<Option<nat>>, src: seq<seq<Insn>>, code: seq<seq<Insn>>,
                          ops: seq<seq<seq<PhiOp>>>, outs: map<nat, seq<Option<nat>>>)
  {
    && WellFormed(g) && t.Valid() && |g| == |t.idom| == |src| && ChainsAreDominators(g, t)
    && Renamed(t, init, src, code, outs) && PhisOk(g, src, ops, outs, outs.Keys)
    && (forall b: nat :: b in outs <==> Reaches(g, t.entry, b))
  }

  /** No block from `a` up to, but not including, `top` defines `x`: the subscript at the end
      of `a` is the one at the end of `top`. */
  lemma {:induction false} QuietClimb(g: Graph, t: DomTree, init: seq<Option<nat>>, src: seq<seq<Insn>>,
                                      code: seq<seq<Insn>>,
                   outs: map<nat, seq<Option<nat>>>, x: nat, a: nat, top: nat)
    requires t.Valid() && |t.idom| == |src| && Renamed(t, init, src, code, outs) && x < |init|
    requires t.Done(a) && top in t.Chain(a) && forall c: nat :: c in t.Chain(a) ==> c in outs
    requires forall c: nat :: c in t.Chain(a) && c !in t.Chain(top) ==> !Defines(src[c], x)
    ensures outs[a][x] == outs[top][x]
    decreases t.rpo[a]
  {
    if a != top {
      var u, inn := t.Up(a), InOf(t, init, outs, a);
      assert a != t.entry && a !in t.Chain(top);
      SameDefs(src[a], code[a], inn, x);
      LastDefSkips(code[a], x, inn[x]);
      QuietClimb(g, t, init, src, code, outs, x, u, top);
    }
  }

  /** The key step: across an edge into a block without a phi for `x`, the subscript at the end
      of the predecessor is the one renaming starts the block with. */
  lemma EdgeWithoutPhi(g: Graph, t: DomTree, init: seq<Option<nat>>, src: seq<seq<Insn>>, code: seq<seq<Insn>>,
                       ops: seq<seq<seq<PhiOp>>>, outs: map<nat, seq<Option<nat>>>, x: nat, a: nat, b: nat)
    requires Settled(g, t, init, src, code, ops, outs) && x < |init|
    requires Edge(g, a, b) && Reaches(g, t.entry, a) && b != t.entry
    requires !StartsWithPhi(src[b], x) && !FilteredOut(g, t, src, x, b)
    ensures a in outs && b in outs && outs[a][x] == InOf(t, init, outs, b)[x]
  {
    ReachesStep(g, t.entry, a, b);
    var top := t.Up(b);
    assert t.Done(a) && t.Done(b);
    UpAbovePred(g, t, a, b);
    forall c: nat | c in t.Chain(a) && c !in t.Chain(top) ensures !Defines(src[c], x) {
    }
    forall c: nat | c in t.Chain(a) ensures c in outs {
      ChainReached(g, t, a, c);
    }
    QuietClimb(g, t, init, src, code, outs, x, a, top);
  }

  lemma ChainReached(g: Graph, t: DomTree, a: nat, c: nat)
    requires t.Valid() && |g| == |t.idom| && ChainsAreDominators(g, t) && Reaches(g, t.entry, a)
    requires t.Done(a) && c in t.Chain(a)
    ensures Reaches(g, t.entry, c)
  {
    var p :| PathBetween(g, p, t.entry, a);
    assert Dominates(g, t.entry, c, a);
    assert c in p;
    var k :| 0 <= k < |p| && p[k] == c;
    PathPrefix(g, p, k);
  }

  /** The subscript of `x` that reaches the start of the `k`-th block of a path: the one written
      by the last definition before it on the path. */
  ghost function Reaching(code: seq<seq<Insn>>, p: seq<nat>, k: nat, x: nat, init: Option<nat>): Option<nat>
    requires k < |p| && forall i :: 0 <= i < |p| ==> p[i] < |code|
  {
    if k == 0 then init else LastDef(code[p[k - 1]], x, Reaching(code, p, k - 1, x, init))
  }

  /** `x` has a value when the `k`-th block of a path is reached: it is a parameter, or assigned by
      a block before. */
  ghost predicate Given(init: seq<Option<nat>>, src: seq<seq<Insn>>, p: seq<nat>, k: nat, x: nat)
    requires k <= |p| && forall i :: 0 <= i < |p| ==> p[i] < |src|
  {
    (x < |init| && init[x].Some?) || exists i :: 0 <= i < k && Assigns(src[p[i]], x)
  }

  /** Every definition of `x` has a subscript. */
  ghost predicate Numbered(code: seq<seq<Insn>>, outs: map<nat, seq<Option<nat>>>, x: nat)
  {
    forall b: nat :: b in outs && b < |code| ==> NumberedIn(code[b], x)
  }

  ghost predicate NumberedIn(insns: seq<Insn>, x: nat)
  {
    forall j :: 0 <= j < |insns| && Def(insns[j]).Some? && Def(insns[j]).value.base == x ==>
      Def(insns[j]).value.sub.Some?
  }

  /** Since the last place where `x` was certainly known - the function entry, or a block that
      assigns `x` - the path has met no block where a phi for `x` was filtered out, and no phi for
      it before it has a value. */
  ghost predicate Tracked(g: Graph, t: DomTree, init: seq<Option<nat>>, src: seq<seq<Insn>>, p: seq<nat>, k: nat,
                          x: nat)
    requires t.Valid() && |g| == |t.idom| == |src| && k < |p| && forall i :: 0 <= i < |p| ==> p[i] < |src|
    decreases k, 0
  {
    k == 0 || (!FilteredOut(g, t, src, x, p[k]) && (StartsWithPhi(src[p[k]], x) ==> Given(init, src, p, k, x))
               && TrackedToEnd(g, t, init, src, p, k - 1, x))
  }

  ghost predicate TrackedToEnd(g: Graph, t: DomTree, init: seq<Option<nat>>, src: seq<seq<Insn>>, p: seq<nat>, k: nat,
                               x: nat)
    requires t.Valid() && |g| == |t.idom| == |src| && k < |p| && forall i :: 0 <= i < |p| ==> p[i] < |src|
    decreases k, 1
  {
    Assigns(src[p[k]], x) || Tracked(g, t, init, src, p, k, x)
  }

  /** At the end of a block the path and the renamer agree on the subscript of `x` if they
      agree at its start or the block defines `x`. */
  lemma AgreeAtEnd(t: DomTree, init: seq<Option<nat>>, src: seq<seq<Insn>>, code: seq<seq<Insn>>,
                   outs: map<nat, seq<Option<nat>>>, x: nat, b: nat, cur: Option<nat>)
    requires Renamed(t, init, src, code, outs) && x < |init| && b in outs
    requires Defines(src[b], x) || cur == InOf(t, init, outs, b)[x]
    ensures outs[b][x] == LastDef(code[b], x, cur)
  {
    var inn := InOf(t, init, outs, b);
    SameDefs(src[b], code[b], inn, x);
    LastDefSkips(code[b], x, inn[x]);
  }

  lemma PathInside(g: Graph, t: DomTree, init: seq<Option<nat>>, src: seq<seq<Insn>>, code: seq<seq<Insn>>,
                   ops: seq<seq<seq<PhiOp>>>, outs: map<nat, seq<Option<nat>>>, p: seq<nat>, k: nat)
    requires Settled(g, t, init, src, code, ops, outs)
    requires IsPath(g, p) && p[0] == t.entry && k < |p|
    ensures Reaches(g, t.entry, p[k]) && p[k] in outs
  {
    PathPrefix(g, p, k);
  }

  lemma {:induction false} AgreesToEnd(g: Graph, t: DomTree, init: seq<Option<nat>>, src: seq<seq<Insn>>,
                                       code: seq<seq<Insn>>,
                   ops: seq<seq<seq<PhiOp>>>, outs: map<nat, seq<Option<nat>>>, p: seq<nat>, k: nat, x: nat)
    requires Settled(g, t, init, src, code, ops, outs) && x < |init|
    requires IsPath(g, p) && p[0] == t.entry && k < |p| && forall i :: 1 <= i < |p| ==> p[i] != t.entry
    requires TrackedToEnd(g, t, init, src, p, k, x)
    ensures p[k] in outs && outs[p[k]][x] == LastDef(code[p[k]], x, Reaching(code, p, k, x, init[x]))
    decreases k, 1
  {
    hide ChainsAreDominators, PhisOk, FilteredOut, StartsWithPhi, Dominates, Reaches;
    PathInside(g, t, init, src, code, ops, outs, p, k);
    if Assigns(src[p[k]], x) {
      var j :| 0 <= j < |src[p[k]]| && src[p[k]][j].Op? && Def(src[p[k]][j]).Some? && Def(src[p[k]][j]).value.base == x;
      assert Defines(src[p[k]], x);
      AgreeAtEnd(t, init, src, code, outs, x, p[k], Reaching(code, p, k, x, init[x]));
    } else {
      AgreesAtStart(g, t, init, src, code, ops, outs, p, k, x);
      if StartsWithPhi(src[p[k]], x) {
        PhiDefines(src[p[k]], x);
      }
      AgreeAtEnd(t, init, src, code, outs, x, p[k], Reaching(code, p, k, x, init[x]));
    }
  }

  /** Along every path, where `x` is tracked and the block has no phi for it, renaming starts
      the block with the subscript that reaches it. */
  lemma {:induction false} AgreesAtStart(g: Graph, t: DomTree, init: seq<Option<nat>>, src: seq<seq<Insn>>,
                                         code: seq<seq<Insn>>,
                   ops: seq<seq<seq<PhiOp>>>, outs: map<nat, seq<Option<nat>>>, p: seq<nat>, k: nat, x: nat)
    requires Settled(g, t, init, src, code, ops, outs) && x < |init|
    requires IsPath(g, p) && p[0] == t.entry && k < |p| && forall i :: 1 <= i < |p| ==> p[i] != t.entry
    requires Tracked(g, t, init, src, p, k, x)
    ensures p[k] in outs
    ensures !StartsWithPhi(src[p[k]], x) ==> InOf(t, init, outs, p[k])[x] == Reaching(code, p, k, x, init[x])
    decreases k, 0
  {
    hide Renamed, ChainsAreDominators, PhisOk, FilteredOut, StartsWithPhi, Dominates, Reaches;
    PathInside(g, t, init, src, code, ops, outs, p, k);
    if k > 0 {
      assert Edge(g, p[k - 1], p[k - 1 + 1]);
      AgreesToEnd(g, t, init, src, code, ops, outs, p, k - 1, x);
      if !StartsWithPhi(src[p[k]], x) {
        PathInside(g, t, init, src, code, ops, outs, p, k - 1);
        EdgeWithoutPhi(g, t, init, src, code, ops, outs, x, p[k - 1], p[k]);
      }
    }
  }

  lemma PhiDefines(insns: seq<Insn>, x: nat)
    requires StartsWithPhi(insns, x)
    ensures Defines(insns, x)
  {
    var j :| 0 <= j < |insns| && insns[j].Phi? && insns[j].dest.base == x && forall i :: 0 <= i < j ==> insns[i].Phi?;
    assert Def(insns[j]).Some?;
  }

  // ---- the three statements about paths --------------------------------------------------

  ghost predicate OnPath(g: Graph, t: DomTree, p: seq<nat>, k: nat)
  {
    IsPath(g, p) && p[0] == t.entry && k < |p| && forall i :: 1 <= i < |p| ==> p[i] != t.entry
  }

  /** The use of `x` in the `j`-th instruction of the block is known: the block defines `x` before
      it, or `x` is tracked up to the block. */
  ghost predicate KnownAt(g: Graph, t: DomTree, init: seq<Option<nat>>, src: seq<seq<Insn>>, p: seq<nat>, k: nat,
                          j: nat, x: nat)
    requires t.Valid() && |g| == |t.idom| == |src| && k < |p| && forall i :: 0 <= i < |p| ==> p[i] < |src|
    requires j <= |src[p[k]]|
  {
    Defines(src[p[k]][..j], x) || Tracked(g, t, init, src, p, k, x)
  }

  lemma DefinesHere(insns: seq<Insn>, i: nat)
    requires i < |insns| && Def(insns[i]).Some?
    ensures Defines(insns, Def(insns[i]).value.base)
  {
  }

  lemma PrefixDefs(src: seq<Insn>, dst: seq<Insn>, inn: seq<Option<nat>>, j: nat, x: nat)
    requires BlockRenamed(src, dst, inn) && j <= |src|
    ensures Defines(dst[..j], x) <==> Defines(src[..j], x)
  {
    assert BlockRenamed(src[..j], dst[..j], inn) by {
      forall i | 0 <= i < j ensures InsnRenamed(src[..j][i], dst[..j][i], dst[..j][..i], inn) {
        assert dst[..j][..i] == dst[..i];
        assert InsnRenamed(src[i], dst[i], dst[..i], inn);
      }
    }
    SameDefs(src[..j], dst[..j], inn, x);
  }

  /** Inside one block: the use at place `j` names the last definition, whatever reaches the
      block, if the block defines `x` before `j` or is reached by what renaming starts it with. */
  lemma UseInBlock(src: seq<Insn>, dst: seq<Insn>, inn: seq<Option<nat>>, j: nat, n: Name, cur: Option<nat>)
    requires BlockRenamed(src, dst, inn) && n.base < |inn|
    requires j < |src| && src[j].Op? && (src[j].rs1 == Some(n) || src[j].rs2 == Some(n))
    requires Defines(src[..j], n.base) || inn[n.base] == cur
    ensures j < |dst| && dst[j].Op?
    ensures var named := Name(n.base, LastDef(dst[..j], n.base, cur));
      && (src[j].rs1 == Some(n) ==> dst[j].rs1 == Some(named))
      && (src[j].rs2 == Some(n) ==> dst[j].rs2 == Some(named))
  {
    assert InsnRenamed(src[j], dst[j], dst[..j], inn);
    PrefixDefs(src, dst, inn, j, n.base);
    LastDefSkips(dst[..j], n.base, inn[n.base]);
  }

  /** A leading phi precedes every other instruction. */
  lemma PhiBeforeOp(insns: seq<Insn>, j: nat, x: nat)
    requires j < |insns| && insns[j].Op? && StartsWithPhi(insns, x)
    ensures Defines(insns[..j], x)
  {
    var i :| 0 <= i < |insns| && insns[i].Phi? && insns[i].dest.base == x && forall l :: 0 <= l < i ==> insns[l].Phi?;
    DefinesHere(insns[..j], i);
  }

  /** Uses are right: along every path, the subscript named at a known use is the one written by
      the last definition of the variable on that path. */
  lemma UseIsReaching(g: Graph, t: DomTree, init: seq<Option<nat>>, src: seq<seq<Insn>>, code: seq<seq<Insn>>,
                      ops: seq<seq<seq<PhiOp>>>, outs: map<nat, seq<Option<nat>>>, p: seq<nat>, k: nat, j: nat, n: Name)
    requires Settled(g, t, init, src, code, ops, outs) && OnPath(g, t, p, k) && n.base < |init|
    requires j < |src[p[k]]| && src[p[k]][j].Op? && (src[p[k]][j].rs1 == Some(n) || src[p[k]][j].rs2 == Some(n))
    requires KnownAt(g, t, init, src, p, k, j, n.base)
    ensures j < |code[p[k]]| && code[p[k]][j].Op?
    ensures var named := Name(n.base, LastDef(code[p[k]][..j], n.base, Reaching(code, p, k, n.base, init[n.base])));
      && (src[p[k]][j].rs1 == Some(n) ==> code[p[k]][j].rs1 == Some(named))
      && (src[p[k]][j].rs2 == Some(n) ==> code[p[k]][j].rs2 == Some(named))
  {
    hide ChainsAreDominators, PhisOk, FilteredOut, Dominates, Reaches, Defines, StartsWithPhi, BlockRenamed, LastDef;
    var b, x := p[k], n.base;
    PathInside(g, t, init, src, code, ops, outs, p, k);
    if StartsWithPhi(src[b], x) {
      PhiBeforeOp(src[b], j, x);
    } else if !Defines(src[b][..j], x) {
      AgreesAtStart(g, t, init, src, code, ops, outs, p, k, x);
    }
    UseInBlock(src[b], code[b], InOf(t, init, outs, b), j, n, Reaching(code, p, k, x, init[x]));
  }

  lemma {:induction false} LastDefNumbered(insns: seq<Insn>, x: nat, inn: Option<nat>)
    requires NumberedIn(insns, x) && (inn.Some? || Defines(insns, x))
    ensures LastDef(insns, x, inn).Some?
  {
    if insns != [] {
      var init, last := insns[..|insns| - 1], Def(insns[|insns| - 1]);
      if !(last.Some? && last.value.base == x) {
        if inn.None? {
          var j :| 0 <= j < |insns| && Def(insns[j]).Some? && Def(insns[j]).value.base == x;
          assert init[j] == insns[j];
        }
        LastDefNumbered(init, x, inn);
      }
    }
  }

  /** A variable that has a value has a subscript. */
  lemma {:induction false} GivenHasSubscript(g: Graph, t: DomTree, init: seq<Option<nat>>, src: seq<seq<Insn>>,
                                             code: seq<seq<Insn>>,
                      ops: seq<seq<seq<PhiOp>>>, outs: map<nat, seq<Option<nat>>>, p: seq<nat>, k: nat, x: nat)
    requires Settled(g, t, init, src, code, ops, outs) && OnPath(g, t, p, k) && x < |init|
    requires Numbered(code, outs, x) && Given(init, src, p, k, x)
    ensures Reaching(code, p, k, x, init[x]).Some?
  {
    if k > 0 {
      var b := p[k - 1];
      PathInside(g, t, init, src, code, ops, outs, p, k - 1);
      hide ChainsAreDominators, PhisOk, Dominates, Reaches, WellFormed;
      if Assigns(src[b], x) {
        var j :| 0 <= j < |src[b]| && src[b][j].Op? && Def(src[b][j]).Some? && Def(src[b][j]).value.base == x;
        assert Defines(src[b], x);
        SameDefs(src[b], code[b], InOf(t, init, outs, b), x);
      } else {
        assert OnPath(g, t, p, k - 1) && Given(init, src, p, k - 1, x);
        GivenHasSubscript(g, t, init, src, code, ops, outs, p, k - 1, x);
      }
      LastDefNumbered(code[b], x, Reaching(code, p, k - 1, x, init[x]));
    }
  }

  /** Phi operands are right: read as copies on the edge a path takes into the block, a phi has an
      operand for that edge, and it carries the subscript that reaches along the path. */
  lemma PhiIsReaching(g: Graph, t: DomTree, init: seq<Option<nat>>, src: seq<seq<Insn>>, code: seq<seq<Insn>>,
                      ops: seq<seq<seq<PhiOp>>>, outs: map<nat, seq<Option<nat>>>, p: seq<nat>, k: nat, j: nat, x: nat)
    requires Settled(g, t, init, src, code, ops, outs) && OnPath(g, t, p, k) && k > 0 && x < |init|
    requires j < |src[p[k]]| && src[p[k]][j].Phi? && src[p[k]][j].dest.base == x
    requires TrackedToEnd(g, t, init, src, p, k - 1, x) && Given(init, src, p, k, x) && Numbered(code, outs, x)
    ensures j < |ops[p[k]]| && exists i :: 0 <= i < |ops[p[k]][j]| && ops[p[k]][j][i].from == p[k - 1]
    ensures forall i :: 0 <= i < |ops[p[k]][j]| && ops[p[k]][j][i].from == p[k - 1] ==>
      ops[p[k]][j][i].sub == Reaching(code, p, k, x, init[x])
  {
    hide Renamed, ChainsAreDominators, FilteredOut, StartsWithPhi, Dominates, Reaches, Given, Numbered, TrackedToEnd;
    GivenHasSubscript(g, t, init, src, code, ops, outs, p, k, x);
    assert Edge(g, p[k - 1], p[k - 1 + 1]);
    PathInside(g, t, init, src, code, ops, outs, p, k - 1);
    AgreesToEnd(g, t, init, src, code, ops, outs, p, k - 1, x);
    assert OperandsOk(g, outs, outs.Keys, p[k], x, ops[p[k]][j]);
  }
}
