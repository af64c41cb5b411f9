/** `solve_phi_insertion` followed by `solve_phi_params` (src/ssa.c): from dominance frontiers
    to a function in SSA form that means the same. */
module SsaBuild {
  import opened Cfg
  import opened Options
  import opened Dfs
  import opened Dominators
  import opened DomLinks
  import opened Frontier
  import opened PhiPlacement
  import opened SsaForm
  import opened SsaMeaning
  import opened Renaming

  /** Plain instructions, none of them a phi. */
  ghost predicate PlainBlocks(blocks: seq<seq<Insn>>, n: nat)
  {
    forall b: nat :: b < |blocks| ==> Plain(blocks[b], n) && forall j :: 0 <= j < |blocks[b]| ==> blocks[b][j].Op?
  }

  /** `refs` is `ref_block_list` of variable `x`: the reachable blocks that define it. */
  ghost predicate RefBlocks(g: Graph, entry: nat, blocks: seq<seq<Insn>>, x: nat, refs: seq<nat>)
  {
    NoDup(refs) && forall b: nat :: b in refs <==> b < |blocks| && Reaches(g, entry, b) && Defines(blocks[b], x)
  }

  /** `code` is `blocks` with phis of some of the first `i` variables put in front. */
  ghost predicate PhisAdded(blocks: seq<seq<Insn>>, code: seq<seq<Insn>>, vars: seq<VarInfo>, i: int, n: nat)
  {
    |code| == |blocks| && i <= |vars| && forall b: nat :: b < |blocks| ==> PhisAddedTo(blocks[b], code[b], vars, i, n)
  }

  ghost predicate PhisAddedTo(block: seq<Insn>, code: seq<Insn>, vars: seq<VarInfo>, i: int, n: nat)
    requires i <= |vars|
  {
    && |code| >= |block| && code[|code| - |block|..] == block && Plain(code, n)
    && PhisLead(code, |code| - |block|)
    && forall j :: 0 <= j < |code| - |block| ==> OneOf(code[j], vars, i)
  }

  ghost predicate OneOf(phi: Insn, vars: seq<VarInfo>, i: int)
    requires i <= |vars|
  {
    exists k :: 0 <= k < i && !vars[k].isGlobal && phi == Phi(Name(vars[k].id, None))
  }

  lemma {:induction false} LeadIs(insns: seq<Insn>, lead: nat)
    requires PhisLead(insns, lead)
    ensures Lead(insns) == lead
  {
    if lead > 0 {
      LeadIs(insns[1..], lead - 1);
    }
  }

  lemma HasPhiMeans(block: seq<Insn>, code: seq<Insn>, vars: seq<VarInfo>, i: int, n: nat, x: nat)
    requires i <= |vars| && PhisAddedTo(block, code, vars, i, n) && forall j :: 0 <= j < |block| ==> block[j].Op?
    ensures HasPhi(code, x) <==> StartsWithPhi(code, x)
    ensures Defines(code, x) <==> Defines(block, x) || HasPhi(code, x)
    ensures (forall k :: 0 <= k < i ==> vars[k].id != x) ==> !HasPhi(code, x)
  {
    var d := |code| - |block|;
    forall j | 0 <= j < d ensures code[j].Phi? && (code[j].dest.base == x ==> IsPhiOf(code[j], x)) {
      assert OneOf(code[j], vars, i);
    }
    forall j | d <= j < |code| ensures code[j].Op? && code[j] == block[j - d] {
      assert block[j - d] == code[d..][j - d];
    }
    if HasPhi(code, x) {
      var j :| 0 <= j < |code| && IsPhiOf(code[j], x);
      assert j < d && OneOf(code[j], vars, i);
      assert StartsWithPhi(code, x);
      assert Def(code[j]).Some?;
    }
    if Defines(block, x) {
      var j :| 0 <= j < |block| && Def(block[j]).Some? && Def(block[j]).value.base == x;
      assert Def(code[d + j]).Some? && code[d + j] == block[j];
    }
    if Defines(code, x) {
      var j :| 0 <= j < |code| && Def(code[j]).Some? && Def(code[j]).value.base == x;
      if j < d {
        assert IsPhiOf(code[j], x);
      } else {
        assert Def(block[j - d]).Some?;
      }
    }
    if StartsWithPhi(code, x) {
      var j :| 0 <= j < |code| && code[j].Phi? && code[j].dest.base == x;
      assert j < d && IsPhiOf(code[j], x);
    }
  }

  /** Putting the phi of the next variable in front. */
  lemma AddPhi(block: seq<Insn>, code: seq<Insn>, vars: seq<VarInfo>, i: nat, n: nat)
    requires i < |vars| && PhisAddedTo(block, code, vars, i, n) && vars[i].id < n
    requires forall k :: 0 <= k < i ==> vars[k].id != vars[i].id
    ensures !vars[i].isGlobal ==> PhisAddedTo(block, [Phi(Name(vars[i].id, None))] + code, vars, i + 1, n)
    ensures PhisAddedTo(block, code, vars, i + 1, n)
  {
    var phi := Phi(Name(vars[i].id, None));
    var code2 := [phi] + code;
    var d := |code| - |block|;
    assert code2[d + 1..] == code[d..];
    forall j | 0 <= j < d ensures OneOf(code[j], vars, i + 1) && code[j].Phi? && code[j].dest.base != vars[i].id {
      assert OneOf(code[j], vars, i);
    }
    assert !vars[i].isGlobal ==> OneOf(phi, vars, i + 1);
    forall j | 0 <= j < |code2| ensures (code2[j].Phi? <==> j < d + 1) {
      if j > 0 { assert code2[j] == code[j - 1]; }
    }
  }

  /** A block where a phi of a spreading variable is missing failed a filter. */
  ghost predicate OnlyFiltersDrop(g: Graph, t: DomTree, code: seq<seq<Insn>>, v: VarInfo, exit: nat)
    requires t.Valid() && |g| == |t.idom| == |code|
  {
    v.Spreads() ==> forall y: nat :: FilteredOut(g, t, code, v.id, y) ==> !v.Passes(y, exit)
  }

  /** Exactly the blocks that a chain of frontier steps leads to have a phi of the variable. */
  ghost predicate PhisWhereChained(code: seq<seq<Insn>>, v: VarInfo, df: seq<seq<nat>>, exit: nat, refs: seq<nat>)
  {
    forall b: nat :: b < |code| ==> (StartsWithPhi(code[b], v.id) <==> Chained(v, df, exit, refs, b))
  }

  lemma PhisWhereChainedKept(before: seq<seq<Insn>>, code: seq<seq<Insn>>, y: nat, placed: set<nat>, v: VarInfo,
                             df: seq<seq<nat>>, exit: nat, refs: seq<nat>)
    requires PlacedIn(code, before, y, placed) && v.id != y && PhisWhereChained(before, v, df, exit, refs)
    ensures PhisWhereChained(code, v, df, exit, refs)
  {
    hide StartsWithPhi, Chained;
    forall b: nat | b < |code| ensures StartsWithPhi(code[b], v.id) <==> Chained(v, df, exit, refs, b) {
      OtherPhi(before[b], y, v.id);
    }
  }

  lemma PlacedMeans(g: Graph, t: DomTree, df: seq<seq<nat>>, exit: nat, v: VarInfo, refs: seq<nat>, placed: set<nat>,
                    code: seq<seq<Insn>>)
    requires WellFormed(g) && t.Valid() && |g| == |t.idom| == |code| && Filled(g, t, df)
    requires forall u: nat {:trigger t.Done(u)} :: t.Done(u) <==> Reaches(g, t.entry, u)
    requires LeastPhis(v, df, exit, refs, placed)
    requires forall b: nat ::
      b < |code| && Reaches(g, t.entry, b) && Defines(code[b], v.id) ==> b in refs || b in placed
    requires forall b: nat :: b < |code| && b in placed ==> StartsWithPhi(code[b], v.id)
    ensures OnlyFiltersDrop(g, t, code, v, exit)
  {
    if v.Spreads() {
      forall y: nat | FilteredOut(g, t, code, v.id, y) ensures !v.Passes(y, exit) {
        var c: nat, p: nat :| c < |code| && Defines(code[c], v.id) && Edge(g, p, y) && t.Done(p) && t.Done(y)
          && c in t.Chain(p) && c !in t.Chain(t.Up(y));
        assert t.Done(c);
        assert Climbed(g, t, c, y);
        assert y in df[c];
      }
    }
  }

  /** A global variable gets no phis. */
  lemma GlobalHasNone(v: VarInfo, df: seq<seq<nat>>, exit: nat, refs: seq<nat>, placed: set<nat>)
    requires LeastPhis(v, df, exit, refs, placed) && v.isGlobal
    ensures placed == {}
  {
    assert ClosedPhis(v, df, exit, refs, {});
  }

  /** Nothing is ever placed in a block without predecessors. */
  lemma EntryUntouched(g: Graph, t: DomTree, df: seq<seq<nat>>, exit: nat, v: VarInfo, refs: seq<nat>, placed: set<nat>)
    requires t.Valid() && |g| == |t.idom| && Filled(g, t, df) && LeastPhis(v, df, exit, refs, placed)
    requires forall p: nat :: !Edge(g, p, t.entry)
    ensures t.entry !in placed
  {
    var s := placed - {t.entry};
    forall d: nat, y: nat | d < |df| && (d in refs || (v.Spreads() && d in s)) && y in df[d] && v.Passes(y, exit)
      ensures y in s
    {
      assert Climbed(g, t, d, y);
    }
    assert ClosedPhis(v, df, exit, refs, s);
  }

  /** Putting phis of `y` in front tells nothing new about another variable. */
  lemma OtherPhi(insns: seq<Insn>, y: nat, x: nat)
    requires x != y
    ensures StartsWithPhi([Phi(Name(y, None))] + insns, x) <==> StartsWithPhi(insns, x)
    ensures Defines([Phi(Name(y, None))] + insns, x) <==> Defines(insns, x)
  {
    OtherStart(insns, y, x);
    var more := [Phi(Name(y, None))] + insns;
    if Defines(insns, x) {
      var j :| 0 <= j < |insns| && Def(insns[j]).Some? && Def(insns[j]).value.base == x;
      assert more[j + 1] == insns[j];
    }
    if Defines(more, x) {
      var j :| 0 <= j < |more| && Def(more[j]).Some? && Def(more[j]).value.base == x;
      assert insns[j - 1] == more[j];
    }
  }

  lemma StartIntro(insns: seq<Insn>, j: nat, x: nat)
    requires j < |insns| && insns[j].Phi? && insns[j].dest.base == x && forall i :: 0 <= i < j ==> insns[i].Phi?
    ensures StartsWithPhi(insns, x)
  {
  }

  lemma StartElim(insns: seq<Insn>, x: nat) returns (j: nat)
    requires StartsWithPhi(insns, x)
    ensures j < |insns| && insns[j].Phi? && insns[j].dest.base == x && forall i :: 0 <= i < j ==> insns[i].Phi?
  {
    j :| 0 <= j < |insns| && insns[j].Phi? && insns[j].dest.base == x && forall i :: 0 <= i < j ==> insns[i].Phi?;
  }

  lemma OtherStart(insns: seq<Insn>, y: nat, x: nat)
    requires x != y
    ensures StartsWithPhi([Phi(Name(y, None))] + insns, x) <==> StartsWithPhi(insns, x)
  {
    hide StartsWithPhi;
    var phi := Phi(Name(y, None));
    var more := [phi] + insns;
    if StartsWithPhi(insns, x) {
      var j := StartElim(insns, x);
      StartIntro(more, j + 1, x);
    }
    if StartsWithPhi(more, x) {
      var j := StartElim(more, x);
      assert more[0] == phi && j > 0;
      assert forall i :: 0 <= i < |insns| ==> insns[i] == more[i + 1];
      StartIntro(insns, j - 1, x);
    }
  }

  lemma OnlyFiltersDropKept(g: Graph, t: DomTree, before: seq<seq<Insn>>, code: seq<seq<Insn>>, y: nat,
                            placed: set<nat>,
                            v: VarInfo, exit: nat)
    requires t.Valid() && |g| == |t.idom| == |before| && PlacedIn(code, before, y, placed) && v.id != y
    requires OnlyFiltersDrop(g, t, before, v, exit)
    ensures OnlyFiltersDrop(g, t, code, v, exit)
  {
    forall b: nat | b < |code|
      ensures StartsWithPhi(code[b], v.id) <==> StartsWithPhi(before[b], v.id)
      ensures Defines(code[b], v.id) <==> Defines(before[b], v.id)
    {
      OtherPhi(before[b], y, v.id);
    }
    if v.Spreads() {
      forall z: nat | FilteredOut(g, t, code, v.id, z) ensures !v.Passes(z, exit) {
        assert FilteredOut(g, t, before, v.id, z);
      }
    }
  }

  /** The phis of variable `i` join those of the variables before it. */
  lemma NextPhis(g: Graph, t: DomTree, df: seq<seq<nat>>, exit: nat, vars: seq<VarInfo>, i: nat, refs: seq<nat>, n: nat,
                 blocks: seq<seq<Insn>>, before: seq<seq<Insn>>, code: seq<seq<Insn>>, placed: set<nat>)
    requires WellFormed(g) && t.Valid() && |g| == |t.idom| == |blocks| && Filled(g, t, df)
    requires forall u: nat {:trigger t.Done(u)} :: t.Done(u) <==> Reaches(g, t.entry, u)
    requires i < |vars| && vars[i].id < n && forall k :: 0 <= k < i ==> vars[k].id != vars[i].id
    requires PlainBlocks(blocks, n) && RefBlocks(g, t.entry, blocks, vars[i].id, refs)
    requires PhisAdded(blocks, before, vars, i, n) && PlacedIn(code, before, vars[i].id, placed)
    requires LeastPhis(vars[i], df, exit, refs, placed)
    requires forall y: nat :: y in placed <==> Chained(vars[i], df, exit, refs, y)
    ensures PhisAdded(blocks, code, vars, i + 1, n)
    ensures OnlyFiltersDrop(g, t, code, vars[i], exit) && PhisWhereChained(code, vars[i], df, exit, refs)
  {
    var x := vars[i].id;
    if vars[i].isGlobal {
      GlobalHasNone(vars[i], df, exit, refs, placed);
    }
    hide LeastPhis, Filled, Reaches, WellFormed, StartsWithPhi, Defines, HasPhi, PhisAddedTo, Chained;
    forall b: nat | b < |blocks|
      ensures PhisAddedTo(blocks[b], code[b], vars, i + 1, n)
      ensures Defines(code[b], x) ==> Defines(blocks[b], x) || b in placed
      ensures b in placed <==> StartsWithPhi(code[b], x)
    {
      AddPhi(blocks[b], before[b], vars, i, n);
      HasPhiMeans(blocks[b], before[b], vars, i, n, x);
      HasPhiMeans(blocks[b], code[b], vars, i + 1, n, x);
      PlacedHasPhi(code, before, x, placed, b);
    }
    PlacedMeans(g, t, df, exit, vars[i], refs, placed, code);
  }

  /** `solve_phi_insertion`: the phis of every variable in turn; false on a worklist overflow. */
  method InsertPhis(ghost g: Graph, ghost t: DomTree, df: seq<seq<nat>>, exit: nat, vars: seq<VarInfo>,
                    refBlocks: seq<seq<nat>>, ghost n: nat, ghost blocks: seq<seq<Insn>>, code: Code)
    returns (ok: bool)
    requires WellFormed(g) && t.Valid() && |g| == |t.idom| == |blocks| && Filled(g, t, df)
    requires forall u: nat {:trigger t.Done(u)} :: t.Done(u) <==> Reaches(g, t.entry, u)
    requires forall p: nat :: !Edge(g, p, t.entry)
    requires (forall i :: 0 <= i < |vars| ==> vars[i].id < n) && forall i, j ::
      0 <= i < j < |vars| ==> vars[i].id != vars[j].id
    requires |refBlocks| == |vars| && forall i ::
      0 <= i < |vars| ==> RefBlocks(g, t.entry, blocks, vars[i].id, refBlocks[i])
    requires PlainBlocks(blocks, n) && code.insns[..] == blocks
    modifies code.insns
    ensures ok ==> PhisAdded(blocks, code.insns[..], vars, |vars|, n)
    ensures ok ==> forall i :: 0 <= i < |vars| ==> OnlyFiltersDrop(g, t, code.insns[..], vars[i], exit)
    ensures ok ==> forall i :: 0 <= i < |vars| ==> PhisWhereChained(code.insns[..], vars[i], df, exit, refBlocks[i])
    ensures ok ==> code.insns[..][t.entry] == blocks[t.entry]
    ensures !ok ==> |df| >= PHI_WORKLIST_SIZE - 1
  {
    hide PhisAdded, OnlyFiltersDrop, LeastPhis, PlacedIn, RefBlocks, Filled, Reaches, WellFormed, PlainBlocks;
    hide PhisWhereChained, Chained;
    NoPhisYet(blocks, vars, n);
    for i := 0 to |vars|
      invariant code.insns.Length == |blocks|
      invariant PhisAdded(blocks, code.insns[..], vars, i, n)
      invariant forall k :: 0 <= k < i ==> OnlyFiltersDrop(g, t, code.insns[..], vars[k], exit)
      invariant forall k :: 0 <= k < i ==> PhisWhereChained(code.insns[..], vars[k], df, exit, refBlocks[k])
      invariant code.insns[..][t.entry] == blocks[t.entry]
    {
      ghost var before := code.insns[..];
      InsertReady(g, t, df, vars, i, refBlocks[i], n, blocks, before);
      ghost var placed;
      ok, placed := SolvePhiInsertion(vars[i], df, exit, refBlocks[i], code);
      if !ok { return; }
      NextPhis(g, t, df, exit, vars, i, refBlocks[i], n, blocks, before, code.insns[..], placed);
      forall k | 0 <= k < i
        ensures OnlyFiltersDrop(g, t, code.insns[..], vars[k], exit)
        ensures PhisWhereChained(code.insns[..], vars[k], df, exit, refBlocks[k])
      {
        OnlyFiltersDropKept(g, t, before, code.insns[..], vars[i].id, placed, vars[k], exit);
        PhisWhereChainedKept(before, code.insns[..], vars[i].id, placed, vars[k], df, exit, refBlocks[k]);
      }
      EntryUntouched(g, t, df, exit, vars[i], refBlocks[i], placed);
      PlacedElsewhere(code.insns[..], before, vars[i].id, placed, t.entry);
    }
    ok := true;
  }

  lemma PlacedElsewhere(code: seq<seq<Insn>>, before: seq<seq<Insn>>, x: nat, placed: set<nat>, b: nat)
    requires PlacedIn(code, before, x, placed) && b !in placed && b < |before|
    ensures |code| == |before| && code[b] == before[b]
  {
  }

  lemma NoPhisYet(blocks: seq<seq<Insn>>, vars: seq<VarInfo>, n: nat)
    requires PlainBlocks(blocks, n)
    ensures PhisAdded(blocks, blocks, vars, 0, n)
  {
    forall b: nat | b < |blocks| ensures PhisAddedTo(blocks[b], blocks[b], vars, 0, n) {
    }
  }

  /** What `SolvePhiInsertion` asks of its arguments. */
  lemma InsertReady(g: Graph, t: DomTree, df: seq<seq<nat>>, vars: seq<VarInfo>, i: nat, refs: seq<nat>, n: nat,
                    blocks: seq<seq<Insn>>, before: seq<seq<Insn>>)
    requires WellFormed(g) && t.Valid() && |g| == |t.idom| == |blocks| && Filled(g, t, df)
    requires i < |vars| && forall k :: 0 <= k < i ==> vars[k].id != vars[i].id
    requires PlainBlocks(blocks, n) && RefBlocks(g, t.entry, blocks, vars[i].id, refs)
    requires PhisAdded(blocks, before, vars, i, n)
    ensures |df| == |before| && NoDup(refs) && InRange(refs, |df|)
    ensures forall b: nat :: b < |df| ==> InRange(df[b], |df|) && !HasPhi(before[b], vars[i].id)
  {
    hide Reaches, HasPhi, PhisAddedTo, Climbed;
    forall k | 0 <= k < |refs| ensures refs[k] < |df| {
      assert refs[k] in refs;
    }
    forall b: nat | b < |df| ensures InRange(df[b], |df|) && !HasPhi(before[b], vars[i].id) {
      HasPhiMeans(blocks[b], before[b], vars, i, n, vars[i].id);
      forall k | 0 <= k < |df[b]| ensures df[b][k] < |df| {
        assert df[b][k] in df[b];
        assert t.Done(df[b][k]);
      }
    }
  }

  /** With its phis in place the function meets everything the simulation asks for. */
  lemma RenamedIsReady(fn: Fn, blocks: seq<seq<Insn>>, vars: seq<VarInfo>, n: nat, sites: Sites, isGlobal: seq<bool>)
    requires n == |isGlobal| && AllSited(fn.code, fn.outs, sites, isGlobal)
    requires forall i :: 0 <= i < |vars| ==> vars[i].id < n && vars[i].isGlobal == isGlobal[vars[i].id]
    requires Settled(fn.g, fn.t, fn.init, fn.src, fn.code, fn.ops, fn.outs)
    requires PhisAdded(blocks, fn.src, vars, |vars|, n) && PlainBlocks(blocks, n)
    requires fn.src[fn.t.entry] == blocks[fn.t.entry]
    ensures fn.Ready()
  {
    forall b: nat | b < |fn.src| ensures PhisLead(fn.src[b], Lead(fn.src[b])) && Plain(fn.src[b], n) {
      assert PhisAddedTo(blocks[b], fn.src[b], vars, |vars|, n);
      LeadIs(fn.src[b], |fn.src[b]| - |blocks[b]|);
    }
    var first := fn.src[fn.t.entry];
    assert fn.t.entry < |fn.src|;
    assert first == [] || first[0].Op?;
    forall b: nat, j | b < |fn.src| && 0 <= j < |fn.src[b]| && Def(fn.src[b][j]).Some?
      ensures Def(fn.src[b][j]).value.sub == None
    {
      assert PlainName(Def(fn.src[b][j]), n);
    }
    hide PhisAddedTo, Settled, DefsSited;
    forall b: nat, x: nat | b < |fn.src| && StartsWithPhi(fn.src[b], x) ensures Numbered(fn.code, fn.outs, x) {
      var i := PhiIsLocal(blocks[b], fn.src[b], vars, n, x);
      LocalIsNumbered(fn.code, fn.outs, sites, isGlobal, x);
    }
  }

  lemma PhiIsLocal(block: seq<Insn>, code: seq<Insn>, vars: seq<VarInfo>, n: nat, x: nat) returns (i: nat)
    requires PhisAddedTo(block, code, vars, |vars|, n) && StartsWithPhi(code, x)
    ensures i < |vars| && vars[i].id == x && !vars[i].isGlobal
  {
    var j :| 0 <= j < |code| && code[j].Phi? && code[j].dest.base == x;
    assert OneOf(code[j], vars, |vars|);
    i :| 0 <= i < |vars| && !vars[i].isGlobal && code[j] == Phi(Name(vars[i].id, None));
  }

  lemma LocalIsNumbered(code: seq<seq<Insn>>, outs: map<nat, seq<Option<nat>>>, sites: Sites, isGlobal: seq<bool>,
                        x: nat)
    requires AllSited(code, outs, sites, isGlobal) && x < |isGlobal| && !isGlobal[x]
    ensures Numbered(code, outs, x)
  {
    forall b: nat | b in outs && b < |code| ensures NumberedIn(code[b], x) {
      assert DefsSited(code[b], b, sites, isGlobal);
      forall j | 0 <= j < |code[b]| && Def(code[b][j]).Some? && Def(code[b][j]).value.base == x
        ensures Def(code[b][j]).value.sub.Some?
      {
        assert DefSited(Def(code[b][j]).value, b, j, sites, isGlobal);
      }
    }
  }

  /** Phi insertion and renaming of a whole function: the outcome is ready for
      `SsaKeepsMeaning`, missing phis failed a filter, and every subscript has one definition. */
  method BuildSsa(g: Graph, ghost t: DomTree, entry: nat, df: seq<seq<nat>>, domNext: seq<seq<nat>>, exit: nat,
                  vars: seq<VarInfo>, refBlocks: seq<seq<nat>>, isGlobal: seq<bool>, params: seq<nat>,
                  blocks: seq<seq<Insn>>)
    returns (ok: bool, ghost fn: Fn, ghost sites: Sites)
    requires WellFormed(g) && t.Valid() && |g| == |t.idom| == |blocks| && entry == t.entry
    requires ChainsAreDominators(g, t) && Filled(g, t, df) && ChildLists(t, domNext)
    requires forall u: nat {:trigger t.Done(u)} :: t.Done(u) <==> Reaches(g, t.entry, u)
    requires forall p: nat :: !Edge(g, p, t.entry)
    requires forall i :: 0 <= i < |vars| ==> vars[i].id < |isGlobal| && vars[i].isGlobal == isGlobal[vars[i].id]
    requires forall i, j :: 0 <= i < j < |vars| ==> vars[i].id != vars[j].id
    requires |refBlocks| == |vars| && forall i ::
      0 <= i < |vars| ==> RefBlocks(g, t.entry, blocks, vars[i].id, refBlocks[i])
    requires PlainBlocks(blocks, |isGlobal|)
    requires NoDup(params) && forall i :: 0 <= i < |params| ==> params[i] < |isGlobal| && !isGlobal[params[i]]
    ensures !ok ==> |g| >= PHI_WORKLIST_SIZE - 1
    ensures ok ==> fn.g == g && fn.t == t && fn.Ready() && PhisAdded(blocks, fn.src, vars, |vars|, |isGlobal|)
    ensures ok ==> fn.init == seq(|isGlobal|, x => if x in params then Some(0) else None)
    ensures ok ==> forall i :: 0 <= i < |vars| ==> OnlyFiltersDrop(g, t, fn.src, vars[i], exit)
    ensures ok ==> forall i :: 0 <= i < |vars| ==> PhisWhereChained(fn.src, vars[i], df, exit, refBlocks[i])
    ensures ok ==> AllSited(fn.code, fn.outs, sites, isGlobal)
    ensures ok ==> fn.SameShape()
    ensures ok ==> forall i :: 0 <= i < |vars| && Unfiltered(fn, vars[i], exit) ==> AllNamedRight(fn, vars[i].id)
  {
    hide PhisAdded, OnlyFiltersDrop, PhisWhereChained, Reaches, PlainBlocks, RefBlocks, Renamed, PhisOk;
    hide ChainsAreDominators;
    ghost var n, init := |isGlobal|, seq(|isGlobal|, x => if x in params then Some(0) else None);
    fn, sites := Fn(g, t, init, blocks, blocks, [], map[]), map[];
    var code := new Code(blocks);
    ok := InsertPhis(g, t, df, exit, vars, refBlocks, n, blocks, code);
    if !ok {
      return;
    }
    var src := code.insns[..];
    AllPlain(blocks, src, vars, n);
    var renamer := new Renamer(g, domNext, isGlobal, src, t, init);
    renamer.SolveFunction(entry, params);
    fn := Fn(g, t, init, src, renamer.insns[..], renamer.phiOps[..], renamer.outs);
    sites := renamer.sites;
    EverythingRenamed(g, t, renamer.outs);
    RenamedIsReady(fn, blocks, vars, n, sites, isGlobal);
    VersionsRight(fn, vars, exit);
  }

  lemma VersionsRight(fn: Fn, vars: seq<VarInfo>, exit: nat)
    requires fn.Ready() && forall i :: 0 <= i < |vars| ==> vars[i].id < |fn.init|
    requires forall i :: 0 <= i < |vars| ==> OnlyFiltersDrop(fn.g, fn.t, fn.src, vars[i], exit)
    ensures fn.SameShape()
    ensures forall i :: 0 <= i < |vars| && Unfiltered(fn, vars[i], exit) ==> AllNamedRight(fn, vars[i].id)
  {
    ShapeOf(fn);
    hide OnlyFiltersDrop, Unfiltered, AllNamedRight;
    forall i | 0 <= i < |vars| && Unfiltered(fn, vars[i], exit) ensures AllNamedRight(fn, vars[i].id) {
      RenamingIsRight(fn, vars[i], exit);
    }
  }

  lemma AllPlain(blocks: seq<seq<Insn>>, src: seq<seq<Insn>>, vars: seq<VarInfo>, n: nat)
    requires PhisAdded(blocks, src, vars, |vars|, n)
    ensures |src| == |blocks| && forall b: nat :: b < |src| ==> Plain(src[b], n)
  {
    forall b: nat | b < |src| ensures Plain(src[b], n) {
      assert PhisAddedTo(blocks[b], src[b], vars, |vars|, n);
    }
  }

  lemma EverythingRenamed(g: Graph, t: DomTree, outs: map<nat, seq<Option<nat>>>)
    requires t.Valid() && outs.Keys == Subtree(t, t.entry)
    requires forall u: nat {:trigger t.Done(u)} :: t.Done(u) <==> Reaches(g, t.entry, u)
    ensures forall b: nat :: b in outs <==> Reaches(g, t.entry, b)
  {
    hide Reaches;
    forall b: nat ensures b in outs <==> Reaches(g, t.entry, b) {
      assert b in outs <==> b in Subtree(t, t.entry);
      if t.Done(b) {
        assert t.entry in t.Chain(b);
      }
    }
  }

  // ---- variables whose phis all pass the filters ------------------------------------------------

  /** The variable is a parameter or assigned in the entry block, neither global nor a temporary of
      `?:`, `&&` or `||`, and visible in every block in the frontier of one of its definitions; none
      of these blocks declares it or is the exit. */
  ghost predicate Unfiltered(fn: Fn, v: VarInfo, exit: nat)
    requires fn.t.Valid() && |fn.g| == |fn.t.idom| == |fn.src|
  {
    && !v.isGlobal && !v.isTernaryRet && !v.isLogicalRet
    && v.id < |fn.init| && (fn.init[v.id].Some? || Assigns(fn.src[fn.t.entry], v.id))
    && (forall c: nat, y: nat :: FrontierOf(fn, v.id, c, y) ==>
          y in v.visible && y !in v.declaredIn && y != exit)
  }

  /** `y` is in the frontier of block `c`, which defines `x`. */
  ghost predicate FrontierOf(fn: Fn, x: nat, c: nat, y: nat)
    requires fn.t.Valid() && |fn.g| == |fn.t.idom| == |fn.src|
  {
    && c < |fn.src| && Defines(fn.src[c], x) && fn.t.Done(c) && fn.t.Done(y) && Climbed(fn.g, fn.t, c, y)
  }

  lemma NeverFiltered(fn: Fn, v: VarInfo, exit: nat, y: nat)
    requires fn.t.Valid() && |fn.g| == |fn.t.idom| == |fn.src|
    requires Unfiltered(fn, v, exit) && OnlyFiltersDrop(fn.g, fn.t, fn.src, v, exit)
    ensures !FilteredOut(fn.g, fn.t, fn.src, v.id, y)
  {
    if FilteredOut(fn.g, fn.t, fn.src, v.id, y) {
      var c: nat, p: nat :| c < |fn.src| && Defines(fn.src[c], v.id) && Edge(fn.g, p, y) && fn.t.Done(p) && fn.t.Done(y)
        && c in fn.t.Chain(p) && c !in fn.t.Chain(fn.t.Up(y));
      assert fn.t.Done(c) && Climbed(fn.g, fn.t, c, y) && FrontierOf(fn, v.id, c, y);
    }
  }

  /** Such a variable is tracked at every block of every path. */
  lemma {:induction false} AlwaysTracked(fn: Fn, v: VarInfo, exit: nat, p: seq<nat>, k: nat)
    requires fn.t.Valid() && |fn.g| == |fn.t.idom| == |fn.src| && OnPath(fn.g, fn.t, p, k) && Fit(fn.src, p)
    requires Unfiltered(fn, v, exit) && OnlyFiltersDrop(fn.g, fn.t, fn.src, v, exit)
    ensures Tracked(fn.g, fn.t, fn.init, fn.src, p, k, v.id)
    ensures k > 0 ==> Given(fn.init, fn.src, p, k, v.id) && TrackedToEnd(fn.g, fn.t, fn.init, fn.src, p, k - 1, v.id)
  {
    hide FilteredOut, OnlyFiltersDrop, StartsWithPhi, IsPath;
    if k > 0 {
      AlwaysTracked(fn, v, exit, p, k - 1);
      NeverFiltered(fn, v, exit, p[k]);
      assert p[0] == fn.t.entry;
    }
  }

  /** Instruction `j` of the `k`-th block on the path names `x` right: a use has the version written
      by the last definition on the path, the operand a phi has for the edge taken is the version
      that reaches along it. */
  ghost predicate NamedRight(fn: Fn, p: seq<nat>, k: nat, j: nat, x: nat)
    requires k < |p| && Fit(fn.src, p) && fn.SameShape() && x < |fn.init| && j < |fn.src[p[k]]|
  {
    var i, i2, cur := fn.src[p[k]][j], fn.code[p[k]][j], Reaching(fn.code, p, k, x, fn.init[x]);
    var named := Name(x, LastDef(fn.code[p[k]][..j], x, cur));
    && (i.Op? && i.rs1 == Some(Name(x, None)) ==> i2.Op? && i2.rs1 == Some(named))
    && (i.Op? && i.rs2 == Some(Name(x, None)) ==> i2.Op? && i2.rs2 == Some(named))
    && (k > 0 && i.Phi? && i.dest.base == x ==> OperandFrom(fn.ops[p[k]][j], p[k - 1]) == cur)
  }

  ghost predicate AllNamedRight(fn: Fn, x: nat)
    requires fn.SameShape() && x < |fn.init|
  {
    forall p: seq<nat>, k: nat, j: nat :: OnPath(fn.g, fn.t, p, k) && Fit(fn.src, p) && j < |fn.src[p[k]]| ==>
      NamedRight(fn, p, k, j, x)
  }

  /** SSA renaming is right on every path, for a variable whose frontier blocks all pass the
      filters. */
  lemma RenamingIsRight(fn: Fn, v: VarInfo, exit: nat)
    requires fn.Ready() && fn.SameShape()
    requires Unfiltered(fn, v, exit) && OnlyFiltersDrop(fn.g, fn.t, fn.src, v, exit)
    ensures AllNamedRight(fn, v.id)
  {
    hide OnlyFiltersDrop, Unfiltered, NamedRight, Settled;
    UnfilteredInside(fn, v, exit);
    forall p: seq<nat>, k: nat, j: nat | OnPath(fn.g, fn.t, p, k) && Fit(fn.src, p) && j < |fn.src[p[k]]|
      ensures NamedRight(fn, p, k, j, v.id)
    {
      RenamingIsRightAt(fn, v, exit, p, k, j);
    }
  }

  lemma UnfilteredInside(fn: Fn, v: VarInfo, exit: nat)
    requires fn.Ready() && Unfiltered(fn, v, exit)
    ensures v.id < |fn.init|
  {
  }

  lemma RenamingIsRightAt(fn: Fn, v: VarInfo, exit: nat, p: seq<nat>, k: nat, j: nat)
    requires fn.Ready() && OnPath(fn.g, fn.t, p, k) && Fit(fn.src, p) && fn.SameShape() && j < |fn.src[p[k]]|
    requires Unfiltered(fn, v, exit) && OnlyFiltersDrop(fn.g, fn.t, fn.src, v, exit)
    ensures NamedRight(fn, p, k, j, v.id)
  {
    AlwaysTracked(fn, v, exit, p, k);
    var i, n := fn.src[p[k]][j], Name(v.id, None);
    if i.Op? && (i.rs1 == Some(n) || i.rs2 == Some(n)) {
      hide Settled, Tracked;
      UseIsReaching(fn.g, fn.t, fn.init, fn.src, fn.code, fn.ops, fn.outs, p, k, j, n);
    } else if k > 0 && i.Phi? && i.dest.base == v.id {
      LeadRenamed(fn, p, k);
      hide Settled, Tracked, TrackedToEnd;
      PhiOperandValue(fn, p, k, j, v.id);
    }
  }
}
