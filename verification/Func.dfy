/** One function under SSA construction (`func_t` and its basic blocks): the traversals,
    numbering, dominator and dominance-frontier passes of src/ssa.c. Block attributes are
    arrays indexed by block number. */
module Ssa {
  import opened Cfg
  import opened Options
  import opened Dfs
  import opened Dominators
  import opened Passes
  import opened Frontier

  class Func {
    const g: Graph
    const entry: nat
    const visited: array<int>
    const rpo: array<int>
    const rpoNext: array<Option<nat>>
    const idom: array<Option<nat>>
    const df: array<seq<nat>>
    ghost const region: set<nat> // the blocks reachable from the entry
    var funcVisited: int
    var bbCnt: int
    ghost var list: seq<nat>

    ghost predicate Shaped() {
      && WellFormed(g) && entry < |g|
      && visited.Length == rpo.Length == rpoNext.Length == idom.Length == df.Length == |g|
      && visited != rpo && rpoNext != idom
      && visited as object != rpoNext && visited as object != df
    }

    ghost predicate RegionClosed() {
      forall a: nat, b: nat :: a in region && Edge(g, a, b) ==> b in region
    }

    /** `list` is what following `rpo_next` from the entry yields. */
    ghost predicate Linked()
      requires Shaped()
      reads this, rpoNext
    {
      LinkedList(g, entry, rpoNext[..], list)
    }

    ghost predicate Valid()
      reads this, rpoNext
    {
      Shaped() && Linked()
    }

    ghost function State(): (s: Snap)
      requires Valid()
      reads this, rpo, rpoNext, idom, df
      ensures Sized(g, s)
    {
      Snap(rpo[..], list, bbCnt, idom[..], df[..])
    }

    /** Of the reachable blocks, exactly those in `seen` have been visited in the current pass. */
    ghost predicate SeenExactly(seen: set<nat>)
      requires Shaped()
      reads `funcVisited, visited
    {
      Counted(visited[..], funcVisited, region, seen)
    }

    constructor (g: Graph, entry: nat)
      requires WellFormed(g) && entry < |g|
      ensures this.g == g && this.entry == entry && region == Elems(Visit(g, entry, {}))
      ensures Valid() && SeenExactly(region)
      ensures fresh(visited) && fresh(rpo) && fresh(rpoNext) && fresh(idom) && fresh(df)
      ensures State() == Snap(seq(|g|, _ => 0), [entry], 0, seq(|g|, _ => None), seq(|g|, _ => []))
    {
      this.g, this.entry := g, entry;
      region := Elems(Visit(g, entry, {}));
      visited := new int[|g|](_ => 0);
      rpo := new int[|g|](_ => 0);
      rpoNext := new Option<nat>[|g|](_ => None);
      idom := new Option<nat>[|g|](_ => None);
      df := new seq<nat>[|g|](_ => []);
      funcVisited, bbCnt := 0, 0;
      list := [entry];
      new;
      assert State().rpo == seq(|g|, _ => 0);
      assert State().idom == seq(|g|, _ => None);
      assert State().df == seq(|g|, _ => []);
    }

    method BbIndexRpo(bb: nat)
      requires Valid() && bb < |g|
      modifies rpo, `bbCnt
      ensures Valid() && State() == Step(g, IndexRpo, old(State()), bb)
    {
      rpo[bb] := bbCnt;
      bbCnt := bbCnt + 1;
    }

    method BbReverseIndex(bb: nat)
      requires Valid() && bb < |g|
      modifies rpo
      ensures Valid() && State() == Step(g, ReverseIndex, old(State()), bb)
    {
      rpo[bb] := bbCnt - rpo[bb];
    }

    /** Links `bb` into the list at its place by number. */
    method BbBuildRpo(bb: nat)
      requires Valid() && bb < |g| && (bb == entry || bb !in list)
      modifies rpoNext, `list
      ensures Valid() && State() == Step(g, LinkRpo, old(State()), bb)
    {
      if entry == bb {
        return;
      }
      var prev := entry;
      var curr := rpoNext[prev];
      ghost var k := 0;
      while curr.Some?
        invariant 0 <= k < |list| && prev == list[k]
        invariant curr == if k + 1 < |list| then Some(list[k + 1]) else None
        invariant forall i :: 1 <= i <= k ==> rpo[list[i]] < rpo[bb]
        decreases |list| - k
      {
        if rpo[curr.value] < rpo[bb] {
          prev := curr.value;
          curr := rpoNext[prev];
          k := k + 1;
          continue;
        }
        break;
      }
      // Both exits of the search store the new block between `prev` and `curr`.
      InsertLinked(g, entry, rpoNext[..], list, rpo[..], bb, k);
      rpoNext[bb] := curr;
      rpoNext[prev] := Some(bb);
      list := Insert(list, rpo[..], bb);
    }

    /** The climb of `bb_build_df` for one predecessor `p`. */
    method ClimbFrom(p: nat, bb: nat, ghost t: DomTree)
      requires Shaped() && bb < |g| && t.Valid() && t.idom == idom[..] && t.Done(p)
      requires t.Done(bb) && t.Up(bb) in t.Chain(p)
      requires forall x: nat :: x < |g| ==> |Climb(t, t.Up(bb), p, bb, df[..])[x]| <= MAX_DF
      modifies df
      ensures df[..] == Climb(t, t.Up(bb), p, bb, old(df[..]))
    {
      ghost var stop, goal := t.Up(bb), Climb(t, t.Up(bb), p, bb, df[..]);
      var curr := p;
      while Some(curr) != idom[bb]
        invariant t.Done(curr) && stop in t.Chain(curr)
        invariant Climb(t, stop, curr, bb, df[..]) == goal
        decreases t.rpo[curr]
      {
        ClimbGrowsOne(t, stop, curr, bb, df[..]);
        assert |goal[curr]| <= MAX_DF;
        assert |df[curr]| < MAX_DF; // the next slot of DF exists
        ghost var df0 := df[..];
        df[curr] := df[curr] + [bb];
        assert df[..] == df0[curr := df0[curr] + [bb]];
        assert idom[curr].value == t.Up(curr);
        curr := idom[curr].value;
      }
    }

    method BbBuildDf(bb: nat)
      requires Valid() && bb < |g| && FrontierReady(g, State(), bb)
      requires forall x: nat :: x < |g| ==> |Step(g, FillDf, State(), bb).df[x]| <= MAX_DF
      modifies df
      ensures Valid() && State() == Step(g, FillDf, old(State()), bb)
    {
      hide Passes.LinkedList, WellFormed, DomTree.Valid, DomTree.Chain;
      ghost var s0 := State();
      ghost var t, stop, df0, prev := TreeOf(s0), s0.idom[bb].value, s0.df, g[bb].prev;
      assert stop == t.Up(bb);
      assert Step(g, FillDf, s0, bb) == s0.(df := ClimbAll(t, stop, prev, bb, df0));
      var cnt := 0;
      for i := 0 to |g[bb].prev|
        invariant cnt == 0 ==> forall k :: 0 <= k < i ==> prev[k] == None
      {
        if g[bb].prev[i].Some? {
          cnt := cnt + 1;
        }
      }
      if cnt <= 0 {
        ClimbNothing(t, stop, prev, bb, df0);
        return;
      }
      for i := 0 to |g[bb].prev|
        invariant df[..] == ClimbAll(t, stop, prev[..i], bb, df0)
      {
        ClimbNext(t, stop, prev, i, bb, df0, MAX_DF);
        if g[bb].prev[i].Some? {
          ClimbFrom(g[bb].prev[i].value, bb, t);
        }
      }
      assert prev[..|prev|] == prev;
    }

    method PostorderCb(cb: Callback, bb: nat)
      requires Valid() && bb < |g| && InGraph(g, [bb]) && Fits(g, cb, State(), [bb])
      modifies rpo, rpoNext, df, `bbCnt, `list
      ensures Valid() && State() == Run(g, cb, old(State()), [bb])
    {
      assert [bb][..0] == [] && [bb][0] == bb;
      assert Run(g, cb, State(), [bb]) == Step(g, cb, State(), bb);
      match cb {
        case IndexRpo => BbIndexRpo(bb);
        case ReverseIndex => BbReverseIndex(bb);
        case LinkRpo => BbBuildRpo(bb);
        case FillDf => BbBuildDf(bb);
      }
    }

    method MarkVisited(bb: nat, ghost seen: set<nat>)
      requires RegionClosed() && Valid() && bb < |g| && bb in region && bb !in seen && SeenExactly(seen)
      modifies visited
      ensures SeenExactly(seen + {bb})
    {
      visited[bb] := visited[bb] + 1;
    }

    /** `bb_forward_traversal`: one callback per newly visited block, in postorder. */
    method ForwardTraversal(bb: nat, cb: Callback, ghost seen: set<nat>)
      requires RegionClosed() && Valid() && bb < |g| && bb in region && bb !in seen && SeenExactly(seen)
      requires InGraph(g, Visit(g, bb, seen)) && Fits(g, cb, State(), Visit(g, bb, seen))
      modifies visited, rpo, rpoNext, df, `bbCnt, `list
      ensures Valid() && State() == Run(g, cb, old(State()), Visit(g, bb, seen))
      ensures SeenExactly(seen + Elems(Visit(g, bb, seen)))
      decreases |UpTo(|g|) - seen|, 1
    {
      hide Dfs.Visit, Dfs.BelowVisit, Passes.Run, Passes.Fits;
      VisitPlan(g, cb, State(), bb, seen);
      MarkVisited(bb, seen);
      FollowAll(bb, cb, seen + {bb});
      assert SeenExactly(seen + Elems(Visit(g, bb, seen)));
      PostorderCb(cb, bb);
    }

    /** The three pointer tests of `bb_forward_traversal`. */
    method FollowAll(bb: nat, cb: Callback, ghost v0: set<nat>)
      requires RegionClosed() && Valid() && bb < |g| && bb in region && SeenExactly(v0)
      requires InGraph(g, BelowVisit(g, bb, v0)) && Fits(g, cb, State(), BelowVisit(g, bb, v0))
      modifies visited, rpo, rpoNext, df, `bbCnt, `list
      ensures Valid() && State() == Run(g, cb, old(State()), BelowVisit(g, bb, v0))
      ensures SeenExactly(v0 + Elems(BelowVisit(g, bb, v0)))
      decreases |UpTo(|g|) - v0|, 3
    {
      hide Dfs.Visit, Dfs.VisitPointer, Passes.Run, Passes.Fits;
      assert forall o :: o in [g[bb].next, g[bb].then_, g[bb].else_] && o.Some? ==> Edge(g, bb, o.value);
      ghost var r1 := VisitPointer(g, g[bb].next, v0);
      ghost var r2 := VisitPointer(g, g[bb].then_, v0 + Elems(r1));
      ghost var r3 := VisitPointer(g, g[bb].else_, v0 + Elems(r1) + Elems(r2));
      FitsThree(g, cb, State(), r1, r2, r3);
      ElemsThree(r1, r2, r3, v0);
      SubsetSize(UpTo(|g|) - (v0 + Elems(r1)), UpTo(|g|) - v0);
      SubsetSize(UpTo(|g|) - (v0 + Elems(r1) + Elems(r2)), UpTo(|g|) - v0);
      FollowPointer(g[bb].next, cb, v0);
      FollowPointer(g[bb].then_, cb, v0 + Elems(r1));
      FollowPointer(g[bb].else_, cb, v0 + Elems(r1) + Elems(r2));
    }

    /** One of the three pointer tests of `bb_forward_traversal`. */
    method FollowPointer(o: Option<nat>, cb: Callback, ghost seen: set<nat>)
      requires RegionClosed() && Valid() && InFunction(g, o) && (o.Some? ==> o.value in region) && SeenExactly(seen)
      requires InGraph(g, VisitPointer(g, o, seen)) && Fits(g, cb, State(), VisitPointer(g, o, seen))
      modifies visited, rpo, rpoNext, df, `bbCnt, `list
      ensures Valid() && State() == Run(g, cb, old(State()), VisitPointer(g, o, seen))
      ensures SeenExactly(seen + Elems(VisitPointer(g, o, seen)))
      decreases |UpTo(|g|) - seen|, 2
    {
      hide Dfs.Visit;
      if o.Some? {
        if visited[o.value] < funcVisited {
          ForwardTraversal(o.value, cb, seen);
        }
      }
    }

    /** `build_rpo`: three passes over the function. */
    method BuildRpo()
      requires Valid() && SeenExactly(region) && region == Elems(Visit(g, entry, {})) && list == [entry]
      modifies this, visited, rpo, rpoNext, df
      ensures Valid() && SeenExactly(region)
      ensures list == Reverse(Visit(g, entry, {})) && Numbered(g, entry, rpo[..], list)
      ensures idom[..] == old(idom[..]) && df[..] == old(df[..])
    {
      hide Dfs.Visit;
      ghost var order := Visit(g, entry, {});
      RegionIsPass();
      ghost var s := State();
      NumberingFits(g, IndexRpo, s, order);
      OnePass(IndexRpo);
      IndexPass(g, s, order);
      ghost var s1 := State();
      NumberingFits(g, ReverseIndex, s1, order);
      OnePass(ReverseIndex);
      ReversePass(g, s1, order);
      ghost var s2 := State();
      NumberedOrder(g, entry, s2.rpo, order);
      LinkWhole(g, s2, order);
      OnePass(LinkRpo);
    }

    lemma RegionIsPass()
      requires Shaped() && region == Elems(Visit(g, entry, {}))
      ensures RegionClosed() && NoDup(Visit(g, entry, {})) && entry in region
      ensures {} + region == region
    {
      VisitOrder(g, entry, {});
    }

    /** `func->visited++` and one traversal from the entry. */
    method OnePass(cb: Callback)
      requires Valid() && SeenExactly(region) && region == Elems(Visit(g, entry, {}))
      requires Fits(g, cb, State(), Visit(g, entry, {}))
      modifies this, visited, rpo, rpoNext, df
      ensures Valid() && SeenExactly(region)
      ensures State() == Run(g, cb, old(State()), Visit(g, entry, {}))
    {
      RegionIsPass();
      hide Dfs.Visit, Passes.Run, Passes.Fits;
      funcVisited := funcVisited + 1;
      assert State() == old(State());
      ForwardTraversal(entry, cb, {});
    }

    /** The dominator tree as stored in the blocks. */
    ghost function Tree(): DomTree
      requires Shaped()
      reads rpo, idom
    {
      DomTree(entry, idom[..], rpo[..])
    }

    /** `intersect`: the nearest block above both `i0` and `j0`. */
    method Intersect(i0: nat, j0: nat) returns (m: nat)
      requires Shaped() && Tree().Valid() && Tree().Done(i0) && Tree().Done(j0)
      ensures Tree().Done(m) && forall z: nat ::
        z in Tree().Chain(m) <==> z in Tree().Chain(i0) && z in Tree().Chain(j0)
    {
      ghost var t := Tree();
      var i, j := i0, j0;
      while i != j
        invariant t.Done(i) && t.Done(j)
        invariant forall z: nat :: z in t.Chain(i) && z in t.Chain(j) <==> z in t.Chain(i0) && z in t.Chain(j0)
        decreases t.rpo[i] + t.rpo[j]
      {
        ghost var i1, j1 := i, j;
        while rpo[i] > rpo[j]
          invariant t.Done(i) && t.Done(j) && t.rpo[i] <= t.rpo[i1] && (i == i1 || t.rpo[i] < t.rpo[i1])
          invariant forall z: nat :: z in t.Chain(i) && z in t.Chain(j) <==> z in t.Chain(i0) && z in t.Chain(j0)
          decreases t.rpo[i]
        {
          assert t.entry in t.Chain(j) && idom[i].value == t.Up(i);
          i := idom[i].value;
        }
        while rpo[j] > rpo[i]
          invariant t.Done(i) && t.Done(j) && t.rpo[j] <= t.rpo[j1] && (j == j1 || t.rpo[j] < t.rpo[j1])
          invariant forall z: nat :: z in t.Chain(i) && z in t.Chain(j) <==> z in t.Chain(i0) && z in t.Chain(j0)
          decreases t.rpo[j]
        {
          assert t.entry in t.Chain(i) && idom[j].value == t.Up(j);
          j := idom[j].value;
        }
      }
      return i;
    }

    /** The first predecessor loop of `build_idom`: some processed predecessor. */
    method FirstPred(bb: nat) returns (m: nat)
      requires Shaped() && Tree().Valid() && bb < |g| && HasForwardPred(g, Tree(), bb)
      ensures Edge(g, m, bb) && Tree().Done(m)
    {
      ghost var t, prev := Tree(), g[bb].prev;
      ghost var fwd: nat :| ForwardEdge(g, t, fwd, bb) && t.Done(fwd);
      var pred: Option<nat> := None;
      for i := 0 to |g[bb].prev|
        invariant pred == None && forall k :: 0 <= k < i ==> prev[k] != Some(fwd)
      {
        if g[bb].prev[i] == None {
          continue;
        }
        if idom[g[bb].prev[i].value] == None {
          continue;
        }
        pred := g[bb].prev[i];
        break;
      }
      assert Some(fwd) in prev;
      m := pred.value;
    }

    /** The two predecessor loops of `build_idom`. */
    method NearestPred(bb: nat) returns (m: nat)
      requires Shaped() && Tree().Valid() && bb < |g| && HasForwardPred(g, Tree(), bb)
      ensures Nearest(g, Tree(), m, bb) && rpo[m] < rpo[bb]
    {
      hide DomTree.Chain, DomTree.Valid, Nearest, HasForwardPred;
      ghost var t, prev := Tree(), g[bb].prev;
      m := FirstPred(bb);
      forall z: nat ensures AboveSlots(t, prev, |prev|, z) ==> z in t.Chain(m) {
        AtLeastOneSlot(g, t, bb, m, z);
      }
      for i := 0 to |g[bb].prev|
        invariant t.Done(m)
        invariant forall z: nat :: AboveSlots(t, prev, |prev|, z) ==> z in t.Chain(m)
        invariant forall z: nat :: z in t.Chain(m) ==> AboveSlots(t, prev, i, z)
      {
        if g[bb].prev[i] == None {
          continue;
        }
        if g[bb].prev[i] == Some(m) {
          continue;
        }
        assert Edge(g, prev[i].value, bb);
        if idom[g[bb].prev[i].value].Some? {
          forall z: nat ensures AboveSlots(t, prev, |prev|, z) ==> z in t.Chain(prev[i].value) {
            AtLeastOneSlot(g, t, bb, prev[i].value, z);
          }
          m := Intersect(g[bb].prev[i].value, m);
        }
      }
      NearestIsLower(g, t, m, bb);
    }

    /** One step of the sweep in `build_idom`. */
    method SweepBlock(bb: nat, ghost k: nat, ghost done: nat) returns (changed: bool)
      requires Valid() && Ordered(g, entry, rpo[..], list) && 1 <= k < |list| && bb == list[k]
      requires Processed(Tree(), list, done) && k <= done && (done == k || done == |list|)
      requires Invariant(g, Tree(), k + 1)
      modifies idom
      ensures Valid() && Processed(Tree(), list, if done == k then k + 1 else done)
      ensures Invariant(g, Tree(), k + 2)
      ensures !changed ==> Tree() == old(Tree())
      ensures !changed ==> Nearest(g, Tree(), Tree().Up(bb), bb)
      ensures changed ==> Weight(Tree(), |g|) < Weight(old(Tree()), |g|)
    {
      ghost var t := Tree();
      ReadyPred(g, t, list, done, k);
      var pred := NearestPred(bb);
      SweepStep(g, t, list, done, k, pred);
      changed := StoreIdom(bb, pred);
    }

    method StoreIdom(bb: nat, pred: nat) returns (changed: bool)
      requires Valid() && bb < |g|
      modifies idom
      ensures Valid() && Tree() == old(Tree()).Set(bb, pred)
      ensures changed <==> old(idom[bb]) != Some(pred)
    {
      ghost var t := Tree();
      changed := idom[bb] != Some(pred);
      if changed {
        idom[bb] := Some(pred);
      }
      assert idom[..] == t.idom[bb := Some(pred)];
    }

    /** A sweep that started from `t0` has come to place `k` of the list. */
    ghost predicate Sweeping(t0: DomTree, k: nat, done: nat, changed: bool)
      requires Valid()
      reads this, rpo, rpoNext, idom
    {
      && Ordered(g, entry, rpo[..], list) && t0.Valid() && |t0.idom| == |g|
      && 1 <= k <= |list| && k <= done && (done == k || done == |list|)
      && Processed(Tree(), list, done) && Invariant(g, Tree(), k + 1)
      && if changed then Weight(Tree(), |g|) < Weight(t0, |g|) else Tree() == t0 && SettledUpTo(g, Tree(), list, k)
    }

    /** One step, and what it does to the sweep. */
    method SweepTurn(bb: nat, ghost t0: DomTree, ghost k: nat, ghost done: nat, changed0: bool) returns (changed: bool)
      requires Valid() && Sweeping(t0, k, done, changed0) && k < |list| && bb == list[k]
      modifies idom
      ensures Valid() && Sweeping(t0, k + 1, if done == k then k + 1 else done, changed)
    {
      hide DomTree.Chain, DomTree.Valid, Nearest, HasForwardPred;
      var moved := SweepBlock(bb, k, done);
      if !changed0 && !moved {
        SettledNext(g, Tree(), list, k);
      }
      changed := changed0 || moved;
    }

    /** One sweep of `build_idom` over the whole list. */
    method Sweep(ghost done0: nat) returns (changed: bool, ghost done: nat)
      requires Valid() && Ordered(g, entry, rpo[..], list)
      requires Processed(Tree(), list, done0) && (done0 == 1 || done0 == |list|) && Invariant(g, Tree(), 2)
      modifies idom
      ensures Valid() && Processed(Tree(), list, done) && done == |list| && Invariant(g, Tree(), 2)
      ensures if changed then Weight(Tree(), |g|) < Weight(old(Tree()), |g|)
        else Tree() == old(Tree()) && Fixpoint(g, Tree())
    {
      ghost var t0 := Tree();
      changed, done := false, done0;
      assert list[0] == entry && Sweeping(t0, 1, done0, false);
      var bb := rpoNext[entry];
      ghost var k := 1;
      hide Sweeping, Fixpoint, Weight, Invariant, Processed, Ordered;
      while bb.Some?
        invariant 1 <= k <= |list| && bb == (if k < |list| then Some(list[k]) else None)
        invariant Valid() && Sweeping(t0, k, done, changed)
        decreases |list| - k
      {
        assert rpoNext[list[k]] == if k + 1 < |list| then Some(list[k + 1]) else None;
        changed := SweepTurn(bb.value, t0, k, done, changed);
        done := if done == k then k + 1 else done;
        bb := rpoNext[bb.value];
        k := k + 1;
      }
      SweepEnds(t0, done, changed);
    }

    lemma SweepEnds(t0: DomTree, done: nat, changed: bool)
      requires Valid() && Sweeping(t0, |list|, done, changed)
      ensures Processed(Tree(), list, done) && done == |list| && Invariant(g, Tree(), 2)
      ensures if changed then Weight(Tree(), |g|) < Weight(t0, |g|) else Tree() == t0 && Fixpoint(g, Tree())
    {
      if !changed {
        SettledIsFixpoint(g, Tree(), list, done);
      }
      PassEnds(g, Tree(), list, done);
    }

    /** `build_idom`: sweeps over the list until nothing changes. */
    method BuildIdom()
      requires Valid() && Numbered(g, entry, rpo[..], list)
      requires forall b: nat :: b < |g| ==> idom[b] == None
      modifies idom
      ensures Valid() && Tree().Valid() && ChainsAreDominators(g, Tree())
      ensures forall b: nat :: b < |g| ==> (idom[b].Some? <==> Reaches(g, entry, b))
    {
      idom[entry] := Some(entry);
      ghost var done := 1; // the first `done` blocks of the list are processed
      var changed := true;
      FirstTree(g, Tree(), list);
      while changed
        invariant Processed(Tree(), list, done) && (done == 1 || done == |list|) && Invariant(g, Tree(), 2)
        invariant !changed ==> done == |list| && Fixpoint(g, Tree())
        decreases Weight(Tree(), |g|), changed
      {
        changed, done := Sweep(done);
      }
      AllDone(g, Tree(), list);
      FixpointIsDominators(g, Tree());
    }

    /** `build_df`. The last precondition is the capacity of the `DF` arrays; the one before it
        keeps the climb from running off the top at a predecessor without a dominator. */
    method BuildDf()
      requires Valid() && SeenExactly(region) && region == Elems(Visit(g, entry, {}))
      requires Tree().Valid() && ChainsAreDominators(g, Tree())
      requires forall b: nat :: b < |g| ==> df[b] == []
      requires forall p: nat, y: nat :: Edge(g, p, y) && Reaches(g, entry, y) ==> Reaches(g, entry, p)
      requires forall x: nat :: x < |g| ==> |Run(g, FillDf, State(), Visit(g, entry, {})).df[x]| <= MAX_DF
      modifies this, visited, rpo, rpoNext, df
      ensures Valid() && SeenExactly(region) && Tree() == old(Tree()) && list == old(list)
      ensures Filled(g, Tree(), df[..])
    {
      hide Dfs.Visit, Passes.Run, Passes.Fits, Frontier.Filled, Dominators.ChainsAreDominators;
      PassIsReachable();
      FillPlan(g, State(), Visit(g, entry, {}));
      OnePass(FillDf);
    }

    lemma PassIsReachable()
      requires Shaped()
      ensures forall b: nat :: b in Visit(g, entry, {}) <==> Reaches(g, entry, b)
    {
      forall b: nat ensures b in Visit(g, entry, {}) <==> Reaches(g, entry, b) {
        PassCoversReachable(g, entry, b);
      }
    }
  }
}
