/** Dominance frontiers (src/ssa.c): what `bb_build_df` leaves in the DF arrays. */
module Frontier {
  import opened Cfg
  import opened Options
  import opened Dfs
  import opened Dominators
  import opened Passes

  /** `x` dominates a predecessor of `y` but does not strictly dominate `y`. */
  ghost predicate InFrontier(g: Graph, entry: nat, x: nat, y: nat)
  {
    && (exists p: nat :: Edge(g, p, y) && Reaches(g, entry, p) && Dominates(g, entry, x, p))
    && !(Dominates(g, entry, x, y) && x != y)
  }

  /** The same in terms of chains, as `bb_build_df` climbs them. */
  ghost predicate Climbed(g: Graph, t: DomTree, x: nat, y: nat)
    requires t.Valid() && |g| == |t.idom| && t.Done(y)
  {
    exists p: nat :: Edge(g, p, y) && t.Done(p) && x in t.Chain(p) && x !in t.Chain(t.Up(y))
  }

  lemma {:induction false} ClimbAdds(t: DomTree, stop: nat, cur: nat, b: nat, df: seq<seq<nat>>, x: nat, y: nat)
    requires t.Valid() && t.Done(cur) && stop in t.Chain(cur) && |df| == |t.idom| && x < |df|
    ensures y in Climb(t, stop, cur, b, df)[x] <==>
      y in df[x] || (y == b && x in t.Chain(cur) && x !in t.Chain(stop))
    decreases t.rpo[cur]
  {
    if cur != stop {
      ClimbAdds(t, stop, t.Up(cur), b, df[cur := df[cur] + [b]], x, y);
    }
  }

  ghost predicate FromSlots(t: DomTree, stop: nat, preds: seq<Option<nat>>, x: nat)
    requires ClimbReady(t, stop, preds) && t.Done(stop)
  {
    preds != [] &&
    (FromSlots(t, stop, preds[..|preds| - 1], x) ||
     (preds[|preds| - 1].Some? && x in t.Chain(preds[|preds| - 1].value) && x !in t.Chain(stop)))
  }

  ghost predicate FromSlot(t: DomTree, stop: nat, preds: seq<Option<nat>>, x: nat, i: int)
    requires ClimbReady(t, stop, preds) && t.Done(stop)
  {
    0 <= i < |preds| && preds[i].Some? && x in t.Chain(preds[i].value) && x !in t.Chain(stop)
  }

  lemma {:induction false} FromSlotsIntro(t: DomTree, stop: nat, preds: seq<Option<nat>>, x: nat, i: int)
    requires ClimbReady(t, stop, preds) && t.Done(stop) && FromSlot(t, stop, preds, x, i)
    ensures FromSlots(t, stop, preds, x)
  {
    if i < |preds| - 1 {
      FromSlotsIntro(t, stop, preds[..|preds| - 1], x, i);
    }
  }

  lemma {:induction false} FromSlotsElim(t: DomTree, stop: nat, preds: seq<Option<nat>>, x: nat) returns (i: int)
    requires ClimbReady(t, stop, preds) && t.Done(stop) && FromSlots(t, stop, preds, x)
    ensures FromSlot(t, stop, preds, x, i)
  {
    if FromSlots(t, stop, preds[..|preds| - 1], x) {
      i := FromSlotsElim(t, stop, preds[..|preds| - 1], x);
    } else {
      i := |preds| - 1;
    }
  }

  lemma {:induction false} ClimbAllAdds(t: DomTree, stop: nat, preds: seq<Option<nat>>, b: nat, df: seq<seq<nat>>,
                                        x: nat, y: nat)
    requires ClimbReady(t, stop, preds) && t.Done(stop) && |df| == |t.idom| && x < |df|
    ensures y in ClimbAll(t, stop, preds, b, df)[x] <==> y in df[x] || (y == b && FromSlots(t, stop, preds, x))
  {
    if preds != [] {
      var init := preds[..|preds| - 1];
      ClimbAllAdds(t, stop, init, b, df, x, y);
      if preds[|preds| - 1].Some? {
        ClimbAdds(t, stop, preds[|preds| - 1].value, b, ClimbAll(t, stop, init, b, df), x, y);
      }
    }
  }

  lemma SlotsAreClimbed(g: Graph, s: Snap, b: nat, x: nat)
    requires WellFormed(g) && FrontierReady(g, s, b) && TreeOf(s).Done(TreeOf(s).Up(b))
    ensures FromSlots(TreeOf(s), s.idom[b].value, g[b].prev, x) <==> Climbed(g, TreeOf(s), x, b)
  {
    var t, prev := TreeOf(s), g[b].prev;
    if Climbed(g, t, x, b) {
      var p: nat :| Edge(g, p, b) && t.Done(p) && x in t.Chain(p) && x !in t.Chain(t.Up(b));
      assert Some(p) in prev;
      var i :| 0 <= i < |prev| && prev[i] == Some(p);
      assert FromSlot(t, s.idom[b].value, prev, x, i);
      FromSlotsIntro(t, s.idom[b].value, prev, x, i);
    }
    if FromSlots(t, s.idom[b].value, prev, x) {
      var i := FromSlotsElim(t, s.idom[b].value, prev, x);
      assert Edge(g, prev[i].value, b);
    }
  }

  ghost predicate AllReady(g: Graph, s: Snap, order: seq<nat>)
  {
    && WellFormed(g) && Sized(g, s) && InGraph(g, order)
    && (forall i :: 0 <= i < |order| ==> FrontierReady(g, s, order[i]) && TreeOf(s).Done(TreeOf(s).Up(order[i])))
  }

  /** A pass over `order` adds to each frontier exactly the blocks whose predecessors' chains
      run through it below their own immediate dominator. */
  lemma {:induction false} FillPass(g: Graph, s: Snap, order: seq<nat>, x: nat, y: nat)
    requires AllReady(g, s, order) && x < |g|
    ensures var r := Run(g, FillDf, s, order);
      && r == s.(df := r.df)
      && (y in r.df[x] <==> y in s.df[x] || (y in order && Climbed(g, TreeOf(s), x, y)))
  {
    if order != [] {
      var init, b := order[..|order| - 1], order[|order| - 1];
      FillPass(g, s, init, x, y);
      hide ClimbAll, FromSlots, Climbed, WellFormed;
      var r := Run(g, FillDf, s, init);
      assert TreeOf(r) == TreeOf(s) && FrontierReady(g, s, b);
      ClimbAllAdds(TreeOf(s), s.idom[b].value, g[b].prev, b, r.df, x, y);
      SlotsAreClimbed(g, s, b, x);
    }
  }

  lemma {:induction false} FillGrows(g: Graph, s: Snap, order: seq<nat>, k: nat)
    requires AllReady(g, s, order) && k <= |order|
    ensures NoShorter(Run(g, FillDf, s, order[..k]).df, Run(g, FillDf, s, order).df)
    ensures Run(g, FillDf, s, order) == s.(df := Run(g, FillDf, s, order).df)
  {
    if k == |order| {
      assert order[..k] == order;
      if k > 0 {
        FillGrows(g, s, order[..k - 1], k - 1);
      }
    } else {
      var init, b := order[..|order| - 1], order[|order| - 1];
      FillGrows(g, s, init, k);
      assert init[..k] == order[..k];
      var r := Run(g, FillDf, s, init);
      assert TreeOf(r) == TreeOf(s) && g[b].prev[..0] == [];
      assert FrontierReady(g, s, b);
      ClimbGrows(TreeOf(r), r.idom[b].value, g[b].prev, 0, b, r.df);
    }
  }

  /** If no frontier outgrows its array at the end, none does on the way. */
  lemma {:induction false} FillFits(g: Graph, s: Snap, order: seq<nat>, k: nat)
    requires AllReady(g, s, order) && k <= |order|
    requires forall x: nat :: x < |g| ==> |Run(g, FillDf, s, order).df[x]| <= MAX_DF
    ensures Fits(g, FillDf, s, order[..k])
  {
    if k > 0 {
      FillFits(g, s, order, k - 1);
      assert order[..k][..k - 1] == order[..k - 1];
      FillGrows(g, s, order, k);
      FillGrows(g, s, order[..k - 1], k - 1);
      assert FrontierReady(g, s, order[k - 1]);
    }
  }

  /** At the fixpoint of `build_idom`, when every predecessor is reachable, all climbs end. */
  lemma DominatorsReady(g: Graph, s: Snap, order: seq<nat>)
    requires WellFormed(g) && Sized(g, s) && InGraph(g, order) && TreeOf(s).Valid() && ChainsAreDominators(g, TreeOf(s))
    requires forall i :: 0 <= i < |order| ==> Reaches(g, s.list[0], order[i])
    requires forall p: nat, y: nat :: Edge(g, p, y) && Reaches(g, s.list[0], y) ==> Reaches(g, s.list[0], p)
    ensures AllReady(g, s, order)
  {
    var t := TreeOf(s);
    forall i | 0 <= i < |order| ensures FrontierReady(g, s, order[i]) && t.Done(t.Up(order[i])) {
      var y := order[i];
      assert t.Done(y);
      forall k | 0 <= k < |g[y].prev| && g[y].prev[k].Some?
        ensures t.Done(g[y].prev[k].value) && t.Up(y) in t.Chain(g[y].prev[k].value)
      {
        var p := g[y].prev[k].value;
        assert Edge(g, p, y);
        UpAbovePred(g, t, p, y);
      }
      if y == t.entry { assert t.Up(y) == y; }
    }
  }

  /** For every block but the entry, climbing meets the definition of the frontier. */
  lemma ClimbedIsFrontier(g: Graph, t: DomTree, x: nat, y: nat)
    requires WellFormed(g) && t.Valid() && |g| == |t.idom| && ChainsAreDominators(g, t)
    requires forall v: nat {:trigger t.Done(v)} :: t.Done(v) ==> Reaches(g, t.entry, v)
    requires t.Done(y) && y != t.entry
    ensures Climbed(g, t, x, y) <==> InFrontier(g, t.entry, x, y)
  {
    assert x in t.Chain(t.Up(y)) <==> x in t.Chain(y) && x != y;
    if Climbed(g, t, x, y) {
      var p: nat :| Edge(g, p, y) && t.Done(p) && x in t.Chain(p) && x !in t.Chain(t.Up(y));
      assert Reaches(g, t.entry, p);
    }
    if InFrontier(g, t.entry, x, y) {
      var p: nat :| Edge(g, p, y) && Reaches(g, t.entry, p) && Dominates(g, t.entry, x, p);
      assert t.Done(p) && x in t.Chain(p);
    }
  }

  /** For the entry the two agree for every `x` exactly when no edge leads back to it. */
  lemma EntryFrontier(g: Graph, t: DomTree)
    requires WellFormed(g) && t.Valid() && |g| == |t.idom| && ChainsAreDominators(g, t)
    requires forall v: nat {:trigger t.Done(v)} :: t.Done(v) ==> Reaches(g, t.entry, v)
    ensures (forall x: nat :: Climbed(g, t, x, t.entry) <==> InFrontier(g, t.entry, x, t.entry)) <==>
      !exists p: nat :: Edge(g, p, t.entry) && Reaches(g, t.entry, p)
  {
    var e := t.entry;
    assert t.Up(e) == e && t.Chain(e) == {e};
    if exists p: nat :: Edge(g, p, e) && Reaches(g, e, p) {
      var p: nat :| Edge(g, p, e) && Reaches(g, e, p);
      assert Dominates(g, e, e, p);
      assert InFrontier(g, e, e, e) && !Climbed(g, t, e, e);
    } else {
      assert forall x: nat :: !Climbed(g, t, x, e) && !InFrontier(g, e, x, e);
    }
  }

  /** A graph in which they differ: an entry that jumps to itself is in its own frontier, but the
      climb from the entry ends where it starts. */
  lemma EntryLoopMissed()
    ensures var g, t := [Block(Some(0), None, None, [Some(0)])], DomTree(0, [Some(0)], [1]);
            && WellFormed(g) && t.Valid() && |g| == |t.idom| && ChainsAreDominators(g, t) && t.Done(0)
            && InFrontier(g, 0, 0, 0) && !Climbed(g, t, 0, 0)
  {
    var g: Graph, t := [Block(Some(0), None, None, [Some(0)])], DomTree(0, [Some(0)], [1]);
    assert Some(0) in g[0].prev && WellFormed(g);
    assert t.Valid() && t.Chain(0) == {0};
    ReachesSelf(g, 0);
    forall v: nat | Reaches(g, 0, v) ensures t.Done(v) && forall a: nat :: a in t.Chain(v) <==> Dominates(g, 0, a, v) {
      var p :| PathBetween(g, p, 0, v);
      assert p[|p| - 1] < |g|;
      assert PathBetween(g, [0], 0, 0);
      assert forall q :: PathBetween(g, q, 0, 0) ==> q[0] == 0 && 0 in q;
    }
    EntryFrontier(g, t);
    assert Edge(g, 0, 0) && Dominates(g, 0, 0, 0);
  }

  /** Blocks entered into the frontiers by a whole pass. */
  ghost predicate Filled(g: Graph, t: DomTree, df: seq<seq<nat>>)
    requires t.Valid() && |g| == |t.idom|
  {
    |df| == |g| && forall x: nat, y: nat :: x < |g| ==>
      (y in df[x] <==> Reaches(g, t.entry, y) && t.Done(y) && Climbed(g, t, x, y))
  }

  /** The pass of `build_df` from empty frontiers. */
  lemma FillPlan(g: Graph, s: Snap, order: seq<nat>)
    requires WellFormed(g) && Sized(g, s) && InGraph(g, order) && TreeOf(s).Valid() && ChainsAreDominators(g, TreeOf(s))
    requires forall b: nat :: b in order <==> Reaches(g, s.list[0], b)
    requires forall p: nat, y: nat :: Edge(g, p, y) && Reaches(g, s.list[0], y) ==> Reaches(g, s.list[0], p)
    requires forall x: nat :: x < |g| ==> s.df[x] == []
    requires forall x: nat :: x < |g| ==> |Run(g, FillDf, s, order).df[x]| <= MAX_DF
    ensures Fits(g, FillDf, s, order)
    ensures var r := Run(g, FillDf, s, order); r == s.(df := r.df) && Filled(g, TreeOf(s), r.df)
  {
    hide Run, Fits, AllReady, Climbed, WellFormed, Reaches;
    forall i | 0 <= i < |order| ensures Reaches(g, s.list[0], order[i]) {
      assert order[i] in order;
    }
    DominatorsReady(g, s, order);
    FillFits(g, s, order, |order|);
    assert order[..|order|] == order;
    FillGrows(g, s, order, 0);
    var r, t := Run(g, FillDf, s, order), TreeOf(s);
    forall x: nat, y: nat | x < |g|
      ensures y in r.df[x] <==> Reaches(g, t.entry, y) && t.Done(y) && Climbed(g, t, x, y)
    {
      FillPass(g, s, order, x, y);
    }
  }
}
