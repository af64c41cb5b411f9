/** The theory behind `intersect` and `build_idom` (src/ssa.c): chains of immediate
    dominators under construction, and what every update of one of them keeps. */
module Dominators {
  import opened Cfg
  import opened Options

  /** `idom[v]` is None while block `v` has not been processed. */
  datatype DomTree = DomTree(entry: nat, idom: seq<Option<nat>>, rpo: seq<int>) {

    ghost predicate Done(v: nat) {
      v < |idom| && idom[v].Some?
    }

    ghost function Up(v: nat): nat {
      if Done(v) then idom[v].value else 0
    }

    /** Following `idom` strictly lowers the reverse-postorder number. */
    ghost predicate Valid() {
      && |idom| == |rpo|
      && entry < |idom| && idom[entry] == Some(entry)
      && (forall v: nat :: Done(v) ==> rpo[v] >= 0)
      && (forall v: nat {:trigger Up(v)} :: Done(v) && v != entry ==> Done(Up(v)) && rpo[Up(v)] < rpo[v])
      && (forall u: nat, v: nat :: Done(u) && Done(v) && rpo[u] == rpo[v] ==> u == v)
    }

    /** `v` and everything above it. */
    ghost function Chain(v: nat): (r: set<nat>)
      requires Valid() && Done(v)
      ensures v in r && entry in r
      ensures forall a: nat :: a in r ==> Done(a) && rpo[a] <= rpo[v]
      decreases rpo[v]
    {
      if v == entry then {v} else {v} + Chain(Up(v))
    }

    ghost function Set(b: nat, y: nat): DomTree
      requires b < |idom|
    {
      this.(idom := idom[b := Some(y)])
    }
  }

  lemma {:induction false} ChainTransitive(t: DomTree, a: nat, v: nat)
    requires t.Valid() && t.Done(v) && a in t.Chain(v)
    ensures t.Chain(a) <= t.Chain(v)
    decreases t.rpo[v]
  {
    if a != v {
      ChainTransitive(t, a, t.Up(v));
    }
  }

  /** Two blocks above the same block are comparable. */
  lemma {:induction false} ChainLinear(t: DomTree, a: nat, b: nat, v: nat)
    requires t.Valid() && t.Done(v) && a in t.Chain(v) && b in t.Chain(v) && t.rpo[a] <= t.rpo[b]
    ensures a in t.Chain(b)
    decreases t.rpo[v]
  {
    if b != v && a != v {
      ChainLinear(t, a, b, t.Up(v));
    }
  }

  /** Blocks common to the chains of all processed predecessors of `v`. */
  ghost predicate CommonAbove(g: Graph, t: DomTree, z: nat, v: nat)
    requires t.Valid() && |g| == |t.idom|
  {
    forall p: nat :: Edge(g, p, v) && t.Done(p) ==> z in t.Chain(p)
  }

  /** `m` is the nearest common ancestor of the processed predecessors of `b`. */
  ghost predicate Nearest(g: Graph, t: DomTree, m: nat, b: nat)
    requires t.Valid() && |g| == |t.idom|
  {
    t.Done(m) && forall z: nat :: CommonAbove(g, t, z, b) <==> z in t.Chain(m)
  }

  ghost predicate AboveSlot(t: DomTree, slot: Option<nat>, z: nat)
    requires t.Valid()
  {
    slot.Some? && t.Done(slot.value) ==> z in t.Chain(slot.value)
  }

  /** `z` is above the processed blocks among the first `i` predecessor slots. */
  ghost predicate AboveSlots(t: DomTree, prev: seq<Option<nat>>, i: nat, z: nat)
    requires t.Valid() && i <= |prev|
  {
    i == 0 || (AboveSlots(t, prev, i - 1, z) && AboveSlot(t, prev[i - 1], z))
  }

  lemma {:induction false} AboveEach(t: DomTree, prev: seq<Option<nat>>, i: nat, z: nat)
    requires t.Valid() && i <= |prev|
    ensures AboveSlots(t, prev, i, z) <==> forall k :: 0 <= k < i ==> AboveSlot(t, prev[k], z)
  {
    if i > 0 {
      AboveEach(t, prev, i - 1, z);
    }
  }

  lemma SlotsAreEdges(g: Graph, t: DomTree, b: nat, z: nat)
    requires WellFormed(g) && t.Valid() && |g| == |t.idom| && b < |g|
    ensures AboveSlots(t, g[b].prev, |g[b].prev|, z) <==> CommonAbove(g, t, z, b)
  {
    AboveEach(t, g[b].prev, |g[b].prev|, z);
    if AboveSlots(t, g[b].prev, |g[b].prev|, z) {
      forall p: nat | Edge(g, p, b) && t.Done(p) ensures z in t.Chain(p) {
        assert Some(p) in g[b].prev;
        var k :| 0 <= k < |g[b].prev| && g[b].prev[k] == Some(p);
        assert AboveSlot(t, g[b].prev[k], z);
      }
    }
  }

  lemma AtLeastOneSlot(g: Graph, t: DomTree, b: nat, m: nat, z: nat)
    requires WellFormed(g) && t.Valid() && |g| == |t.idom| && b < |g| && Edge(g, m, b) && t.Done(m)
    ensures AboveSlots(t, g[b].prev, |g[b].prev|, z) ==> z in t.Chain(m)
  {
    SlotsAreEdges(g, t, b, z);
  }

  /** Being above all slots is being the nearest common ancestor, numbered below the block. */
  lemma NearestIsLower(g: Graph, t: DomTree, m: nat, b: nat)
    requires WellFormed(g) && t.Valid() && |g| == |t.idom| && b < |g| && t.Done(m)
    requires forall z: nat :: z in t.Chain(m) <==> AboveSlots(t, g[b].prev, |g[b].prev|, z)
    requires HasForwardPred(g, t, b)
    ensures Nearest(g, t, m, b) && t.rpo[m] < t.rpo[b]
  {
    var p: nat :| ForwardEdge(g, t, p, b) && t.Done(p);
    assert m in t.Chain(m);
    SlotsAreEdges(g, t, b, m);
    assert m in t.Chain(p);
    forall z: nat ensures CommonAbove(g, t, z, b) <==> z in t.Chain(m) {
      SlotsAreEdges(g, t, b, z);
    }
  }

  ghost predicate ForwardEdge(g: Graph, t: DomTree, p: nat, v: nat)
    requires |g| == |t.rpo|
  {
    Edge(g, p, v) && v < |g| && t.rpo[p] < t.rpo[v]
  }

  /** A path from `b` to `v` through blocks numbered at least `rpo[b]`. */
  ghost predicate HighPath(g: Graph, rpo: seq<int>, p: seq<nat>, b: nat, v: nat)
    requires |g| == |rpo| && b < |g|
  {
    PathBetween(g, p, b, v) && forall i :: 0 <= i < |p| ==> rpo[p[i]] >= rpo[b]
  }

  ghost predicate HighReach(g: Graph, rpo: seq<int>, b: nat, v: nat)
    requires |g| == |rpo| && b < |g|
  {
    exists p :: HighPath(g, rpo, p, b, v)
  }

  /** Recomputing any processed block can only move its immediate dominator upwards. */
  ghost predicate Descending(g: Graph, t: DomTree)
    requires t.Valid() && |g| == |t.idom|
  {
    forall v: nat, z: nat :: t.Done(v) && v != t.entry && CommonAbove(g, t, z, v) ==> z in t.Chain(t.Up(v))
  }

  /** Every true dominator of a processed block is on its chain. */
  ghost predicate Complete(g: Graph, t: DomTree)
    requires t.Valid() && |g| == |t.idom|
  {
    forall v: nat, a: nat :: t.Done(v) && Dominates(g, t.entry, a, v) ==> a in t.Chain(v)
  }

  ghost predicate Explained(g: Graph, t: DomTree)
    requires t.Valid() && |g| == |t.idom|
  {
    forall v: nat {:trigger t.Up(v)} :: t.Done(v) ==> t.Done(t.Up(v)) && HighReach(g, t.rpo, t.Up(v), v)
  }

  /** `k` is the number of the next block of the pass. Blocks before it agree with their
      forward predecessors; blocks from it on still agree with them from number `k` up. */
  ghost predicate Swept(g: Graph, t: DomTree, k: int)
    requires t.Valid() && |g| == |t.idom|
  {
    forall p: nat, v: nat :: t.Done(v) && v != t.entry && ForwardEdge(g, t, p, v) && t.Done(p) ==>
      if t.rpo[v] < k then t.Up(v) in t.Chain(p)
      else forall u: nat :: u in t.Chain(t.Up(v)) && t.rpo[u] >= k ==> u in t.Chain(p)
  }

  ghost predicate HasForwardPred(g: Graph, t: DomTree, v: nat)
    requires |g| == |t.idom| == |t.rpo|
  {
    exists p: nat :: ForwardEdge(g, t, p, v) && t.Done(p)
  }

  /** Every processed block but the entry has a processed predecessor with a smaller number. */
  ghost predicate Grounded(g: Graph, t: DomTree)
    requires |g| == |t.idom| == |t.rpo|
  {
    forall v: nat {:trigger HasForwardPred(g, t, v)} :: t.Done(v) && v != t.entry ==> HasForwardPred(g, t, v)
  }

  ghost predicate Invariant(g: Graph, t: DomTree, k: int)
  {
    && WellFormed(g) && t.Valid() && |g| == |t.idom|
    && Descending(g, t) && Complete(g, t) && Explained(g, t) && Swept(g, t, k) && Grounded(g, t)
  }

  // ---- one update: idom[b] := y -------------------------------------------------

  /** `y` may become the immediate dominator of `b`. */
  ghost predicate Attachable(t: DomTree, b: nat, y: nat)
  {
    && t.Valid() && b < |t.idom| && b != t.entry && t.Done(y) && t.rpo[y] < t.rpo[b]
    && (forall v: nat :: t.Done(v) && t.rpo[v] == t.rpo[b] ==> v == b)
  }

  lemma SetValid(t: DomTree, b: nat, y: nat)
    requires Attachable(t, b, y)
    ensures t.Set(b, y).Valid()
  {
    var t2 := t.Set(b, y);
    forall v: nat | t2.Done(v) && v != t2.entry ensures t2.Done(t2.Up(v)) && t2.rpo[t2.Up(v)] < t2.rpo[v] {
      if v != b {
        assert t2.Up(v) == t.Up(v);
      }
    }
  }

  /** A chain that does not run through `b` stays as it is. */
  lemma {:induction false} SetAside(t: DomTree, b: nat, y: nat, v: nat)
    requires Attachable(t, b, y) && t.Set(b, y).Valid() && t.Done(v)
    requires v != b && (t.Done(b) ==> b !in t.Chain(v))
    ensures t.Set(b, y).Chain(v) == t.Chain(v)
    decreases t.rpo[v]
  {
    var t2 := t.Set(b, y);
    if v != t.entry {
      assert t2.Up(v) == t.Up(v);
      SetAside(t, b, y, t.Up(v));
    }
  }

  lemma SetHere(t: DomTree, b: nat, y: nat)
    requires Attachable(t, b, y) && t.Set(b, y).Valid()
    ensures t.Set(b, y).Chain(y) == t.Chain(y)
    ensures t.Set(b, y).Chain(b) == {b} + t.Chain(y)
  {
    SetAside(t, b, y, y);
    assert t.Set(b, y).Up(b) == y;
  }

  /** A chain through `b` keeps the part from `b` down and continues with the chain of `y`. */
  lemma {:induction false} SetThrough(t: DomTree, b: nat, y: nat, v: nat, z: nat)
    requires Attachable(t, b, y) && t.Set(b, y).Valid() && t.Done(b) && t.Done(v) && b in t.Chain(v)
    ensures z in t.Set(b, y).Chain(v) <==> (z in t.Chain(v) && b in t.Chain(z)) || z in t.Chain(y)
    decreases t.rpo[v]
  {
    var t2 := t.Set(b, y);
    if v == b {
      SetHere(t, b, y);
    } else {
      assert t2.Up(v) == t.Up(v);
      SetThrough(t, b, y, t.Up(v), z);
      if z == v {
        ChainTransitive(t, b, v);
      }
    }
  }

  // ---- what the update keeps -----------------------------------------------------

  /** What `build_idom` knows when it stores `y` as the immediate dominator of `b`. */
  ghost predicate Updatable(g: Graph, t: DomTree, b: nat, y: nat)
  {
    && Attachable(t, b, y) && Invariant(g, t, t.rpo[b])
    && Nearest(g, t, y, b)
    && (!t.Done(b) ==> forall v: nat :: t.Done(v) ==> t.rpo[v] < t.rpo[b])
    && HasForwardPred(g, t, b)
  }

  lemma AboveAllPreds(g: Graph, t: DomTree, b: nat, y: nat, p: nat)
    requires Updatable(g, t, b, y) && Edge(g, p, b) && t.Done(p)
    ensures y in t.Chain(p)
  {
    assert y in t.Chain(y);
    assert CommonAbove(g, t, y, b);
  }

  /** The new immediate dominator is on the old chain. */
  lemma MovesUp(g: Graph, t: DomTree, b: nat, y: nat)
    requires Updatable(g, t, b, y) && t.Done(b)
    ensures y in t.Chain(t.Up(b)) && t.Chain(y) <= t.Chain(b)
  {
    assert y in t.Chain(y);
    assert CommonAbove(g, t, y, b);
    ChainTransitive(t, y, t.Up(b));
  }

  /** No chain gains a block. */
  lemma Shrinks(g: Graph, t: DomTree, b: nat, y: nat, v: nat)
    requires Updatable(g, t, b, y) && t.Set(b, y).Valid() && t.Done(v)
    ensures t.Set(b, y).Chain(v) <= t.Chain(v)
  {
    if !t.Done(b) || b !in t.Chain(v) {
      SetAside(t, b, y, v);
    } else {
      MovesUp(g, t, b, y);
      ChainTransitive(t, b, v);
      forall z: nat | z in t.Set(b, y).Chain(v) ensures z in t.Chain(v) {
        SetThrough(t, b, y, v, z);
      }
    }
  }

  lemma KeepsDescendingAt(g: Graph, t: DomTree, b: nat, y: nat, v: nat, z: nat)
    requires Updatable(g, t, b, y) && t.Set(b, y).Valid()
    requires v != b && v != t.entry && t.Done(v) && z in t.Chain(t.Up(v))
    requires CommonAbove(g, t.Set(b, y), z, v)
    ensures z in t.Set(b, y).Chain(t.Up(v))
  {
    var t2, u := t.Set(b, y), t.Up(v);
    if t.Done(b) && b in t.Chain(u) {
      assert HasForwardPred(g, t, v);
      var p: nat :| ForwardEdge(g, t, p, v) && t.Done(p);
      assert b in t.Chain(p);
      assert t2.Done(p);
      SetThrough(t, b, y, p, z);
      SetThrough(t, b, y, u, z);
    } else {
      assert u != b;
      SetAside(t, b, y, u);
    }
  }

  lemma CommonBefore(g: Graph, t: DomTree, b: nat, y: nat, v: nat, z: nat)
    requires Updatable(g, t, b, y) && t.Set(b, y).Valid()
    requires CommonAbove(g, t.Set(b, y), z, v)
    ensures CommonAbove(g, t, z, v)
  {
    hide Descending, Complete, Explained, Swept, Grounded, WellFormed, Nearest, HasForwardPred;
    forall p: nat | Edge(g, p, v) && t.Done(p) ensures z in t.Chain(p) {
      assert t.Set(b, y).Done(p);
      Shrinks(g, t, b, y, p);
    }
  }

  lemma KeepsDescending(g: Graph, t: DomTree, b: nat, y: nat)
    requires Updatable(g, t, b, y) && t.Set(b, y).Valid()
    ensures Descending(g, t.Set(b, y))
  {
    var t2 := t.Set(b, y);
    SetHere(t, b, y);
    forall v: nat, z: nat | t2.Done(v) && v != t2.entry && CommonAbove(g, t2, z, v)
      ensures z in t2.Chain(t2.Up(v))
    {
      CommonBefore(g, t, b, y, v, z);
      if v != b {
        assert t2.Up(v) == t.Up(v);
        KeepsDescendingAt(g, t, b, y, v, z);
      }
    }
  }

  lemma KeepsSwept(g: Graph, t: DomTree, b: nat, y: nat)
    requires Updatable(g, t, b, y) && t.Set(b, y).Valid()
    ensures Swept(g, t.Set(b, y), t.rpo[b] + 1)
  {
    var t2, k := t.Set(b, y), t.rpo[b];
    forall p: nat, v: nat | t2.Done(v) && v != t2.entry && ForwardEdge(g, t2, p, v) && t2.Done(p)
      ensures if t2.rpo[v] < k + 1 then t2.Up(v) in t2.Chain(p)
        else forall u: nat :: u in t2.Chain(t2.Up(v)) && t2.rpo[u] >= k + 1 ==> u in t2.Chain(p)
    {
      assert ForwardEdge(g, t, p, v);
      if v == b {
        AboveAllPreds(g, t, b, y, p);
        SetAside(t, b, y, p);
      } else if t.rpo[v] <= k {
        assert t.Done(v) && t.Done(p);
        SetAside(t, b, y, p);
        assert t2.Up(v) == t.Up(v);
      } else {
        assert t2.Up(v) == t.Up(v);
        forall u: nat | u in t2.Chain(t2.Up(v)) && t2.rpo[u] >= k + 1 ensures u in t2.Chain(p) {
          Shrinks(g, t, b, y, t.Up(v));
          assert u in t.Chain(p);
          if b in t.Chain(p) {
            ChainLinear(t, b, u, p);
            SetThrough(t, b, y, p, u);
          } else {
            SetAside(t, b, y, p);
          }
        }
      }
    }
  }

  /** Chains consist of high paths. */
  lemma {:induction false} ChainHigh(g: Graph, t: DomTree, b: nat, v: nat)
    requires WellFormed(g) && t.Valid() && |g| == |t.idom| && Explained(g, t) && t.Done(v) && b in t.Chain(v)
    ensures HighReach(g, t.rpo, b, v)
    decreases t.rpo[v]
  {
    if b == v {
      assert HighPath(g, t.rpo, [v], v, v);
    } else {
      var u := t.Up(v);
      ChainHigh(g, t, b, u);
      var p :| HighPath(g, t.rpo, p, b, u);
      assert HighReach(g, t.rpo, u, v);
      var q :| HighPath(g, t.rpo, q, u, v);
      JoinPaths(g, p, q, b, u, v);
      assert HighPath(g, t.rpo, p + q[1..], b, v);
    }
  }

  lemma ExtendHigh(g: Graph, rpo: seq<int>, a: nat, p: nat, b: nat)
    requires WellFormed(g) && |g| == |rpo| && a < |g| && b < |g|
    requires HighReach(g, rpo, a, p) && Edge(g, p, b) && rpo[b] >= rpo[a]
    ensures HighReach(g, rpo, a, b)
  {
    var h :| HighPath(g, rpo, h, a, p);
    ExtendPath(g, h, a, p, b);
    assert HighPath(g, rpo, h + [b], a, b);
  }

  lemma NewHighReach(g: Graph, t: DomTree, b: nat, y: nat)
    requires Updatable(g, t, b, y)
    ensures HighReach(g, t.rpo, y, b)
  {
    var p: nat :| ForwardEdge(g, t, p, b) && t.Done(p);
    AboveAllPreds(g, t, b, y, p);
    ChainHigh(g, t, y, p);
    ExtendHigh(g, t.rpo, y, p, b);
  }

  lemma KeepsExplained(g: Graph, t: DomTree, b: nat, y: nat)
    requires Attachable(t, b, y) && t.Set(b, y).Valid() && |g| == |t.idom|
    requires Explained(g, t) && HighReach(g, t.rpo, y, b)
    ensures Explained(g, t.Set(b, y))
  {
    var t2 := t.Set(b, y);
    forall v: nat | t2.Done(v) ensures t2.Done(t2.Up(v)) && HighReach(g, t2.rpo, t2.Up(v), v) {
      if v != b {
        assert t2.Up(v) == t.Up(v);
      }
    }
  }

  lemma KeepsGrounded(g: Graph, t: DomTree, b: nat, y: nat)
    requires Attachable(t, b, y) && |g| == |t.idom| && Grounded(g, t) && HasForwardPred(g, t, b)
    ensures Grounded(g, t.Set(b, y))
  {
    var t2 := t.Set(b, y);
    forall v: nat | t2.Done(v) && v != t2.entry ensures HasForwardPred(g, t2, v) {
      assert HasForwardPred(g, t, v);
      var p: nat :| ForwardEdge(g, t, p, v) && t.Done(p);
      assert ForwardEdge(g, t2, p, v) && t2.Done(p);
    }
  }

  lemma DominatorsOfUpdated(g: Graph, t: DomTree, b: nat, y: nat, a: nat)
    requires Updatable(g, t, b, y) && Dominates(g, t.entry, a, b) && a != b
    ensures a in t.Chain(y)
  {
    forall p: nat | Edge(g, p, b) && t.Done(p) ensures a in t.Chain(p) {
      DominatesPred(g, t.entry, a, p, b);
    }
    assert CommonAbove(g, t, a, b);
  }

  /** A dominator of `v` numbered below an ancestor `b` of `v` dominates `b` too. */
  lemma DominatesAncestor(g: Graph, t: DomTree, a: nat, b: nat, v: nat)
    requires WellFormed(g) && t.Valid() && |g| == |t.idom| && Explained(g, t) && t.Done(v) && b in t.Chain(v)
    requires Dominates(g, t.entry, a, v) && a < |g| && t.rpo[a] < t.rpo[b]
    ensures Dominates(g, t.entry, a, b)
  {
    ChainHigh(g, t, b, v);
    var h :| HighPath(g, t.rpo, h, b, v);
    forall q | PathBetween(g, q, t.entry, b) ensures a in q {
      JoinPaths(g, q, h, t.entry, b, v);
      assert a in q + h[1..];
    }
  }

  lemma KeepsComplete(g: Graph, t: DomTree, b: nat, y: nat)
    requires Updatable(g, t, b, y) && t.Set(b, y).Valid()
    ensures Complete(g, t.Set(b, y))
  {
    var t2 := t.Set(b, y);
    forall v: nat, a: nat | t2.Done(v) && Dominates(g, t2.entry, a, v) ensures a in t2.Chain(v) {
      if v == b {
        SetHere(t, b, y);
        if a != b { DominatorsOfUpdated(g, t, b, y, a); }
      } else if !t.Done(b) || b !in t.Chain(v) {
        SetAside(t, b, y, v);
      } else {
        assert a in t.Chain(v);
        SetThrough(t, b, y, v, a);
        if t.rpo[b] <= t.rpo[a] {
          ChainLinear(t, b, a, v);
        } else {
          DominatesAncestor(g, t, a, b, v);
          DominatorsOfUpdated(g, t, b, y, a);
        }
      }
    }
  }

  /** One store of `build_idom` keeps the whole invariant and lets the pass advance. */
  lemma UpdateKeepsInvariant(g: Graph, t: DomTree, b: nat, y: nat)
    requires Updatable(g, t, b, y)
    ensures Invariant(g, t.Set(b, y), t.rpo[b] + 1)
  {
    var t2 := t.Set(b, y);
    SetValid(t, b, y);
    KeepsDescending(g, t, b, y);
    KeepsSwept(g, t, b, y);
    NewHighReach(g, t, b, y);
    KeepsExplained(g, t, b, y);
    KeepsComplete(g, t, b, y);
    KeepsGrounded(g, t, b, y);
  }

  // ---- starting a pass, skipping, and the fixpoint ---------------------------------

  /** The tree before the first pass: only the entry is processed. */
  lemma InitialInvariant(g: Graph, t: DomTree, k: int)
    requires WellFormed(g) && t.Valid() && |g| == |t.idom| && forall v: nat :: t.Done(v) ==> v == t.entry
    ensures Invariant(g, t, k)
  {
    assert t.Up(t.entry) == t.entry;
    assert HighPath(g, t.rpo, [t.entry], t.entry, t.entry);
    forall v: nat, a: nat | t.Done(v) && Dominates(g, t.entry, a, v) ensures a in t.Chain(v) {
      assert PathBetween(g, [t.entry], t.entry, t.entry);
    }
  }

  /** A pass that has gone past every processed block may start again from any number. */
  lemma NextPass(g: Graph, t: DomTree, k: int, k2: int)
    requires Invariant(g, t, k) && forall v: nat :: t.Done(v) ==> t.rpo[v] < k
    ensures Invariant(g, t, k2)
  {
    forall p: nat, v: nat | t.Done(v) && v != t.entry && ForwardEdge(g, t, p, v) && t.Done(p)
      ensures t.Chain(t.Up(v)) <= t.Chain(p) && t.Up(v) in t.Chain(p)
    {
      ChainTransitive(t, t.Up(v), p);
    }
  }

  /** At the fixpoint every block's immediate dominator is above all its predecessors. */
  ghost predicate Fixpoint(g: Graph, t: DomTree)
    requires t.Valid() && |g| == |t.idom|
  {
    forall p: nat, v: nat :: Edge(g, p, v) && t.Done(p) && t.Done(v) && v != t.entry ==> t.Up(v) in t.Chain(p)
  }

  /** At the fixpoint everything on a chain is on every path from the entry. */
  lemma {:induction false} ChainOnPath(g: Graph, t: DomTree, p: seq<nat>, k: nat, a: nat)
    requires WellFormed(g) && t.Valid() && |g| == |t.idom| && Fixpoint(g, t)
    requires IsPath(g, p) && p[0] == t.entry && k < |p|
    requires forall i :: 0 <= i < |p| ==> t.Done(p[i])
    requires a in t.Chain(p[k])
    ensures a in p[..k + 1]
    decreases k
  {
    if a == p[k] {
      assert p[..k + 1][k] == a;
    } else {
      assert p[k] != t.entry && k > 0;
      assert Edge(g, p[k - 1], p[k - 1 + 1]);
      ChainTransitive(t, t.Up(p[k]), p[k - 1]);
      ChainOnPath(g, t, p, k - 1, a);
      assert p[..k + 1][..k] == p[..k];
    }
  }

  /** The chain of every reachable block is exactly its set of dominators. */
  ghost predicate ChainsAreDominators(g: Graph, t: DomTree)
    requires t.Valid() && |g| == |t.idom|
  {
    forall v: nat :: Reaches(g, t.entry, v) ==>
      t.Done(v) && forall a: nat :: a in t.Chain(v) <==> Dominates(g, t.entry, a, v)
  }

  lemma OnEveryPath(g: Graph, t: DomTree, v: nat, a: nat)
    requires WellFormed(g) && t.Valid() && |g| == |t.idom| && Fixpoint(g, t)
    requires forall u: nat {:trigger t.Done(u)} :: Reaches(g, t.entry, u) ==> t.Done(u)
    requires t.Done(v) && a in t.Chain(v)
    ensures Dominates(g, t.entry, a, v)
  {
    forall p | PathBetween(g, p, t.entry, v) ensures a in p {
      forall i | 0 <= i < |p| ensures t.Done(p[i]) {
        PathPrefix(g, p, i);
        assert Reaches(g, t.entry, p[i]);
      }
      ChainOnPath(g, t, p, |p| - 1, a);
      assert p[..|p|] == p;
    }
  }

  lemma FixpointIsDominators(g: Graph, t: DomTree)
    requires WellFormed(g) && t.Valid() && |g| == |t.idom| && Complete(g, t) && Fixpoint(g, t)
    requires forall u: nat {:trigger t.Done(u)} :: Reaches(g, t.entry, u) ==> t.Done(u)
    ensures ChainsAreDominators(g, t)
  {
    forall v: nat | Reaches(g, t.entry, v)
      ensures t.Done(v) && forall a: nat :: a in t.Chain(v) <==> Dominates(g, t.entry, a, v)
    {
      assert t.Done(v);
      forall a: nat | a in t.Chain(v) ensures Dominates(g, t.entry, a, v) {
        OnEveryPath(g, t, v, a);
      }
    }
  }

  /** Sum over all blocks of the number of the immediate dominator; a block that is not
      processed counts more than any number. */
  ghost function Weight(t: DomTree, n: nat): (r: int)
    requires t.Valid() && n <= |t.idom|
    ensures r >= 0
  {
    if n == 0 then 0 else Weight(t, n - 1) + Height(t, n - 1)
  }

  ghost function Height(t: DomTree, v: nat): (r: int)
    requires t.Valid() && v < |t.idom|
    ensures r >= 0
  {
    if t.Done(v) then (if v == t.entry then 0 else t.rpo[t.Up(v)]) else Bound(t.rpo)
  }

  ghost function Bound(rpo: seq<int>): (r: int)
    ensures r >= 0 && forall v :: 0 <= v < |rpo| ==> rpo[v] < r
  {
    if rpo == [] then 0
    else
      var m := Bound(rpo[..|rpo| - 1]);
      if rpo[|rpo| - 1] < m then m else if rpo[|rpo| - 1] < 0 then 0 else rpo[|rpo| - 1] + 1
  }

  lemma {:induction false} WeightDrops(t: DomTree, t2: DomTree, b: nat, n: nat)
    requires t.Valid() && t2.Valid() && |t.idom| == |t2.idom| && n <= |t.idom| && b < |t.idom|
    requires forall v: nat :: v < |t.idom| && v != b ==> Height(t2, v) == Height(t, v)
    requires Height(t2, b) < Height(t, b)
    ensures b < n ==> Weight(t2, n) < Weight(t, n)
    ensures b >= n ==> Weight(t2, n) == Weight(t, n)
  {
    hide Height;
    if n > 0 {
      WeightDrops(t, t2, b, n - 1);
    }
  }

  lemma SetDrops(t: DomTree, b: nat, y: nat)
    requires Attachable(t, b, y) && t.Set(b, y).Valid()
    requires t.Done(b) ==> t.rpo[y] < t.rpo[t.Up(b)]
    ensures Weight(t.Set(b, y), |t.idom|) < Weight(t, |t.idom|)
  {
    var t2 := t.Set(b, y);
    assert t2.Up(b) == y;
    forall v: nat | v < |t.idom| && v != b ensures Height(t2, v) == Height(t, v) {
      assert t2.Up(v) == t.Up(v);
    }
    WeightDrops(t, t2, b, |t.idom|);
  }

  lemma MovesStrictlyUp(g: Graph, t: DomTree, b: nat, y: nat)
    requires Updatable(g, t, b, y) && t.Done(b) && y != t.Up(b)
    ensures t.rpo[y] < t.rpo[t.Up(b)]
  {
    MovesUp(g, t, b, y);
  }

  /** A store that changes the immediate dominator lowers the sum: `build_idom` terminates. */
  lemma UpdateDrops(g: Graph, t: DomTree, b: nat, y: nat)
    requires Updatable(g, t, b, y) && t.Set(b, y).Valid() && t.idom[b] != Some(y)
    ensures Weight(t.Set(b, y), |t.idom|) < Weight(t, |t.idom|)
  {
    if t.Done(b) {
      MovesStrictlyUp(g, t, b, y);
    }
    SetDrops(t, b, y);
  }

  /** The immediate dominator of a block is on the chain of each predecessor. */
  lemma UpAbovePred(g: Graph, t: DomTree, p: nat, y: nat)
    requires WellFormed(g) && t.Valid() && |g| == |t.idom| && ChainsAreDominators(g, t)
    requires Edge(g, p, y) && Reaches(g, t.entry, p)
    ensures t.Done(p) && t.Done(y) && t.Up(y) in t.Chain(p)
  {
    ReachesStep(g, t.entry, p, y);
    if y != t.entry {
      assert t.Up(y) in t.Chain(t.Up(y));
      assert t.Up(y) in t.Chain(y);
      DominatesPred(g, t.entry, t.Up(y), p, y);
    } else {
      assert t.Up(y) == t.entry;
    }
  }
}
