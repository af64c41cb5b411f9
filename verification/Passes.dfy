/** What the callbacks of the depth-first passes do to the numbering, the ordered block
    list and the dominance frontiers, as functions folded over the visiting order. */
module Passes {
  import opened Cfg
  import opened Options
  import opened Dfs
  import opened Dominators

  const MAX_DF := 64

  /** `postorder_cb` of `bb_traversal_args_t`. */
  datatype Callback = IndexRpo | ReverseIndex | LinkRpo | FillDf

  /** Block attributes of one function: `list` is the chain of `rpo_next` pointers from the
      entry, `cnt` is `bb_cnt`, `df[x]` is the used part of `DF`. */
  datatype Snap = Snap(rpo: seq<int>, list: seq<nat>, cnt: int, idom: seq<Option<nat>>, df: seq<seq<nat>>)

  /** Of the blocks in `region`, exactly those in `seen` carry the current visit count. */
  ghost predicate Counted(visited: seq<int>, current: int, region: set<nat>, seen: set<nat>)
  {
    forall b: nat :: b < |visited| && b in region ==> visited[b] == if b in seen then current else current - 1
  }

  ghost predicate Sized(g: Graph, s: Snap)
  {
    |s.rpo| == |s.idom| == |s.df| == |g| && |s.list| > 0 && forall i :: 0 <= i < |s.list| ==> s.list[i] < |g|
  }

  /** Sorted insertion after the head of the list. */
  ghost function InsertTail(tail: seq<nat>, rpo: seq<int>, b: nat): (r: seq<nat>)
    requires b < |rpo| && forall i :: 0 <= i < |tail| ==> tail[i] < |rpo|
    ensures forall i :: 0 <= i < |r| ==> r[i] < |rpo|
  {
    if tail == [] then [b]
    else if rpo[tail[0]] < rpo[b] then [tail[0]] + InsertTail(tail[1..], rpo, b)
    else [b] + tail
  }

  ghost function Insert(list: seq<nat>, rpo: seq<int>, b: nat): (r: seq<nat>)
    requires |list| > 0 && b < |rpo| && forall i :: 0 <= i < |list| ==> list[i] < |rpo|
    ensures |r| > 0 && r[0] == list[0] && forall i :: 0 <= i < |r| ==> r[i] < |rpo|
  {
    if list[0] == b then list else [list[0]] + InsertTail(list[1..], rpo, b)
  }

  lemma {:induction false} InsertTailAt(tail: seq<nat>, rpo: seq<int>, b: nat, k: nat)
    requires b < |rpo| && (forall i :: 0 <= i < |tail| ==> tail[i] < |rpo|) && k <= |tail|
    requires forall i :: 0 <= i < k ==> rpo[tail[i]] < rpo[b]
    requires k < |tail| ==> rpo[tail[k]] >= rpo[b]
    ensures InsertTail(tail, rpo, b) == tail[..k] + [b] + tail[k..]
  {
    if k > 0 {
      InsertTailAt(tail[1..], rpo, b, k - 1);
      assert [tail[0]] + tail[1..][..k - 1] == tail[..k];
    }
  }

  /** `list` is what following the `next` pointers from the entry yields. */
  ghost predicate LinkedList(g: Graph, entry: nat, next: seq<Option<nat>>, list: seq<nat>)
  {
    && |next| == |g| && |list| > 0 && list[0] == entry && NoDup(list) && InGraph(g, list)
    && (forall i {:trigger next[list[i]]} :: 0 <= i < |list| ==>
          next[list[i]] == if i + 1 < |list| then Some(list[i + 1]) else None)
    && (forall b: nat :: b < |g| && b !in list ==> next[b] == None)
  }

  function Splice(list: seq<nat>, b: nat, k: nat): (r: seq<nat>)
    requires k < |list|
    ensures |r| == |list| + 1
    ensures forall i :: 0 <= i < |r| ==> r[i] == if i <= k then list[i] else if i == k + 1 then b else list[i - 1]
  {
    list[..k + 1] + [b] + list[k + 1..]
  }

  lemma SplicePointers(g: Graph, entry: nat, next: seq<Option<nat>>, list: seq<nat>, b: nat, k: nat, i: nat)
    requires LinkedList(g, entry, next, list) && b < |g| && b !in list && k < |list| && i < |list| + 1
    ensures var list2, next2 := Splice(list, b, k), next[b := next[list[k]]][list[k] := Some(b)];
      next2[list2[i]] == if i + 1 < |list2| then Some(list2[i + 1]) else None
  {
    if i < k {
      assert next[list[i]] == Some(list[i + 1]);
    } else if i == k + 1 {
      assert next[list[k]] == if k + 1 < |list| then Some(list[k + 1]) else None;
    } else if i > k + 1 {
      assert next[list[i - 1]] == if i < |list| then Some(list[i]) else None;
    }
  }

  lemma SpliceLinked(g: Graph, entry: nat, next: seq<Option<nat>>, list: seq<nat>, b: nat, k: nat)
    requires LinkedList(g, entry, next, list) && b < |g| && b !in list && k < |list|
    ensures LinkedList(g, entry, next[b := next[list[k]]][list[k] := Some(b)], Splice(list, b, k))
  {
    var list2, next2 := Splice(list, b, k), next[b := next[list[k]]][list[k] := Some(b)];
    forall i | 0 <= i < |list2|
      ensures next2[list2[i]] == if i + 1 < |list2| then Some(list2[i + 1]) else None
    {
      SplicePointers(g, entry, next, list, b, k, i);
    }
    forall x: nat | x < |g| && x !in list2 ensures next2[x] == None {
      assert list2[k] == list[k] && list2[k + 1] == b;
      forall i | 0 <= i < |list| ensures list[i] != x {
        assert list[i] == if i <= k then list2[i] else list2[i + 1];
      }
      assert x !in list;
    }
  }

  /** Storing `b` between places `k` and `k + 1` is the sorted insertion. */
  lemma InsertLinked(g: Graph, entry: nat, next: seq<Option<nat>>, list: seq<nat>, rpo: seq<int>, b: nat, k: nat)
    requires LinkedList(g, entry, next, list) && |rpo| == |g| && b < |g| && b !in list && k < |list|
    requires forall i :: 1 <= i <= k ==> rpo[list[i]] < rpo[b]
    requires k + 1 < |list| ==> rpo[list[k + 1]] >= rpo[b]
    ensures LinkedList(g, entry, next[b := next[list[k]]][list[k] := Some(b)], Insert(list, rpo, b))
  {
    var tail := list[1..];
    InsertTailAt(tail, rpo, b, k);
    assert Splice(list, b, k) == [list[0]] + (tail[..k] + [b] + tail[k..]);
    SpliceLinked(g, entry, next, list, b, k);
  }

  /** Climbing from `cur` to `stop` appends `b` to every frontier passed. */
  ghost function Climb(t: DomTree, stop: nat, cur: nat, b: nat, df: seq<seq<nat>>): (r: seq<seq<nat>>)
    requires t.Valid() && t.Done(cur) && stop in t.Chain(cur) && |df| == |t.idom|
    ensures |r| == |df|
    decreases t.rpo[cur]
  {
    if cur == stop then df else Climb(t, stop, t.Up(cur), b, df[cur := df[cur] + [b]])
  }

  ghost predicate ClimbReady(t: DomTree, stop: nat, preds: seq<Option<nat>>)
  {
    t.Valid() && forall i :: 0 <= i < |preds| && preds[i].Some? ==>
      t.Done(preds[i].value) && stop in t.Chain(preds[i].value)
  }

  ghost function ClimbAll(t: DomTree, stop: nat, preds: seq<Option<nat>>, b: nat, df: seq<seq<nat>>): (r: seq<seq<nat>>)
    requires ClimbReady(t, stop, preds) && |df| == |t.idom|
    ensures |r| == |df|
  {
    if preds == [] then df
    else
      var df1 := ClimbAll(t, stop, preds[..|preds| - 1], b, df);
      match preds[|preds| - 1]
      case None => df1
      case Some(p) => Climb(t, stop, p, b, df1)
  }

  lemma {:induction false} ClimbNothing(t: DomTree, stop: nat, preds: seq<Option<nat>>, b: nat, df: seq<seq<nat>>)
    requires ClimbReady(t, stop, preds) && |df| == |t.idom|
    requires forall k :: 0 <= k < |preds| ==> preds[k] == None
    ensures ClimbAll(t, stop, preds, b, df) == df
  {
    if preds != [] {
      ClimbNothing(t, stop, preds[..|preds| - 1], b, df);
    }
  }

  ghost predicate NoShorter(df: seq<seq<nat>>, df2: seq<seq<nat>>)
  {
    |df| == |df2| && forall x: nat :: x < |df| ==> |df[x]| <= |df2[x]|
  }

  lemma {:induction false} ClimbGrowsOne(t: DomTree, stop: nat, cur: nat, b: nat, df: seq<seq<nat>>)
    requires t.Valid() && t.Done(cur) && stop in t.Chain(cur) && |df| == |t.idom|
    ensures NoShorter(df, Climb(t, stop, cur, b, df))
    ensures cur != stop ==> |Climb(t, stop, cur, b, df)[cur]| > |df[cur]|
    decreases t.rpo[cur]
  {
    if cur != stop {
      ClimbGrowsOne(t, stop, t.Up(cur), b, df[cur := df[cur] + [b]]);
    }
  }

  /** Frontiers only grow while the predecessors are worked through. */
  lemma {:induction false} ClimbGrows(t: DomTree, stop: nat, preds: seq<Option<nat>>, i: nat, b: nat, df: seq<seq<nat>>)
    requires ClimbReady(t, stop, preds) && |df| == |t.idom| && i <= |preds|
    ensures NoShorter(ClimbAll(t, stop, preds[..i], b, df), ClimbAll(t, stop, preds, b, df))
  {
    if i == |preds| {
      assert preds[..i] == preds;
    } else {
      var init := preds[..|preds| - 1];
      ClimbGrows(t, stop, init, i, b, df);
      assert init[..i] == preds[..i];
      if preds[|preds| - 1].Some? {
        ClimbGrowsOne(t, stop, preds[|preds| - 1].value, b, ClimbAll(t, stop, init, b, df));
      }
    }
  }

  /** The climb for predecessor slot `i` and the room it needs. */
  lemma ClimbNext(t: DomTree, stop: nat, preds: seq<Option<nat>>, i: nat, b: nat, df: seq<seq<nat>>, room: nat)
    requires ClimbReady(t, stop, preds) && |df| == |t.idom| && i < |preds|
    requires forall x: nat :: x < |df| ==> |ClimbAll(t, stop, preds, b, df)[x]| <= room
    ensures var before, after := ClimbAll(t, stop, preds[..i], b, df), ClimbAll(t, stop, preds[..i + 1], b, df);
      && after == (if preds[i].Some? then Climb(t, stop, preds[i].value, b, before) else before)
      && forall x: nat :: x < |df| ==> |after[x]| <= room
  {
    assert preds[..i + 1][..i] == preds[..i];
    ClimbGrows(t, stop, preds, i + 1, b, df);
  }

  ghost function TreeOf(s: Snap): DomTree
    requires |s.list| > 0
  {
    DomTree(s.list[0], s.idom, s.rpo)
  }

  ghost predicate FrontierReady(g: Graph, s: Snap, b: nat)
  {
    Sized(g, s) && b < |g| && s.idom[b].Some? && ClimbReady(TreeOf(s), s.idom[b].value, g[b].prev)
  }

  ghost function Step(g: Graph, cb: Callback, s: Snap, b: nat): (r: Snap)
    requires Sized(g, s) && b < |g|
    ensures Sized(g, r) && r.list[0] == s.list[0] && r.idom == s.idom
  {
    match cb
    case IndexRpo => s.(rpo := s.rpo[b := s.cnt], cnt := s.cnt + 1)
    case ReverseIndex => s.(rpo := s.rpo[b := s.cnt - s.rpo[b]])
    case LinkRpo => s.(list := Insert(s.list, s.rpo, b))
    case FillDf =>
      if FrontierReady(g, s, b) then s.(df := ClimbAll(TreeOf(s), s.idom[b].value, g[b].prev, b, s.df)) else s
  }

  ghost function Run(g: Graph, cb: Callback, s: Snap, order: seq<nat>): (r: Snap)
    requires Sized(g, s) && InGraph(g, order)
    ensures Sized(g, r) && r.list[0] == s.list[0] && r.idom == s.idom
  {
    if order == [] then s else Step(g, cb, Run(g, cb, s, order[..|order| - 1]), order[|order| - 1])
  }

  lemma {:induction false} RunAppend(g: Graph, cb: Callback, s: Snap, a: seq<nat>, b: seq<nat>)
    requires Sized(g, s) && InGraph(g, a) && InGraph(g, b)
    ensures InGraph(g, a + b) && Run(g, cb, s, a + b) == Run(g, cb, Run(g, cb, s, a), b)
  {
    if b == [] {
      assert a + b == a;
    } else {
      RunAppend(g, cb, s, a, b[..|b| - 1]);
      assert (a + b)[..|a + b| - 1] == a + b[..|b| - 1];
    }
  }

  /** What one callback needs: a block is linked once, every climb stays inside the tree,
      and no frontier outgrows its array. */
  ghost predicate FitsOne(g: Graph, cb: Callback, s: Snap, b: nat)
    requires Sized(g, s) && b < |g|
  {
    match cb
    case LinkRpo => b == s.list[0] || b !in s.list
    case FillDf => FrontierReady(g, s, b) && forall x: nat :: x < |g| ==> |Step(g, cb, s, b).df[x]| <= MAX_DF
    case _ => true
  }

  ghost predicate Fits(g: Graph, cb: Callback, s: Snap, order: seq<nat>)
    requires Sized(g, s) && InGraph(g, order)
  {
    order == [] ||
    (Fits(g, cb, s, order[..|order| - 1]) &&
     FitsOne(g, cb, Run(g, cb, s, order[..|order| - 1]), order[|order| - 1]))
  }

  /** A pass may be cut anywhere. */
  lemma {:induction false} FitsSplit(g: Graph, cb: Callback, s: Snap, a: seq<nat>, b: seq<nat>)
    requires Sized(g, s) && InGraph(g, a) && InGraph(g, b) && InGraph(g, a + b) && Fits(g, cb, s, a + b)
    ensures Fits(g, cb, s, a) && Fits(g, cb, Run(g, cb, s, a), b)
  {
    if b == [] {
      assert a + b == a;
    } else {
      assert (a + b)[..|a + b| - 1] == a + b[..|b| - 1];
      FitsSplit(g, cb, s, a, b[..|b| - 1]);
      RunAppend(g, cb, s, a, b[..|b| - 1]);
    }
  }

  lemma {:induction false} NumberingFits(g: Graph, cb: Callback, s: Snap, order: seq<nat>)
    requires Sized(g, s) && InGraph(g, order) && (cb.IndexRpo? || cb.ReverseIndex?)
    ensures Fits(g, cb, s, order)
  {
    if order != [] {
      NumberingFits(g, cb, s, order[..|order| - 1]);
    }
  }

  /** A pass over three stretches in a row. */
  lemma FitsThree(g: Graph, cb: Callback, s: Snap, r1: seq<nat>, r2: seq<nat>, r3: seq<nat>)
    requires Sized(g, s) && InGraph(g, r1) && InGraph(g, r2) && InGraph(g, r3)
    requires InGraph(g, r1 + r2 + r3) && Fits(g, cb, s, r1 + r2 + r3)
    ensures Fits(g, cb, s, r1)
    ensures var s1 := Run(g, cb, s, r1);
      Fits(g, cb, s1, r2) && var s2 := Run(g, cb, s1, r2);
      Fits(g, cb, s2, r3) && Run(g, cb, s, r1 + r2 + r3) == Run(g, cb, s2, r3)
  {
    RunAppend(g, cb, s, r1, r2);
    RunAppend(g, cb, s, r1 + r2, r3);
    FitsSplit(g, cb, s, r1 + r2, r3);
    FitsSplit(g, cb, s, r1, r2);
  }

  /** How the pass over one visit falls into what is below the block and the block itself. */
  lemma VisitPlan(g: Graph, cb: Callback, s: Snap, b: nat, seen: set<nat>)
    requires Sized(g, s) && WellFormed(g) && b < |g| && b !in seen && Fits(g, cb, s, Visit(g, b, seen))
    ensures var v0 := seen + {b};
      && Fits(g, cb, s, BelowVisit(g, b, v0))
      && InGraph(g, [b]) && Fits(g, cb, Run(g, cb, s, BelowVisit(g, b, v0)), [b])
      && Run(g, cb, s, Visit(g, b, seen)) == Run(g, cb, Run(g, cb, s, BelowVisit(g, b, v0)), [b])
      && seen + Elems(Visit(g, b, seen)) == v0 + Elems(BelowVisit(g, b, v0))
      && |UpTo(|g|) - v0| < |UpTo(|g|) - seen|
  {
    var below := BelowVisit(g, b, seen + {b});
    hide Visit, BelowVisit, Run, Fits;
    VisitSplit(g, b, seen);
    RunAppend(g, cb, s, below, [b]);
    FitsSplit(g, cb, s, below, [b]);
    Fewer(g, seen, seen + {b}, b);
  }

  // ---- the three numbering passes -------------------------------------------------

  lemma {:induction false} IndexPass(g: Graph, s: Snap, order: seq<nat>)
    requires Sized(g, s) && InGraph(g, order) && NoDup(order)
    ensures var r := Run(g, IndexRpo, s, order);
      && r.cnt == s.cnt + |order| && r.list == s.list && r.df == s.df
      && (forall k :: 0 <= k < |order| ==> r.rpo[order[k]] == s.cnt + k)
      && (forall b: nat :: b < |g| && b !in order ==> r.rpo[b] == s.rpo[b])
  {
    if order != [] {
      IndexPass(g, s, order[..|order| - 1]);
    }
  }

  lemma {:induction false} ReversePass(g: Graph, s: Snap, order: seq<nat>)
    requires Sized(g, s) && InGraph(g, order) && NoDup(order)
    ensures var r := Run(g, ReverseIndex, s, order);
      && r.cnt == s.cnt && r.list == s.list && r.df == s.df
      && (forall k :: 0 <= k < |order| ==> r.rpo[order[k]] == s.cnt - s.rpo[order[k]])
      && (forall b: nat :: b < |g| && b !in order ==> r.rpo[b] == s.rpo[b])
  {
    if order != [] {
      ReversePass(g, s, order[..|order| - 1]);
    }
  }

  function Reverse(s: seq<nat>): (r: seq<nat>)
    ensures |r| == |s| && forall i :: 0 <= i < |s| ==> r[i] == s[|s| - 1 - i]
  {
    seq(|s|, i requires 0 <= i < |s| => s[|s| - 1 - i])
  }

  /** Inserting a block numbered below everything behind the head puts it right there. */
  lemma InsertFirst(head: nat, tail: seq<nat>, rpo: seq<int>, b: nat)
    requires head < |rpo| && b < |rpo| && b != head && forall i :: 0 <= i < |tail| ==> tail[i] < |rpo|
    requires tail != [] ==> rpo[tail[0]] >= rpo[b]
    ensures Insert([head] + tail, rpo, b) == [head] + ([b] + tail)
  {
    assert ([head] + tail)[1..] == tail;
  }

  lemma ReverseSnoc(order: seq<nat>, k: nat)
    requires 1 <= k <= |order|
    ensures Reverse(order[..k]) == [order[k - 1]] + Reverse(order[..k - 1])
  {
  }

  /** When the visiting order runs down in number and ends with the entry, every insertion
      goes right behind the entry: the list becomes the reversed order. */
  lemma {:induction false} LinkPass(g: Graph, s: Snap, order: seq<nat>, k: nat)
    requires Sized(g, s) && InGraph(g, order) && NoDup(order) && k < |order|
    requires s.list == [order[|order| - 1]]
    requires forall i, j :: 0 <= i < j < |order| ==> s.rpo[order[i]] > s.rpo[order[j]]
    ensures Run(g, LinkRpo, s, order[..k]) == s.(list := s.list + Reverse(order[..k]))
    ensures Fits(g, LinkRpo, s, order[..k])
  {
    if k > 0 {
      LinkPass(g, s, order, k - 1);
      assert order[..k][..k - 1] == order[..k - 1];
      var tail := Reverse(order[..k - 1]);
      assert order[k - 1] !in s.list + tail;
      if k > 1 {
        assert tail[0] == order[k - 2];
      }
      InsertFirst(s.list[0], tail, s.rpo, order[k - 1]);
      ReverseSnoc(order, k);
    }
  }

  lemma LinkLast(g: Graph, s: Snap, b: nat)
    requires Sized(g, s) && b < |g| && s.list[0] == b
    ensures FitsOne(g, LinkRpo, s, b) && Step(g, LinkRpo, s, b) == s
  {
  }

  /** The entry, visited last, is not inserted again. */
  lemma LinkWhole(g: Graph, s: Snap, order: seq<nat>)
    requires Sized(g, s) && InGraph(g, order) && NoDup(order) && |order| > 0
    requires s.list == [order[|order| - 1]]
    requires forall i, j :: 0 <= i < j < |order| ==> s.rpo[order[i]] > s.rpo[order[j]]
    ensures Run(g, LinkRpo, s, order) == s.(list := Reverse(order)) && Fits(g, LinkRpo, s, order)
  {
    hide Reverse, Insert, WellFormed, NoDup, Step, FitsOne;
    var n := |order|;
    LinkPass(g, s, order, n - 1);
    ReverseSnoc(order, n);
    assert order[..n] == order;
    LinkLast(g, Run(g, LinkRpo, s, order[..n - 1]), order[n - 1]);
  }

  /** The list starts with the entry, is numbered 1, 2, 3, ... along its way, and every
      block but the entry has a predecessor with a smaller number. */
  ghost predicate Ordered(g: Graph, entry: nat, rpo: seq<int>, list: seq<nat>)
  {
    && WellFormed(g) && |rpo| == |g| && |list| > 0 && list[0] == entry && NoDup(list) && InGraph(g, list)
    && (forall i :: 0 <= i < |list| ==> rpo[list[i]] == i + 1)
    && (forall i :: 1 <= i < |list| ==> EarlierPred(g, list, i))
  }

  /** What `build_rpo` establishes: an ordered list of exactly the reachable blocks. */
  ghost predicate Numbered(g: Graph, entry: nat, rpo: seq<int>, list: seq<nat>)
  {
    Ordered(g, entry, rpo, list) && forall b: nat :: b in list <==> Reaches(g, entry, b)
  }

  ghost predicate EarlierPred(g: Graph, list: seq<nat>, i: nat)
    requires i < |list|
  {
    exists j :: 0 <= j < i && Edge(g, list[j], list[i])
  }

  lemma EarlierFromLater(g: Graph, order: seq<nat>, i: nat)
    requires 1 <= i < |order| && LaterPred(g, order, |order| - 1 - i)
    ensures EarlierPred(g, Reverse(order), i)
  {
    var n := |order|;
    var j :| n - 1 - i < j < n && Edge(g, order[j], order[n - 1 - i]);
    assert Reverse(order)[n - 1 - j] == order[j];
  }

  lemma ReverseMembers(order: seq<nat>, b: nat)
    ensures b in Reverse(order) <==> b in order
  {
    if b in order {
      var k :| 0 <= k < |order| && order[k] == b;
      assert Reverse(order)[|order| - 1 - k] == b;
    }
  }

  /** Numbering the postorder backwards gives the numbering above. */
  lemma NumberedOrder(g: Graph, entry: nat, rpo: seq<int>, order: seq<nat>)
    requires WellFormed(g) && entry < |g| && order == Visit(g, entry, {}) && |rpo| == |g|
    requires forall k :: 0 <= k < |order| ==> rpo[order[k]] == |order| - k
    ensures Numbered(g, entry, rpo, Reverse(order))
  {
    VisitOrder(g, entry, {});
    forall i | 1 <= i < |order| ensures EarlierPred(g, Reverse(order), i) {
      assert LaterPred(g, order, |order| - 1 - i);
      EarlierFromLater(g, order, i);
    }
    forall b: nat ensures b in Reverse(order) <==> Reaches(g, entry, b) {
      PassCoversReachable(g, entry, b);
      ReverseMembers(order, b);
    }
  }

  // ---- walking the list in build_idom ----------------------------------------------

  /** Exactly the first `done` blocks of the list have an immediate dominator. */
  ghost predicate Processed(t: DomTree, list: seq<nat>, done: nat)
  {
    && 1 <= done <= |list| && t.entry == list[0]
    && (forall j :: 0 <= j < |list| ==> list[j] < |t.idom| && (t.idom[list[j]].Some? <==> j < done))
    && (forall b: nat {:trigger b in list} :: t.Done(b) ==> b in list)
  }

  /** The block at place `k` is ready to be processed. */
  lemma ReadyAt(g: Graph, t: DomTree, list: seq<nat>, done: nat, k: nat)
    requires Ordered(g, t.entry, t.rpo, list) && |t.idom| == |g| && Processed(t, list, done)
    requires 1 <= k < |list| && k <= done && (done == k || done == |list|)
    ensures var b := list[k];
      && b < |g| && b != t.entry && t.rpo[b] == k + 1 && HasForwardPred(g, t, b)
      && (forall v: nat :: t.Done(v) && t.rpo[v] == t.rpo[b] ==> v == b)
      && (!t.Done(b) ==> forall v: nat :: t.Done(v) ==> t.rpo[v] < t.rpo[b])
  {
    DoneInList(g, t, list, done);
    assert EarlierPred(g, list, k);
    var j :| 0 <= j < k && Edge(g, list[j], list[k]);
    assert ForwardEdge(g, t, list[j], list[k]) && t.Done(list[j]);
  }

  /** The blocks that have a dominator so far are the first of the list. */
  lemma DoneInList(g: Graph, t: DomTree, list: seq<nat>, done: nat)
    requires Ordered(g, t.entry, t.rpo, list) && |t.idom| == |g| && Processed(t, list, done)
    ensures forall v: nat :: t.Done(v) ==> exists i :: 0 <= i < done && list[i] == v
  {
    forall v: nat | t.Done(v) ensures exists i :: 0 <= i < done && list[i] == v {
      assert v in list;
      var i :| 0 <= i < |list| && list[i] == v;
    }
  }

  lemma ReadyPred(g: Graph, t: DomTree, list: seq<nat>, done: nat, k: nat)
    requires Ordered(g, t.entry, t.rpo, list) && |t.idom| == |g| && Processed(t, list, done)
    requires 1 <= k < |list| && k <= done && (done == k || done == |list|)
    ensures HasForwardPred(g, t, list[k])
  {
    ReadyAt(g, t, list, done, k);
  }

  lemma ProcessedSet(g: Graph, t: DomTree, list: seq<nat>, done: nat, k: nat, y: nat)
    requires Ordered(g, t.entry, t.rpo, list) && |t.idom| == |g| && Processed(t, list, done)
    requires 1 <= k < |list| && k <= done
    ensures Processed(t.Set(list[k], y), list, if done == k then k + 1 else done)
  {
    var t2 := t.Set(list[k], y);
    forall v: nat | t2.Done(v) ensures v in list {
      if v != list[k] { assert t.Done(v); }
    }
  }

  /** Recomputing any of the first `k` blocks of the list would store what is there already. */
  ghost predicate SettledUpTo(g: Graph, t: DomTree, list: seq<nat>, k: int)
    requires t.Valid() && |g| == |t.idom| && k <= |list|
  {
    forall j {:trigger Nearest(g, t, t.Up(list[j]), list[j])} :: 1 <= j < k ==> Nearest(g, t, t.Up(list[j]), list[j])
  }

  lemma SettledNext(g: Graph, t: DomTree, list: seq<nat>, k: nat)
    requires t.Valid() && |g| == |t.idom| && 1 <= k < |list|
    requires SettledUpTo(g, t, list, k) && Nearest(g, t, t.Up(list[k]), list[k])
    ensures SettledUpTo(g, t, list, k + 1)
  {
    hide Nearest;
    forall j | 1 <= j < k + 1 ensures Nearest(g, t, t.Up(list[j]), list[j]) {
    }
  }

  lemma SettledAt(g: Graph, t: DomTree, v: nat, p: nat)
    requires t.Valid() && |g| == |t.idom| && Nearest(g, t, t.Up(v), v) && Edge(g, p, v) && t.Done(p)
    ensures t.Up(v) in t.Chain(p)
  {
    assert t.Up(v) in t.Chain(t.Up(v));
    assert CommonAbove(g, t, t.Up(v), v);
  }

  lemma SweepUpdatable(g: Graph, t: DomTree, list: seq<nat>, done: nat, k: nat, y: nat)
    requires Ordered(g, t.entry, t.rpo, list) && Processed(t, list, done) && Invariant(g, t, k + 1)
    requires 1 <= k < |list| && k <= done && (done == k || done == |list|)
    requires Nearest(g, t, y, list[k]) && t.rpo[y] < t.rpo[list[k]]
    ensures Updatable(g, t, list[k], y) && t.rpo[list[k]] == k + 1
  {
    ReadyAt(g, t, list, done, k);
  }

  /** One block of the sweep: whatever `build_idom` stores, the invariant advances, and a
      store that changes something lowers the sum. */
  lemma SweepStep(g: Graph, t: DomTree, list: seq<nat>, done: nat, k: nat, y: nat)
    requires Ordered(g, t.entry, t.rpo, list) && Processed(t, list, done) && Invariant(g, t, k + 1)
    requires 1 <= k < |list| && k <= done && (done == k || done == |list|)
    requires Nearest(g, t, y, list[k]) && t.rpo[y] < t.rpo[list[k]]
    ensures var t2 := t.Set(list[k], y);
      && Processed(t2, list, if done == k then k + 1 else done) && Invariant(g, t2, k + 2)
      && (if t.idom[list[k]] == Some(y) then t2 == t && t.Up(list[k]) == y else Weight(t2, |g|) < Weight(t, |g|))
  {
    hide Descending, Complete, Explained, Swept, Grounded, Weight, Nearest, Ordered;
    SweepUpdatable(g, t, list, done, k, y);
    UpdateKeepsInvariant(g, t, list[k], y);
    ProcessedSet(g, t, list, done, k, y);
    if t.idom[list[k]] == Some(y) {
      assert t.idom[list[k] := Some(y)] == t.idom;
    } else {
      UpdateDrops(g, t, list[k], y);
    }
  }

  lemma SettledIsFixpoint(g: Graph, t: DomTree, list: seq<nat>, done: nat)
    requires t.Valid() && |g| == |t.idom| && Processed(t, list, done) && SettledUpTo(g, t, list, |list|)
    ensures Fixpoint(g, t)
  {
    forall p: nat, v: nat | Edge(g, p, v) && t.Done(p) && t.Done(v) && v != t.entry ensures t.Up(v) in t.Chain(p) {
      assert v in list;
      var j :| 0 <= j < |list| && list[j] == v;
      assert Nearest(g, t, t.Up(list[j]), list[j]);
      SettledAt(g, t, v, p);
    }
  }

  lemma PassEnds(g: Graph, t: DomTree, list: seq<nat>, done: nat)
    requires Ordered(g, t.entry, t.rpo, list) && Processed(t, list, done) && Invariant(g, t, |list| + 1)
    ensures Invariant(g, t, 2)
  {
    forall v: nat | t.Done(v) ensures t.rpo[v] < |list| + 1 {
      assert v in list;
      var j :| 0 <= j < |list| && list[j] == v;
    }
    NextPass(g, t, |list| + 1, 2);
  }

  /** The tree with only the entry processed. */
  lemma FirstTree(g: Graph, t: DomTree, list: seq<nat>)
    requires Ordered(g, t.entry, t.rpo, list) && |t.idom| == |g|
    requires t.idom[t.entry] == Some(t.entry) && forall b: nat :: b < |g| && b != t.entry ==> t.idom[b] == None
    ensures t.Valid() && Processed(t, list, 1) && Invariant(g, t, 2)
  {
    assert t.rpo[list[0]] == 1;
    forall b: nat | t.Done(b) ensures b in list { assert list[0] == b; }
    InitialInvariant(g, t, 2);
  }

  lemma AllDone(g: Graph, t: DomTree, list: seq<nat>)
    requires Numbered(g, t.entry, t.rpo, list) && |t.idom| == |g| && Processed(t, list, |list|)
    ensures forall b: nat {:trigger t.Done(b)} :: t.Done(b) <==> Reaches(g, t.entry, b)
  {
    forall b: nat | b in list ensures t.Done(b) {
      var j :| 0 <= j < |list| && list[j] == b;
    }
  }
}
