/** Depth-first traversal order and reverse postorder numbering (src/ssa.c). */
module Dfs {
  import opened Cfg
  import opened Options

  ghost function Elems(s: seq<nat>): (r: set<nat>)
    ensures forall x: nat :: x in r <==> x in s
  {
    set x | x in s
  }

  ghost function UpTo(n: nat): (r: set<nat>)
    ensures forall b: nat :: b in r <==> b < n
  {
    if n == 0 then {} else UpTo(n - 1) + {n - 1}
  }

  lemma {:induction false} SubsetSize(a: set<nat>, b: set<nat>)
    requires a <= b
    ensures |a| <= |b|
  {
    if a != {} {
      var x :| x in a;
      SubsetSize(a - {x}, b - {x});
    }
  }

  /** Visiting one more block leaves strictly fewer to visit. */
  lemma Fewer(g: Graph, seen: set<nat>, more: set<nat>, b: nat)
    requires seen <= more && b < |g| && b !in seen && b in more
    ensures |UpTo(|g|) - more| < |UpTo(|g|) - seen|
  {
    SubsetSize(UpTo(|g|) - more, UpTo(|g|) - seen - {b});
  }

  ghost predicate InGraph(g: Graph, bs: seq<nat>)
  {
    forall i :: 0 <= i < |bs| ==> bs[i] < |g|
  }

  lemma SuccsInGraph(g: Graph, b: nat)
    requires WellFormed(g) && b < |g|
    ensures InGraph(g, Succs(g, b))
  {
    forall i | 0 <= i < |Succs(g, b)| ensures Succs(g, b)[i] < |g| {
      assert Edge(g, b, Succs(g, b)[i]);
    }
  }

  /** Blocks finished by a visit that starts at `b`, in postorder; `seen` holds the
      blocks already visited in this pass. */
  ghost function Visit(g: Graph, b: nat, seen: set<nat>): (r: seq<nat>)
    requires WellFormed(g) && b < |g| && b !in seen
    ensures |r| > 0 && r[|r| - 1] == b
    ensures InGraph(g, r) && forall u :: u in r ==> u !in seen
    decreases |UpTo(|g|) - seen|, 0, 0
  {
    Fewer(g, seen, seen + {b}, b);
    SuccsInGraph(g, b);
    VisitEach(g, Succs(g, b), seen + {b}) + [b]
  }

  ghost function VisitEach(g: Graph, bs: seq<nat>, seen: set<nat>): (r: seq<nat>)
    requires WellFormed(g) && InGraph(g, bs)
    ensures InGraph(g, r) && forall u :: u in r ==> u !in seen
    decreases |UpTo(|g|) - seen|, 1, |bs|
  {
    if bs == [] then []
    else if bs[0] in seen then VisitEach(g, bs[1..], seen)
    else
      var first := Visit(g, bs[0], seen);
      Fewer(g, seen, seen + Elems(first), bs[0]);
      first + VisitEach(g, bs[1..], seen + Elems(first))
  }

  lemma {:induction false} VisitEachAppend(g: Graph, xs: seq<nat>, ys: seq<nat>, seen: set<nat>)
    requires WellFormed(g) && InGraph(g, xs) && InGraph(g, ys)
    ensures InGraph(g, xs + ys)
    ensures VisitEach(g, xs + ys, seen) ==
      VisitEach(g, xs, seen) + VisitEach(g, ys, seen + Elems(VisitEach(g, xs, seen)))
    decreases |xs|
  {
    if xs == [] {
      assert xs + ys == ys;
      assert seen + Elems([]) == seen;
    } else {
      assert (xs + ys)[1..] == xs[1..] + ys;
      if xs[0] in seen {
        VisitEachAppend(g, xs[1..], ys, seen);
      } else {
        var first := Visit(g, xs[0], seen);
        var rest := VisitEach(g, xs[1..], seen + Elems(first));
        VisitEachAppend(g, xs[1..], ys, seen + Elems(first));
        assert seen + Elems(first + rest) == seen + Elems(first) + Elems(rest);
      }
    }
  }

  /** What following one pointer contributes. */
  ghost function VisitPointer(g: Graph, o: Option<nat>, seen: set<nat>): (r: seq<nat>)
    requires WellFormed(g) && InFunction(g, o)
    ensures InGraph(g, r) && forall u :: u in r ==> u !in seen
  {
    if o.Some? && o.value !in seen then Visit(g, o.value, seen) else []
  }

  lemma PointerIsEach(g: Graph, o: Option<nat>, seen: set<nat>)
    requires WellFormed(g) && InFunction(g, o)
    ensures InGraph(g, Single(o)) && VisitEach(g, Single(o), seen) == VisitPointer(g, o, seen)
  {
    if o.Some? && o.value !in seen {
      Fewer(g, seen, seen + Elems(Visit(g, o.value, seen)), o.value);
      assert VisitEach(g, Single(o)[1..], seen + Elems(Visit(g, o.value, seen))) == [];
    }
  }

  lemma PointersAreEach(g: Graph, n: Option<nat>, t: Option<nat>, e: Option<nat>, v0: set<nat>)
    requires WellFormed(g) && InFunction(g, n) && InFunction(g, t) && InFunction(g, e)
    ensures var r1 := VisitPointer(g, n, v0);
      var r2 := VisitPointer(g, t, v0 + Elems(r1));
      var r3 := VisitPointer(g, e, v0 + Elems(r1) + Elems(r2));
      && InGraph(g, Single(n) + Single(t) + Single(e))
      && VisitEach(g, Single(n) + Single(t) + Single(e), v0) == r1 + r2 + r3
  {
    PointerIsEach(g, n, v0);
    var r1 := VisitPointer(g, n, v0);
    PointerIsEach(g, t, v0 + Elems(r1));
    var r2 := VisitPointer(g, t, v0 + Elems(r1));
    PointerIsEach(g, e, v0 + Elems(r1) + Elems(r2));
    VisitEachAppend(g, Single(n), Single(t), v0);
    VisitEachAppend(g, Single(n) + Single(t), Single(e), v0);
    assert v0 + Elems(r1 + r2) == v0 + Elems(r1) + Elems(r2);
  }

  lemma ElemsThree(r1: seq<nat>, r2: seq<nat>, r3: seq<nat>, seen: set<nat>)
    ensures seen + Elems(r1 + r2 + r3) == seen + Elems(r1) + Elems(r2) + Elems(r3)
  {
    assert forall x: nat :: x in Elems(r1 + r2 + r3) <==> x in r1 || x in r2 || x in r3;
  }

  /** What is visited below `b`: its `next`, `then_` and `else_` pointers in this order. */
  ghost function BelowVisit(g: Graph, b: nat, v0: set<nat>): (r: seq<nat>)
    requires WellFormed(g) && b < |g|
    ensures InGraph(g, r)
  {
    var r1 := VisitPointer(g, g[b].next, v0);
    var r2 := VisitPointer(g, g[b].then_, v0 + Elems(r1));
    var r3 := VisitPointer(g, g[b].else_, v0 + Elems(r1) + Elems(r2));
    r1 + r2 + r3
  }

  /** A visit follows the three pointers and then finishes the block. */
  lemma VisitSplit(g: Graph, b: nat, seen: set<nat>)
    requires WellFormed(g) && b < |g| && b !in seen
    ensures Visit(g, b, seen) == BelowVisit(g, b, seen + {b}) + [b]
    ensures seen + Elems(Visit(g, b, seen)) == seen + {b} + Elems(BelowVisit(g, b, seen + {b}))
  {
    PointersAreEach(g, g[b].next, g[b].then_, g[b].else_, seen + {b});
  }

  ghost predicate NoDup(s: seq<nat>)
  {
    forall i, j :: 0 <= i < j < |s| ==> s[i] != s[j]
  }

  lemma {:induction false} ElemsSize(s: seq<nat>)
    requires NoDup(s)
    ensures |Elems(s)| == |s|
  {
    if s != [] {
      var init := s[..|s| - 1];
      ElemsSize(init);
      assert Elems(s) == Elems(init) + {s[|s| - 1]};
      assert s[|s| - 1] !in init;
    }
  }

  /** No edge leaves `r` except into `seen`. */
  ghost predicate ClosedIn(g: Graph, r: seq<nat>, seen: set<nat>)
  {
    forall u: nat, w: nat :: u in r && Edge(g, u, w) ==> w in r || w in seen
  }

  ghost predicate LaterPred(g: Graph, r: seq<nat>, i: nat)
  {
    exists j :: i < j < |r| && Edge(g, r[j], r[i])
  }

  lemma LaterPredExtends(g: Graph, r: seq<nat>, i: nat, pre: seq<nat>, post: seq<nat>)
    requires i < |r| && LaterPred(g, r, i)
    ensures LaterPred(g, pre + r + post, |pre| + i)
  {
    var j :| i < j < |r| && Edge(g, r[j], r[i]);
    var all := pre + r + post;
    assert all[|pre| + j] == r[j] && all[|pre| + i] == r[i];
  }

  /** What a visit of `b`'s successors leaves: each block once, closed under edges up to
      `seen`, reachable from `b`, and followed by a predecessor unless `b` itself is one. */
  ghost predicate Forest(g: Graph, b: nat, r: seq<nat>, seen: set<nat>)
  {
    && NoDup(r)
    && ClosedIn(g, r, seen)
    && (forall i: nat :: i < |r| ==> Reaches(g, b, r[i]))
    && (forall i: nat :: i < |r| ==> LaterPred(g, r, i) || Edge(g, b, r[i]))
  }

  /** The same once `b` has been appended. */
  ghost predicate Tree(g: Graph, b: nat, r: seq<nat>, seen: set<nat>)
  {
    && |r| > 0 && r[|r| - 1] == b
    && NoDup(r)
    && ClosedIn(g, r, seen)
    && (forall i: nat :: i < |r| ==> Reaches(g, b, r[i]))
    && (forall i: nat :: i < |r| - 1 ==> LaterPred(g, r, i))
  }

  lemma CloseTree(g: Graph, b: nat, s: seq<nat>, seen: set<nat>)
    requires b < |g| && Forest(g, b, s, seen + {b}) && b !in s
    requires forall w: nat :: Edge(g, b, w) ==> w in s || w in seen + {b}
    ensures Tree(g, b, s + [b], seen)
  {
    var r := s + [b];
    ReachesSelf(g, b);
    forall i: nat | i < |r| - 1 ensures LaterPred(g, r, i) {
      if LaterPred(g, s, i) {
        LaterPredExtends(g, s, i, [], [b]);
        assert [] + s + [b] == r;
      } else {
        assert Edge(g, r[|r| - 1], r[i]);
      }
    }
    forall u: nat, w: nat | u in r && Edge(g, u, w) ensures w in r || w in seen {
      if u in s {
      } else {
        assert u == b;
      }
      assert w == b || w in s || w in seen;
    }
  }

  lemma JoinLater(g: Graph, b: nat, first: seq<nat>, rest: seq<nat>, i: nat)
    requires |first| > 0 && Edge(g, b, first[|first| - 1])
    requires forall k: nat :: k < |first| - 1 ==> LaterPred(g, first, k)
    requires forall k: nat :: k < |rest| ==> LaterPred(g, rest, k) || Edge(g, b, rest[k])
    requires i < |first + rest|
    ensures LaterPred(g, first + rest, i) || Edge(g, b, (first + rest)[i])
  {
    if i < |first| - 1 {
      LaterPredExtends(g, first, i, [], rest);
      assert [] + first + rest == first + rest;
    } else if i >= |first| && LaterPred(g, rest, i - |first|) {
      LaterPredExtends(g, rest, i - |first|, first, []);
      assert first + rest + [] == first + rest;
    }
  }

  lemma JoinClosed(g: Graph, first: seq<nat>, rest: seq<nat>, seen: set<nat>)
    requires ClosedIn(g, first, seen) && ClosedIn(g, rest, seen + Elems(first))
    ensures ClosedIn(g, first + rest, seen)
  {
  }

  lemma JoinForest(g: Graph, b: nat, c: nat, first: seq<nat>, rest: seq<nat>, seen: set<nat>)
    requires WellFormed(g) && Edge(g, b, c)
    requires Tree(g, c, first, seen) && Forest(g, b, rest, seen + Elems(first))
    requires forall u :: u in rest ==> u !in first
    ensures Forest(g, b, first + rest, seen)
  {
    var r := first + rest;
    JoinClosed(g, first, rest, seen);
    forall i: nat | i < |r| ensures Reaches(g, b, r[i]) {
      if i < |first| {
        ReachesPrepend(g, b, c, first[i]);
      }
    }
    forall i: nat | i < |r| ensures LaterPred(g, r, i) || Edge(g, b, r[i]) {
      JoinLater(g, b, first, rest, i);
    }
    assert NoDup(r) by {
      forall i, j | 0 <= i < j < |r| ensures r[i] != r[j] {
        if i < |first| <= j { assert rest[j - |first|] in rest; }
      }
    }
  }

  /** The postorder of a visit lists each block once, is closed under edges up to `seen`,
      and every block but the last is followed by one of its predecessors. */
  lemma {:induction false} VisitOrder(g: Graph, b: nat, seen: set<nat>)
    requires WellFormed(g) && b < |g| && b !in seen
    ensures Tree(g, b, Visit(g, b, seen), seen)
    decreases |UpTo(|g|) - seen|, 0, 0
  {
    Fewer(g, seen, seen + {b}, b);
    SuccsInGraph(g, b);
    var s := VisitEach(g, Succs(g, b), seen + {b});
    VisitEachOrder(g, b, Succs(g, b), seen + {b});
    forall w: nat | Edge(g, b, w) ensures w in s || w in seen + {b} {
      var i :| 0 <= i < |Succs(g, b)| && Succs(g, b)[i] == w;
    }
    CloseTree(g, b, s, seen);
  }

  lemma {:induction false} VisitEachOrder(g: Graph, b: nat, bs: seq<nat>, seen: set<nat>)
    requires WellFormed(g) && InGraph(g, bs) && b < |g|
    requires forall i :: 0 <= i < |bs| ==> Edge(g, b, bs[i])
    ensures Forest(g, b, VisitEach(g, bs, seen), seen)
    ensures forall i :: 0 <= i < |bs| ==> bs[i] in VisitEach(g, bs, seen) || bs[i] in seen
    decreases |UpTo(|g|) - seen|, 1, |bs|
  {
    if bs == [] {
    } else if bs[0] in seen {
      VisitEachOrder(g, b, bs[1..], seen);
      forall i | 0 <= i < |bs| ensures bs[i] in VisitEach(g, bs, seen) || bs[i] in seen {
        if i > 0 { assert bs[i] == bs[1..][i - 1]; }
      }
    } else {
      var first := Visit(g, bs[0], seen);
      Fewer(g, seen, seen + Elems(first), bs[0]);
      var rest := VisitEach(g, bs[1..], seen + Elems(first));
      VisitOrder(g, bs[0], seen);
      VisitEachOrder(g, b, bs[1..], seen + Elems(first));
      JoinForest(g, b, bs[0], first, rest, seen);
      assert bs[0] == first[|first| - 1];
      forall i | 0 <= i < |bs| ensures bs[i] in first + rest || bs[i] in seen {
        if i > 0 { assert bs[i] == bs[1..][i - 1]; }
      }
    }
  }

  lemma ReachesPrepend(g: Graph, a: nat, b: nat, c: nat)
    requires WellFormed(g) && Edge(g, a, b) && Reaches(g, b, c)
    ensures Reaches(g, a, c)
  {
    var p :| PathBetween(g, p, b, c);
    var q := [a] + p;
    forall i | 0 <= i < |q| - 1 ensures Edge(g, q[i], q[i + 1]) {
      if i == 0 { assert q[1] == b; }
    }
    assert PathBetween(g, q, a, c);
  }

  /** A whole pass from the entry finishes exactly the reachable blocks. */
  lemma PassCoversReachable(g: Graph, entry: nat, b: nat)
    requires WellFormed(g) && entry < |g|
    ensures b in Visit(g, entry, {}) <==> Reaches(g, entry, b)
  {
    VisitOrder(g, entry, {});
    var r := Visit(g, entry, {});
    if Reaches(g, entry, b) {
      var p :| PathBetween(g, p, entry, b);
      assert entry == r[|r| - 1];
      ClosedSetHoldsPath(g, Elems(r), p, |p| - 1);
    }
  }
}
