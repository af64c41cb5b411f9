/** Control-flow graphs of one function: basic blocks are numbered, `next`,
    `then_` and `else_` are the three outgoing pointers of a block and `prev`
    is its array of predecessor slots, some of which may be empty. */
module Cfg {
  import opened Options

  datatype Block = Block(next: Option<nat>, then_: Option<nat>, else_: Option<nat>, prev: seq<Option<nat>>)

  type Graph = seq<Block>

  const MAX_BB_PRED := 128

  function Single(o: Option<nat>): (r: seq<nat>)
    ensures forall v :: v in r <==> o == Some(v)
  {
    match o case None => [] case Some(v) => [v]
  }

  predicate Edge(g: Graph, a: nat, b: nat)
  {
    a < |g| && (g[a].next == Some(b) || g[a].then_ == Some(b) || g[a].else_ == Some(b))
  }

  /** Successors in the order in which every traversal of the source tries them. */
  function Succs(g: Graph, b: nat): (r: seq<nat>)
    requires b < |g|
    ensures forall v :: v in r <==> Edge(g, b, v)
  {
    Single(g[b].next) + Single(g[b].then_) + Single(g[b].else_)
  }

  predicate InFunction(g: Graph, o: Option<nat>)
  {
    o.Some? ==> o.value < |g|
  }

  /** Pointers stay inside the function and `prev` mirrors the three forward pointers. */
  ghost predicate WellFormed(g: Graph)
  {
    && (forall a: nat :: a < |g| ==> InFunction(g, g[a].next) && InFunction(g, g[a].then_) && InFunction(g, g[a].else_))
    && (forall a: nat, b: nat :: Edge(g, a, b) ==> Some(a) in g[b].prev)
    && (forall b: nat, i :: b < |g| && 0 <= i < |g[b].prev| && g[b].prev[i].Some? ==> Edge(g, g[b].prev[i].value, b))
    && (forall b: nat :: b < |g| ==> |g[b].prev| <= MAX_BB_PRED)
  }

  ghost predicate IsPath(g: Graph, p: seq<nat>)
  {
    && |p| > 0
    && (forall i :: 0 <= i < |p| ==> p[i] < |g|)
    && (forall i :: 0 <= i < |p| - 1 ==> Edge(g, p[i], p[i + 1]))
  }

  ghost predicate PathBetween(g: Graph, p: seq<nat>, a: nat, b: nat)
  {
    IsPath(g, p) && p[0] == a && p[|p| - 1] == b
  }

  ghost predicate Reaches(g: Graph, a: nat, b: nat)
  {
    exists p :: PathBetween(g, p, a, b)
  }

  /** Every path from the entry to `b` runs through `a`. */
  ghost predicate Dominates(g: Graph, entry: nat, a: nat, b: nat)
  {
    forall p :: PathBetween(g, p, entry, b) ==> a in p
  }

  lemma ReachesSelf(g: Graph, a: nat)
    requires a < |g|
    ensures Reaches(g, a, a)
  {
    assert PathBetween(g, [a], a, a);
  }

  lemma ExtendPath(g: Graph, p: seq<nat>, a: nat, b: nat, c: nat)
    requires WellFormed(g) && PathBetween(g, p, a, b) && Edge(g, b, c)
    ensures PathBetween(g, p + [c], a, c)
  {
    var q := p + [c];
    forall i | 0 <= i < |q| - 1 ensures Edge(g, q[i], q[i + 1]) {
      if i == |p| - 1 { assert q[i] == b; }
    }
  }

  lemma ReachesStep(g: Graph, a: nat, b: nat, c: nat)
    requires WellFormed(g) && Reaches(g, a, b) && Edge(g, b, c)
    ensures Reaches(g, a, c)
  {
    var p :| PathBetween(g, p, a, b);
    ExtendPath(g, p, a, b, c);
  }

  /** The part of a path before its last block is itself a path. */
  lemma PathPrefix(g: Graph, p: seq<nat>, k: nat)
    requires IsPath(g, p) && k < |p|
    ensures PathBetween(g, p[..k + 1], p[0], p[k])
  {
  }

  lemma JoinPaths(g: Graph, p: seq<nat>, q: seq<nat>, a: nat, b: nat, c: nat)
    requires PathBetween(g, p, a, b) && PathBetween(g, q, b, c)
    ensures PathBetween(g, p + q[1..], a, c)
  {
    var r := p + q[1..];
    forall i | 0 <= i < |r| - 1 ensures Edge(g, r[i], r[i + 1]) {
      if i < |p| - 1 {
        assert Edge(g, p[i], p[i + 1]);
      } else {
        var j := i - (|p| - 1);
        assert Edge(g, q[j], q[j + 1]);
        assert r[i] == q[j] && r[i + 1] == q[j + 1];
      }
    }
    if |q| == 1 { assert r == p; }
  }

  /** What dominates a block, other than the block itself, dominates its predecessors. */
  lemma DominatesPred(g: Graph, entry: nat, a: nat, p: nat, b: nat)
    requires WellFormed(g) && Dominates(g, entry, a, b) && a != b && Edge(g, p, b)
    ensures Dominates(g, entry, a, p)
  {
    forall q | PathBetween(g, q, entry, p) ensures a in q {
      ExtendPath(g, q, entry, p, b);
      assert a in q + [b];
    }
  }

  /** A set that holds the start of a path and is closed under edges holds its end. */
  lemma {:induction false} ClosedSetHoldsPath(g: Graph, s: set<nat>, p: seq<nat>, k: nat)
    requires IsPath(g, p) && k < |p| && p[0] in s
    requires forall a: nat, b: nat :: a in s && Edge(g, a, b) ==> b in s
    ensures p[k] in s
  {
    if k > 0 {
      ClosedSetHoldsPath(g, s, p, k - 1);
      assert Edge(g, p[k - 1], p[k - 1 + 1]);
    }
  }
}
