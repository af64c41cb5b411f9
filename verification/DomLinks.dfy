/** `dom_connect`, `bb_build_dom` and `build_dom` of src/ssa.c: the dominator tree as
    parent and child pointers. */
module DomLinks {
  import opened Options
  import opened Dominators

  const MAX_BB_DOM_SUCC := 64

  /** `children[p]` lists exactly the blocks whose immediate dominator is `p`, once each. */
  ghost predicate ChildLists(t: DomTree, children: seq<seq<nat>>)
    requires t.Valid()
  {
    && |children| == |t.idom|
    && (forall p: nat, c: nat :: p < |children| ==> (c in children[p] <==> t.Done(c) && c != t.entry && t.Up(c) == p))
    && (forall p: nat, i, j :: p < |children| && 0 <= i < j < |children[p]| ==> children[p][i] != children[p][j])
  }

  ghost predicate InSync(prev: seq<Option<nat>>, next: seq<seq<nat>>, p: nat, c: nat)
    requires p < |next|
  {
    c in next[p] <==> c < |prev| && prev[c] == Some(p)
  }

  /** The child lists mirror the parent pointers, which follow the dominator tree. */
  ghost predicate Mirrored(t: DomTree, prev: seq<Option<nat>>, next: seq<seq<nat>>)
  {
    && t.Valid() && |prev| == |next| == |t.idom|
    && (forall c: nat :: c < |prev| && prev[c].Some? ==> t.Done(c) && c != t.entry && prev[c].value == t.Up(c))
    && (forall p: nat, c: nat :: p < |next| ==> InSync(prev, next, p, c))
    && (forall p: nat, i, j :: p < |next| && 0 <= i < j < |next[p]| ==> next[p][i] != next[p][j])
    && (forall p: nat :: p < |next| ==> |next[p]| <= MAX_BB_DOM_SUCC)
  }

  /** Above a connected block everything is connected, except possibly at `gap`. */
  ghost predicate NoGap(t: DomTree, prev: seq<Option<nat>>, gap: nat)
    requires |prev| == |t.idom|
  {
    forall c: nat {:trigger t.Up(c)} :: c < |prev| && prev[c].Some? ==>
      t.Up(c) == t.entry || t.Up(c) == gap || (t.Up(c) < |prev| && prev[t.Up(c)].Some?)
  }

  lemma Connected(t: DomTree, prev: seq<Option<nat>>, next: seq<seq<nat>>, c: nat)
    requires Mirrored(t, prev, next) && t.Done(c) && c != t.entry && prev[c] == None
    requires |next[t.Up(c)]| < MAX_BB_DOM_SUCC
    ensures Mirrored(t, prev[c := Some(t.Up(c))], next[t.Up(c) := next[t.Up(c)] + [c]])
  {
    var u := t.Up(c);
    var prev2, next2 := prev[c := Some(u)], next[u := next[u] + [c]];
    assert t.Done(u) && InSync(prev, next, u, c);
    forall p: nat, x: nat | p < |next2| ensures InSync(prev2, next2, p, x) {
      assert InSync(prev, next, p, x);
    }
    forall p: nat, i, j | p < |next2| && 0 <= i < j < |next2[p]| ensures next2[p][i] != next2[p][j] {
      if p == u && j == |next[u]| {
        assert next2[p][i] in next[u];
      }
    }
  }

  lemma AllConnected(t: DomTree, prev: seq<Option<nat>>, next: seq<seq<nat>>)
    requires Mirrored(t, prev, next)
    requires forall c: nat :: t.Done(c) && c != t.entry ==> prev[c].Some?
    ensures ChildLists(t, next)
  {
    forall p: nat, c: nat | p < |next| ensures c in next[p] <==> t.Done(c) && c != t.entry && t.Up(c) == p {
      assert InSync(prev, next, p, c);
    }
  }

  /** Some block immediately dominates more blocks than its array of children holds. */
  ghost predicate TooMany(t: DomTree)
  {
    exists p: nat, s: seq<nat> :: Family(t, p, s) && |s| > MAX_BB_DOM_SUCC
  }

  ghost predicate Family(t: DomTree, p: nat, s: seq<nat>)
  {
    && (forall i :: 0 <= i < |s| ==> t.Done(s[i]) && s[i] != t.entry && t.Up(s[i]) == p)
    && (forall i, j :: 0 <= i < j < |s| ==> s[i] != s[j])
  }

  lemma FullHere(t: DomTree, prev: seq<Option<nat>>, next: seq<seq<nat>>, c: nat)
    requires Mirrored(t, prev, next) && t.Done(c) && c != t.entry && c < |prev| && prev[c] == None
    requires t.Up(c) < |next| && |next[t.Up(c)]| >= MAX_BB_DOM_SUCC
    ensures TooMany(t)
  {
    var p := t.Up(c);
    var s := next[p] + [c];
    forall i | 0 <= i < |next[p]|
      ensures next[p][i] < |prev| && prev[next[p][i]] == Some(p) && next[p][i] != c
      ensures t.Done(next[p][i]) && next[p][i] != t.entry && t.Up(next[p][i]) == p
    {
      assert next[p][i] in next[p] && InSync(prev, next, p, next[p][i]);
    }
    assert Family(t, p, s);
  }

  class DomPointers {
    const idom: seq<Option<nat>>
    const entry: nat
    const domPrev: array<Option<nat>>
    const domNext: array<seq<nat>>

    constructor (idom: seq<Option<nat>>, entry: nat)
      ensures fresh(domPrev) && fresh(domNext) && this.idom == idom && this.entry == entry
      ensures domPrev[..] == seq(|idom|, _ => None) && domNext[..] == seq(|idom|, _ => [])
    {
      this.idom, this.entry := idom, entry;
      domPrev := new Option<nat>[|idom|](_ => None);
      domNext := new seq<nat>[|idom|](_ => []);
      new;
      assert domPrev[..] == seq(|idom|, _ => None);
      assert domNext[..] == seq(|idom|, _ => []);
    }

    /** `dom_connect`; `fits` is false where the source stops with "Too many predecessors in
        dominator tree". */
    method DomConnect(pred: nat, succ: nat, ghost t: DomTree) returns (added: bool, fits: bool)
      requires Mirrored(t, domPrev[..], domNext[..]) && t.Done(succ) && succ != t.entry && pred == t.Up(succ)
      modifies domPrev, domNext
      ensures Mirrored(t, domPrev[..], domNext[..])
      ensures !added ==> domPrev[..] == old(domPrev[..])
      ensures fits ==> domPrev[..] == old(domPrev[..])[succ := Some(pred)]
      ensures fits ==> (added <==> old(domPrev[succ]) == None)
      ensures !fits ==> !added && TooMany(t)
    {
      if domPrev[succ].Some? {
        return false, true;
      }
      var i := 0;
      while i < |domNext[pred]|
        invariant 0 <= i <= |domNext[pred]|
      {
        assert domNext[pred][i] in domNext[pred] && InSync(domPrev[..], domNext[..], pred, domNext[pred][i]);
        if domNext[pred][i] == succ {
          return false, true;
        }
        i := i + 1;
      }
      if i > MAX_BB_DOM_SUCC - 1 {
        FullHere(t, domPrev[..], domNext[..], succ);
        return false, false;
      }
      Connected(t, domPrev[..], domNext[..], succ);
      domNext[pred] := domNext[pred] + [succ];
      domPrev[succ] := Some(pred);
      return true, true;
    }

    /** `bb_build_dom`: connects `bb` and everything above it that is not connected yet. */
    method BbBuildDom(bb: nat, ghost t: DomTree) returns (fits: bool)
      requires Mirrored(t, domPrev[..], domNext[..]) && NoGap(t, domPrev[..], t.entry)
      requires t.Done(bb) && t.idom == idom && t.entry == entry
      modifies domPrev, domNext
      ensures Mirrored(t, domPrev[..], domNext[..])
      ensures if fits then NoGap(t, domPrev[..], t.entry) && (bb != t.entry ==> domPrev[bb].Some?) else TooMany(t)
      ensures forall c: nat :: c < domPrev.Length && old(domPrev[c]).Some? ==> domPrev[c].Some?
    {
      var curr := bb;
      while curr != entry
        invariant Mirrored(t, domPrev[..], domNext[..]) && t.Done(curr) && NoGap(t, domPrev[..], curr)
        invariant curr != bb ==> bb != t.entry && domPrev[bb].Some?
        invariant forall c: nat :: c < domPrev.Length && old(domPrev[c]).Some? ==> domPrev[c].Some?
        decreases t.rpo[curr]
      {
        assert t.Up(curr) == idom[curr].value;
        var added, ok := DomConnect(idom[curr].value, curr, t);
        if !ok {
          return false;
        }
        if !added {
          break;
        }
        curr := idom[curr].value;
      }
      return true;
    }

    /** `build_dom` over the blocks in any order that holds every processed block; it stops only
        where some block has more children than fit. */
    method BuildDom(order: seq<nat>, ghost t: DomTree) returns (fits: bool)
      requires t.Valid() && t.idom == idom && t.entry == entry
      requires domPrev[..] == seq(|idom|, _ => None) && domNext[..] == seq(|idom|, _ => [])
      requires forall b: nat :: b in order <==> t.Done(b)
      modifies domPrev, domNext
      ensures if fits then ChildLists(t, domNext[..]) else TooMany(t)
    {
      for k := 0 to |order|
        invariant Mirrored(t, domPrev[..], domNext[..]) && NoGap(t, domPrev[..], t.entry)
        invariant forall j :: 0 <= j < k ==>
          order[j] < domPrev.Length && (order[j] != entry ==> domPrev[order[j]].Some?)
      {
        assert order[k] in order;
        var ok := BbBuildDom(order[k], t);
        if !ok {
          return false;
        }
      }
      AllConnected(t, domPrev[..], domNext[..]);
      return true;
    }
  }
}
