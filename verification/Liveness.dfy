/** Liveness analysis (src/ssa.c:2513-2741): local sets of each block, then an iteration to a
    fixpoint that is exactly liveness along paths. */
module Liveness {
  import opened Cfg
  import opened Options
  import opened Dfs
  import opened RegAlloc

  const MAX_ANALYSIS_STACK_SIZE := 800

  predicate Uses(i: Insn, v: nat)
  {
    Rs1(i) == Some(v) || Rs2(i) == Some(v)
  }

  ghost predicate KilledBefore(insns: seq<Insn>, j: nat, v: nat)
  {
    exists i :: 0 <= i < j && i < |insns| && Kills(insns[i]) == Some(v)
  }

  /** `v` is read at `j` before any instruction of the block kills it. */
  ghost predicate ExposedAt(insns: seq<Insn>, j: nat, v: nat)
  {
    j < |insns| && Uses(insns[j], v) && !KilledBefore(insns, j, v)
  }

  ghost predicate Exposed(insns: seq<Insn>, n: nat, v: nat)
  {
    exists j: nat :: j < n && ExposedAt(insns, j, v)
  }

  /** `c` is at least every position before `n` where `v` is read, and no more than it was or
      the last such position. */
  ghost predicate LastRead(insns: seq<Insn>, n: nat, v: nat, before: int, c: int)
  {
    && before <= c && (forall j: nat :: j < n && j < |insns| && Uses(insns[j], v) ==> j <= c)
    && (c == before || exists j: nat :: j < n && j < |insns| && Uses(insns[j], v) && c == j)
  }

  // ---- liveness along paths ------------------------------------------------------------------

  /** The first use of `v` after the first block of `p` is in its last block. */
  ghost predicate UsePath(g: Graph, gen: seq<seq<nat>>, kill: seq<seq<nat>>, p: seq<nat>, v: nat)
    requires |gen| == |kill| == |g|
  {
    IsPath(g, p) && |p| >= 2 && v in gen[p[|p| - 1]] && forall i :: 0 < i < |p| - 1 ==> v !in kill[p[i]]
  }

  ghost predicate LiveAfter(g: Graph, gen: seq<seq<nat>>, kill: seq<seq<nat>>, b: nat, v: nat)
    requires |gen| == |kill| == |g|
  {
    exists p :: UsePath(g, gen, kill, p, v) && p[0] == b
  }

  ghost predicate LiveBefore(gen: seq<seq<nat>>, kill: seq<seq<nat>>, out: seq<seq<nat>>, b: nat, v: nat)
    requires |gen| == |kill| == |out| && b < |gen|
  {
    v in gen[b] || (v in out[b] && v !in kill[b])
  }

  /** Live out of `b` according to the sets of its successors. */
  ghost predicate FromSuccs(g: Graph, gen: seq<seq<nat>>, kill: seq<seq<nat>>, out: seq<seq<nat>>, b: nat, v: nat)
    requires |gen| == |kill| == |out| == |g|
  {
    exists c: nat :: c < |g| && Edge(g, b, c) && LiveBefore(gen, kill, out, c, v)
  }

  ghost predicate Distinct(lists: seq<seq<nat>>)
  {
    forall b: nat :: b < |lists| ==> NoDup(lists[b])
  }

  /** Sound: what is in a set is live along some path. */
  ghost predicate Justified(g: Graph, gen: seq<seq<nat>>, kill: seq<seq<nat>>, out: seq<seq<nat>>)
    requires |gen| == |kill| == |out| == |g|
  {
    forall b: nat, v: nat :: b < |g| && v in out[b] ==> LiveAfter(g, gen, kill, b, v)
  }

  /** The sets only ever grow: each is within what its successors call for. */
  ghost predicate Rising(g: Graph, gen: seq<seq<nat>>, kill: seq<seq<nat>>, out: seq<seq<nat>>)
    requires |gen| == |kill| == |out| == |g|
  {
    forall b: nat, v: nat :: b < |g| && v in out[b] ==> FromSuccs(g, gen, kill, out, b, v)
  }

  /** Nothing is missing at `b`. */
  ghost predicate SettledAt(g: Graph, gen: seq<seq<nat>>, kill: seq<seq<nat>>, out: seq<seq<nat>>, b: nat)
    requires |gen| == |kill| == |out| == |g|
  {
    b < |g| ==> forall v: nat :: FromSuccs(g, gen, kill, out, b, v) ==> v in out[b]
  }

  /** At the fixpoint a variable is in `live_out` exactly if it is live along a path. */
  lemma FixpointIsLiveness(g: Graph, gen: seq<seq<nat>>, kill: seq<seq<nat>>, out: seq<seq<nat>>, b: nat, v: nat)
    requires |gen| == |kill| == |out| == |g| && Justified(g, gen, kill, out) && b < |g|
    requires forall c: nat :: c < |g| ==> SettledAt(g, gen, kill, out, c)
    ensures v in out[b] <==> LiveAfter(g, gen, kill, b, v)
  {
    if LiveAfter(g, gen, kill, b, v) {
      var p :| UsePath(g, gen, kill, p, v) && p[0] == b;
      UsePathFound(g, gen, kill, out, p, v, 0);
    }
  }

  lemma {:induction false} UsePathFound(g: Graph, gen: seq<seq<nat>>, kill: seq<seq<nat>>, out: seq<seq<nat>>,
                                        p: seq<nat>, v: nat, k: nat)
    requires |gen| == |kill| == |out| == |g| && UsePath(g, gen, kill, p, v) && k < |p| - 1
    requires forall c: nat :: c < |g| ==> SettledAt(g, gen, kill, out, c)
    ensures p[k] < |g| && v in out[p[k]]
    decreases |p| - k
  {
    if k < |p| - 2 {
      UsePathFound(g, gen, kill, out, p, v, k + 1);
    }
    assert Edge(g, p[k], p[k + 1]) && LiveBefore(gen, kill, out, p[k + 1], v);
    assert SettledAt(g, gen, kill, out, p[k]);
  }

  /** What the successors call for is live, if their own sets are justified. */
  lemma SuccsJustify(g: Graph, gen: seq<seq<nat>>, kill: seq<seq<nat>>, out: seq<seq<nat>>, b: nat, v: nat)
    requires WellFormed(g) && |gen| == |kill| == |out| == |g| && Justified(g, gen, kill, out)
    requires FromSuccs(g, gen, kill, out, b, v) && b < |g|
    ensures LiveAfter(g, gen, kill, b, v)
  {
    var c: nat :| c < |g| && Edge(g, b, c) && LiveBefore(gen, kill, out, c, v);
    if v in gen[c] {
      assert UsePath(g, gen, kill, [b, c], v);
    } else {
      var p :| UsePath(g, gen, kill, p, v) && p[0] == c;
      var q := [b] + p;
      forall i | 0 <= i < |q| - 1 ensures Edge(g, q[i], q[i + 1]) {
        if i > 0 {
          assert Edge(g, p[i - 1], p[i]);
        }
      }
      forall i | 0 < i < |q| - 1 ensures v !in kill[q[i]] {
      }
      assert UsePath(g, gen, kill, q, v) && q[0] == b;
    }
  }

  ghost predicate SameMembers(a: seq<nat>, b: seq<nat>)
  {
    forall v: nat {:trigger v in a} {:trigger v in b} :: v in a <==> v in b
  }

  /** Recomputing the set of one block keeps soundness and growth. */
  lemma UpdateKeeps(g: Graph, gen: seq<seq<nat>>, kill: seq<seq<nat>>, out: seq<seq<nat>>, b: nat, new_: seq<nat>)
    requires WellFormed(g) && |gen| == |kill| == |out| == |g| && b < |g|
    requires Justified(g, gen, kill, out) && Rising(g, gen, kill, out)
    requires forall v: nat :: v in new_ <==> FromSuccs(g, gen, kill, out, b, v)
    ensures Justified(g, gen, kill, out[b := new_]) && Rising(g, gen, kill, out[b := new_])
    ensures forall v: nat :: v in out[b] ==> v in new_
  {
    var out2 := out[b := new_];
    forall c: nat, v: nat | c < |g| && v in out2[c] ensures FromSuccs(g, gen, kill, out2, c, v) {
      assert FromSuccs(g, gen, kill, out, c, v);
      var d: nat :| d < |g| && Edge(g, c, d) && LiveBefore(gen, kill, out, d, v);
      assert LiveBefore(gen, kill, out2, d, v);
    }
    forall c: nat, v: nat | c < |g| && v in out2[c] ensures LiveAfter(g, gen, kill, c, v) {
      if c == b {
        SuccsJustify(g, gen, kill, out, b, v);
      }
    }
  }

  // ---- termination -----------------------------------------------------------------------------

  /** All pairs of a block and a variable live out of it. */
  ghost function Pairs(out: seq<seq<nat>>): (r: set<(nat, nat)>)
    ensures forall b: nat, v: nat :: (b, v) in r <==> b < |out| && v in out[b]
  {
    set b: nat, v: nat | b < |out| && v in out[b] :: (b, v)
  }

  ghost function Universe(n: nat, all: set<nat>): (r: set<(nat, nat)>)
    ensures forall b: nat, v: nat :: (b, v) in r <==> b < n && v in all
  {
    set b: nat, v: nat | b < n && v in all :: (b, v)
  }

  ghost predicate Within(out: seq<seq<nat>>, all: set<nat>)
  {
    forall b: nat, v: nat :: b < |out| && v in out[b] ==> v in all
  }

  lemma {:induction false} PairSetsLess(x: set<(nat, nat)>, y: set<(nat, nat)>)
    requires x < y
    ensures |x| < |y|
  {
    var e :| e in y && e !in x;
    var y2 := y - {e};
    if x != y2 {
      assert x < y2;
      PairSetsLess(x, y2);
    }
  }

  /** A change brings the sets closer to the universe. */
  lemma ChangeGrows(out: seq<seq<nat>>, b: nat, new_: seq<nat>, all: set<nat>)
    requires b < |out| && Within(out, all) && (forall v: nat :: v in new_ ==> v in all)
    requires (forall v: nat :: v in out[b] ==> v in new_) && exists v: nat :: v in new_ && v !in out[b]
    ensures var u := Universe(|out|, all); |u - Pairs(out[b := new_])| < |u - Pairs(out)|
  {
    var u := Universe(|out|, all);
    var v: nat :| v in new_ && v !in out[b];
    assert (b, v) in u - Pairs(out);
    assert (b, v) !in u - Pairs(out[b := new_]);
    PairSetsLess(u - Pairs(out[b := new_]), u - Pairs(out));
  }

  // ---- the lists -------------------------------------------------------------------------------

  /** `var_list_add_var` */
  function AddVar(list: seq<nat>, v: nat): (r: seq<nat>)
    requires NoDup(list)
    ensures NoDup(r) && list <= r && forall u: nat :: u in r <==> u in list || u == v
  {
    if v in list then list else list + [v]
  }

  lemma MembersBound(list: seq<nat>, all: set<nat>)
    requires NoDup(list) && forall v: nat :: v in list ==> v in all
    ensures |list| <= |all|
  {
    ElemsSize(list);
    SubsetSize(Elems(list), all);
  }

  lemma SameSizeSameMembers(a: seq<nat>, b: seq<nat>)
    requires NoDup(a) && NoDup(b) && |a| == |b| && forall v: nat :: v in a ==> v in b
    ensures SameMembers(a, b)
  {
    ElemsSize(a);
    ElemsSize(b);
    SubsetSame(Elems(a), Elems(b));
    forall v: nat ensures v in a <==> v in b {
      assert v in Elems(a) <==> v in Elems(b);
    }
  }

  lemma SubsetSame(a: set<nat>, b: set<nat>)
    requires a <= b && |a| == |b|
    ensures a == b
  {
    if v: nat :| v in b && v !in a {
      SubsetSize(a, b - {v});
    }
  }

  class Analysis {
    const g: Graph
    const isGlobal: seq<bool>
    const liveGen: array<seq<nat>>
    const liveKill: array<seq<nat>>
    const liveIn: array<seq<nat>>
    const liveOut: array<seq<nat>>
    const consumed: array<int>

    constructor (g: Graph, isGlobal: seq<bool>)
      ensures this.g == g && this.isGlobal == isGlobal && Valid()
      ensures fresh(liveGen) && fresh(liveKill) && fresh(liveIn) && fresh(liveOut) && fresh(consumed)
      ensures liveGen[..] == liveKill[..] == liveIn[..] == liveOut[..] == seq(|g|, _ => [])
      ensures consumed[..] == seq(|isGlobal|, _ => -1)
    {
      this.g, this.isGlobal := g, isGlobal;
      liveGen := new seq<nat>[|g|](_ => []);
      liveKill := new seq<nat>[|g|](_ => []);
      liveIn := new seq<nat>[|g|](_ => []);
      liveOut := new seq<nat>[|g|](_ => []);
      consumed := new int[|isGlobal|](_ => -1);
      new;
      assert liveGen[..] == seq(|g|, _ => []);
      assert liveKill[..] == seq(|g|, _ => []);
      assert liveIn[..] == seq(|g|, _ => []);
      assert liveOut[..] == seq(|g|, _ => []);
      assert consumed[..] == seq(|isGlobal|, _ => -1);
    }

    ghost predicate Valid()
      reads liveGen, liveKill, liveIn, liveOut
    {
      && liveGen.Length == liveKill.Length == liveIn.Length == liveOut.Length == |g| && consumed.Length == |isGlobal|
      && liveGen != liveKill && liveGen != liveIn && liveGen != liveOut && liveKill != liveIn && liveKill != liveOut
      && liveIn != liveOut
      && Distinct(liveGen[..]) && Distinct(liveKill[..]) && Distinct(liveIn[..]) && Distinct(liveOut[..])
    }

    method VarListAddVar(lists: array<seq<nat>>, b: nat, v: nat)
      requires b < lists.Length && NoDup(lists[b])
      modifies lists
      ensures lists[..] == old(lists[..])[b := AddVar(old(lists[b]), v)]
    {
      var i := 0;
      while i < |lists[b]|
        invariant 0 <= i <= |lists[b]| && v !in lists[b][..i]
      {
        if lists[b][i] == v {
          return;
        }
        i := i + 1;
      }
      lists[b] := lists[b] + [v];
    }

    method VarCheckKilled(b: nat, v: nat) returns (killed: bool)
      requires b < liveKill.Length
      ensures killed <==> v in liveKill[b]
    {
      for i := 0 to |liveKill[b]|
        invariant v !in liveKill[b][..i]
      {
        if liveKill[b][i] == v {
          return true;
        }
      }
      assert liveKill[b][..|liveKill[b]|] == liveKill[b];
      return false;
    }

    /** One operand of the instruction at `idx`. */
    method UseOperand(b: nat, idx: int, v: nat)
      requires Valid() && b < |g| && v < |isGlobal|
      modifies liveGen, consumed
      ensures Valid()
      ensures liveGen[..] == old(liveGen[..])[b := if v in liveKill[b] || isGlobal[v] then old(liveGen[b])
                                                   else AddVar(old(liveGen[b]), v)]
      ensures consumed[..] == old(consumed[..])[v := if idx > old(consumed[v]) then idx else old(consumed[v])]
    {
      var killed := VarCheckKilled(b, v);
      if !killed && !isGlobal[v] {
        VarListAddVar(liveGen, b, v);
      }
      if idx > consumed[v] {
        consumed[v] := idx;
      }
    }

    /** What is known after the first `n` instructions of block `b`. */
    ghost predicate Solved(insns: seq<Insn>, b: nat, n: nat, gen0: seq<nat>, read0: seq<int>)
      requires Valid() && b < |g| && n <= |insns| && |read0| == |isGlobal|
      reads liveGen, liveKill, liveIn, liveOut, consumed
    {
      && (forall v: nat :: v in liveKill[b] <==> KilledBefore(insns, n, v))
      && (forall v: nat :: v in liveGen[b] <==> v in gen0 || (v < |isGlobal| && !isGlobal[v] && Exposed(insns, n, v)))
      && (forall v: nat :: v < |isGlobal| ==> LastRead(insns, n, v, read0[v], consumed[v]))
    }

    /** One instruction of block `b`. */
    method SolveInsn(b: nat, insns: seq<Insn>, i: nat, ghost gen0: seq<nat>, ghost read0: seq<int>)
      requires Valid() && b < |g| && i < |insns| && VarsBelow(insns[i], |isGlobal|) && |read0| == |isGlobal|
      requires Solved(insns, b, i, gen0, read0)
      modifies liveGen, liveKill, consumed
      ensures Valid() && Solved(insns, b, i + 1, gen0, read0)
      ensures liveGen[..] == old(liveGen[..])[b := liveGen[b]] && liveKill[..] == old(liveKill[..])[b := liveKill[b]]
    {
      hide KilledBefore, Exposed, LastRead;
      ghost var gen1, kill1, read1 := liveGen[b], liveKill[b], consumed[..];
      match Rs1(insns[i]) {
        case None =>
        case Some(v) => UseOperand(b, i, v);
      }
      match Rs2(insns[i]) {
        case None =>
        case Some(v) => UseOperand(b, i, v);
      }
      ghost var gen2, read2 := liveGen[b], consumed[..];
      assert forall v: nat :: v in gen2 <==> v in gen1 || (Uses(insns[i], v) && v !in kill1 && !isGlobal[v]);
      match Kills(insns[i]) {
        case None =>
        case Some(v) => VarListAddVar(liveKill, b, v);
      }
      forall v: nat ensures v in liveKill[b] <==> KilledBefore(insns, i + 1, v) {
        KilledNext(insns, i, v);
      }
      forall v: nat ensures v in gen2 <==> v in gen0 || (v < |isGlobal| && !isGlobal[v] && Exposed(insns, i + 1, v)) {
        ExposedNext(insns, i, v);
      }
      forall v: nat | v < |isGlobal| ensures LastRead(insns, i + 1, v, read0[v], read2[v]) {
        LastReadNext(insns, i, v, read0[v], read1[v], read2[v]);
      }
    }

    /** `bb_reset_and_solve_locals` */
    method SolveLocals(b: nat, insns: seq<Insn>)
      requires Valid() && b < |g| && forall j :: 0 <= j < |insns| ==> VarsBelow(insns[j], |isGlobal|)
      modifies liveGen, liveKill, consumed
      ensures Valid() && Solved(insns, b, |insns|, old(liveGen[b]), old(consumed[..]))
      ensures liveGen[..] == old(liveGen[..])[b := liveGen[b]] && liveKill[..] == old(liveKill[..])[b := liveKill[b]]
    {
      ghost var gen0, read0 := liveGen[b], consumed[..];
      liveKill[b] := [];
      for i := 0 to |insns|
        invariant Valid() && Solved(insns, b, i, gen0, read0)
        invariant liveGen[..] == old(liveGen[..])[b := liveGen[b]]
        invariant liveKill[..] == old(liveKill[..])[b := liveKill[b]]
      {
        SolveInsn(b, insns, i, gen0, read0);
      }
    }

    /** `compute_live_in` */
    method ComputeLiveIn(b: nat)
      requires Valid() && b < |g|
      modifies liveIn
      ensures Valid() && liveIn[..] == old(liveIn[..])[b := liveIn[b]]
      ensures forall v: nat :: v in liveIn[b] <==> LiveBefore(liveGen[..], liveKill[..], liveOut[..], b, v)
    {
      liveIn[b] := [];
      for i := 0 to |liveOut[b]|
        invariant Valid() && liveIn[..] == old(liveIn[..])[b := liveIn[b]]
        invariant forall v: nat :: v in liveIn[b] <==> v in liveOut[b][..i] && v !in liveKill[b]
      {
        var killed := VarCheckKilled(b, liveOut[b][i]);
        if killed {
          continue;
        }
        VarListAddVar(liveIn, b, liveOut[b][i]);
      }
      assert liveOut[b][..|liveOut[b]|] == liveOut[b];
      for i := 0 to |liveGen[b]|
        invariant Valid() && liveIn[..] == old(liveIn[..])[b := liveIn[b]]
        invariant forall v: nat :: v in liveIn[b] <==> (v in liveOut[b] && v !in liveKill[b]) || v in liveGen[b][..i]
      {
        VarListAddVar(liveIn, b, liveGen[b][i]);
      }
      assert liveGen[b][..|liveGen[b]|] == liveGen[b];
    }

    /** The search `merge_live_in` uses on longer lists: four at a time, then the rest. */
    static method SearchUnrolled(list: array<nat>, n: nat, v: nat) returns (found: bool)
      requires n <= list.Length
      ensures found <==> v in list[..n]
    {
      found := false;
      var j := 0;
      while j + 3 < n
        invariant 0 <= j <= n && v !in list[..j]
      {
        if list[j] == v || list[j + 1] == v || list[j + 2] == v || list[j + 3] == v {
          return true;
        }
        assert list[..j + 4] == list[..j] + [list[j], list[j + 1], list[j + 2], list[j + 3]];
        j := j + 4;
      }
      while j < n
        invariant 0 <= j <= n && v !in list[..j]
      {
        if list[j] == v {
          return true;
        }
        j := j + 1;
      }
    }

    static method SearchLinear(list: array<nat>, n: nat, v: nat) returns (found: bool)
      requires n <= list.Length
      ensures found <==> v in list[..n]
    {
      for j := 0 to n
        invariant v !in list[..j]
      {
        if list[j] == v {
          return true;
        }
      }
      return false;
    }

    /** `merge_live_in`: set union without duplicates. */
    method MergeLiveIn(list: array<nat>, n: nat, b: nat, ghost all: set<nat>) returns (m: nat)
      requires Valid() && b < |g| && list.Length == MAX_ANALYSIS_STACK_SIZE && n <= list.Length && NoDup(list[..n])
      requires |all| <= MAX_ANALYSIS_STACK_SIZE
      requires forall v: nat :: v in list[..n] || v in liveIn[b] ==> v in all
      modifies list
      ensures n <= m <= list.Length && NoDup(list[..m])
      ensures forall v: nat :: v in list[..m] <==> v in old(list[..n]) || v in liveIn[b]
    {
      ghost var list0 := list[..n];
      m := n;
      if |liveIn[b]| == 0 {
        return;
      }
      for i := 0 to |liveIn[b]|
        invariant n <= m <= list.Length && NoDup(list[..m])
        invariant forall v: nat :: v in list[..m] <==> v in list0 || v in liveIn[b][..i]
      {
        var v, found := liveIn[b][i], false;
        if n < 16 {
          found := SearchLinear(list, m, v);
        } else {
          found := SearchUnrolled(list, m, v);
        }
        ghost var was := list[..m];
        if !found {
          MembersBound(was + [v], all);
          if m < MAX_ANALYSIS_STACK_SIZE {
            list[m] := v;
            m := m + 1;
            assert list[..m] == was + [v];
          }
        }
      }
      assert liveIn[b][..|liveIn[b]|] == liveIn[b];
    }

    /** The successor behind one of the three pointers, if there is one. */
    method MergePointer(list: array<nat>, n: nat, o: Option<nat>, ghost all: set<nat>) returns (m: nat)
      requires Valid() && InFunction(g, o)
      requires list.Length == MAX_ANALYSIS_STACK_SIZE && n <= list.Length && NoDup(list[..n])
      requires Bounded(all) && forall v: nat :: v in list[..n] ==> v in all
      modifies list, liveIn
      ensures Valid() && n <= m <= list.Length && NoDup(list[..m])
      ensures forall v: nat :: v in list[..m] <==> v in old(list[..n]) || Behind(o, v)
    {
      m := n;
      match o {
        case None =>
        case Some(c) =>
          ComputeLiveIn(c);
          m := MergeLiveIn(list, n, c, all);
      }
    }

    ghost predicate Behind(o: Option<nat>, v: nat)
      requires liveGen.Length == liveKill.Length == liveOut.Length == |g| && InFunction(g, o)
      reads liveGen, liveKill, liveOut
    {
      o.Some? && LiveBefore(liveGen[..], liveKill[..], liveOut[..], o.value, v)
    }

    /** No more variables than `live_out` has room for. */
    ghost predicate Bounded(all: set<nat>)
      requires liveGen.Length == liveKill.Length == liveOut.Length == |g|
      reads liveGen, liveKill, liveOut
    {
      && |all| <= MAX_ANALYSIS_STACK_SIZE
      && forall b: nat, v: nat :: b < |g| && LiveBefore(liveGen[..], liveKill[..], liveOut[..], b, v) ==> v in all
    }

    /** `recompute_live_out` */
    method RecomputeLiveOut(b: nat, ghost all: set<nat>) returns (changed: bool)
      requires Valid() && WellFormed(g) && b < |g| && Bounded(all)
      modifies liveIn, liveOut
      ensures Valid() && liveOut[..] == old(liveOut[..])[b := liveOut[b]]
      ensures forall v: nat :: v in liveOut[b] <==> FromSuccs(g, liveGen[..], liveKill[..], old(liveOut[..]), b, v)
      ensures changed <==> !SameMembers(old(liveOut[b]), liveOut[b])
      ensures !changed ==> liveOut[..] == old(liveOut[..])
    {
      ghost var out := liveOut[..];
      var list := new nat[MAX_ANALYSIS_STACK_SIZE];
      var n := MergePointer(list, 0, g[b].next, all);
      n := MergePointer(list, n, g[b].then_, all);
      n := MergePointer(list, n, g[b].else_, all);
      forall v: nat ensures v in list[..n] <==> FromSuccs(g, liveGen[..], liveKill[..], out, b, v) {
        SuccsAre(g, liveGen[..], liveKill[..], out, b, v);
      }
      changed := DiffersFrom(list, n, b);
      if changed {
        liveOut[b] := list[..n];
      }
    }

    /** The comparison at the end of `recompute_live_out`: by size, by the first element, then
        element by element. */
    method DiffersFrom(list: array<nat>, n: nat, b: nat) returns (differs: bool)
      requires Valid() && b < |g| && n <= list.Length && NoDup(list[..n])
      ensures differs <==> !SameMembers(liveOut[b], list[..n])
    {
      if |liveOut[b]| != n {
        DifferentSize(liveOut[b], list[..n]);
        return true;
      }
      if n > 0 {
        var first := IsIn(list[0], b);
        if !first {
          assert list[..n][0] == list[0];
          return true;
        }
      }
      for i := 0 to n
        invariant forall k :: 0 <= k < i ==> list[k] in liveOut[b]
      {
        var same := IsIn(list[i], b);
        if !same {
          assert list[..n][i] == list[i];
          return true;
        }
      }
      SameSizeSameMembers(list[..n], liveOut[b]);
      return false;
    }

    method IsIn(v: nat, b: nat) returns (found: bool)
      requires b < liveOut.Length
      ensures found <==> v in liveOut[b]
    {
      for j := 0 to |liveOut[b]|
        invariant v !in liveOut[b][..j]
      {
        if liveOut[b][j] == v {
          return true;
        }
      }
      assert liveOut[b][..|liveOut[b]|] == liveOut[b];
      return false;
    }

    /** Everything the iteration maintains. */
    ghost predicate Iterating(all: set<nat>)
      reads liveGen, liveKill, liveIn, liveOut
    {
      && Valid() && WellFormed(g) && Bounded(all) && Within(liveOut[..], all)
      && Justified(g, liveGen[..], liveKill[..], liveOut[..]) && Rising(g, liveGen[..], liveKill[..], liveOut[..])
    }

    /** `liveness_analysis` for one function: passes over the blocks from the exit along
        `rpo_r_next` until one changes nothing. */
    method SolveLiveOut(exit: nat, rpoRNext: seq<Option<nat>>, ghost order: seq<nat>, ghost all: set<nat>)
      requires Iterating(all) && Linked(order, rpoRNext) && |order| > 0 && order[0] == exit
      requires forall b: nat :: b < |g| <==> b in order
      modifies liveIn, liveOut
      ensures Valid()
      ensures forall b: nat, v: nat :: b < |g| ==> (v in liveOut[b] <==> LiveAfter(g, liveGen[..], liveKill[..], b, v))
    {
      hide Justified, Rising, Distinct, LiveAfter, FromSuccs, Within;
      ghost var gen, kill, u := liveGen[..], liveKill[..], Universe(|g|, all);
      var changed := true;
      while changed
        invariant Iterating(all) && liveGen[..] == gen && liveKill[..] == kill
        invariant !changed ==> forall b: nat :: b < |g| ==> SettledAt(g, gen, kill, liveOut[..], b)
        decreases |u - Pairs(liveOut[..])|, changed
      {
        changed := OnePass(exit, rpoRNext, order, all);
      }
      forall b: nat, v: nat | b < |g| ensures v in liveOut[b] <==> LiveAfter(g, gen, kill, b, v) {
        FixpointIsLiveness(g, gen, kill, liveOut[..], b, v);
      }
    }

    /** One pass over the list. */
    method OnePass(exit: nat, rpoRNext: seq<Option<nat>>, ghost order: seq<nat>, ghost all: set<nat>)
      returns (changed: bool)
      requires Iterating(all) && Linked(order, rpoRNext) && |order| > 0 && order[0] == exit
      requires forall b: nat :: b < |g| <==> b in order
      modifies liveIn, liveOut
      ensures Iterating(all)
      ensures var u := Universe(|g|, all);
              if changed then |u - Pairs(liveOut[..])| < |u - Pairs(old(liveOut[..]))|
                else liveOut[..] == old(liveOut[..])
      ensures !changed ==> forall b: nat :: b < |g| ==> SettledAt(g, liveGen[..], liveKill[..], liveOut[..], b)
    {
      hide Justified, Rising, Distinct, LiveAfter, FromSuccs, Within, SettledAt, Pairs, Universe, LiveBefore;
      ghost var gen, kill, u, out0, k := liveGen[..], liveKill[..], Universe(|g|, all), liveOut[..], 0;
      changed := false;
      var cur: Option<nat> := Some(exit);
      while cur.Some?
        invariant 0 <= k <= |order| && cur == if k < |order| then Some(order[k]) else None
        invariant Iterating(all)
        invariant if changed then |u - Pairs(liveOut[..])| < |u - Pairs(out0)| else liveOut[..] == out0
        invariant !changed ==> forall i :: 0 <= i < k ==> SettledAt(g, gen, kill, out0, order[i])
        decreases |order| - k
      {
        assert order[k] in order;
        var b := cur.value;
        ghost var out := liveOut[..];
        var different := RecomputeLiveOut(b, all);
        RecomputeKeeps(g, gen, kill, out, b, liveOut[b], all, different);
        changed := changed || different;
        cur := rpoRNext[b];
        k := k + 1;
      }
      forall b: nat | !changed && b < |g| ensures SettledAt(g, gen, kill, out0, b) {
        assert b in order;
      }
    }

    /** Local sets of the first `k` blocks, nothing yet for the others. */
    ghost predicate LocalsKnown(blocks: seq<seq<Insn>>, k: nat)
      requires Valid() && |blocks| == |g| && k <= |g|
      reads liveGen, liveKill, liveIn, liveOut, consumed
    {
      && (forall b: nat :: b < k ==> SetsOf(blocks[b], isGlobal, liveGen[b], liveKill[b]))
      && (forall b: nat :: k <= b < |g| ==> liveGen[b] == [])
      && (forall v: nat :: v < |isGlobal| ==> ConsumedIs(blocks, k, v, consumed[v]))
    }

    method SolveAllLocals(blocks: seq<seq<Insn>>)
      requires Valid() && |blocks| == |g| && liveGen[..] == seq(|g|, _ => [])
      requires consumed[..] == seq(|isGlobal|, _ => -1)
      requires forall b: nat, j :: b < |blocks| && 0 <= j < |blocks[b]| ==> VarsBelow(blocks[b][j], |isGlobal|)
      modifies liveGen, liveKill, consumed
      ensures Valid() && LocalsKnown(blocks, |g|)
    {
      hide KilledBefore, Exposed;
      for k := 0 to |g|
        invariant Valid() && LocalsKnown(blocks, k)
      {
        ghost var gen0, kill0, read0 := liveGen[..], liveKill[..], consumed[..];
        SolveLocals(k, blocks[k]);
        assert SetsOf(blocks[k], isGlobal, liveGen[k], liveKill[k]);
        forall b: nat | b < k ensures SetsOf(blocks[b], isGlobal, liveGen[b], liveKill[b]) {
          assert liveGen[b] == gen0[b] && liveKill[b] == kill0[b];
        }
        forall b: nat | k < b < |g| ensures liveGen[b] == [] {
          assert liveGen[b] == gen0[b];
        }
        forall v: nat | v < |isGlobal| ensures ConsumedIs(blocks, k + 1, v, consumed[v]) {
          ConsumedNext(blocks, k, v, read0[v], consumed[v]);
        }
      }
    }

    /** Parameters count as killed by the entry block. */
    method KillParams(entry: nat, params: seq<nat>)
      requires Valid() && entry < |g|
      modifies liveKill
      ensures Valid() && liveKill[..] == old(liveKill[..])[entry := liveKill[entry]]
      ensures forall v: nat :: v in liveKill[entry] <==> v in old(liveKill[entry]) || v in params
    {
      ghost var kill0 := liveKill[entry];
      for i := 0 to |params|
        invariant Valid() && liveKill[..] == old(liveKill[..])[entry := liveKill[entry]]
        invariant forall v: nat :: v in liveKill[entry] <==> v in kill0 || v in params[..i]
      {
        VarListAddVar(liveKill, entry, params[i]);
      }
      assert params[..|params|] == params;
    }

    /** `liveness_analysis` for one function. */
    method LivenessAnalysis(blocks: seq<seq<Insn>>, entry: nat, params: seq<nat>, exit: nat, rpoRNext: seq<Option<nat>>,
                            ghost order: seq<nat>)
      requires Valid() && WellFormed(g) && |blocks| == |g| && entry < |g|
      requires liveGen[..] == liveOut[..] == seq(|g|, _ => []) && consumed[..] == seq(|isGlobal|, _ => -1)
      requires forall b: nat, j :: b < |blocks| && 0 <= j < |blocks[b]| ==> VarsBelow(blocks[b][j], |isGlobal|)
      requires |AllExposed(blocks, |isGlobal|)| <= MAX_ANALYSIS_STACK_SIZE
      requires Linked(order, rpoRNext) && |order| > 0 && order[0] == exit && forall b: nat :: b < |g| <==> b in order
      modifies liveGen, liveKill, liveIn, liveOut, consumed
      ensures Valid() && Analysed(blocks, entry, params)
    {
      hide KilledBefore, Exposed, ConsumedIs, LiveAfter, Universe;
      assert forall b: nat :: b < |g| ==> liveOut[b] == [];
      SolveAllLocals(blocks);
      ghost var gen, kill1 := liveGen[..], liveKill[..];
      KillParams(entry, params);
      ghost var all := AllExposed(blocks, |isGlobal|);
      forall b: nat | b < |g|
        ensures SetsOf(blocks[b], isGlobal, gen[b], kill1[b])
        ensures forall v: nat :: v in liveKill[b] <==> v in kill1[b] || (b == entry && v in params)
      {
        assert SetsOf(blocks[b], isGlobal, liveGen[b], kill1[b]);
        assert b != entry ==> liveKill[b] == kill1[b];
      }
      forall b: nat, v: nat | b < |g| && v in gen[b] ensures v in all {
        assert SetsOf(blocks[b], isGlobal, gen[b], kill1[b]);
        assert ExposedIn(blocks[b], v);
      }
      assert LocalsAre(blocks, entry, params);
      SolveLiveOut(exit, rpoRNext, order, all);
    }

    /** The result: local sets, last reads and exact liveness. */
    ghost predicate Analysed(blocks: seq<seq<Insn>>, entry: nat, params: seq<nat>)
      requires Valid() && |blocks| == |g|
      reads liveGen, liveKill, liveIn, liveOut, consumed
    {
      && LocalsAre(blocks, entry, params)
      && (forall b: nat, v: nat :: b < |g| ==> (v in liveOut[b] <==> LiveAfter(g, liveGen[..], liveKill[..], b, v)))
    }

    ghost predicate LocalsAre(blocks: seq<seq<Insn>>, entry: nat, params: seq<nat>)
      requires Valid() && |blocks| == |g|
      reads liveGen, liveKill, liveIn, liveOut, consumed
    {
      && (forall b: nat, v: nat :: b < |g| ==>
            (v in liveKill[b] <==> KilledBefore(blocks[b], |blocks[b]|, v) || (b == entry && v in params)))
      && (forall b: nat, v: nat :: b < |g| ==>
            (v in liveGen[b] <==> v < |isGlobal| && !isGlobal[v] && Exposed(blocks[b], |blocks[b]|, v)))
      && (forall v: nat :: v < |isGlobal| ==> ConsumedIs(blocks, |g|, v, consumed[v]))
    }
  }

  /** `gen` and `kill` are right for a block. */
  ghost predicate SetsOf(insns: seq<Insn>, isGlobal: seq<bool>, gen: seq<nat>, kill: seq<nat>)
  {
    && (forall v: nat :: v in kill <==> KilledBefore(insns, |insns|, v))
    && (forall v: nat :: v in gen <==> v < |isGlobal| && !isGlobal[v] && Exposed(insns, |insns|, v))
  }

  ghost predicate ExposedIn(block: seq<Insn>, v: nat)
  {
    Exposed(block, |block|, v)
  }

  ghost function AllExposed(blocks: seq<seq<Insn>>, n: nat): (r: set<nat>)
    ensures forall v: nat :: v in r <==> v < n && Somewhere(blocks, v)
  {
    set v: nat | v < n && Somewhere(blocks, v)
  }

  ghost predicate Somewhere(blocks: seq<seq<Insn>>, v: nat)
  {
    exists b: nat :: b < |blocks| && ExposedIn(blocks[b], v)
  }

  /** The position of the last read of `v`, over all blocks; -1 if it is never read. */
  ghost predicate ConsumedIs(blocks: seq<seq<Insn>>, k: nat, v: nat, c: int)
    requires k <= |blocks|
  {
    && (forall b: nat, j: nat :: b < k && j < |blocks[b]| && Uses(blocks[b][j], v) ==> j <= c)
    && (c == -1 || exists b: nat, j: nat :: b < k && j < |blocks[b]| && Uses(blocks[b][j], v) && c == j)
  }

  lemma ConsumedNext(blocks: seq<seq<Insn>>, k: nat, v: nat, c: int, c2: int)
    requires k < |blocks| && ConsumedIs(blocks, k, v, c) && LastRead(blocks[k], |blocks[k]|, v, c, c2)
    ensures ConsumedIs(blocks, k + 1, v, c2)
  {
    if c2 != c {
      var j: nat :| j < |blocks[k]| && Uses(blocks[k][j], v) && c2 == j;
      assert Uses(blocks[k][j], v);
    } else if c != -1 {
      var b: nat, j: nat :| b < k && j < |blocks[b]| && Uses(blocks[b][j], v) && c == j;
      assert Uses(blocks[b][j], v);
    }
  }

  /** `order` is the list that starts at its first block and follows `next`. */
  ghost predicate Linked(order: seq<nat>, next: seq<Option<nat>>)
  {
    forall i :: 0 <= i < |order| ==>
      order[i] < |next| && next[order[i]] == if i + 1 < |order| then Some(order[i + 1]) else None
  }

  lemma DifferentSize(a: seq<nat>, b: seq<nat>)
    requires NoDup(a) && NoDup(b) && |a| != |b|
    ensures !SameMembers(a, b)
  {
    if SameMembers(a, b) {
      ElemsSize(a);
      ElemsSize(b);
      SubsetSize(Elems(a), Elems(b));
      SubsetSize(Elems(b), Elems(a));
    }
  }

  lemma SuccsAre(g: Graph, gen: seq<seq<nat>>, kill: seq<seq<nat>>, out: seq<seq<nat>>, b: nat, v: nat)
    requires WellFormed(g) && |gen| == |kill| == |out| == |g| && b < |g|
    ensures FromSuccs(g, gen, kill, out, b, v) <==>
            exists o :: o in [g[b].next, g[b].then_, g[b].else_] && o.Some? && LiveBefore(gen, kill, out, o.value, v)
  {
    forall o | o in [g[b].next, g[b].then_, g[b].else_] && o.Some? ensures Edge(g, b, o.value) && o.value < |g| {
    }
    if FromSuccs(g, gen, kill, out, b, v) {
      var c: nat :| c < |g| && Edge(g, b, c) && LiveBefore(gen, kill, out, c, v);
      assert Some(c) in [g[b].next, g[b].then_, g[b].else_];
    }
  }

  /** One recomputation inside the iteration. */
  lemma RecomputeKeeps(g: Graph, gen: seq<seq<nat>>, kill: seq<seq<nat>>, out: seq<seq<nat>>, b: nat, new_: seq<nat>,
                       all: set<nat>, different: bool)
    requires WellFormed(g) && |gen| == |kill| == |out| == |g| && b < |g| && Within(out, all)
    requires Justified(g, gen, kill, out) && Rising(g, gen, kill, out)
    requires forall c: nat, v: nat :: c < |g| && LiveBefore(gen, kill, out, c, v) ==> v in all
    requires forall v: nat :: v in new_ <==> FromSuccs(g, gen, kill, out, b, v)
    requires different <==> !SameMembers(out[b], new_)
    ensures var out2 := out[b := new_];
            && Justified(g, gen, kill, out2) && Rising(g, gen, kill, out2) && Within(out2, all)
            && (forall c: nat, v: nat :: c < |g| && LiveBefore(gen, kill, out2, c, v) ==> v in all)
            && (different ==> var u := Universe(|g|, all); |u - Pairs(out2)| < |u - Pairs(out)|)
    ensures !different ==> SettledAt(g, gen, kill, out, b)
  {
    UpdateKeeps(g, gen, kill, out, b, new_);
    var out2 := out[b := new_];
    forall v: nat | v in new_ ensures v in all {
    }
    forall c: nat, v: nat | c < |g| && LiveBefore(gen, kill, out2, c, v) ensures v in all {
      if c != b {
        assert LiveBefore(gen, kill, out, c, v);
      } else if v in gen[c] {
        assert LiveBefore(gen, kill, out, c, v);
      }
    }
    if different {
      assert exists v: nat :: v in new_ && v !in out[b];
      ChangeGrows(out, b, new_, all);
    }
  }

  lemma KilledNext(insns: seq<Insn>, j: nat, v: nat)
    requires j < |insns|
    ensures KilledBefore(insns, j + 1, v) <==> KilledBefore(insns, j, v) || Kills(insns[j]) == Some(v)
  {
  }

  lemma LastReadNext(insns: seq<Insn>, n: nat, v: nat, before: int, c: int, c2: int)
    requires n < |insns| && LastRead(insns, n, v, before, c)
    requires c2 == if Uses(insns[n], v) && n > c then n else c
    ensures LastRead(insns, n + 1, v, before, c2)
  {
  }

  lemma ExposedNext(insns: seq<Insn>, n: nat, v: nat)
    requires n < |insns|
    ensures Exposed(insns, n + 1, v) <==> Exposed(insns, n, v) || ExposedAt(insns, n, v)
  {
  }
}
