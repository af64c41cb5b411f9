/** Instructions as SSA construction sees them, and `solve_phi_insertion` (src/ssa.c). */
module PhiPlacement {
  import opened Options
  import opened Dfs

  /** A variable of the source program and, after renaming, its subscript. */
  datatype Name = Name(base: nat, sub: Option<nat>)

  datatype Insn =
    | Phi(dest: Name)
    | Op(rd: Option<Name>, rs1: Option<Name>, rs2: Option<Name>)

  const PHI_WORKLIST_SIZE := 128

  /** What the filters of `solve_phi_insertion` look at for one variable: the blocks in whose
      scope it is visible, the blocks that declare it, and its flags. */
  datatype VarInfo = VarInfo(id: nat, visible: set<nat>, declaredIn: set<nat>, isGlobal: bool,
                             isTernaryRet: bool, isLogicalRet: bool)
  {
    ghost predicate Passes(df: nat, exit: nat) {
      df in visible && df !in declaredIn && df != exit && !isGlobal
    }

    /** Temporaries of `?:`, `&&` and `||` get phis in the frontier of their definitions only. */
    ghost predicate Spreads() {
      !isTernaryRet && !isLogicalRet
    }
  }

  /** `s` holds the filtered frontier of every definition and, for a spreading variable, of
      every block of `s` itself. */
  ghost predicate ClosedPhis(v: VarInfo, df: seq<seq<nat>>, exit: nat, refs: seq<nat>, s: set<nat>)
  {
    forall d: nat, y: nat ::
      d < |df| && (d in refs || (v.Spreads() && d in s)) && y in df[d] && v.Passes(y, exit) ==> y in s
  }

  ghost predicate LeastPhis(v: VarInfo, df: seq<seq<nat>>, exit: nat, refs: seq<nat>, s: set<nat>)
  {
    && ClosedPhis(v, df, exit, refs, s)
    && forall s2: set<nat> :: ClosedPhis(v, df, exit, refs, s2) ==> s <= s2
  }

  /** From `d` into its frontier, to a block where the variable is visible and that neither declares
      it nor is the exit. */
  ghost predicate FrontierStep(v: VarInfo, df: seq<seq<nat>>, exit: nat, d: nat, y: nat)
  {
    d < |df| && y in df[d] && y in v.visible && y !in v.declaredIn && y != exit
  }

  /** Such steps from a block of `refs`; a temporary of `?:`, `&&` or `||` takes one, a global
      variable none. */
  ghost predicate FrontierChain(v: VarInfo, df: seq<seq<nat>>, exit: nat, refs: seq<nat>, p: seq<nat>)
  {
    && |p| >= 2 && !v.isGlobal && p[0] in refs && (v.isTernaryRet || v.isLogicalRet ==> |p| == 2)
    && (forall i :: 0 <= i < |p| ==> p[i] < |df|)
    && (forall i :: 0 < i < |p| ==> FrontierStep(v, df, exit, p[i - 1], p[i]))
  }

  ghost predicate Chained(v: VarInfo, df: seq<seq<nat>>, exit: nat, refs: seq<nat>, y: nat)
  {
    exists p: seq<nat> :: FrontierChain(v, df, exit, refs, p) && p[|p| - 1] == y
  }

  /** A block is at the end of such a chain if and only if it belongs to the least closed set. */
  lemma LeastIsChained(v: VarInfo, df: seq<seq<nat>>, exit: nat, refs: seq<nat>, s: set<nat>)
    requires LeastPhis(v, df, exit, refs, s) && forall b: nat :: b < |df| ==> InRange(df[b], |df|)
    ensures forall y: nat :: y in s <==> Chained(v, df, exit, refs, y)
  {
    var ends := set y: nat | y < |df| && Chained(v, df, exit, refs, y);
    forall d: nat, y: nat | d < |df| && (d in refs || (v.Spreads() && d in ends)) && y in df[d] && v.Passes(y, exit)
      ensures y in ends
    {
      assert InRange(df[d], |df|);
      if d in refs {
        assert FrontierStep(v, df, exit, d, y) && FrontierChain(v, df, exit, refs, [d, y]);
      } else {
        var p :| FrontierChain(v, df, exit, refs, p) && p[|p| - 1] == d;
        ChainOn(v, df, exit, refs, p, y);
      }
    }
    assert ClosedPhis(v, df, exit, refs, ends);
    forall y: nat | Chained(v, df, exit, refs, y) ensures y in s {
      var p :| FrontierChain(v, df, exit, refs, p) && p[|p| - 1] == y;
      ChainInside(v, df, exit, refs, s, p);
    }
  }

  lemma {:induction false} ChainInside(v: VarInfo, df: seq<seq<nat>>, exit: nat, refs: seq<nat>, s: set<nat>,
                                       p: seq<nat>)
    requires ClosedPhis(v, df, exit, refs, s) && FrontierChain(v, df, exit, refs, p)
    ensures p[|p| - 1] in s
    decreases |p|
  {
    var d, y := p[|p| - 2], p[|p| - 1];
    assert FrontierStep(v, df, exit, d, y);
    if |p| > 2 {
      var q := p[..|p| - 1];
      forall i | 0 < i < |q| ensures FrontierStep(v, df, exit, q[i - 1], q[i]) {
        assert FrontierStep(v, df, exit, p[i - 1], p[i]);
      }
      ChainInside(v, df, exit, refs, s, p[..|p| - 1]);
    }
    assert v.Passes(y, exit);
  }

  lemma ChainOn(v: VarInfo, df: seq<seq<nat>>, exit: nat, refs: seq<nat>, p: seq<nat>, y: nat)
    requires FrontierChain(v, df, exit, refs, p) && y < |df| && FrontierStep(v, df, exit, p[|p| - 1], y)
    requires !v.isTernaryRet && !v.isLogicalRet
    ensures FrontierChain(v, df, exit, refs, p + [y])
  {
    var q := p + [y];
    forall i | 0 < i < |q| ensures FrontierStep(v, df, exit, q[i - 1], q[i]) {
      if i < |p| { assert FrontierStep(v, df, exit, p[i - 1], p[i]); }
    }
  }

  predicate IsPhiOf(i: Insn, x: nat)
  {
    i == Phi(Name(x, None))
  }

  ghost predicate HasPhi(insns: seq<Insn>, x: nat)
  {
    exists j :: 0 <= j < |insns| && IsPhiOf(insns[j], x)
  }

  lemma {:induction false} DistinctBound(s: seq<nat>, n: nat)
    requires NoDup(s) && forall i :: 0 <= i < |s| ==> s[i] < n
    ensures |s| <= n
  {
    assert Elems(s) <= UpTo(n);
    SubsetSize(Elems(s), UpTo(n));
    ElemsSize(s);
    UpToSize(n);
  }

  lemma {:induction false} UpToSize(n: nat)
    ensures |UpTo(n)| == n
  {
    if n > 0 {
      UpToSize(n - 1);
    }
  }

  class Code {
    const insns: array<seq<Insn>> // insn_list of every block

    constructor (blocks: seq<seq<Insn>>)
      ensures fresh(insns) && insns[..] == blocks
    {
      insns := new seq<Insn>[|blocks|](i requires 0 <= i < |blocks| => blocks[i]);
      new;
      assert insns[..] == blocks;
    }

    /** `insert_phi_insn` */
    method InsertPhiInsn(bb: nat, x: nat) returns (inserted: bool)
      requires bb < insns.Length
      modifies insns
      ensures inserted <==> !HasPhi(old(insns[bb]), x)
      ensures insns[..] == if inserted then old(insns[..])[bb := [Phi(Name(x, None))] + old(insns[bb])]
        else old(insns[..])
    {
      var i := 0;
      while i < |insns[bb]|
        invariant 0 <= i <= |insns[bb]|
        invariant forall j :: 0 <= j < i ==> !IsPhiOf(insns[bb][j], x)
      {
        if IsPhiOf(insns[bb][i], x) {
          return false;
        }
        i := i + 1;
      }
      insns[bb] := [Phi(Name(x, None))] + insns[bb];
      return true;
    }
  }

  /** `placed` is the set of blocks that have received a phi so far. */
  ghost predicate PlacedIn(code: seq<seq<Insn>>, before: seq<seq<Insn>>, x: nat, placed: set<nat>)
  {
    && |code| == |before| && (forall b: nat :: b in placed ==> b < |code|)
    && (forall b: nat :: b < |code| ==> code[b] == if b in placed then [Phi(Name(x, None))] + before[b] else before[b])
  }

  lemma PlacedNone(code: seq<seq<Insn>>, x: nat)
    ensures PlacedIn(code, code, x, {})
  {
  }

  lemma PlacedHasPhi(code: seq<seq<Insn>>, before: seq<seq<Insn>>, x: nat, placed: set<nat>, b: nat)
    requires PlacedIn(code, before, x, placed) && b < |code| && !HasPhi(before[b], x)
    ensures HasPhi(code[b], x) <==> b in placed
  {
    if b in placed {
      assert IsPhiOf(code[b][0], x);
    }
  }

  lemma PlacedMore(code: seq<seq<Insn>>, before: seq<seq<Insn>>, x: nat, placed: set<nat>, b: nat)
    requires PlacedIn(code, before, x, placed) && b < |code| && b !in placed
    ensures PlacedIn(code[b := [Phi(Name(x, None))] + code[b]], before, x, placed + {b})
  {
  }

  /** The worklist and what has been placed, while entry `i` is being worked through. */
  ghost predicate Working(v: VarInfo, df: seq<seq<nat>>, exit: nat, refs: seq<nat>,
                          work: seq<nat>, placed: set<nat>, i: nat)
  {
    && i <= |work| && NoDup(work) && InRange(work, |df|) && refs <= work
    && (|refs| < |work| ==> v.Spreads())
    && (forall k :: |refs| <= k < |work| ==> work[k] in placed)
    && (v.Spreads() ==> forall b: nat :: b in placed ==> b in work)
    && (forall k, y: nat :: 0 <= k < i && y in df[work[k]] && v.Passes(y, exit) ==> y in placed)
    && (forall s: set<nat> :: ClosedPhis(v, df, exit, refs, s) ==> placed <= s)
  }

  predicate InRange(s: seq<nat>, n: nat)
  {
    forall k :: 0 <= k < |s| ==> s[k] < n
  }

  /** When the worklist is exhausted the placed phis are the least closed set. */
  lemma WorkDone(v: VarInfo, df: seq<seq<nat>>, exit: nat, refs: seq<nat>, work: seq<nat>, placed: set<nat>)
    requires Working(v, df, exit, refs, work, placed, |work|)
    ensures LeastPhis(v, df, exit, refs, placed)
  {
    forall d: nat, y: nat | d < |df| && (d in refs || (v.Spreads() && d in placed)) && y in df[d] && v.Passes(y, exit)
      ensures y in placed
    {
      assert d in work by {
        if d in refs {
          var k :| 0 <= k < |refs| && refs[k] == d;
          assert work[k] == d;
        }
      }
      var k :| 0 <= k < |work| && work[k] == d;
    }
  }

  /** Placing a phi in the filtered frontier of a worklist entry keeps the invariant. */
  lemma PlaceOne(v: VarInfo, df: seq<seq<nat>>, exit: nat, refs: seq<nat>,
                 work: seq<nat>, placed: set<nat>, i: nat, y: nat, work2: seq<nat>)
    requires Working(v, df, exit, refs, work, placed, i) && i < |work|
    requires y in df[work[i]] && v.Passes(y, exit) && y < |df|
    requires work2 == if v.Spreads() && y !in work then work + [y] else work
    ensures Working(v, df, exit, refs, work2, placed + {y}, i)
  {
    forall s: set<nat> | ClosedPhis(v, df, exit, refs, s) ensures placed + {y} <= s {
      assert placed <= s;
      if i < |refs| {
        assert work[i] in refs;
      } else {
        assert work[i] in placed;
      }
    }
    forall b: nat | v.Spreads() && b in placed + {y} ensures b in work2 {
      if b == y && y !in work {
        assert work2[|work|] == y;
      } else {
        assert b in work;
        var k :| 0 <= k < |work| && work[k] == b;
        assert work2[k] == b;
      }
    }
    forall k, z: nat | 0 <= k < i && z in df[work2[k]] && v.Passes(z, exit) ensures z in placed + {y} {
      assert work2[k] == work[k];
    }
  }

  lemma WorkFacts(v: VarInfo, df: seq<seq<nat>>, exit: nat, refs: seq<nat>, work: seq<nat>, placed: set<nat>, i: nat)
    requires Working(v, df, exit, refs, work, placed, i)
    ensures NoDup(work) && InRange(work, |df|)
  {
  }

  lemma WorkStart(v: VarInfo, df: seq<seq<nat>>, exit: nat, refs: seq<nat>)
    requires NoDup(refs) && InRange(refs, |df|)
    ensures Working(v, df, exit, refs, refs, {}, 0)
  {
  }

  lemma EntryDone(v: VarInfo, df: seq<seq<nat>>, exit: nat, refs: seq<nat>, work: seq<nat>, placed: set<nat>, i: nat)
    requires Working(v, df, exit, refs, work, placed, i) && i < |work|
    requires forall k :: 0 <= k < |df[work[i]]| && v.Passes(df[work[i]][k], exit) ==> df[work[i]][k] in placed
    ensures Working(v, df, exit, refs, work, placed, i + 1)
  {
    forall k, y: nat | 0 <= k < i + 1 && y in df[work[k]] && v.Passes(y, exit) ensures y in placed {
      if k == i {
        var j :| 0 <= j < |df[work[i]]| && df[work[i]][j] == y;
      }
    }
  }

  /** `solve_phi_insertion` for one variable `v` defined in the blocks `refs`; false where the
      source stops with "PHI worklist overflow". */
  method SolvePhiInsertion(v: VarInfo, df: seq<seq<nat>>, exit: nat, refs: seq<nat>, code: Code)
    returns (ok: bool, ghost placed: set<nat>)
    requires code.insns.Length == |df| && NoDup(refs) && InRange(refs, |df|)
    requires forall b: nat :: b < |df| ==> InRange(df[b], |df|) && !HasPhi(code.insns[b], v.id)
    modifies code.insns
    ensures ok ==> LeastPhis(v, df, exit, refs, placed)
    ensures ok ==> forall y: nat :: y in placed <==> Chained(v, df, exit, refs, y)
    ensures ok ==> PlacedIn(code.insns[..], old(code.insns[..]), v.id, placed)
    ensures !ok ==> |df| >= PHI_WORKLIST_SIZE - 1
  {
    hide Working, LeastPhis, PlacedIn, Chained, ClosedPhis;
    placed := {};
    PlacedNone(code.insns[..], v.id);
    ghost var before := code.insns[..];
    var workList := new nat[PHI_WORKLIST_SIZE];
    var workListIdx := 0;
    for r := 0 to |refs|
      invariant workListIdx == r <= PHI_WORKLIST_SIZE - 1
      invariant workList[..r] == refs[..r] && code.insns[..] == before
    {
      if workListIdx >= PHI_WORKLIST_SIZE - 1 {
        DistinctBound(refs, |df|);
        return false, placed;
      }
      workList[workListIdx] := refs[r];
      workListIdx := workListIdx + 1;
    }
    assert workList[..workListIdx] == refs;
    WorkStart(v, df, exit, refs);
    var i := 0;
    while i < workListIdx
      invariant 0 <= i <= workListIdx <= PHI_WORKLIST_SIZE - 1
      invariant Working(v, df, exit, refs, workList[..workListIdx], placed, i)
      invariant PlacedIn(code.insns[..], before, v.id, placed)
      decreases PHI_WORKLIST_SIZE - i
    {
      var bb := workList[i];
      WorkFacts(v, df, exit, refs, workList[..workListIdx], placed, i);
      assert workList[..workListIdx][i] == bb;
      var j := 0;
      while j < |df[bb]|
        invariant 0 <= j <= |df[bb]| && i < workListIdx <= PHI_WORKLIST_SIZE - 1 && workList[i] == bb
        invariant Working(v, df, exit, refs, workList[..workListIdx], placed, i)
        invariant PlacedIn(code.insns[..], before, v.id, placed)
        invariant forall k :: 0 <= k < j && v.Passes(df[bb][k], exit) ==> df[bb][k] in placed
      {
        var d := df[bb][j];
        j := j + 1;
        if d !in v.visible {
          continue;
        }
        if d in v.declaredIn {
          continue;
        }
        if d == exit {
          continue;
        }
        if v.isGlobal {
          continue;
        }
        ghost var work, was := workList[..workListIdx], code.insns[..];
        var inserted := code.InsertPhiInsn(d, v.id);
        PlacedHasPhi(was, before, v.id, placed, d);
        if inserted {
          PlacedMore(was, before, v.id, placed, d);
          WorkFacts(v, df, exit, refs, work, placed, i);
          PlaceOne(v, df, exit, refs, work, placed, i, d, if v.Spreads() && d !in work then work + [d] else work);
          placed := placed + {d};
          if v.isTernaryRet || v.isLogicalRet {
            continue;
          }
          var found := false;
          for l := 0 to workListIdx
            invariant !found && d !in workList[..l]
          {
            if workList[l] == d {
              found := true;
              break;
            }
          }
          assert found <==> d in work;
          if !found {
            if workListIdx >= PHI_WORKLIST_SIZE - 1 {
              DistinctBound(work, |df|);
              return false, placed;
            }
            workList[workListIdx] := d;
            workListIdx := workListIdx + 1;
            assert workList[..workListIdx] == work + [d];
          }
        }
      }
      EntryDone(v, df, exit, refs, workList[..workListIdx], placed, i);
      i := i + 1;
    }
    WorkDone(v, df, exit, refs, workList[..workListIdx], placed);
    LeastIsChained(v, df, exit, refs, placed);
    return true, placed;
  }
}
