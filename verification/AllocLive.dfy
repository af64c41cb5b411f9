/** What liveness analysis computes is what the register allocator relies on. */
module AllocLive {
  import opened Cfg
  import opened Options
  import opened Dfs
  import opened RegAlloc
  import opened AllocMeaning
  import opened AllocPaths
  import opened Liveness

  /** A function after liveness analysis. */
  datatype Flow = Flow(g: Graph, insns: seq<seq<Insn>>, next: seq<bool>, vars: seq<Var>, entry: nat, params: seq<nat>,
                       gen: seq<seq<nat>>, kill: seq<seq<nat>>, out: seq<seq<nat>>)
  {
    ghost predicate Shaped() {
      WellFormed(g) && |g| == |insns| == |next| == |gen| == |kill| == |out| && entry < |g|
    }

    /** The results of `LivenessAnalysis`, no variable being global. */
    ghost predicate Analysed()
      requires Shaped()
    {
      && (forall b: nat, v: nat {:trigger v in kill[b]} :: b < |g| ==>
            (v in kill[b] <==> KilledBefore(insns[b], |insns[b]|, v) || (b == entry && v in params)))
      && (forall b: nat, v: nat :: b < |g| ==> (v in gen[b] <==> v < |vars| && Exposed(insns[b], |insns[b]|, v)))
      && (forall v: nat :: v < |vars| ==> ConsumedIs(insns, |insns|, v, vars[v].consumed))
      && (forall b: nat, v: nat :: b < |g| ==> (v in out[b] <==> LiveAfter(g, gen, kill, b, v)))
    }

    ghost predicate Assigned(b: nat, v: nat)
      requires Shaped()
    {
      v in params || forall p :: PathBetween(g, p, entry, b) ==> AssignedOn(p, v)
    }

    /** Some block before the last one of `p` gives `v` a value. */
    ghost predicate AssignedOn(p: seq<nat>, v: nat)
      requires Shaped()
    {
      exists i :: 0 <= i < |p| - 1 && Sets(p[i], v)
    }

    ghost predicate Sets(b: nat, v: nat)
      requires Shaped()
    {
      b < |g| && exists j :: 0 <= j < |insns[b]| && SetsAt(b, j, v)
    }

    ghost predicate SetsAt(b: nat, j: int, v: nat)
      requires Shaped() && b < |g| && 0 <= j < |insns[b]|
    {
      v in Def(insns[b][j]) || v in PhiDef(insns[b][j])
    }

    /** SSA form with unwound phis: every read follows an assignment on every path, phi
        variables are set by their copies alone and not read after them in the block, constants
        come from constant loads, and a branch ends its block. */
    ghost predicate Strict()
      requires Shaped()
    {
      && (forall b: nat, j: nat :: b < |g| && j < |insns[b]| ==> StrictAt(b, j))
      && (forall b: nat, v: nat :: b < |g| && Exposed(insns[b], |insns[b]|, v) ==> Assigned(b, v))
      && (forall b: nat :: !Edge(g, b, entry))
    }

    ghost predicate StrictAt(b: nat, j: nat)
      requires Shaped() && b < |g| && j < |insns[b]|
    {
      var i := insns[b][j];
      && VarsBelow(i, |vars|)
      && (forall v: nat :: v in Reads(i) ==> NotAfterCopy(b, j, v) && NeverDeclared(v))
      && (forall v: nat :: v in Def(i) ==> v !in Reads(i) && (vars[v].isConst ==> i == Constant(OP_LOAD_CONSTANT, v)))
      && (forall v: nat :: v in PhiDef(i) ==> v !in kill[b] && !vars[v].isConst)
      && (i.Branch? ==> j == |insns[b]| - 1)
    }

    ghost predicate NotAfterCopy(b: nat, j: nat, v: nat)
      requires Shaped() && b < |g|
    {
      forall k :: 0 <= k < j && k < |insns[b]| ==> v !in PhiDef(insns[b][k])
    }

    /** A variable that is read is not merely declared. */
    ghost predicate NeverDeclared(v: nat)
      requires Shaped()
    {
      forall b: nat, j: nat :: b < |g| && j < |insns[b]| ==> insns[b][j] != Allocat(v)
    }

    ghost function BlockOf(b: nat): IrBlock
      requires Shaped() && b < |g|
    {
      IrBlock(insns[b], out[b], kill[b])
    }

    /** What a block starts with: its live variables that have a value, at the entry the
        parameters. */
    ghost function Starts(b: nat): (r: set<nat>)
      requires Shaped() && b < |g|
      ensures b != entry ==> forall v: nat ::
        v in r <==> v < |vars| && LiveBefore(gen, kill, out, b, v) && Assigned(b, v)
    {
      if b == entry then set v | v in params
      else set v: nat | v < |vars| && LiveBefore(gen, kill, out, b, v) && Assigned(b, v)
    }

    ghost function RoutineOf(order: seq<nat>): (r: Routine)
      requires Shaped()
      ensures |r.blocks| == |r.liveIn| == |g| && r.g == g && r.next == next && r.order == order
      ensures forall b: nat :: b < |g| ==> r.blocks[b] == BlockOf(b) && r.liveIn[b] == Starts(b)
    {
      Routine(g, seq(|g|, b requires 0 <= b < |g| => BlockOf(b)), next,
          seq(|g|, b requires 0 <= b < |g| => Starts(b)), order)
    }
  }

  lemma {:induction false} AvailIs(b: IrBlock, start: set<nat>, j: nat, v: nat)
    requires j <= |b.insns|
    ensures v in Avail(b, start, j) <==>
            v in start || exists i :: 0 <= i < j && (v in Def(b.insns[i]) || v in PhiDef(b.insns[i]))
  {
    if j > 0 {
      AvailIs(b, start, j - 1, v);
    }
  }

  lemma {:induction false} CopiedIs(b: IrBlock, j: nat, v: nat)
    requires j <= |b.insns|
    ensures v in Copied(b, j) <==> exists i :: 0 <= i < j && v in PhiDef(b.insns[i])
  {
    if j > 0 {
      CopiedIs(b, j - 1, v);
    }
  }

  lemma ReadsAreUses(i: Insn, v: nat)
    ensures v in Reads(i) <==> Uses(i, v)
    ensures v in Def(i) <==> Kills(i) == Some(v) && i != Allocat(v)
  {
  }

  /** A read has a value: from earlier in the block or from before it. */
  lemma ReadAvailable(fl: Flow, b: nat, j: nat, v: nat)
    requires fl.Shaped() && fl.Analysed() && fl.Strict() && b < |fl.g| && j < |fl.insns[b]|
    requires v in Reads(fl.insns[b][j])
    ensures v in Avail(fl.BlockOf(b), fl.Starts(b), j)
  {
    var insns := fl.insns[b];
    AvailIs(fl.BlockOf(b), fl.Starts(b), j, v);
    assert fl.StrictAt(b, j);
    if KilledBefore(insns, j, v) {
      var i: nat :| i < j && Kills(insns[i]) == Some(v);
      assert insns[i] != Allocat(v);
      ReadsAreUses(insns[i], v);
    } else {
      ReadsAreUses(insns[j], v);
      assert ExposedAt(insns, j, v);
      assert Exposed(insns, |insns|, v);
      assert v in fl.gen[b] && fl.Assigned(b, v);
      if b == fl.entry && v !in fl.params {
        assert PathBetween(fl.g, [b], b, b);
      }
    }
  }

  lemma KillIs(fl: Flow, b: nat, v: nat)
    requires fl.Shaped() && fl.Analysed() && b < |fl.g|
    ensures v in fl.kill[b] <==> KilledBefore(fl.insns[b], |fl.insns[b]|, v) || (b == fl.entry && v in fl.params)
  {
  }

  lemma InsnIsFine(fl: Flow, b: nat, j: nat)
    requires fl.Shaped() && fl.Analysed() && fl.Strict() && b < |fl.g| && j < |fl.insns[b]|
    ensures VarsBelow(fl.insns[b][j], |fl.vars|) && InsnFine(fl.BlockOf(b), fl.Starts(b), fl.vars, j)
  {
    var i := fl.insns[b][j];
    assert fl.StrictAt(b, j);
    forall v: nat | v in Reads(i)
      ensures v in Avail(fl.BlockOf(b), fl.Starts(b), j) && v !in Copied(fl.BlockOf(b), j) && fl.vars[v].consumed >= j
    {
      ReadAvailable(fl, b, j, v);
      CopiedIs(fl.BlockOf(b), j, v);
      assert fl.NotAfterCopy(b, j, v);
      ReadsAreUses(i, v);
      assert ConsumedIs(fl.insns, |fl.insns|, v, fl.vars[v].consumed);
    }
    forall v: nat | v in Def(i) ensures v in fl.kill[b] {
      ReadsAreUses(i, v);
      assert Kills(fl.insns[b][j]) == Some(v);
      KillIs(fl, b, v);
    }
  }

  /** What is live somewhere is read somewhere. */
  lemma LiveIsRead(fl: Flow, b: nat, v: nat)
    requires fl.Shaped() && fl.Analysed() && fl.Strict() && b < |fl.g| && v in fl.out[b]
    ensures v < |fl.vars| && fl.vars[v].consumed >= 0 && fl.NeverDeclared(v)
  {
    assert LiveAfter(fl.g, fl.gen, fl.kill, b, v);
    var p :| UsePath(fl.g, fl.gen, fl.kill, p, v) && p[0] == b;
    var c := p[|p| - 1];
    assert v in fl.gen[c] && Exposed(fl.insns[c], |fl.insns[c]|, v);
    var j: nat :| j < |fl.insns[c]| && ExposedAt(fl.insns[c], j, v);
    ReadsAreUses(fl.insns[c][j], v);
    assert fl.StrictAt(c, j);
    assert ConsumedIs(fl.insns, |fl.insns|, v, fl.vars[v].consumed);
    assert Uses(fl.insns[c][j], v);
  }

  lemma BlockIsFine(fl: Flow, b: nat)
    requires fl.Shaped() && fl.Analysed() && fl.Strict() && b < |fl.g|
    requires forall i :: 0 <= i < |fl.params| ==> fl.params[i] < |fl.vars|
    ensures Fine(fl.BlockOf(b), fl.Starts(b), fl.vars)
  {
    forall j | 0 <= j < |fl.insns[b]|
      ensures VarsBelow(fl.insns[b][j], |fl.vars|) && InsnFine(fl.BlockOf(b), fl.Starts(b), fl.vars, j)
    {
      InsnIsFine(fl, b, j);
    }
    forall v: nat | v in fl.out[b] ensures v < |fl.vars| && fl.vars[v].consumed != -1 {
      LiveIsRead(fl, b, v);
    }
  }

  /** Along an edge, what the successor starts with leaves the predecessor. */
  lemma StartsLeave(fl: Flow, a: nat, c: nat, v: nat)
    requires fl.Shaped() && fl.Analysed() && fl.Strict() && Edge(fl.g, a, c) && v in fl.Starts(c)
    ensures c < |fl.g| && c != fl.entry && v in Leaves(fl.BlockOf(a), fl.Starts(a))
  {
    assert LiveBefore(fl.gen, fl.kill, fl.out, c, v);
    assert FromSuccs(fl.g, fl.gen, fl.kill, fl.out, a, v);
    SuccsJustify(fl.g, fl.gen, fl.kill, fl.out, a, v);
    LiveIsRead(fl, a, v);
    AvailIs(fl.BlockOf(a), fl.Starts(a), |fl.insns[a]|, v);
    if !fl.Sets(a, v) {
      forall j | 0 <= j < |fl.insns[a]| ensures v !in Def(fl.insns[a][j]) && v !in PhiDef(fl.insns[a][j]) {
        assert !fl.SetsAt(a, j, v);
      }
      assert !KilledBefore(fl.insns[a], |fl.insns[a]|, v) by {
        if KilledBefore(fl.insns[a], |fl.insns[a]|, v) {
          var j: nat :| j < |fl.insns[a]| && Kills(fl.insns[a][j]) == Some(v);
          assert fl.insns[a][j] != Allocat(v);
          ReadsAreUses(fl.insns[a][j], v);
        }
      }
      AssignedEarlier(fl, a, c, v);
    } else {
      var j :| 0 <= j < |fl.insns[a]| && fl.SetsAt(a, j, v);
    }
  }

  lemma AssignedEarlier(fl: Flow, a: nat, c: nat, v: nat)
    requires fl.Shaped() && Edge(fl.g, a, c) && fl.Assigned(c, v) && !fl.Sets(a, v)
    ensures fl.Assigned(a, v) && (a == fl.entry ==> v in fl.params)
  {
    if v !in fl.params {
      forall p | PathBetween(fl.g, p, fl.entry, a) ensures fl.AssignedOn(p, v) {
        ExtendPath(fl.g, p, fl.entry, a, c);
        assert fl.AssignedOn(p + [c], v);
        var i :| 0 <= i < |p + [c]| - 1 && fl.Sets((p + [c])[i], v);
        assert (p + [c])[i] == p[i];
      }
      if a == fl.entry {
        assert PathBetween(fl.g, [a], a, a);
      }
    }
  }

  /** The order of the allocator's pass and the parameters: the entry first, every other block
      after one of its predecessors, no edge out of the pass; blocks end in a branch or have a
      plain successor. */
  ghost predicate Arranged(fl: Flow, order: seq<nat>)
    requires fl.Shaped()
  {
    && |order| > 0 && order[0] == fl.entry && (forall k :: 0 <= k < |order| ==> order[k] < |fl.g|)
    && (forall k: nat :: 0 < k < |order| ==> fl.RoutineOf(order).Shaped() && fl.RoutineOf(order).HasEarlierPred(k))
    && (forall i: nat, b: nat :: i < |order| && Edge(fl.g, order[i], b) ==> b in order)
    && Closes(fl.BlockOf(fl.entry), fl.next[fl.entry])
    && (forall k :: 0 <= k < |order| ==>
          Closes(fl.BlockOf(order[k]), fl.next[order[k]]) || fl.insns[order[k]] == [])
    && (forall i :: 0 <= i < |fl.params| ==> fl.params[i] < |fl.vars| && !fl.vars[fl.params[i]].isConst)
    && (forall i, j :: 0 <= i < j < |fl.params| ==> fl.params[i] != fl.params[j])
  }

  /** After liveness analysis a strict function meets every condition under which register
      allocation keeps its meaning. */
  lemma LivenessServesAllocation(fl: Flow, order: seq<nat>)
    requires fl.Shaped() && fl.Analysed() && fl.Strict() && Arranged(fl, order)
    ensures var r := fl.RoutineOf(order);
            r.Shaped() && r.Ordered() && r.Sound(fl.vars) && Params(r, fl.vars, fl.params)
  {
    hide Fine, Closes;
    var r := fl.RoutineOf(order);
    forall k | 0 <= k < |order| ensures r.SoundBlock(fl.vars, order[k]) {
      BlockIsFine(fl, order[k]);
    }
    forall i: nat, b: nat | i < |order| && Edge(fl.g, order[i], b)
      ensures b in order && b != order[0] && b < |fl.g| && r.liveIn[b] <= Leaves(r.blocks[order[i]], r.liveIn[order[i]])
    {
      assert order[i] < |fl.g| && b < |fl.g|;
      forall v | v in r.liveIn[b] ensures v in Leaves(r.blocks[order[i]], r.liveIn[order[i]]) {
        StartsLeave(fl, order[i], b, v);
      }
    }
    forall i | 0 <= i < |fl.params| ensures fl.params[i] in fl.kill[fl.entry] {
      assert fl.params[i] in fl.params;
    }
  }

  lemma AllBelow(fl: Flow, order: seq<nat>, st: State)
    requires fl.Shaped() && fl.Strict() && Arranged(fl, order) && st.Ok() && |st.vars| == |fl.vars|
    ensures fl.RoutineOf(order).Shaped() && Below(fl.RoutineOf(order), st)
    ensures forall b: nat :: b < |fl.g| ==> BlockBelow(fl.RoutineOf(order).blocks[b], |fl.vars|)
  {
    forall b: nat | b < |fl.g| ensures BlockBelow(fl.BlockOf(b), |fl.vars|) {
      forall j: nat | j < |fl.insns[b]| ensures VarsBelow(fl.insns[b][j], |fl.vars|) {
        assert fl.StrictAt(b, j);
      }
    }
  }

  /** Liveness analysis and register allocation together: of a strict function whose liveness has
      been analysed, called as the calling convention says, the emitted code makes the same
      observations as its instructions along every path. */
  lemma CompiledKeepsMeaning(fl: Flow, order: seq<nat>, st: State, maxArgs: nat, f: Alu, codes: seq<seq<Ph2>>,
                             p: seq<nat>, k: nat, w: World, m: Machine)
    requires fl.Shaped() && fl.Analysed() && fl.Strict() && Arranged(fl, order)
    requires st.vars == fl.vars && |st.regs| == REG_CNT && NoSpaceYet(fl.vars)
    requires f.Loads() && maxArgs <= REG_CNT && Passed(fl.params, maxArgs, w, m) && m.trace == w.trace
    requires var st1 := StartState(st, fl.params, maxArgs);
             Below(fl.RoutineOf(order), st1) && CodesOf(fl.RoutineOf(order), st1, codes)
    requires OnRoutine(fl.RoutineOf(order), p) && 0 < k <= |p| && forall i :: 0 <= i < |p| ==> p[i] < |codes|
    ensures forall b: nat :: b < |fl.g| ==> BlockBelow(fl.RoutineOf(order).blocks[b], |fl.vars|)
    ensures MachineAt(f, codes, p, k, m).trace == WorldAt(f, fl.RoutineOf(order), fl.vars, p, k, w).trace
  {
    var r, st1 := fl.RoutineOf(order), StartState(st, fl.params, maxArgs);
    LivenessServesAllocation(fl, order);
    AllBelow(fl, order, st1);
    hide *;
    StartSound(r, st, fl.params, maxArgs);
    CallStarts(r, st, fl.params, maxArgs, w, m);
    AllocationKeepsMeaning(f, r, st1, codes, p, k, w, m);
    WorldSame(f, r, st.vars, st1.vars, p, k, w);
  }
}
