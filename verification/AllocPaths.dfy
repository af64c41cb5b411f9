/** From instructions to blocks, and from blocks to every path of a function. */
module AllocPaths {
  import opened Cfg
  import opened Options
  import opened RegAlloc
  import opened AllocMeaning

  function Only(o: Option<nat>): set<nat>
  {
    match o case None => {} case Some(v) => {v}
  }

  function Reads(i: Insn): set<nat>
  {
    Only(Rs1(i)) + Only(Rs2(i))
  }

  /** The variable an instruction puts in a register. */
  function Def(i: Insn): set<nat>
  {
    if i.Allocat? then {} else Only(Kills(i))
  }

  function PhiDef(i: Insn): set<nat>
  {
    match i case UnwoundPhi(rd, _) => {rd} case _ => {}
  }

  /** Variables with a value before instruction `j` when those of `start` have one. */
  ghost function Avail(b: IrBlock, start: set<nat>, j: nat): set<nat>
    requires j <= |b.insns|
  {
    if j == 0 then start else Avail(b, start, j - 1) + Def(b.insns[j - 1]) + PhiDef(b.insns[j - 1])
  }

  /** Variables that phi copies among the first `j` instructions have set. */
  ghost function Copied(b: IrBlock, j: nat): set<nat>
    requires j <= |b.insns|
  {
    if j == 0 then {} else Copied(b, j - 1) + PhiDef(b.insns[j - 1])
  }

  ghost predicate Wanted(b: IrBlock, j: nat, v: nat)
  {
    v in b.liveOut || exists i :: j <= i < |b.insns| && v in Reads(b.insns[i])
  }

  ghost function Need(b: IrBlock, start: set<nat>, j: nat): set<nat>
    requires j <= |b.insns|
  {
    set v | v in Avail(b, start, j) && Wanted(b, j, v)
  }

  ghost function Dirty(b: IrBlock): set<nat>
  {
    set v | v in b.liveKill
  }

  /** What liveness analysis and SSA form provide: operands have a value, are not read after a
      phi copy to them and are not read beyond `consumed`; definitions are killed, phi
      variables are not; constants come from constant loads; a branch ends its block. */
  ghost predicate InsnFine(b: IrBlock, start: set<nat>, vars: seq<Var>, j: nat)
    requires j < |b.insns| && VarsBelow(b.insns[j], |vars|)
  {
    var i := b.insns[j];
    && (forall v: nat :: v in Reads(i) ==> v in Avail(b, start, j) && v !in Copied(b, j) && vars[v].consumed >= j)
    && (forall v: nat :: v in Def(i) ==>
          v in b.liveKill && v !in Reads(i) && (vars[v].isConst ==> i == Constant(OP_LOAD_CONSTANT, v)))
    && (forall v: nat :: v in PhiDef(i) ==> v !in b.liveKill && !vars[v].isConst)
    && (i.Branch? ==> j == |b.insns| - 1)
  }

  ghost predicate Fine(b: IrBlock, start: set<nat>, vars: seq<Var>)
  {
    && BlockBelow(b, |vars|) && (forall v: nat :: v in start ==> v < |vars|)
    && (forall j :: 0 <= j < |b.insns| ==> InsnFine(b, start, vars, j))
    && (forall v: nat :: v in b.liveOut && v < |vars| ==> vars[v].consumed != -1)
  }

  /** Liveness facts look at which variables are constants and where they are read last. */
  lemma FineSame(b: IrBlock, start: set<nat>, vars: seq<Var>, vars2: seq<Var>)
    requires Fine(b, start, vars) && |vars2| == |vars|
    requires forall v :: 0 <= v < |vars| ==>
      vars2[v].isConst == vars[v].isConst && vars2[v].consumed == vars[v].consumed
    ensures Fine(b, start, vars2)
  {
    forall j | 0 <= j < |b.insns| ensures InsnFine(b, start, vars2, j) {
      assert InsnFine(b, start, vars, j);
    }
  }

  lemma FineGrows(b: IrBlock, start: set<nat>, vars: seq<Var>, vars2: seq<Var>)
    requires Fine(b, start, vars) && Grows(vars, vars2)
    ensures Fine(b, start, vars2)
  {
    forall v | 0 <= v < |vars| ensures vars2[v].isConst == vars[v].isConst && vars2[v].consumed == vars[v].consumed {
      assert GrowsOne(vars[v], vars2[v]);
    }
    FineSame(b, start, vars, vars2);
  }

  lemma {:induction false} CopiedIsClean(b: IrBlock, start: set<nat>, vars: seq<Var>, j: nat, v: nat)
    requires Fine(b, start, vars) && j <= |b.insns| && v in b.liveKill
    ensures v !in Copied(b, j)
  {
    if j > 0 {
      CopiedIsClean(b, start, vars, j - 1, v);
      assert InsnFine(b, start, vars, j - 1);
    }
  }

  lemma NeedNext(b: IrBlock, start: set<nat>, j: nat)
    requires j < |b.insns|
    ensures Need(b, start, j + 1) <= Need(b, start, j) + Def(b.insns[j]) + PhiDef(b.insns[j])
  {
    forall v | v in Need(b, start, j + 1) ensures v in Need(b, start, j) + Def(b.insns[j]) + PhiDef(b.insns[j]) {
      if v !in Def(b.insns[j]) && v !in PhiDef(b.insns[j]) {
        assert Wanted(b, j, v) by {
          if v !in b.liveOut {
            var i :| j + 1 <= i < |b.insns| && v in Reads(b.insns[i]);
            assert j <= i;
          }
        }
      }
    }
  }

  /** What the operands of instruction `j` are known to satisfy. */
  lemma OperandsNeeded(b: IrBlock, start: set<nat>, vars: seq<Var>, j: nat)
    requires Fine(b, start, vars) && j < |b.insns|
    ensures Reads(b.insns[j]) <= Need(b, start, j) && Reads(b.insns[j]) !! Copied(b, j)
    ensures Def(b.insns[j]) <= Dirty(b) && Def(b.insns[j]) !! Copied(b, j) && Def(b.insns[j]) !! Reads(b.insns[j])
    ensures PhiDef(b.insns[j]) !! Dirty(b)
    ensures forall v: nat :: v in PhiDef(b.insns[j]) ==> v < |vars| && !vars[v].isConst
    ensures forall v: nat :: v in Def(b.insns[j]) ==>
      v < |vars| && (vars[v].isConst ==> b.insns[j] == Constant(OP_LOAD_CONSTANT, v))
  {
    assert InsnFine(b, start, vars, j);
    forall v | v in Reads(b.insns[j]) ensures v in Need(b, start, j) {
      assert Wanted(b, j, v);
    }
    forall v | v in Def(b.insns[j]) ensures v !in Copied(b, j) {
      CopiedIsClean(b, start, vars, j, v);
    }
  }

  /** Wanted variables survive `refresh`. */
  lemma NeedConsumed(b: IrBlock, start: set<nat>, vars: seq<Var>, j: nat)
    requires Fine(b, start, vars) && j <= |b.insns|
    requires forall v: nat :: v in Need(b, start, j) ==> v < |vars|
    ensures forall v: nat :: v in Need(b, start, j) ==> v in b.liveOut || vars[v].consumed >= j
  {
    forall v: nat | v in Need(b, start, j) && v !in b.liveOut ensures vars[v].consumed >= j {
      var i :| j <= i < |b.insns| && v in Reads(b.insns[i]);
      assert InsnFine(b, start, vars, i);
    }
  }

  /** After `refresh` no register holds a variable that is neither live out nor read later. */
  lemma {:induction false} RefreshDrops(st: State, b: IrBlock, idx: int, i: nat, v: nat)
    requires st.Ok() && i <= REG_CNT && v < |st.vars| && v !in b.liveOut && st.vars[v].consumed < idx
    ensures var st2 := Refresh(st, b, idx, i);
            st2.vars[v].consumed == st.vars[v].consumed && forall k :: 0 <= k < i ==> st2.regs[k].var_ != Some(v)
  {
    if i > 0 {
      RefreshDrops(st, b, idx, i - 1, v);
    }
  }

  /** A definition that nothing reads may be left out. */
  lemma DeadDefinition(st: State, v: nat, dirty: set<nat>, phi: set<nat>, need: set<nat>, env: nat -> int,
                       env2: nat -> int, m: Machine)
    requires Sim(st, dirty, phi, need, env, m) && v !in need && !Held(st, v)
    requires forall u: nat :: u != v ==> env2(u) == env(u)
    ensures Sim(st, dirty, phi, need, env2, m)
  {
    forall k | 0 <= k < REG_CNT ensures RegOk(st.regs[k], st.vars, dirty, phi, env2, m.regs(k), m.mem) {
      assert RegOk(st.regs[k], st.vars, dirty, phi, env, m.regs(k), m.mem);
    }
  }

  /** An assignment to a variable that is never read emits nothing. */
  lemma SkippedAssign(f: Alu, m0: Machine, st: State, b: IrBlock, start: set<nat>, vars0: seq<Var>, j: nat, w: World)
    requires Fine(b, start, st.vars) && j < |b.insns| && b.insns[j].Assign? && st.vars[b.insns[j].rd].consumed == -1
    requires Agree(f, m0, st, Dirty(b), Copied(b, j), Need(b, start, j), w) && |vars0| == |st.vars|
    ensures Agree(f, m0, Refresh(st, b, j, REG_CNT), Dirty(b), Copied(b, j), Need(b, start, j + 1),
                  Step(f, vars0, b.insns[j], w))
    ensures AllocInsn(st, b, j) == Refresh(st, b, j, REG_CNT)
  {
    hide Sim, Run, Refresh;
    var rd, need := b.insns[j].rd, Need(b, start, j);
    var w2 := Step(f, vars0, b.insns[j], w);
    assert InsnFine(b, start, st.vars, j);
    assert rd !in b.liveOut;
    NeedBelowHere(f, m0, st, b, start, j, w);
    NeedConsumed(b, start, st.vars, j);
    assert rd !in need;
    RefreshKeeps(f, m0, st, b, j, REG_CNT, Dirty(b), Copied(b, j), need, w);
    var st1 := Refresh(st, b, j, REG_CNT);
    RefreshDrops(st, b, j, REG_CNT, rd);
    assert !Held(st1, rd);
    DeadDefinition(st1, rd, Dirty(b), Copied(b, j), need, w.env, w2.env, Run(f, st1.code, m0));
    NeedNext(b, start, j);
    assert rd !in Need(b, start, j + 1) by {
      if Wanted(b, j + 1, rd) {
        var i :| j + 1 <= i < |b.insns| && rd in Reads(b.insns[i]);
        assert InsnFine(b, start, st.vars, i);
      }
    }
    NeedLess(st1, Dirty(b), Copied(b, j), need, Need(b, start, j + 1), w2.env, Run(f, st1.code, m0));
  }

  lemma NeedBelowHere(f: Alu, m0: Machine, st: State, b: IrBlock, start: set<nat>, j: nat, w: World)
    requires j <= |b.insns| && Agree(f, m0, st, Dirty(b), Copied(b, j), Need(b, start, j), w)
    ensures st.Ok() && forall v: nat :: v in Need(b, start, j) ==> v < |st.vars|
  {
  }

  /** One instruction of the block, whatever it is. */
  lemma InsnKeeps(f: Alu, m0: Machine, st: State, b: IrBlock, start: set<nat>, vars0: seq<Var>, j: nat, w: World)
    requires f.Loads() && Fine(b, start, st.vars) && j < |b.insns| && Grows(vars0, st.vars)
    requires Agree(f, m0, st, Dirty(b), Copied(b, j), Need(b, start, j), w)
    ensures st.Ok() && |vars0| == |st.vars|
    ensures var st2 := AllocInsn(st, b, j);
            && Agree(f, m0, st2, Dirty(b), Copied(b, j + 1), Need(b, start, j + 1), Step(f, vars0, b.insns[j], w))
            && Grows(st.vars, st2.vars)
  {
    hide Agree, Grows, Fine, Need, AllocAssign, AllocUnwoundPhi, AllocUnary, AllocBinary, PrepareOperand, PrepareDest;
    hide SpillLiveOut, Refresh;
    var need, dirty, phi, i := Need(b, start, j), Dirty(b), Copied(b, j), b.insns[j];
    Basics(f, m0, st, b, start, vars0, j, w);
    OperandsNeeded(b, start, st.vars, j);
    NeedNext(b, start, j);
    NeedConsumed(b, start, st.vars, j);
    RefreshKeeps(f, m0, st, b, j, REG_CNT, dirty, phi, need, w);
    var st1 := Refresh(st, b, j, REG_CNT);
    GrowsTransitive(vars0, st.vars, st1.vars);
    GrowsSelf(st1.vars);
    forall v: nat | v < |st.vars| ensures GrowsOne(st.vars[v], st1.vars[v]) {
      GrowsAt(st.vars, st1.vars, v);
    }
    var st2, w2 := AllocInsn(st, b, j), Step(f, vars0, i, w);
    var phi2, grown := Copied(b, j + 1), need + Def(i) + PhiDef(i);
    assert phi2 == if i.UnwoundPhi? then phi + {i.rd} else phi;
    assert grown == if i.Allocat? || i.Branch? || i.Return? then need else need + {i.rd};
    match i {
      case Allocat(_) =>
      case Constant(op, rd) => ConstantKeeps(f, m0, st1, b, op, rd, vars0, dirty, phi, need, w);
      case Assign(rd, rs1) =>
        if st1.vars[rd].consumed == -1 {
          SkippedAssign(f, m0, st, b, start, vars0, j, w);
        } else {
          AssignKeeps(f, m0, st1, b, j, rd, rs1, vars0, dirty, phi, need, w);
        }
      case UnwoundPhi(rd, rs1) => UnwoundPhiKeeps(f, m0, st1, b, j, rd, rs1, vars0, dirty, phi, need, w);
      case Unary(op, sz, rd, rs1) => UnaryKeeps(f, m0, st1, b, op, sz, rd, rs1, vars0, dirty, phi, need, w);
      case Binary(op, rd, rs1, rs2) => BinaryKeeps(f, m0, st1, b, j, op, rd, rs1, rs2, vars0, dirty, phi, need, w);
      case Branch(rs1) =>
        LastNeed(b, start, st.vars, j);
        BranchKeeps(f, m0, st1, b, rs1, vars0, dirty, phi, need, Need(b, start, j + 1), w);
      case Return(rs) => ReturnKeeps(f, m0, st1, b, rs, vars0, dirty, phi, need, w);
    }
    if !i.Branch? && !(i.Assign? && st1.vars[i.rd].consumed == -1) {
      AgreeLess(f, m0, st2, dirty, phi2, grown, Need(b, start, j + 1), w2);
    }
    GrowsTransitive(st.vars, st1.vars, st2.vars);
  }

  lemma AgreeLess(f: Alu, m0: Machine, st: State, dirty: set<nat>, phi: set<nat>, need: set<nat>, less: set<nat>,
                  w: World)
    requires Agree(f, m0, st, dirty, phi, need, w) && less <= need
    ensures Agree(f, m0, st, dirty, phi, less, w)
  {
  }

  lemma LastNeed(b: IrBlock, start: set<nat>, vars: seq<Var>, j: nat)
    requires Fine(b, start, vars) && j < |b.insns| && b.insns[j].Branch?
    ensures Need(b, start, j + 1) <= Need(b, start, j)
    ensures forall v: nat :: v in Need(b, start, j + 1) ==> v in b.liveOut
  {
    assert InsnFine(b, start, vars, j);
    NeedNext(b, start, j);
  }

  lemma Basics(f: Alu, m0: Machine, st: State, b: IrBlock, start: set<nat>, vars0: seq<Var>, j: nat, w: World)
    requires Fine(b, start, st.vars) && j < |b.insns| && Grows(vars0, st.vars)
    requires Agree(f, m0, st, Dirty(b), Copied(b, j), Need(b, start, j), w)
    ensures st.Ok() && |vars0| == |st.vars| && VarsBelow(b.insns[j], |st.vars|)
    ensures (b.insns[j].Branch? ==> j == |b.insns| - 1)
    ensures forall v: nat :: v in Need(b, start, j) ==> v < |st.vars|
  {
    assert InsnFine(b, start, st.vars, j);
  }

  // ---- blocks ------------------------------------------------------------------------------

  lemma {:induction false} InsnsKeep(f: Alu, m0: Machine, st: State, b: IrBlock, start: set<nat>, j: nat, w: World)
    requires f.Loads() && Fine(b, start, st.vars) && j <= |b.insns| && st.code == []
    requires Sim(st, Dirty(b), {}, Need(b, start, 0), w.env, m0) && m0.trace == w.trace
    ensures var st2 := AllocInsns(st, b, j);
            && Agree(f, m0, st2, Dirty(b), Copied(b, j), Need(b, start, j), Steps(f, st.vars, b, j, w))
            && Grows(st.vars, st2.vars)
  {
    hide Sim, Grows, AllocInsn, Need;
    GrowsSelf(st.vars);
    NeedBelow(st, st.vars, Dirty(b), {}, Need(b, start, 0), w.env, m0);
    if j == 0 {
      assert Run(f, [], m0) == m0;
    } else {
      InsnsKeep(f, m0, st, b, start, j - 1, w);
      var st1 := AllocInsns(st, b, j - 1);
      FineGrows(b, start, st.vars, st1.vars);
      InsnKeeps(f, m0, st1, b, start, st.vars, j - 1, Steps(f, st.vars, b, j - 1, w));
      GrowsTransitive(st.vars, st1.vars, AllocInsns(st, b, j).vars);
    }
  }

  predicate Free(st: State)
  {
    forall i :: 0 <= i < |st.regs| ==> st.regs[i].var_ == None
  }

  /** The block writes its live-outs back: it has a plain successor or ends with a branch. */
  predicate Closes(b: IrBlock, next: bool)
  {
    next || (b.insns != [] && b.insns[|b.insns| - 1].Branch?)
  }

  /** In memory, or a constant, as `env` has it. */
  ghost predicate Homes(vars: seq<Var>, vs: set<nat>, env: nat -> int, mem: Slot -> int)
  {
    forall v: nat :: v in vs ==> v < |vars| && Home(vars[v], env(v), mem)
  }

  /** The live-outs that have a value at the end of the block. */
  ghost function Leaves(b: IrBlock, start: set<nat>): set<nat>
  {
    set v | v in b.liveOut && v in Avail(b, start, |b.insns|)
  }

  /** The code of a block makes the observations of its instructions and, when the block is
      closed, leaves every live-out with a value in its stack word and every register free. */
  lemma BlockKeeps(f: Alu, m0: Machine, st: State, b: IrBlock, start: set<nat>, next: bool, w: World)
    requires f.Loads() && Fine(b, start, st.vars)
    requires Sim(st, Dirty(b), {}, Need(b, start, 0), w.env, m0) && m0.trace == w.trace
    ensures st.Ok()
    ensures var st2, w2 := AllocBlock(st, b, next), Steps(f, st.vars, b, |b.insns|, w); var m2 := Run(f, st2.code, m0);
            && m2.trace == w2.trace && Grows(st.vars, st2.vars) && Slots(st2)
            && (Closes(b, next) || (b.insns == [] && Free(st)) ==> Free(st2) && Homes(st2.vars, Leaves(b, start),
                w2.env, m2.mem))
  {
    hide Grows, AllocInsn, Need, PrepareOperand;
    var n, st0 := |b.insns|, st.(code := []);
    SameValuesCode(st, st0, Dirty(b), {}, Need(b, start, 0), w.env, m0);
    InsnsKeep(f, m0, st0, b, start, n, w);
    var st1, w2 := AllocInsns(st0, b, n), Steps(f, st.vars, b, n, w);
    EndNeed(b, start, st.vars);
    if next {
      SpillLiveOutKeeps(f, m0, st1, b, REG_CNT, Dirty(b), Copied(b, n), Need(b, start, n), w2);
      GrowsTransitive(st.vars, st1.vars, SpillLiveOut(st1, b, REG_CNT).vars);
    } else if Closes(b, next) {
      BranchFrees(st0, b, start);
    }
    var st2 := AllocBlock(st, b, next);
    if Closes(b, next) || (b.insns == [] && Free(st)) {
      AllHome(st2, Dirty(b), Copied(b, n), Need(b, start, n), w2.env, Run(f, st2.code, m0));
    }
  }

  lemma SameValuesCode(st: State, st2: State, dirty: set<nat>, phi: set<nat>, need: set<nat>, env: nat -> int,
                       m: Machine)
    requires Sim(st, dirty, phi, need, env, m) && st2 == st.(code := st2.code)
    ensures Sim(st2, dirty, phi, need, env, m)
  {
    GrowsSelf(st.vars);
    SameValues(st, st2, dirty, phi, need, env, m);
  }

  lemma EndNeed(b: IrBlock, start: set<nat>, vars: seq<Var>)
    requires Fine(b, start, vars)
    ensures Need(b, start, |b.insns|) == Leaves(b, start)
  {
  }

  lemma BranchFrees(st: State, b: IrBlock, start: set<nat>)
    requires st.Ok() && Fine(b, start, st.vars) && b.insns != [] && b.insns[|b.insns| - 1].Branch?
    ensures Free(AllocInsns(st, b, |b.insns|))
  {
    hide AllocAssign, AllocUnwoundPhi, AllocUnary, AllocBinary, PrepareOperand, PrepareDest, SpillLiveOut, Refresh;
    var st1 := AllocInsns(st, b, |b.insns| - 1);
    assert AllocInsns(st, b, |b.insns|) == AllocInsn(st1, b, |b.insns| - 1);
  }

  lemma AllHome(st: State, dirty: set<nat>, phi: set<nat>, need: set<nat>, env: nat -> int, m: Machine)
    requires Sim(st, dirty, phi, need, env, m) && Free(st)
    ensures Homes(st.vars, need, env, m.mem)
  {
    forall v: nat | v in need ensures v < |st.vars| && Home(st.vars[v], env(v), m.mem) {
      assert !Held(st, v);
    }
  }

  // ---- what allocation alone guarantees ------------------------------------------------------

  /** Before a block: its needed variables have a register, a stack word or a constant. */
  ghost predicate Ready(st: State, dirty: set<nat>, need: set<nat>)
  {
    && st.Ok() && NoneTwice(st.regs) && Slots(st)
    && (forall i :: 0 <= i < REG_CNT && st.regs[i].var_.Some? ==>
          st.regs[i].polluted && st.regs[i].var_.value in dirty && !st.vars[st.regs[i].var_.value].isConst)
    && (forall v: nat :: v in need ==> v < |st.vars| && (Held(st, v) || Placed(st.vars[v])))
  }

  predicate Placed(x: Var)
  {
    x.isConst || x.hasSpace
  }

  /** From such a state some run is possible; so what runs establish holds of the state. */
  lemma ReadyRun(st: State, dirty: set<nat>, need: set<nat>) returns (w: World, m: Machine)
    requires Ready(st, dirty, need)
    ensures Sim(st, dirty, {}, need, w.env, m) && m.trace == w.trace
  {
    var env := (v: nat) => if v < |st.vars| && st.vars[v].isConst then st.vars[v].initVal else 0;
    w := World(env, []);
    m := Machine((_: nat) => 0, (_: Slot) => 0, []);
    forall i | 0 <= i < REG_CNT ensures RegOk(st.regs[i], st.vars, dirty, {}, env, m.regs(i), m.mem) {
    }
  }

  lemma BlockLeavesReady(st: State, b: IrBlock, start: set<nat>, next: bool)
    requires Fine(b, start, st.vars) && Ready(st, Dirty(b), Need(b, start, 0))
    requires Closes(b, next) || (b.insns == [] && Free(st))
    ensures st.Ok()
    ensures var st2 := AllocBlock(st, b, next);
            && Free(st2) && Slots(st2) && Grows(st.vars, st2.vars)
            && forall v: nat :: v in Leaves(b, start) ==> v < |st2.vars| && Placed(st2.vars[v])
  {
    hide Slots, Grows, Fine, AllocBlock, Steps, Need;
    var f := Alu((_, x) => x, (_, _, x) => x, (_, x, _) => x);
    var w, m := ReadyRun(st, Dirty(b), Need(b, start, 0));
    BlockKeeps(f, m, st, b, start, next, w);
  }

  // ---- a whole function ------------------------------------------------------------------------

  /** A function as the allocator meets it: its graph and blocks, which of them have a plain
      successor, the live variables that have a value on entry of each, and the order of the pass. */
  datatype Routine = Routine(g: Graph, blocks: seq<IrBlock>, next: seq<bool>, liveIn: seq<set<nat>>, order: seq<nat>)
  {
    ghost predicate Shaped() {
      && |g| == |blocks| == |next| == |liveIn| && |order| > 0
      && (forall k :: 0 <= k < |order| ==> order[k] < |g|)
    }

    /** Every block after the entry has a predecessor before it in the order, edges stay inside
        the order, and what a block starts with leaves all of its predecessors. */
    ghost predicate Ordered()
      requires Shaped()
    {
      && (forall k: nat :: 0 < k < |order| ==> HasEarlierPred(k))
      && (forall i: nat, b: nat :: i < |order| && Edge(g, order[i], b) ==>
            b in order && b != order[0] && b < |g| && liveIn[b] <= Leaves(blocks[order[i]], liveIn[order[i]]))
    }

    ghost predicate HasEarlierPred(k: nat)
      requires Shaped() && k < |order|
    {
      exists i: nat :: i < k && Edge(g, order[i], order[k])
    }

    ghost predicate Sound(vars: seq<Var>)
      requires Shaped()
    {
      && Closes(blocks[order[0]], next[order[0]])
      && forall k :: 0 <= k < |order| ==> SoundBlock(vars, order[k])
    }

    ghost predicate SoundBlock(vars: seq<Var>, b: nat)
      requires Shaped() && b < |g|
    {
      Fine(blocks[b], liveIn[b], vars) && (Closes(blocks[b], next[b]) || blocks[b].insns == [])
    }

    ghost predicate Start(st: State)
      requires Shaped()
    {
      Ready(st, Dirty(blocks[order[0]]), Need(blocks[order[0]], liveIn[order[0]], 0))
    }
  }

  /** The allocator's state before the `k`-th block of the order. */
  ghost function StateAt(r: Routine, st: State, k: nat): (res: State)
    requires r.Shaped() && k <= |r.order| && Below(r, st)
    ensures res.Ok() && |res.vars| == |st.vars|
  {
    if k == 0 then st
    else AllocBlock(StateAt(r, st, k - 1), r.blocks[r.order[k - 1]], r.next[r.order[k - 1]])
  }

  ghost predicate Below(r: Routine, st: State)
  {
    st.Ok() && forall b: nat :: b < |r.blocks| ==> BlockBelow(r.blocks[b], |st.vars|)
  }

  lemma StateBegins(r: Routine, st: State)
    requires r.Shaped() && st.Ok() && forall b: nat :: b < |r.blocks| ==> BlockBelow(r.blocks[b], |st.vars|)
    ensures Below(r, st) && StateAt(r, st, 0) == st
  {
  }

  lemma StateNext(r: Routine, st: State, k: nat)
    requires r.Shaped() && Below(r, st) && k < |r.order|
    ensures StateAt(r, st, k + 1) == AllocBlock(StateAt(r, st, k), r.blocks[r.order[k]], r.next[r.order[k]])
  {
  }

  /** Everything the pass has established before its `k`-th block. */
  ghost predicate Reached(r: Routine, st: State, k: nat)
    requires r.Shaped() && k <= |r.order| && Below(r, st)
  {
    && (forall i: nat, j: nat {:trigger StateAt(r, st, i), StateAt(r, st, j)} ::
          i <= j <= k ==> Grows(StateAt(r, st, i).vars, StateAt(r, st, j).vars))
    && (forall i: nat :: i <= k && i < |r.order| ==> ReadyAt(r, st, i))
    && (forall i: nat :: i < k ==> LeftHome(r, st, i))
    && (k > 0 ==> Free(StateAt(r, st, k)) && Slots(StateAt(r, st, k)))
  }

  ghost predicate ReadyAt(r: Routine, st: State, i: nat)
    requires r.Shaped() && i < |r.order| && Below(r, st)
  {
    && Ready(StateAt(r, st, i), Dirty(r.blocks[r.order[i]]), Need(r.blocks[r.order[i]], r.liveIn[r.order[i]], 0))
    && (i > 0 ==> Free(StateAt(r, st, i)) && forall v: nat :: v in r.liveIn[r.order[i]] ==>
                    v < |st.vars| && Placed(StateAt(r, st, i).vars[v]))
  }

  ghost predicate LeftHome(r: Routine, st: State, i: nat)
    requires r.Shaped() && i < |r.order| && Below(r, st)
  {
    forall v: nat :: v in Leaves(r.blocks[r.order[i]], r.liveIn[r.order[i]]) ==>
      v < |st.vars| && Placed(StateAt(r, st, i + 1).vars[v])
  }

  lemma FineAt(r: Routine, st: State, k: nat)
    requires r.Shaped() && Below(r, st) && r.Sound(st.vars) && k < |r.order| && Reached(r, st, k)
    ensures Fine(r.blocks[r.order[k]], r.liveIn[r.order[k]], StateAt(r, st, k).vars)
    ensures Grows(st.vars, StateAt(r, st, k).vars)
  {
    assert StateAt(r, st, 0) == st;
    assert r.SoundBlock(st.vars, r.order[k]);
    FineGrows(r.blocks[r.order[k]], r.liveIn[r.order[k]], st.vars, StateAt(r, st, k).vars);
  }

  /** The next block: closed or empty, so it frees the registers. */
  lemma ClosesAt(r: Routine, st: State, k: nat)
    requires r.Shaped() && Below(r, st) && r.Sound(st.vars) && k < |r.order| && Reached(r, st, k)
    ensures var b := r.blocks[r.order[k]]; Closes(b, r.next[r.order[k]]) || (b.insns == [] && Free(StateAt(r, st, k)))
  {
    assert r.SoundBlock(st.vars, r.order[k]);
    assert k == 0 || ReadyAt(r, st, k);
  }

  lemma LeavesHome(r: Routine, st: State, k: nat)
    requires r.Shaped() && Below(r, st) && r.Ordered() && r.Sound(st.vars) && k < |r.order| && Reached(r, st, k)
    ensures var st2 := StateAt(r, st, k + 1);
            LeftHome(r, st, k) && Grows(StateAt(r, st, k).vars, st2.vars) && Free(st2) && Slots(st2)
  {
    hide AllocBlock, Ready, Slots, Fine, Grows, Free, Need;
    var b := r.order[k];
    FineAt(r, st, k);
    ClosesAt(r, st, k);
    assert ReadyAt(r, st, k);
    BlockLeavesReady(StateAt(r, st, k), r.blocks[b], r.liveIn[b], r.next[b]);
  }

  lemma ReachNext(r: Routine, st: State, k: nat)
    requires r.Shaped() && Below(r, st) && r.Ordered() && r.Sound(st.vars) && k < |r.order| && Reached(r, st, k)
    ensures Reached(r, st, k + 1)
  {
    hide AllocBlock, Ready, Slots, Fine, Grows, Free, Need, Placed, StateAt, ReadyAt, Below;
    var b, st1, st2 := r.order[k], StateAt(r, st, k), StateAt(r, st, k + 1);
    LeavesHome(r, st, k);
    forall i: nat, j: nat {:trigger StateAt(r, st, i), StateAt(r, st, j)} | i <= j <= k + 1
      ensures Grows(StateAt(r, st, i).vars, StateAt(r, st, j).vars)
    {
      if i == k + 1 {
        GrowsSelf(st2.vars);
      } else if j == k + 1 {
        GrowsTransitive(StateAt(r, st, i).vars, st1.vars, st2.vars);
      }
    }
    if k + 1 < |r.order| {
      assert r.HasEarlierPred(k + 1);
      var i: nat :| i < k + 1 && Edge(r.g, r.order[i], r.order[k + 1]);
      assert LeftHome(r, st, i);
      assert Grows(StateAt(r, st, i + 1).vars, st2.vars);
      EntersReady(r, st, i, k + 1);
    }
  }

  /** What a predecessor left in memory is still there when its successor is allocated. */
  lemma EntersReady(r: Routine, st: State, i: nat, k: nat)
    requires r.Shaped() && Below(r, st) && r.Ordered() && i < k < |r.order| && Edge(r.g, r.order[i], r.order[k])
    requires LeftHome(r, st, i) && Grows(StateAt(r, st, i + 1).vars, StateAt(r, st, k).vars)
    requires Free(StateAt(r, st, k)) && Slots(StateAt(r, st, k))
    ensures ReadyAt(r, st, k)
  {
    hide AllocBlock, Slots;
    var b, st2 := r.order[k], StateAt(r, st, k);
    forall v: nat | v in r.liveIn[b] ensures v < |st.vars| && Placed(st2.vars[v]) {
      assert v in Leaves(r.blocks[r.order[i]], r.liveIn[r.order[i]]);
      GrowsAt(StateAt(r, st, i + 1).vars, st2.vars, v);
    }
    assert Need(r.blocks[b], r.liveIn[b], 0) <= r.liveIn[b];
  }

  lemma {:induction false} AllReached(r: Routine, st: State, k: nat)
    requires r.Shaped() && Below(r, st) && r.Ordered() && r.Sound(st.vars) && r.Start(st) && k <= |r.order|
    ensures Reached(r, st, k)
  {
    if k > 0 {
      AllReached(r, st, k - 1);
      ReachNext(r, st, k - 1);
    } else {
      GrowsSelf(st.vars);
      assert ReadyAt(r, st, 0);
    }
  }

  // ---- along a path ------------------------------------------------------------------------

  ghost predicate OnRoutine(r: Routine, p: seq<nat>)
    requires r.Shaped()
  {
    IsPath(r.g, p) && p[0] == r.order[0] && forall i :: 0 <= i < |p| ==> p[i] in r.order
  }

  /** The variables on reaching the `k`-th block of a path. */
  ghost function WorldAt(f: Alu, r: Routine, vars: seq<Var>, p: seq<nat>, k: nat, w: World): World
    requires r.Shaped() && OnRoutine(r, p) && k <= |p|
    requires forall b: nat :: b < |r.blocks| ==> BlockBelow(r.blocks[b], |vars|)
  {
    if k == 0 then w
    else
      var b := r.blocks[InOrder(r, p, k - 1)];
      Steps(f, vars, b, |b.insns|, WorldAt(f, r, vars, p, k - 1, w))
  }

  ghost function InOrder(r: Routine, p: seq<nat>, k: nat): (b: nat)
    requires r.Shaped() && OnRoutine(r, p) && k < |p|
    ensures b == p[k] < |r.g|
  {
    assert p[k] in r.order;
    p[k]
  }

  /** The machine there, having run the code of the blocks before. */
  ghost function MachineAt(f: Alu, codes: seq<seq<Ph2>>, p: seq<nat>, k: nat, m: Machine): Machine
    requires k <= |p| && forall i :: 0 <= i < |p| ==> p[i] < |codes|
  {
    if k == 0 then m else Run(f, codes[p[k - 1]], MachineAt(f, codes, p, k - 1, m))
  }

  /** `codes` holds for every block the code the pass emitted for it. */
  ghost predicate CodesOf(r: Routine, st: State, codes: seq<seq<Ph2>>)
    requires r.Shaped() && Below(r, st)
  {
    |codes| == |r.g| && forall k: nat :: k < |r.order| ==> codes[r.order[k]] == StateAt(r, st, k + 1).code
  }

  /** At a block boundary: same observations, and live variables are home. */
  ghost predicate Boundary(r: Routine, st: State, b: nat, w: World, m: Machine)
    requires r.Shaped() && Below(r, st) && b < |r.g|
  {
    m.trace == w.trace && Homes(StateAt(r, st, |r.order|).vars, r.liveIn[b], w.env, m.mem)
  }

  lemma HomesLater(before: seq<Var>, after: seq<Var>, vs: set<nat>, env: nat -> int, mem: Slot -> int)
    requires Grows(before, after) && forall v: nat :: v in vs ==> v < |before| && Placed(before[v])
    ensures Homes(before, vs, env, mem) <==> Homes(after, vs, env, mem)
  {
    forall v: nat | v in vs ensures Home(before[v], env(v), mem) == Home(after[v], env(v), mem) {
      GrowsAt(before, after, v);
    }
    assert forall v: nat :: v in vs ==> v < |after|;
  }

  lemma EdgeInside(r: Routine, i: nat, c: nat)
    requires r.Shaped() && r.Ordered() && i < |r.order| && Edge(r.g, r.order[i], c)
    ensures c < |r.g| && c in r.order && r.liveIn[c] <= Leaves(r.blocks[r.order[i]], r.liveIn[r.order[i]])
  {
  }

  /** The run of the `i`-th block from a state that simulates. */
  lemma BoundaryStep(f: Alu, r: Routine, st: State, i: nat, w: World, m: Machine)
    requires f.Loads() && r.Shaped() && Below(r, st) && r.Ordered() && r.Sound(st.vars) && r.Start(st) && i < |r.order|
    requires m.trace == w.trace
    requires var b := r.order[i];
             Sim(StateAt(r, st, i), Dirty(r.blocks[b]), {}, Need(r.blocks[b], r.liveIn[b], 0), w.env, m)
    ensures var b := r.blocks[r.order[i]];
            var w2, m2 := Steps(f, st.vars, b, |b.insns|, w), Run(f, StateAt(r, st, i + 1).code, m);
            m2.trace == w2.trace && forall c: nat ::
              Edge(r.g, r.order[i], c) ==> c < |r.g| && Boundary(r, st, c, w2, m2)
  {
    hide AllocBlock, Sim, Slots, Fine, Grows, Free, Need, Home, Ready;
    var b := r.blocks[r.order[i]];
    var st1, st2, last := StateAt(r, st, i), StateAt(r, st, i + 1), StateAt(r, st, |r.order|);
    var w2, m2 := Steps(f, st.vars, b, |b.insns|, w), Run(f, st2.code, m);
    AllReached(r, st, i);
    AllReached(r, st, |r.order|);
    FineAt(r, st, i);
    ClosesAt(r, st, i);
    BlockKeeps(f, m, st1, b, r.liveIn[r.order[i]], r.next[r.order[i]], w);
    StepsGrow(f, st.vars, st1.vars, b, |b.insns|, w);
    assert LeftHome(r, st, i) && Grows(st2.vars, last.vars);
    HomesLater(st2.vars, last.vars, Leaves(b, r.liveIn[r.order[i]]), w2.env, m2.mem);
    forall c: nat | Edge(r.g, r.order[i], c) ensures c < |r.g| && Boundary(r, st, c, w2, m2) {
      EdgeInside(r, i, c);
    }
  }

  /** Initial values do not change while allocation goes on. */
  lemma {:induction false} StepsGrow(f: Alu, vars: seq<Var>, vars2: seq<Var>, b: IrBlock, j: nat, w: World)
    requires Grows(vars, vars2) && BlockBelow(b, |vars|) && j <= |b.insns|
    ensures Steps(f, vars, b, j, w) == Steps(f, vars2, b, j, w)
  {
    if j > 0 {
      StepsGrow(f, vars, vars2, b, j - 1, w);
      if b.insns[j - 1].Constant? {
        GrowsAt(vars, vars2, b.insns[j - 1].rd);
      }
    }
  }

  lemma FreeSim(st: State, dirty: set<nat>, need: set<nat>, env: nat -> int, m: Machine)
    requires st.Ok() && Free(st) && Slots(st) && Homes(st.vars, need, env, m.mem)
    ensures Sim(st, dirty, {}, need, env, m)
  {
  }

  /** A block is entered with everything it needs in memory. */
  lemma EnterBlock(r: Routine, st: State, i: nat, w: World, m: Machine)
    requires r.Shaped() && Below(r, st) && r.Ordered() && r.Sound(st.vars) && r.Start(st) && 0 < i < |r.order|
    requires Boundary(r, st, r.order[i], w, m)
    ensures var b := r.order[i];
            Sim(StateAt(r, st, i), Dirty(r.blocks[b]), {}, Need(r.blocks[b], r.liveIn[b], 0), w.env, m)
  {
    hide AllocBlock, Slots, Fine, Grows, Free, Home, Sim, Ready;
    var b, st1, last := r.order[i], StateAt(r, st, i), StateAt(r, st, |r.order|);
    AllReached(r, st, i);
    AllReached(r, st, |r.order|);
    assert ReadyAt(r, st, i) && Grows(st1.vars, last.vars);
    HomesLater(st1.vars, last.vars, r.liveIn[b], w.env, m.mem);
    assert Homes(st1.vars, Need(r.blocks[b], r.liveIn[b], 0), w.env, m.mem);
    FreeSim(st1, Dirty(r.blocks[b]), Need(r.blocks[b], r.liveIn[b], 0), w.env, m);
  }

  /** Register allocation keeps the meaning of a function: along every path from its entry,
      the code emitted for the blocks makes the observations of their instructions, and what
      is live on entry of the next block is in its stack word or a constant. */
  lemma {:induction false} AllocationKeepsMeaning(f: Alu, r: Routine, st: State, codes: seq<seq<Ph2>>, p: seq<nat>,
                                                  k: nat,
                                                  w: World, m: Machine)
    requires f.Loads() && r.Shaped() && Below(r, st) && r.Ordered() && r.Sound(st.vars) && r.Start(st)
    requires CodesOf(r, st, codes) && OnRoutine(r, p) && 0 < k <= |p|
    requires forall i :: 0 <= i < |p| ==> p[i] < |codes|
    requires var b := r.order[0];
             Sim(st, Dirty(r.blocks[b]), {}, Need(r.blocks[b], r.liveIn[b], 0), w.env, m) && m.trace == w.trace
    ensures MachineAt(f, codes, p, k, m).trace == WorldAt(f, r, st.vars, p, k, w).trace
    ensures k < |p| ==> p[k] < |r.g| && Boundary(r, st, p[k], WorldAt(f, r, st.vars, p, k, w),
        MachineAt(f, codes, p, k, m))
  {
    hide AllocBlock, Sim, Home, Steps, Run, Need, Ready, Fine;
    var w1, m1 := WorldAt(f, r, st.vars, p, k - 1, w), MachineAt(f, codes, p, k - 1, m);
    assert InOrder(r, p, k - 1) == p[k - 1];
    var i: nat :| i < |r.order| && r.order[i] == p[k - 1] && (k == 1 ==> i == 0);
    if k > 1 {
      AllocationKeepsMeaning(f, r, st, codes, p, k - 1, w, m);
      assert Edge(r.g, p[k - 2], p[k - 1]);
      assert p[k - 1] != r.order[0];
      EnterBlock(r, st, i, w1, m1);
    }
    assert StateAt(r, st, 0) == st;
    BoundaryStep(f, r, st, i, w1, m1);
  }

  // ---- calls ----------------------------------------------------------------------------------

  /** Distinct parameters, killed by the entry block, and the only variables live on entry. */
  ghost predicate Params(r: Routine, vars: seq<Var>, params: seq<nat>)
    requires r.Shaped()
  {
    && (forall i :: 0 <= i < |params| ==>
          params[i] < |vars| && !vars[params[i]].isConst && params[i] in r.blocks[r.order[0]].liveKill)
    && (forall i, j :: 0 <= i < j < |params| ==> params[i] != params[j])
    && (forall v: nat :: v in r.liveIn[r.order[0]] ==> v in params)
  }

  predicate NoSpaceYet(vars: seq<Var>)
  {
    forall v :: 0 <= v < |vars| ==> !vars[v].hasSpace && !vars[v].top
  }

  /** The `k`-th parameter before the first block. */
  lemma {:induction false} StartVarsAre(vars: seq<Var>, params: seq<nat>, maxArgs: nat, i: nat, v: nat)
    requires i <= |params| && (forall k :: 0 <= k < |params| ==> params[k] < |vars|) && v < |vars|
    requires forall k, j :: 0 <= k < j < |params| ==> params[k] != params[j]
    ensures var x := StartVars(vars, params, maxArgs, i)[v];
            && (v !in params[..i] ==> x == vars[v])
            && (forall k :: 0 <= k < i && params[k] == v ==>
                  x == if k < maxArgs then vars[v]
                    else vars[v].(offset := (k - maxArgs) * 4, hasSpace := true, top := true))
  {
    if i > 0 {
      StartVarsAre(vars, params, maxArgs, i - 1, v);
      if v !in params[..i] {
        assert forall k :: 0 <= k < i ==> params[..i][k] != v;
        assert v !in params[..i - 1];
      }
      if params[i - 1] == v {
        assert v !in params[..i - 1];
      } else if v in params[..i - 1] {
        assert exists k :: 0 <= k < i - 1 && params[k] == v;
      }
    }
  }

  lemma StartSlots(st: State, params: seq<nat>, maxArgs: nat)
    requires |st.regs| == REG_CNT && NoSpaceYet(st.vars) && forall k :: 0 <= k < |params| ==> params[k] < |st.vars|
    requires forall k, j :: 0 <= k < j < |params| ==> params[k] != params[j]
    ensures Slots(StartState(st, params, maxArgs))
  {
    var vars := StartState(st, params, maxArgs).vars;
    forall v | 0 <= v < |vars|
      ensures vars[v].hasSpace == vars[v].top
      ensures vars[v].hasSpace ==> exists k ::
        maxArgs <= k < |params| && params[k] == v && vars[v].offset == (k - maxArgs) * 4
    {
      StartVarsAre(st.vars, params, maxArgs, |params|, v);
      assert params[..|params|] == params;
      if v in params {
        var k :| 0 <= k < |params| && params[k] == v;
        assert k < maxArgs || vars[v].offset == (k - maxArgs) * 4;
      }
    }
    forall v, u | 0 <= v < |vars| && 0 <= u < |vars| && v != u ensures Apart(vars[v], vars[u]) {
      if vars[v].hasSpace && vars[u].hasSpace {
        var k :| maxArgs <= k < |params| && params[k] == v && vars[v].offset == (k - maxArgs) * 4;
        var j :| maxArgs <= j < |params| && params[j] == u && vars[u].offset == (j - maxArgs) * 4;
        assert k != j;
      }
    }
  }

  /** Arguments passed as the calling convention says: the first `maxArgs` in registers, the
      others above the frame. */
  ghost predicate Passed(params: seq<nat>, maxArgs: nat, w: World, m: Machine)
  {
    forall i :: 0 <= i < |params| ==>
      w.env(params[i]) == if i < maxArgs then m.regs(i) else m.mem(Slot(true, (i - maxArgs) * 4))
  }

  /** A call starts as `AllocationKeepsMeaning` asks. */
  lemma CallStarts(r: Routine, st: State, params: seq<nat>, maxArgs: nat, w: World, m: Machine)
    requires r.Shaped() && |st.regs| == REG_CNT && NoSpaceYet(st.vars) && Params(r, st.vars, params)
    requires maxArgs <= REG_CNT
    requires Passed(params, maxArgs, w, m)
    ensures var st1, b := StartState(st, params, maxArgs), r.order[0];
            r.Start(st1) && Sim(st1, Dirty(r.blocks[b]), {}, Need(r.blocks[b], r.liveIn[b], 0), w.env, m)
  {
    var st1, b := StartState(st, params, maxArgs), r.blocks[r.order[0]];
    StartSlots(st, params, maxArgs);
    forall i | 0 <= i < REG_CNT
      ensures st1.regs[i].var_.Some? ==> i < |params| && i < maxArgs && st1.regs[i] == Reg(Some(params[i]), true)
      ensures RegOk(st1.regs[i], st1.vars, Dirty(b), {}, w.env, m.regs(i), m.mem)
      ensures st1.regs[i].var_.Some? ==> !st1.vars[st1.regs[i].var_.value].isConst
    {
      if i < |params| && i < maxArgs {
        StartVarsAre(st.vars, params, maxArgs, |params|, params[i]);
      }
    }
    forall v: nat | v in r.liveIn[r.order[0]]
      ensures v < |st1.vars| && (!Held(st1, v) ==> Placed(st1.vars[v]) && Home(st1.vars[v], w.env(v), m.mem))
    {
      var k :| 0 <= k < |params| && params[k] == v;
      StartVarsAre(st.vars, params, maxArgs, |params|, v);
      if k < maxArgs {
        assert st1.regs[k].var_ == Some(v);
      }
    }
  }

  lemma {:induction false} StepsSame(f: Alu, vars: seq<Var>, vars2: seq<Var>, b: IrBlock, j: nat, w: World)
    requires |vars2| == |vars| && forall v :: 0 <= v < |vars| ==> vars2[v].initVal == vars[v].initVal
    requires BlockBelow(b, |vars|) && j <= |b.insns|
    ensures Steps(f, vars, b, j, w) == Steps(f, vars2, b, j, w)
  {
    if j > 0 {
      StepsSame(f, vars, vars2, b, j - 1, w);
    }
  }

  lemma {:induction false} WorldSame(f: Alu, r: Routine, vars: seq<Var>, vars2: seq<Var>, p: seq<nat>, k: nat, w: World)
    requires r.Shaped() && OnRoutine(r, p) && k <= |p|
    requires forall b: nat :: b < |r.blocks| ==> BlockBelow(r.blocks[b], |vars|)
    requires |vars2| == |vars| && forall v :: 0 <= v < |vars| ==> vars2[v].initVal == vars[v].initVal
    ensures WorldAt(f, r, vars, p, k, w) == WorldAt(f, r, vars2, p, k, w)
  {
    if k > 0 {
      WorldSame(f, r, vars, vars2, p, k - 1, w);
      var b := r.blocks[InOrder(r, p, k - 1)];
      StepsSame(f, vars, vars2, b, |b.insns|, WorldAt(f, r, vars, p, k - 1, w));
    }
  }

  /** Giving the stacked parameters their words changes nothing that the block conditions ask. */
  lemma StartSound(r: Routine, st: State, params: seq<nat>, maxArgs: nat)
    requires r.Shaped() && r.Sound(st.vars) && |st.regs| == REG_CNT
    requires forall k :: 0 <= k < |params| ==> params[k] < |st.vars|
    requires forall k, j :: 0 <= k < j < |params| ==> params[k] != params[j]
    ensures r.Sound(StartState(st, params, maxArgs).vars)
    ensures var vars := StartState(st, params, maxArgs).vars;
            forall v :: 0 <= v < |st.vars| ==> vars[v].initVal == st.vars[v].initVal
  {
    var vars := StartState(st, params, maxArgs).vars;
    forall v | 0 <= v < |st.vars|
      ensures vars[v].isConst == st.vars[v].isConst && vars[v].consumed == st.vars[v].consumed
      ensures vars[v].initVal == st.vars[v].initVal
    {
      StartVarsAre(st.vars, params, maxArgs, |params|, v);
      assert params[..|params|] == params;
      if v in params {
        var k :| 0 <= k < |params| && params[k] == v;
      }
    }
    hide Fine;
    forall k | 0 <= k < |r.order| ensures r.SoundBlock(vars, r.order[k]) {
      assert r.SoundBlock(st.vars, r.order[k]);
      FineSame(r.blocks[r.order[k]], r.liveIn[r.order[k]], st.vars, vars);
    }
  }
}
