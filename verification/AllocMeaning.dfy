/** The code the register allocator emits does what the instructions it was given do
    (src/reg-alloc.c:192-383 and 654-1001). */
module AllocMeaning {
  import opened Options
  import opened RegAlloc

  /** What the operations compute; only the constant load is fixed. */
  datatype Alu = Alu(constant: (nat, int) -> int, unary: (nat, int, int) -> int, binary: (nat, int, int) -> int)
  {
    ghost predicate Loads() {
      forall x: int :: constant(OP_LOAD_CONSTANT, x) == x
    }
  }

  /** What can be observed of a run: the operands of every computation, branch and return. */
  datatype Event =
    | Computed1(op: nat, sz: int, x: int)
    | Computed2(op: nat, x: int, y: int)
    | Branched(x: int)
    | Returned(r: Option<int>)

  /** A run of phase-1 instructions: the variables. */
  datatype World = World(env: nat -> int, trace: seq<Event>)
  {
    function Put(v: nat, x: int): World {
      this.(env := (u: nat) => if u == v then x else env(u))
    }

    function Log(e: Event): World {
      this.(trace := trace + [e])
    }
  }

  /** A run of phase-2 instructions: registers and stack words. */
  datatype Machine = Machine(regs: nat -> int, mem: Slot -> int, trace: seq<Event>)
  {
    function Put(r: nat, x: int): Machine {
      this.(regs := (q: nat) => if q == r then x else regs(q))
    }

    function Store(s: Slot, x: int): Machine {
      this.(mem := q => if q == s then x else mem(q))
    }

    function Log(e: Event): Machine {
      this.(trace := trace + [e])
    }
  }

  function Step(f: Alu, vars: seq<Var>, i: Insn, w: World): World
    requires VarsBelow(i, |vars|)
  {
    match i
    case Allocat(_) => w
    case Constant(op, rd) => w.Put(rd, f.constant(op, vars[rd].initVal))
    case Assign(rd, rs1) => w.Put(rd, w.env(rs1))
    case UnwoundPhi(rd, rs1) => w.Put(rd, w.env(rs1))
    case Unary(op, sz, rd, rs1) => w.Put(rd, f.unary(op, sz, w.env(rs1))).Log(Computed1(op, sz, w.env(rs1)))
    case Binary(op, rd, rs1, rs2) => w.Put(rd, f.binary(op, w.env(rs1), w.env(rs2))).Log(Computed2(op, w.env(rs1),
        w.env(rs2)))
    case Branch(rs1) => w.Log(Branched(w.env(rs1)))
    case Return(rs) => w.Log(Returned(if rs.Some? then Some(w.env(rs.value)) else None))
  }

  function Step2(f: Alu, i: Ph2, m: Machine): Machine
  {
    match i
    case PConstant(op, dest, value) => m.Put(dest, f.constant(op, value))
    case PLoad(dest, slot) => m.Put(dest, m.mem(slot))
    case PStore(src0, slot) => m.Store(slot, m.regs(src0))
    case PAssign(dest, src0) => m.Put(dest, m.regs(src0))
    case PUnary(op, sz, dest, src0) => m.Put(dest, f.unary(op, sz, m.regs(src0))).Log(Computed1(op, sz, m.regs(src0)))
    case PBinary(op, dest, src0, src1) =>
      m.Put(dest, f.binary(op, m.regs(src0), m.regs(src1))).Log(Computed2(op, m.regs(src0), m.regs(src1)))
    case PBranch(src0) => m.Log(Branched(m.regs(src0)))
    case PReturn(src) => m.Log(Returned(if src.Some? then Some(m.regs(src.value)) else None))
  }

  /** The first `j` instructions of a block. */
  ghost function Steps(f: Alu, vars: seq<Var>, b: IrBlock, j: nat, w: World): World
    requires j <= |b.insns| && BlockBelow(b, |vars|)
  {
    if j == 0 then w else Step(f, vars, b.insns[j - 1], Steps(f, vars, b, j - 1, w))
  }

  function Run(f: Alu, code: seq<Ph2>, m: Machine): Machine
  {
    if code == [] then m else Step2(f, code[|code| - 1], Run(f, code[..|code| - 1], m))
  }

  lemma RunEmit(f: Alu, code: seq<Ph2>, i: Ph2, m: Machine)
    ensures Run(f, code + [i], m) == Step2(f, i, Run(f, code, m))
  {
    assert (code + [i])[..|code|] == code;
  }

  // ---- the invariant ---------------------------------------------------------------------

  /** Stack words do not overlap and local ones lie inside the frame. */
  ghost predicate Slots(st: State)
  {
    && (forall v :: 0 <= v < |st.vars| ==>
          (!st.vars[v].hasSpace ==> !st.vars[v].top)
          && (st.vars[v].hasSpace && !st.vars[v].top ==> st.vars[v].offset + 4 <= st.stackSize))
    && (forall v, u :: 0 <= v < |st.vars| && 0 <= u < |st.vars| && v != u ==> Apart(st.vars[v], st.vars[u]))
  }

  predicate Apart(x: Var, y: Var)
  {
    x.hasSpace && y.hasSpace && x.top == y.top ==> x.offset + 4 <= y.offset || y.offset + 4 <= x.offset
  }

  /** Loading `x` gives `val`. */
  predicate Home(x: Var, val: int, mem: Slot -> int)
  {
    if x.isConst then val == x.initVal else x.hasSpace && mem(x.Word()) == val
  }

  ghost predicate Held(st: State, v: nat)
  {
    exists i :: 0 <= i < |st.regs| && st.regs[i].var_ == Some(v)
  }

  ghost predicate NoneTwice(regs: seq<Reg>)
  {
    forall i, j :: 0 <= i < j < |regs| && regs[i].var_.Some? ==> regs[i].var_ != regs[j].var_
  }

  /** A register holds the value of its variable, unless a phi copy has overtaken it, and can
      be dropped when it is not polluted. */
  predicate RegOk(reg: Reg, vars: seq<Var>, dirty: set<nat>, phi: set<nat>, env: nat -> int, val: int, mem: Slot -> int)
    requires reg.var_.Some? ==> reg.var_.value < |vars|
  {
    match reg.var_
    case None => true
    case Some(v) =>
      && (v !in phi ==> val == env(v))
      && (if reg.polluted then v in dirty && v !in phi && (vars[v].isConst ==> env(v) == vars[v].initVal)
          else Home(vars[v], env(v), mem))
  }

  /** `dirty`: variables that may be polluted; `phi`: variables already copied to for a phi;
      `need`: variables whose values are still wanted. */
  ghost predicate Sim(st: State, dirty: set<nat>, phi: set<nat>, need: set<nat>, env: nat -> int, m: Machine)
  {
    && st.Ok() && NoneTwice(st.regs) && Slots(st)
    && (forall i :: 0 <= i < REG_CNT ==> RegOk(st.regs[i], st.vars, dirty, phi, env, m.regs(i), m.mem))
    && (forall v: nat :: v in need ==> v < |st.vars|)
    && (forall v: nat :: v in need && !Held(st, v) ==> Home(st.vars[v], env(v), m.mem))
  }

  /** What allocation never takes back. */
  ghost predicate Grows(before: seq<Var>, after: seq<Var>)
  {
    |before| == |after| && forall v :: 0 <= v < |before| ==> GrowsOne(before[v], after[v])
  }

  predicate GrowsOne(x: Var, y: Var)
  {
    && x.isConst == y.isConst && x.initVal == y.initVal && x.consumed == y.consumed && x.top == y.top
    && (x.hasSpace ==> y.hasSpace && x.offset == y.offset)
  }

  /** Only the bookkeeping that values do not depend on has changed. */
  lemma SameValues(st: State, st2: State, dirty: set<nat>, phi: set<nat>, need: set<nat>, env: nat -> int, m: Machine)
    requires Sim(st, dirty, phi, need, env, m)
    requires st2.regs == st.regs && st2.stackSize == st.stackSize && Grows(st.vars, st2.vars)
    requires forall v :: 0 <= v < |st.vars| ==> st2.vars[v].hasSpace == st.vars[v].hasSpace
    ensures Sim(st2, dirty, phi, need, env, m)
  {
    forall v, u | 0 <= v < |st.vars| && 0 <= u < |st.vars| && v != u ensures Apart(st2.vars[v], st2.vars[u]) {
      assert Apart(st.vars[v], st.vars[u]);
      assert GrowsOne(st.vars[v], st2.vars[v]) && GrowsOne(st.vars[u], st2.vars[u]);
    }
    forall v | 0 <= v < |st.vars|
      ensures GrowsOne(st.vars[v], st2.vars[v]) && (st.vars[v].hasSpace ==> st2.vars[v].Word() == st.vars[v].Word())
      ensures !st2.vars[v].hasSpace ==> !st2.vars[v].top
      ensures st2.vars[v].hasSpace && !st2.vars[v].top ==> st2.vars[v].offset + 4 <= st2.stackSize
    {
    }
    forall i | 0 <= i < REG_CNT ensures RegOk(st2.regs[i], st2.vars, dirty, phi, env, m.regs(i), m.mem) {
      assert RegOk(st.regs[i], st.vars, dirty, phi, env, m.regs(i), m.mem);
    }
    forall v: nat | v in need && !Held(st2, v) ensures Home(st2.vars[v], env(v), m.mem) {
      assert !Held(st, v);
    }
  }

  /** A register that is not needed, or not polluted, can be emptied. */
  lemma DropKeeps(st: State, i: nat, r: Reg, dirty: set<nat>, phi: set<nat>, need: set<nat>, env: nat -> int,
                  m: Machine)
    requires Sim(st, dirty, phi, need, env, m) && i < REG_CNT && r.var_ == None
    requires st.regs[i].var_.Some? ==> !st.regs[i].polluted || st.regs[i].var_.value !in need
    ensures Sim(st.SetReg(i, r), dirty, phi, need, env, m)
  {
    var st2 := st.SetReg(i, r);
    forall v: nat | v in need && !Held(st2, v) ensures Home(st2.vars[v], env(v), m.mem) {
      if Held(st, v) {
        forall k | 0 <= k < |st.regs| && k != i ensures st.regs[k].var_ != Some(v) {
          assert st2.regs[k] == st.regs[k];
        }
        assert RegOk(st.regs[i], st.vars, dirty, phi, env, m.regs(i), m.mem);
      }
    }
  }

  lemma ReleaseKeeps(st: State, i: nat, dirty: set<nat>, phi: set<nat>, need: set<nat>, env: nat -> int, m: Machine)
    requires Sim(st, dirty, phi, need, env, m) && i < REG_CNT && st.regs[i].var_.Some?
    requires !st.regs[i].polluted || st.regs[i].var_.value !in need
    ensures Sim(st.Release(i), dirty, phi, need, env, m) && Grows(st.vars, st.Release(i).vars)
  {
    DropKeeps(st, i, Reg(None, false), dirty, phi, need, env, m);
    SameValues(st.SetReg(i, Reg(None, false)), st.Release(i), dirty, phi, need, env, m);
  }

  lemma AllocateKeeps(st: State, v: nat, dirty: set<nat>, phi: set<nat>, need: set<nat>, env: nat -> int, m: Machine)
    requires Sim(st, dirty, phi, need, env, m) && v < |st.vars|
    ensures Sim(st.Allocate(v), dirty, phi, need, env, m) && Grows(st.vars, st.Allocate(v).vars)
    ensures st.Allocate(v).vars[v].hasSpace
  {
    var st2 := st.Allocate(v);
    forall u | 0 <= u < |st.vars| ensures GrowsOne(st.vars[u], st2.vars[u]) {
    }
    forall x, u | 0 <= x < |st.vars| && 0 <= u < |st.vars| && x != u ensures Apart(st2.vars[x], st2.vars[u]) {
      assert Apart(st.vars[x], st.vars[u]);
    }
    forall i | 0 <= i < REG_CNT ensures RegOk(st2.regs[i], st2.vars, dirty, phi, env, m.regs(i), m.mem) {
      assert RegOk(st.regs[i], st.vars, dirty, phi, env, m.regs(i), m.mem);
    }
    forall u: nat | u in need && !Held(st2, u) ensures Home(st2.vars[u], env(u), m.mem) {
      assert !Held(st, u);
    }
  }

  /** Writing the word of `v`: nothing else moves. */
  lemma StoreElsewhere(st: State, v: nat, u: nat, val: int, x: int, m: Machine)
    requires Slots(st) && v < |st.vars| && u < |st.vars| && v != u && st.vars[v].hasSpace
    requires Home(st.vars[u], val, m.mem)
    ensures Home(st.vars[u], val, m.Store(st.vars[v].Word(), x).mem)
  {
    assert Apart(st.vars[u], st.vars[v]);
  }

  /** The store of a polluted register makes it droppable. */
  lemma StoreKeeps(st: State, i: nat, dirty: set<nat>, phi: set<nat>, need: set<nat>, env: nat -> int, m: Machine)
    requires Sim(st, dirty, phi, need, env, m) && i < REG_CNT && st.regs[i].var_.Some? && st.regs[i].polluted
    requires st.vars[st.regs[i].var_.value].hasSpace
    ensures var m2 := m.Store(st.vars[st.regs[i].var_.value].Word(), m.regs(i));
            Sim(st.SetReg(i, st.regs[i].(polluted := false)), dirty, phi, need, env, m2)
  {
    var v := st.regs[i].var_.value;
    var m2 := m.Store(st.vars[v].Word(), m.regs(i));
    var st2 := st.SetReg(i, st.regs[i].(polluted := false));
    assert RegOk(st.regs[i], st.vars, dirty, phi, env, m.regs(i), m.mem);
    forall k | 0 <= k < REG_CNT ensures RegOk(st2.regs[k], st2.vars, dirty, phi, env, m2.regs(k), m2.mem) {
      assert RegOk(st.regs[k], st.vars, dirty, phi, env, m.regs(k), m.mem);
      if k != i && st.regs[k].var_.Some? && !st.regs[k].polluted {
        StoreElsewhere(st, v, st.regs[k].var_.value, env(st.regs[k].var_.value), m.regs(i), m);
      }
    }
    forall u: nat | u in need && !Held(st2, u) ensures Home(st2.vars[u], env(u), m2.mem) {
      assert st2.regs[i].var_ == Some(v);
      forall k | 0 <= k < |st.regs| ensures st.regs[k].var_ != Some(u) {
        assert st2.regs[k].var_ == st.regs[k].var_;
      }
      StoreElsewhere(st, v, u, env(u), m.regs(i), m);
    }
  }

  /** `spill_var` */
  lemma SpillKeeps(f: Alu, m0: Machine, st: State, i: nat, dirty: set<nat>, phi: set<nat>, need: set<nat>,
                   env: nat -> int)
    requires Sim(st, dirty, phi, need, env, Run(f, st.code, m0)) && i < REG_CNT && st.regs[i].var_.Some?
    ensures var st2 := Spill(st, i); var m, m2 := Run(f, st.code, m0), Run(f, st2.code, m0);
            Sim(st2, dirty, phi, need, env, m2) && Grows(st.vars, st2.vars) && m2.regs == m.regs && m2.trace == m.trace
  {
    hide Run, NoneTwice, Home, RegOk, Slots;
    var m := Run(f, st.code, m0);
    var v := st.regs[i].var_.value;
    if !st.regs[i].polluted {
      ReleaseKeeps(st, i, dirty, phi, need, env, m);
    } else {
      var st1 := st.Allocate(v);
      AllocateKeeps(st, v, dirty, phi, need, env, m);
      StoreKeeps(st1, i, dirty, phi, need, env, m);
      var st2 := st1.SetReg(i, st1.regs[i].(polluted := false));
      var m2 := m.Store(st1.vars[v].Word(), m.regs(i));
      ReleaseKeeps(st2, i, dirty, phi, need, env, m2);
      RunEmit(f, st.code, PStore(i, st1.vars[v].Word()), m0);
      var st3 := Spill(st, i);
      assert st3.vars == st2.Release(i).vars && st3.regs == st2.Release(i).regs;
      SameValues(st2.Release(i), st3, dirty, phi, need, env, m2);
    }
  }

  /** `load_var` of a variable that no register holds, into a free one. */
  lemma LoadKeeps(f: Alu, m0: Machine, st: State, v: nat, i: nat, dirty: set<nat>, phi: set<nat>, need: set<nat>,
                  env: nat -> int)
    requires f.Loads() && Sim(st, dirty, phi, need, env, Run(f, st.code, m0)) && v in need && !Held(st, v)
    requires i < REG_CNT && st.regs[i].var_ == None
    ensures var st2 := LoadVar(st, v, i); var m, m2 := Run(f, st.code, m0), Run(f, st2.code, m0);
            && Sim(st2, dirty, phi, need, env, m2) && Grows(st.vars, st2.vars) && m2.trace == m.trace
            && m2.regs(i) == env(v) && forall k: nat :: k != i ==> m2.regs(k) == m.regs(k)
  {
    var m, x := Run(f, st.code, m0), st.vars[v];
    var insn := if x.isConst then PConstant(OP_LOAD_CONSTANT, i, x.initVal) else PLoad(i, x.Word());
    var m2, st2 := Step2(f, insn, m), LoadVar(st, v, i);
    RunEmit(f, st.code, insn, m0);
    assert m2.mem == m.mem && m2.regs(i) == env(v);
    var mid := st.SetReg(i, Reg(Some(v), false));
    assert Sim(mid, dirty, phi, need, env, m2) by {
      forall k | 0 <= k < REG_CNT ensures RegOk(mid.regs[k], st.vars, dirty, phi, env, m2.regs(k), m2.mem) {
        assert RegOk(st.regs[k], st.vars, dirty, phi, env, m.regs(k), m.mem);
      }
      forall u: nat | u in need && !Held(mid, u) ensures !Held(st, u) {
        assert forall k :: 0 <= k < REG_CNT && k != i ==> mid.regs[k] == st.regs[k];
      }
      forall k, j | 0 <= k < j < REG_CNT && mid.regs[k].var_.Some? ensures mid.regs[k].var_ != mid.regs[j].var_ {
        assert k != i ==> mid.regs[k] == st.regs[k];
        assert j != i ==> mid.regs[j] == st.regs[j];
      }
    }
    SameValues(mid, st2, dirty, phi, need, env, m2);
  }

  lemma MapPhysKeeps(st: State, v: nat, r: int, dirty: set<nat>, phi: set<nat>, need: set<nat>, env: nat -> int,
                     m: Machine)
    requires Sim(st, dirty, phi, need, env, m) && v < |st.vars|
    ensures Sim(st.MapPhys(v, r), dirty, phi, need, env, m) && Grows(st.vars, st.MapPhys(v, r).vars)
  {
    SameValues(st, st.MapPhys(v, r), dirty, phi, need, env, m);
  }

  lemma GrowsTransitive(x: seq<Var>, y: seq<Var>, z: seq<Var>)
    requires Grows(x, y) && Grows(y, z)
    ensures Grows(x, z)
  {
    forall v | 0 <= v < |x| ensures GrowsOne(x[v], z[v]) {
      assert GrowsOne(x[v], y[v]) && GrowsOne(y[v], z[v]);
    }
  }

  /** A register is made free without losing a value or touching another register. */
  lemma RoomKeeps(f: Alu, m0: Machine, st: State, b: IrBlock, avoid1: int, avoid2: int,
                  dirty: set<nat>, phi: set<nat>, need: set<nat>, env: nat -> int)
    requires Sim(st, dirty, phi, need, env, Run(f, st.code, m0))
    ensures var st2 := MakeRoom(st, b, avoid1, avoid2).0; var m, m2 := Run(f, st.code, m0), Run(f, st2.code, m0);
            Sim(st2, dirty, phi, need, env, m2) && Grows(st.vars, st2.vars) && m2.regs == m.regs && m2.trace == m.trace
  {
    if FirstFree(st, 0) < 0 {
      var i := Victim(st, b, avoid1, avoid2);
      var v := st.regs[i].var_.value;
      MapPhysKeeps(st, v, NO_REG, dirty, phi, need, env, Run(f, st.code, m0));
      SpillKeeps(f, m0, st.MapPhys(v, NO_REG), i, dirty, phi, need, env);
      GrowsTransitive(st.vars, st.MapPhys(v, NO_REG).vars, MakeRoom(st, b, avoid1, avoid2).0.vars);
    }
  }

  lemma RoomHoldsLess(st: State, b: IrBlock, avoid1: int, avoid2: int, v: nat)
    requires st.Ok() && !Held(st, v)
    ensures !Held(MakeRoom(st, b, avoid1, avoid2).0, v)
  {
    var room := MakeRoom(st, b, avoid1, avoid2);
    forall k | 0 <= k < |room.0.regs| ensures room.0.regs[k].var_ != Some(v) {
      assert k != room.1 ==> room.0.regs[k] == st.regs[k];
    }
  }

  /** What `prepare_operand` promises of its result `st2`, `r`. */
  ghost predicate OperandReady(f: Alu, m0: Machine, st: State, st2: State, r: nat, v: nat, operand0: int,
                               dirty: set<nat>, phi: set<nat>, need: set<nat>, env: nat -> int)
    requires |st.regs| == REG_CNT == |st2.regs| && r < REG_CNT
  {
    var m, m2 := Run(f, st.code, m0), Run(f, st2.code, m0);
    && Sim(st2, dirty, phi, need, env, m2) && Grows(st.vars, st2.vars) && m2.trace == m.trace
    && m2.regs(r) == env(v)
    && (0 <= operand0 < REG_CNT && st.regs[operand0].var_.Some? ==>
          m2.regs(operand0) == m.regs(operand0) && st2.regs[operand0].var_ == st.regs[operand0].var_)
    && (!Held(st, v) ==> !st2.regs[r].polluted)
  }

  /** The variable is in a register. */
  lemma OperandFound(f: Alu, m0: Machine, st: State, v: nat, found: nat, operand0: int,
                     dirty: set<nat>, phi: set<nat>, need: set<nat>, env: nat -> int)
    requires Sim(st, dirty, phi, need, env, Run(f, st.code, m0)) && v in need && v !in phi
    requires found < REG_CNT && |st.regs| == REG_CNT && st.regs[found].var_ == Some(v)
    ensures OperandReady(f, m0, st, st.MapPhys(v, found), found, v, operand0, dirty, phi, need, env)
  {
    var m := Run(f, st.code, m0);
    hide Run, Home, Slots, NoneTwice;
    assert RegOk(st.regs[found], st.vars, dirty, phi, env, m.regs(found), m.mem);
    MapPhysKeeps(st, v, found, dirty, phi, need, env, m);
  }

  /** The variable is loaded into a register made free for it. */
  lemma OperandLoaded(f: Alu, m0: Machine, st: State, b: IrBlock, v: nat, operand0: int,
                      dirty: set<nat>, phi: set<nat>, need: set<nat>, env: nat -> int)
    requires f.Loads() && st.Ok() && v < |st.vars| && Sim(st, dirty, phi, need, env, Run(f, st.code, m0))
    requires v in need && !Held(st, v)
    ensures var room := MakeRoom(st, b, operand0, -1);
            OperandReady(f, m0, st, LoadVar(room.0, v, room.1), room.1, v, operand0, dirty, phi, need, env)
  {
    hide Run, Sim, Grows, MakeRoom, LoadVar, Held, State.Ok;
    var room := MakeRoom(st, b, operand0, -1);
    RoomKeeps(f, m0, st, b, operand0, -1, dirty, phi, need, env);
    RoomHoldsLess(st, b, operand0, -1, v);
    LoadKeeps(f, m0, room.0, v, room.1, dirty, phi, need, env);
    GrowsTransitive(st.vars, room.0.vars, LoadVar(room.0, v, room.1).vars);
    LoadedClean(room.0, v, room.1);
  }

  lemma LoadedClean(st: State, v: nat, i: nat)
    requires st.Ok() && i < REG_CNT && v < |st.vars|
    ensures |LoadVar(st, v, i).regs| == REG_CNT && !LoadVar(st, v, i).regs[i].polluted
    ensures forall k :: 0 <= k < REG_CNT && k != i ==> LoadVar(st, v, i).regs[k] == st.regs[k]
  {
  }

  lemma Registerless(st: State, v: nat)
    requires st.Ok() && v < |st.vars| && RegisterOf(st, v) < 0
    ensures !Held(st, v)
  {
  }

  lemma NeedInside(st: State, dirty: set<nat>, phi: set<nat>, need: set<nat>, env: nat -> int, m: Machine, v: nat)
    requires Sim(st, dirty, phi, need, env, m) && v in need
    ensures st.Ok() && v < |st.vars|
  {
  }

  /** `prepare_operand`: the register returned holds the value of a needed variable. */
  lemma OperandKeeps(f: Alu, m0: Machine, st: State, b: IrBlock, v: nat, operand0: int,
                     dirty: set<nat>, phi: set<nat>, need: set<nat>, env: nat -> int)
    requires f.Loads() && Sim(st, dirty, phi, need, env, Run(f, st.code, m0)) && v in need && v !in phi
    ensures var r := PrepareOperand(st, b, v, operand0); var m, m2 := Run(f, st.code, m0), Run(f, r.0.code, m0);
            && Sim(r.0, dirty, phi, need, env, m2) && Grows(st.vars, r.0.vars) && m2.trace == m.trace
            && m2.regs(r.1) == env(v)
            && (0 <= operand0 < REG_CNT && st.regs[operand0].var_.Some? ==>
                  m2.regs(operand0) == m.regs(operand0) && r.0.regs[operand0].var_ == st.regs[operand0].var_)
            && (!Held(st, v) ==> !r.0.regs[r.1].polluted)
  {
    hide Run, Sim, Grows, MakeRoom, LoadVar, Held, RegisterOf;
    NeedInside(st, dirty, phi, need, env, Run(f, st.code, m0), v);
    if RegisterOf(st, v) >= 0 {
      OperandFound(f, m0, st, v, RegisterOf(st, v), operand0, dirty, phi, need, env);
    } else {
      Registerless(st, v);
      OperandLoaded(f, m0, st, b, v, operand0, dirty, phi, need, env);
    }
  }

  /** `prepare_dest`: apart from the register it returns, which holds no value yet, everything
      is as before. */
  lemma DestKeeps(f: Alu, m0: Machine, st: State, b: IrBlock, v: nat, operand0: int, operand1: int,
                  dirty: set<nat>, phi: set<nat>, need: set<nat>, env: nat -> int)
    requires Sim(st, dirty, phi, need, env, Run(f, st.code, m0)) && v < |st.vars|
    ensures var r := PrepareDest(st, b, v, operand0, operand1); var m, m2 := Run(f, st.code, m0), Run(f, r.0.code, m0);
            && Sim(r.0.SetReg(r.1, Reg(None, false)), dirty, phi, need - {v}, env, m2) && Grows(st.vars, r.0.vars)
            && !Held(r.0.SetReg(r.1, Reg(None, false)), v) && m2.trace == m.trace && m2.regs == m.regs
            && (forall k :: 0 <= k < REG_CNT && k != r.1 ==> r.0.regs[k] == st.regs[k])
            && (st.regs[r.1].var_.Some? && st.regs[r.1].var_ != Some(v) ==> r.1 != operand0 && r.1 != operand1)
  {
    hide Run, MakeRoom;
    var r, m, less := PrepareDest(st, b, v, operand0, operand1), Run(f, st.code, m0), need - {v};
    var found := RegisterOf(st, v);
    if found >= 0 {
      DropKeeps(st, found, Reg(None, false), dirty, phi, less, env, m);
      var mid := st.SetReg(found, Reg(None, false));
      SameValues(mid, r.0.SetReg(r.1, Reg(None, false)), dirty, phi, less, env, m);
    } else {
      var room := MakeRoom(st, b, operand0, operand1);
      RoomKeeps(f, m0, st, b, operand0, operand1, dirty, phi, need, env);
      RoomHoldsLess(st, b, operand0, operand1, v);
      var m2 := Run(f, room.0.code, m0);
      DropKeeps(room.0, room.1, Reg(None, false), dirty, phi, less, env, m2);
      SameValues(room.0.SetReg(room.1, Reg(None, false)), r.0.SetReg(r.1, Reg(None, false)), dirty, phi, less, env, m2);
      GrowsTransitive(st.vars, room.0.vars, r.0.vars);
    }
  }

  /** The value of a definition reaches the register prepared for it. */
  lemma DefineKeeps(st: State, v: nat, r: nat, x: int, dirty: set<nat>, phi: set<nat>, need: set<nat>,
                    env: nat -> int, env2: nat -> int, m: Machine, m2: Machine)
    requires r < REG_CNT && v < |st.vars| && |st.regs| == REG_CNT && st.regs[r] == Reg(Some(v), true)
    requires Sim(st.SetReg(r, Reg(None, false)), dirty, phi, need - {v}, env, m)
    requires !Held(st.SetReg(r, Reg(None, false)), v)
    requires v in dirty && v !in phi && (st.vars[v].isConst ==> x == st.vars[v].initVal)
    requires m2.mem == m.mem && m2.regs(r) == x && forall k: nat :: k != r ==> m2.regs(k) == m.regs(k)
    requires env2(v) == x && forall u: nat :: u != v ==> env2(u) == env(u)
    ensures Sim(st, dirty, phi, need + {v}, env2, m2)
  {
    var bare := st.SetReg(r, Reg(None, false));
    forall k | 0 <= k < REG_CNT && k != r
      ensures st.regs[k] == bare.regs[k] && st.regs[k].var_ != Some(v)
      ensures st.regs[k].var_.Some? ==> st.regs[k].var_.value < |st.vars|
      ensures RegOk(st.regs[k], st.vars, dirty, phi, env, m.regs(k), m.mem)
    {
      assert RegOk(bare.regs[k], bare.vars, dirty, phi, env, m.regs(k), m.mem);
    }
    forall i, j | 0 <= i < j < REG_CNT && st.regs[i].var_.Some? ensures st.regs[i].var_ != st.regs[j].var_ {
    }
    forall u: nat | u in need + {v} ensures u < |st.vars| {
      assert u == v || u in need - {v};
    }
    forall u: nat | u in need + {v} && !Held(st, u) ensures Home(st.vars[u], env2(u), m2.mem) {
      assert u != v by {
        assert st.regs[r].var_ == Some(v);
      }
      assert u in need - {v} && !Held(bare, u);
    }
  }

  // ---- instructions ------------------------------------------------------------------------

  /** The code emitted so far has the state and the observations of the run `w`. */
  ghost predicate Agree(f: Alu, m0: Machine, st: State, dirty: set<nat>, phi: set<nat>, need: set<nat>, w: World)
  {
    Sim(st, dirty, phi, need, w.env, Run(f, st.code, m0)) && Run(f, st.code, m0).trace == w.trace
  }

  lemma NeedLess(st: State, dirty: set<nat>, phi: set<nat>, need: set<nat>, less: set<nat>, env: nat -> int, m: Machine)
    requires Sim(st, dirty, phi, need, env, m) && less <= need
    ensures Sim(st, dirty, phi, less, env, m)
  {
  }

  lemma TrackKeeps(st: State, v: nat, idx: int, dirty: set<nat>, phi: set<nat>, need: set<nat>, env: nat -> int,
                   m: Machine)
    requires Sim(st, dirty, phi, need, env, m) && v < |st.vars|
    ensures Sim(TrackUse(st, v, idx), dirty, phi, need, env, m) && Grows(st.vars, TrackUse(st, v, idx).vars)
  {
    SameValues(st, TrackUse(st, v, idx), dirty, phi, need, env, m);
  }

  /** `refresh` drops what is neither live out nor read again. */
  lemma {:induction false} RefreshKeeps(f: Alu, m0: Machine, st: State, b: IrBlock, idx: int, i: nat,
                                        dirty: set<nat>, phi: set<nat>, need: set<nat>, w: World)
    requires Agree(f, m0, st, dirty, phi, need, w) && i <= REG_CNT
    requires forall v: nat :: v in need ==> v in b.liveOut || st.vars[v].consumed >= idx
    ensures Agree(f, m0, Refresh(st, b, idx, i), dirty, phi, need, w) && Grows(st.vars, Refresh(st, b, idx, i).vars)
  {
    hide Sim, Grows, Run;
    GrowsSelf(st.vars);
    NeedBelow(st, st.vars, dirty, phi, need, w.env, Run(f, st.code, m0));
    if i > 0 {
      RefreshKeeps(f, m0, st, b, idx, i - 1, dirty, phi, need, w);
      var st1 := Refresh(st, b, idx, i - 1);
      var st2 := RefreshOne(st1, b, idx, i - 1);
      if st2 != st1 {
        GrowsAt(st.vars, st1.vars, st1.regs[i - 1].var_.value);
        ReleaseKeeps(st1, i - 1, dirty, phi, need, w.env, Run(f, st1.code, m0));
        GrowsTransitive(st.vars, st1.vars, st2.vars);
      }
    }
  }

  lemma PollutedIsDirty(st: State, i: nat, dirty: set<nat>, phi: set<nat>, need: set<nat>, env: nat -> int, m: Machine)
    requires Sim(st, dirty, phi, need, env, m) && i < REG_CNT && st.regs[i].var_.Some? && st.regs[i].polluted
    ensures st.regs[i].var_.value in dirty
  {
    assert RegOk(st.regs[i], st.vars, dirty, phi, env, m.regs(i), m.mem);
  }

  /** `spill_live_out` */
  lemma {:induction false} SpillLiveOutKeeps(f: Alu, m0: Machine, st: State, b: IrBlock, i: nat,
                                             dirty: set<nat>, phi: set<nat>, need: set<nat>, w: World)
    requires Agree(f, m0, st, dirty, phi, need, w) && i <= REG_CNT
    requires (forall v: nat :: v in need ==> v in b.liveOut) && forall v: nat :: v in dirty ==> v in b.liveKill
    ensures var st2 := SpillLiveOut(st, b, i);
            Agree(f, m0, st2, dirty, phi, need, w) && Grows(st.vars, st2.vars)
            && Run(f, st2.code, m0).regs == Run(f, st.code, m0).regs
  {
    hide Sim, Grows, Run, Spill;
    GrowsSelf(st.vars);
    NeedBelow(st, st.vars, dirty, phi, need, w.env, Run(f, st.code, m0));
    if i > 0 {
      SpillLiveOutKeeps(f, m0, st, b, i - 1, dirty, phi, need, w);
      var st1 := SpillLiveOut(st, b, i - 1);
      var st2 := SpillLiveOutOne(st1, b, i - 1);
      match st1.regs[i - 1].var_ {
        case None =>
        case Some(v) =>
          var m := Run(f, st1.code, m0);
          if v !in b.liveOut || v !in b.liveKill {
            if st1.regs[i - 1].polluted {
              PollutedIsDirty(st1, i - 1, dirty, phi, need, w.env, m);
            }
            ReleaseKeeps(st1, i - 1, dirty, phi, need, w.env, m);
          } else {
            SpillKeeps(f, m0, st1, i - 1, dirty, phi, need, w.env);
          }
          GrowsTransitive(st.vars, st1.vars, st2.vars);
      }
    }
  }

  lemma ConstantKeeps(f: Alu, m0: Machine, st: State, b: IrBlock, op: nat, rd: nat, vars0: seq<Var>,
                      dirty: set<nat>, phi: set<nat>, need: set<nat>, w: World)
    requires f.Loads() && Agree(f, m0, st, dirty, phi, need, w) && Grows(vars0, st.vars)
    requires rd < |st.vars| && rd in dirty && rd !in phi && (st.vars[rd].isConst ==> op == OP_LOAD_CONSTANT)
    ensures var dest := PrepareDest(st, b, rd, -1, -1); var st2 := dest.0.Emit(PConstant(op, dest.1,
        dest.0.vars[rd].initVal));
            Agree(f, m0, st2, dirty, phi, need + {rd}, Step(f, vars0, Constant(op, rd), w)) && Grows(st.vars, st2.vars)
  {
    var dest := PrepareDest(st, b, rd, -1, -1);
    DestKeeps(f, m0, st, b, rd, -1, -1, dirty, phi, need, w.env);
    assert GrowsOne(vars0[rd], st.vars[rd]) && GrowsOne(st.vars[rd], dest.0.vars[rd]);
    Defined(f, m0, dest.0, rd, dest.1, PConstant(op, dest.1, dest.0.vars[rd].initVal),
        f.constant(op, vars0[rd].initVal),
            dirty, phi, need, w, Step(f, vars0, Constant(op, rd), w));
  }

  /** The instruction that defines `v` is emitted. */
  lemma Defined(f: Alu, m0: Machine, st: State, v: nat, r: nat, insn: Ph2, x: int,
                dirty: set<nat>, phi: set<nat>, need: set<nat>, w: World, w2: World)
    requires r < REG_CNT && v < |st.vars| && |st.regs| == REG_CNT && st.regs[r] == Reg(Some(v), true)
    requires var bare := st.SetReg(r, Reg(None, false));
             Sim(bare, dirty, phi, need - {v}, w.env, Run(f, st.code, m0)) && !Held(bare, v)
    requires v in dirty && v !in phi && (st.vars[v].isConst ==> x == st.vars[v].initVal)
    requires var m := Run(f, st.code, m0); var m2 := Step2(f, insn, m);
             m2.mem == m.mem && m2.regs(r)
                 == x && (forall k: nat :: k != r ==> m2.regs(k) == m.regs(k)) && m2.trace == w2.trace
    requires w2.env(v) == x && forall u: nat :: u != v ==> w2.env(u) == w.env(u)
    ensures Agree(f, m0, st.Emit(insn), dirty, phi, need + {v}, w2)
  {
    var m := Run(f, st.code, m0);
    RunEmit(f, st.code, insn, m0);
    DefineKeeps(st, v, r, x, dirty, phi, need, w.env, w2.env, m, Step2(f, insn, m));
    SameValues(st, st.Emit(insn), dirty, phi, need + {v}, w2.env, Step2(f, insn, m));
  }

  lemma UnaryKeeps(f: Alu, m0: Machine, st: State, b: IrBlock, op: nat, sz: int, rd: nat, rs1: nat, vars0: seq<Var>,
                   dirty: set<nat>, phi: set<nat>, need: set<nat>, w: World)
    requires f.Loads() && Agree(f, m0, st, dirty, phi, need, w) && Grows(vars0, st.vars)
    requires rd < |st.vars| && rd in dirty && rd !in phi && !st.vars[rd].isConst && rs1 in need && rs1 !in phi
    ensures var st2 := AllocUnary(st, b, op, sz, rd, rs1);
            Agree(f, m0, st2, dirty, phi, need + {rd}, Step(f, vars0, Unary(op, sz, rd, rs1), w)) && Grows(st.vars,
                st2.vars)
  {
    hide Sim, Grows, Held, PrepareOperand, PrepareDest, Run, MakeRoom, RegisterOf;
    NeedBelow(st, vars0, dirty, phi, need, w.env, Run(f, st.code, m0));
    var src := PrepareOperand(st, b, rs1, -1);
    OperandKeeps(f, m0, st, b, rs1, -1, dirty, phi, need, w.env);
    var dest := PrepareDest(src.0, b, rd, src.1, -1);
    DestKeeps(f, m0, src.0, b, rd, src.1, -1, dirty, phi, need, w.env);
    GrowsTransitive(st.vars, src.0.vars, dest.0.vars);
    GrowsAt(st.vars, dest.0.vars, rd);
    Defined(f, m0, dest.0, rd, dest.1, PUnary(op, sz, dest.1, src.1), f.unary(op, sz, w.env(rs1)),
            dirty, phi, need, w, Step(f, vars0, Unary(op, sz, rd, rs1), w));
  }

  lemma BinaryKeeps(f: Alu, m0: Machine, st: State, b: IrBlock, idx: int, op: nat, rd: nat, rs1: nat, rs2: nat,
                    vars0: seq<Var>,
                    dirty: set<nat>, phi: set<nat>, need: set<nat>, w: World)
    requires f.Loads() && Agree(f, m0, st, dirty, phi, need, w) && Grows(vars0, st.vars)
    requires rd < |st.vars| && rd in dirty && rd !in phi && !st.vars[rd].isConst
    requires rs1 in need && rs1 !in phi && rs2 in need && rs2 !in phi
    ensures var st2 := AllocBinary(st, b, idx, op, rd, rs1, rs2);
            Agree(f, m0, st2, dirty, phi, need + {rd}, Step(f, vars0, Binary(op, rd, rs1, rs2),
                w)) && Grows(st.vars, st2.vars)
  {
    hide Sim, Grows, Held, PrepareOperand, PrepareDest, Run, MakeRoom, TrackUse, RegisterOf;
    NeedBelow(st, vars0, dirty, phi, need, w.env, Run(f, st.code, m0));
    var m := Run(f, st.code, m0);
    var st1 := TrackUse(st, rs1, idx);
    TrackKeeps(st, rs1, idx, dirty, phi, need, w.env, m);
    var st2 := TrackUse(st1, rs2, idx);
    TrackKeeps(st1, rs2, idx, dirty, phi, need, w.env, m);
    GrowsTransitive(st.vars, st1.vars, st2.vars);
    var src0 := PrepareOperand(st2, b, rs1, -1);
    OperandKeeps(f, m0, st2, b, rs1, -1, dirty, phi, need, w.env);
    var src1 := PrepareOperand(src0.0, b, rs2, src0.1);
    OperandKeeps(f, m0, src0.0, b, rs2, src0.1, dirty, phi, need, w.env);
    var dest := PrepareDest(src1.0, b, rd, src0.1, src1.1);
    DestKeeps(f, m0, src1.0, b, rd, src0.1, src1.1, dirty, phi, need, w.env);
    GrowsTransitive(st.vars, st2.vars, src0.0.vars);
    GrowsTransitive(st.vars, src0.0.vars, src1.0.vars);
    GrowsTransitive(st.vars, src1.0.vars, dest.0.vars);
    GrowsAt(st.vars, dest.0.vars, rd);
    Defined(f, m0, dest.0, rd, dest.1, PBinary(op, dest.1, src0.1, src1.1), f.binary(op, w.env(rs1), w.env(rs2)),
            dirty, phi, need, w, Step(f, vars0, Binary(op, rd, rs1, rs2), w));
  }

  lemma GrowsAt(before: seq<Var>, after: seq<Var>, v: nat)
    requires Grows(before, after) && v < |before|
    ensures v < |after| && GrowsOne(before[v], after[v])
  {
  }

  lemma NeedBelow(st: State, vars0: seq<Var>, dirty: set<nat>, phi: set<nat>, need: set<nat>, env: nat -> int,
                  m: Machine)
    requires Sim(st, dirty, phi, need, env, m) && Grows(vars0, st.vars)
    ensures st.Ok() && |vars0| == |st.vars| && forall v: nat :: v in need ==> v < |st.vars|
  {
  }

  lemma AssignKeeps(f: Alu, m0: Machine, st: State, b: IrBlock, idx: int, rd: nat, rs1: nat, vars0: seq<Var>,
                    dirty: set<nat>, phi: set<nat>, need: set<nat>, w: World)
    requires f.Loads() && Agree(f, m0, st, dirty, phi, need, w) && Grows(vars0, st.vars)
    requires rd < |st.vars| && rd in dirty && rd !in phi && !st.vars[rd].isConst
    requires rs1 in need && rs1 !in phi && rs1 != rd && st.vars[rd].consumed != -1
    ensures var st2 := AllocAssign(st, b, idx, rd, rs1);
            Agree(f, m0, st2, dirty, phi, need + {rd}, Step(f, vars0, Assign(rd, rs1), w)) && Grows(st.vars, st2.vars)
  {
    hide Sim, Grows, Held, PrepareOperand, PrepareDest, Run, MakeRoom, TrackUse, RegisterOf;
    NeedBelow(st, vars0, dirty, phi, need, w.env, Run(f, st.code, m0));
    var m, w2 := Run(f, st.code, m0), Step(f, vars0, Assign(rd, rs1), w);
    var st1 := TrackUse(st, rs1, idx);
    TrackKeeps(st, rs1, idx, dirty, phi, need, w.env, m);
    var found := FindInRegs(st1, rs1, 0);
    var src := if found > -1 then (st1, found) else PrepareOperand(st1, b, rs1, -1);
    if found > -1 {
      HeldValue(st1, found, rs1, dirty, phi, need, w.env, m);
      GrowsSelf(st1.vars);
    } else {
      NotHeld(st1, rs1);
      OperandKeeps(f, m0, st1, b, rs1, -1, dirty, phi, need, w.env);
    }
    GrowsTransitive(st.vars, st1.vars, src.0.vars);
    var dest := PrepareDest(src.0, b, rd, src.1, -1);
    DestKeeps(f, m0, src.0, b, rd, src.1, -1, dirty, phi, need, w.env);
    GrowsTransitive(st.vars, src.0.vars, dest.0.vars);
    GrowsAt(st.vars, dest.0.vars, rd);
    var insn := PAssign(dest.1, src.1);
    Defined(f, m0, dest.0, rd, dest.1, insn, w.env(rs1), dirty, phi, need, w, w2);
    if found == -1 {
      var st2 := dest.0.Emit(insn);
      assert st2.regs[src.1] == src.0.regs[src.1] && !src.0.regs[src.1].polluted;
      var m2, free := Run(f, st2.code, m0), st2.regs[src.1].(var_ := None);
      MapPhysKeeps(st2, rs1, NO_REG, dirty, phi, need + {rd}, w2.env, m2);
      DropKeeps(st2.MapPhys(rs1, NO_REG), src.1, free, dirty, phi, need + {rd}, w2.env, m2);
      GrowsTransitive(st.vars, dest.0.vars, st2.MapPhys(rs1, NO_REG).vars);
    }
  }

  lemma NotHeld(st: State, v: nat)
    requires st.Ok() && FindInRegs(st, v, 0) == -1
    ensures !Held(st, v)
  {
  }

  lemma GrowsSelf(vars: seq<Var>)
    ensures Grows(vars, vars)
  {
  }

  lemma HeldValue(st: State, i: nat, v: nat, dirty: set<nat>, phi: set<nat>, need: set<nat>, env: nat -> int,
                  m: Machine)
    requires Sim(st, dirty, phi, need, env, m) && i < REG_CNT && st.regs[i].var_ == Some(v) && v !in phi
    ensures m.regs(i) == env(v)
  {
    assert RegOk(st.regs[i], st.vars, dirty, phi, env, m.regs(i), m.mem);
  }

  /** A phi copy: from now on the register of `rd`, if it has one, is out of date. */
  lemma PhiStoreKeeps(st: State, rd: nat, x: int, dirty: set<nat>, phi: set<nat>, need: set<nat>,
                      env: nat -> int, env2: nat -> int, m: Machine)
    requires Sim(st, dirty, phi, need, env, m) && rd < |st.vars| && st.vars[rd].hasSpace && !st.vars[rd].isConst
    requires rd !in dirty
    requires env2(rd) == x && forall u: nat :: u != rd ==> env2(u) == env(u)
    ensures Sim(st, dirty, phi + {rd}, need + {rd}, env2, m.Store(st.vars[rd].Word(), x))
  {
    var m2 := m.Store(st.vars[rd].Word(), x);
    forall k | 0 <= k < REG_CNT ensures RegOk(st.regs[k], st.vars, dirty, phi + {rd}, env2, m2.regs(k), m2.mem) {
      assert RegOk(st.regs[k], st.vars, dirty, phi, env, m.regs(k), m.mem);
      if st.regs[k].var_.Some? && st.regs[k].var_.value != rd && !st.regs[k].polluted {
        StoreElsewhere(st, rd, st.regs[k].var_.value, env(st.regs[k].var_.value), x, m);
      }
    }
    forall u: nat | u in need + {rd} ensures u < |st.vars| {
    }
    forall u: nat | u in need + {rd} && !Held(st, u) ensures Home(st.vars[u], env2(u), m2.mem) {
      if u != rd {
        StoreElsewhere(st, rd, u, env(u), x, m);
      }
    }
  }

  lemma UnwoundPhiKeeps(f: Alu, m0: Machine, st: State, b: IrBlock, idx: int, rd: nat, rs1: nat, vars0: seq<Var>,
                        dirty: set<nat>, phi: set<nat>, need: set<nat>, w: World)
    requires f.Loads() && Agree(f, m0, st, dirty, phi, need, w) && Grows(vars0, st.vars)
    requires rd < |st.vars| && rd !in dirty && !st.vars[rd].isConst && rs1 in need && rs1 !in phi
    ensures var st2 := AllocUnwoundPhi(st, b, idx, rd, rs1);
            Agree(f, m0, st2, dirty, phi + {rd}, need + {rd},
                Step(f, vars0, UnwoundPhi(rd, rs1), w)) && Grows(st.vars, st2.vars)
  {
    hide Sim, Grows, Held, PrepareOperand, PrepareDest, Run, MakeRoom, TrackUse, RegisterOf;
    NeedBelow(st, vars0, dirty, phi, need, w.env, Run(f, st.code, m0));
    var m, w2 := Run(f, st.code, m0), Step(f, vars0, UnwoundPhi(rd, rs1), w);
    var st1 := TrackUse(st, rs1, idx);
    TrackKeeps(st, rs1, idx, dirty, phi, need, w.env, m);
    var src := PrepareOperand(st1, b, rs1, -1);
    OperandKeeps(f, m0, st1, b, rs1, -1, dirty, phi, need, w.env);
    var st2, m2 := src.0.Allocate(rd), Run(f, src.0.code, m0);
    AllocateKeeps(src.0, rd, dirty, phi, need, w.env, m2);
    GrowsTransitive(st.vars, st1.vars, src.0.vars);
    GrowsTransitive(st.vars, src.0.vars, st2.vars);
    GrowsAt(st.vars, st2.vars, rd);
    var insn := PStore(src.1, st2.vars[rd].Word());
    RunEmit(f, src.0.code, insn, m0);
    PhiStoreKeeps(st2, rd, w.env(rs1), dirty, phi, need, w.env, w2.env, m2);
    var m3 := Step2(f, insn, m2);
    GrowsSelf(st2.vars);
    SameValues(st2, st2.Emit(insn), dirty, phi + {rd}, need + {rd}, w2.env, m3);
  }

  lemma BranchKeeps(f: Alu, m0: Machine, st: State, b: IrBlock, rs1: nat, vars0: seq<Var>,
                    dirty: set<nat>, phi: set<nat>, need: set<nat>, less: set<nat>, w: World)
    requires f.Loads() && Agree(f, m0, st, dirty, phi, need, w) && Grows(vars0, st.vars) && rs1 < |vars0|
    requires rs1 in need && rs1 !in phi && less <= need
    requires (forall v: nat :: v in less ==> v in b.liveOut) && forall v: nat :: v in dirty ==> v in b.liveKill
    ensures var src := PrepareOperand(st, b, rs1, -1); var st2 := SpillLiveOut(src.0, b, REG_CNT).Emit(PBranch(src.1));
            Agree(f, m0, st2, dirty, phi, less, Step(f, vars0, Branch(rs1), w)) && Grows(st.vars, st2.vars)
  {
    hide Sim, Grows, Held, PrepareOperand, PrepareDest, Run, MakeRoom, TrackUse, RegisterOf;
    NeedBelow(st, vars0, dirty, phi, need, w.env, Run(f, st.code, m0));
    var w2 := Step(f, vars0, Branch(rs1), w);
    var src := PrepareOperand(st, b, rs1, -1);
    OperandKeeps(f, m0, st, b, rs1, -1, dirty, phi, need, w.env);
    NeedLess(src.0, dirty, phi, need, less, w.env, Run(f, src.0.code, m0));
    var st1 := SpillLiveOut(src.0, b, REG_CNT);
    SpillLiveOutKeeps(f, m0, src.0, b, REG_CNT, dirty, phi, less, w);
    RunEmit(f, st1.code, PBranch(src.1), m0);
    GrowsTransitive(st.vars, src.0.vars, st1.vars);
    GrowsSelf(st1.vars);
    SameMemory(st1, dirty, phi, less, w.env, Run(f, st1.code, m0), Step2(f, PBranch(src.1), Run(f, st1.code, m0)));
    SameValues(st1, st1.Emit(PBranch(src.1)), dirty, phi, less, w.env, Step2(f, PBranch(src.1), Run(f, st1.code, m0)));
  }

  lemma SameMemory(st: State, dirty: set<nat>, phi: set<nat>, need: set<nat>, env: nat -> int, m: Machine, m2: Machine)
    requires Sim(st, dirty, phi, need, env, m) && m2.regs == m.regs && m2.mem == m.mem
    ensures Sim(st, dirty, phi, need, env, m2)
  {
    forall i | 0 <= i < REG_CNT ensures RegOk(st.regs[i], st.vars, dirty, phi, env, m2.regs(i), m2.mem) {
      assert RegOk(st.regs[i], st.vars, dirty, phi, env, m.regs(i), m.mem);
    }
  }

  lemma ReturnKeeps(f: Alu, m0: Machine, st: State, b: IrBlock, rs: Option<nat>, vars0: seq<Var>,
                    dirty: set<nat>, phi: set<nat>, need: set<nat>, w: World)
    requires f.Loads() && Agree(f, m0, st, dirty, phi, need, w) && Grows(vars0, st.vars)
    requires rs.Some? ==> rs.value in need && rs.value !in phi && rs.value < |vars0|
    ensures var src := if rs.Some? then PrepareOperand(st, b, rs.value, -1) else (st, 0);
            var st2 := src.0.Emit(PReturn(if rs.Some? then Some(src.1) else None));
            Agree(f, m0, st2, dirty, phi, need, Step(f, vars0, Return(rs), w)) && Grows(st.vars, st2.vars)
  {
    hide Sim, Grows, Held, PrepareOperand, PrepareDest, Run, MakeRoom, TrackUse, RegisterOf;
    NeedBelow(st, vars0, dirty, phi, need, w.env, Run(f, st.code, m0));
    GrowsSelf(st.vars);
    var src := if rs.Some? then PrepareOperand(st, b, rs.value, -1) else (st, 0);
    if rs.Some? {
      OperandKeeps(f, m0, st, b, rs.value, -1, dirty, phi, need, w.env);
    }
    var insn := PReturn(if rs.Some? then Some(src.1) else None);
    var m := Run(f, src.0.code, m0);
    RunEmit(f, src.0.code, insn, m0);
    GrowsSelf(src.0.vars);
    SameMemory(src.0, dirty, phi, need, w.env, m, Step2(f, insn, m));
    SameValues(src.0, src.0.Emit(insn), dirty, phi, need, w.env, Step2(f, insn, m));
  }
}
