/** The register allocator (src/reg-alloc.c:72-383 and the per-function loop at 603-1020) as
    functions on its state: eight registers, the variables' bookkeeping, the stack size and the
    phase-2 code of the current block. */
module RegAlloc {
  import opened Options

  const REG_CNT := 8
  const NO_REG := -1

  /** `regfile_t`: the variable a register holds, and whether memory is out of date. */
  datatype Reg = Reg(var_: Option<nat>, polluted: bool)

  /** The fields of `var_t` that the allocator reads and writes. */
  datatype Var = Var(isConst: bool, initVal: int, consumed: int, loopDepth: nat, top: bool,
                     offset: int, hasSpace: bool, phys: int, useCount: nat, firstUse: int, lastUse: int)
  {
    function Word(): Slot {
      Slot(top, offset)
    }
  }

  /** A stack word: its offset from the stack pointer or, for arguments the caller pushed, from
      the top of the frame. */
  datatype Slot = Slot(top: bool, offset: int)

  /** Phase-1 instructions; `UnwoundPhi` is the copy a phi left in a predecessor. */
  datatype Insn =
    | Allocat(rd: nat)
    | Constant(op: nat, rd: nat)
    | Assign(rd: nat, rs1: nat)
    | UnwoundPhi(rd: nat, rs1: nat)
    | Unary(op: nat, sz: int, rd: nat, rs1: nat)
    | Binary(op: nat, rd: nat, rs1: nat, rs2: nat)
    | Branch(rs1: nat)
    | Return(rs: Option<nat>)

  const OP_LOAD_CONSTANT: nat := 0

  /** The operands of an instruction. */
  function Rs1(i: Insn): Option<nat>
  {
    match i
    case Assign(_, rs1) => Some(rs1)
    case UnwoundPhi(_, rs1) => Some(rs1)
    case Unary(_, _, _, rs1) => Some(rs1)
    case Binary(_, _, rs1, _) => Some(rs1)
    case Branch(rs1) => Some(rs1)
    case Return(rs) => rs
    case _ => None
  }

  function Rs2(i: Insn): Option<nat>
  {
    match i case Binary(_, _, _, rs2) => Some(rs2) case _ => None
  }

  /** What the instruction kills; a phi copy kills nothing. */
  function Kills(i: Insn): Option<nat>
  {
    match i
    case Allocat(rd) => Some(rd)
    case Constant(_, rd) => Some(rd)
    case Assign(rd, _) => Some(rd)
    case Unary(_, _, rd, _) => Some(rd)
    case Binary(_, rd, _, _) => Some(rd)
    case _ => None
  }

  /** Phase-2 instructions over registers and stack words. */
  datatype Ph2 =
    | PConstant(op: nat, dest: nat, value: int)
    | PLoad(dest: nat, slot: Slot)
    | PStore(src0: nat, slot: Slot)
    | PAssign(dest: nat, src0: nat)
    | PUnary(op: nat, sz: int, dest: nat, src0: nat)
    | PBinary(op: nat, dest: nat, src0: nat, src1: nat)
    | PBranch(src0: nat)
    | PReturn(src: Option<nat>)

  /** A basic block: its instructions and the results of liveness analysis. */
  datatype IrBlock = IrBlock(insns: seq<Insn>, liveOut: seq<nat>, liveKill: seq<nat>)
  {
    /** `bb->insn_list.tail ? bb->insn_list.tail->idx : 0` */
    function TailIdx(): int {
      if insns == [] then 0 else |insns| - 1
    }
  }

  datatype State = State(regs: seq<Reg>, vars: seq<Var>, stackSize: int, code: seq<Ph2>)
  {
    /** Registers hold known variables. */
    predicate Ok() {
      |regs| == REG_CNT && forall i :: 0 <= i < REG_CNT && regs[i].var_.Some? ==> regs[i].var_.value < |vars|
    }

    function Emit(i: Ph2): State {
      this.(code := code + [i])
    }

    /** `vreg_map_to_phys`; clearing maps to `NO_REG`. */
    function MapPhys(v: nat, r: int): State
      requires v < |vars|
    {
      this.(vars := vars[v := vars[v].(phys := r)])
    }

    function SetReg(i: nat, r: Reg): State
      requires i < |regs|
    {
      this.(regs := regs[i := r])
    }

    /** The register is given up without a store. */
    function Release(i: nat): State
      requires Ok() && i < REG_CNT && regs[i].var_.Some?
    {
      MapPhys(regs[i].var_.value, NO_REG).SetReg(i, Reg(None, false))
    }

    /** A stack word for `v`, if it has none yet. */
    function Allocate(v: nat): State
      requires v < |vars|
    {
      if vars[v].hasSpace then this
      else this.(vars := vars[v := vars[v].(offset := stackSize, hasSpace := true)], stackSize := stackSize + 4)
    }
  }

  // ---- refresh ---------------------------------------------------------------------------

  function RefreshOne(st: State, b: IrBlock, idx: int, i: nat): (r: State)
    requires st.Ok() && i < REG_CNT
    ensures r.Ok() && |r.vars| == |st.vars|
  {
    match st.regs[i].var_
    case None => st
    case Some(v) => if v in b.liveOut || st.vars[v].consumed >= idx then st else st.Release(i)
  }

  /** `refresh`, up to register `i`. */
  function Refresh(st: State, b: IrBlock, idx: int, i: nat): (r: State)
    requires st.Ok() && i <= REG_CNT
    ensures r.Ok() && |r.vars| == |st.vars|
  {
    if i == 0 then st else RefreshOne(Refresh(st, b, idx, i - 1), b, idx, i - 1)
  }

  // ---- choosing a register ---------------------------------------------------------------

  /** `calculate_spill_cost` */
  function SpillCost(v: Var, live: bool, idx: int): int
  {
    (if live then 1000 else 0)
    + (if v.consumed > idx && v.consumed - idx < 10 then 100 - (v.consumed - idx) * 10 else 0)
    + v.useCount * 5 + v.loopDepth * 200 - (if v.isConst then 50 else 0)
    + (if v.firstUse >= 0 && v.lastUse >= 0 && v.lastUse - v.firstUse > 100 then 20 else 0)
  }

  const MAX_COST := 99999

  predicate Candidate(st: State, avoid1: int, avoid2: int, i: nat)
    requires st.Ok() && i < REG_CNT
  {
    i != avoid1 && i != avoid2 && st.regs[i].var_.Some?
  }

  function CostAt(st: State, b: IrBlock, i: nat): int
    requires st.Ok() && i < REG_CNT && st.regs[i].var_.Some?
  {
    var v := st.regs[i].var_.value;
    SpillCost(st.vars[v], v in b.liveOut, b.TailIdx())
  }

  /** The loop of `find_best_spill` over the first `i` registers: the best one and its cost. */
  function BestSpill(st: State, b: IrBlock, avoid1: int, avoid2: int, i: nat): (r: (int, int))
    requires st.Ok() && i <= REG_CNT
    ensures r.0 == -1 || (0 <= r.0 < i && Candidate(st, avoid1, avoid2, r.0))
  {
    if i == 0 then (-1, MAX_COST)
    else
      var best := BestSpill(st, b, avoid1, avoid2, i - 1);
      if Candidate(st, avoid1, avoid2, i - 1) && CostAt(st, b, i - 1) < best.1 then (i - 1, CostAt(st, b, i - 1))
        else best
  }

  /** The register given up costs least among the candidates below the limit, and is the lowest of
      those that cost as much; there is none exactly if no candidate is below the limit. */
  lemma {:induction false} BestSpillIsCheapest(st: State, b: IrBlock, avoid1: int, avoid2: int, i: nat)
    requires st.Ok() && i <= REG_CNT
    ensures var (r, cost) := BestSpill(st, b, avoid1, avoid2, i);
            if r == -1 then
              && cost == MAX_COST
              && forall k :: 0 <= k < i && Candidate(st, avoid1, avoid2, k) ==> CostAt(st, b, k) >= MAX_COST
            else
              && cost == CostAt(st, b, r) < MAX_COST
              && (forall k :: 0 <= k < i && Candidate(st, avoid1, avoid2, k) ==> CostAt(st, b, k) >= cost)
              && (forall k :: 0 <= k < r && Candidate(st, avoid1, avoid2, k) ==> CostAt(st, b, k) > cost)
  {
    if i > 0 {
      BestSpillIsCheapest(st, b, avoid1, avoid2, i - 1);
    }
  }

  /** The first register from `i` on that may be given up; -1 if there is none. */
  function FirstCandidate(st: State, avoid1: int, avoid2: int, i: nat): (r: int)
    requires st.Ok() && i <= REG_CNT
    ensures r == -1 || (i <= r < REG_CNT && Candidate(st, avoid1, avoid2, r))
    ensures r == -1 ==> forall k :: i <= k < REG_CNT ==> !Candidate(st, avoid1, avoid2, k)
    decreases REG_CNT - i
  {
    if i == REG_CNT then -1 else if Candidate(st, avoid1, avoid2, i) then i
      else FirstCandidate(st, avoid1, avoid2, i + 1)
  }

  function FirstFree(st: State, i: nat): (r: int)
    requires st.Ok() && i <= REG_CNT
    ensures r == -1 || (i <= r < REG_CNT && st.regs[r].var_ == None)
    ensures r == -1 ==> forall k :: i <= k < REG_CNT ==> st.regs[k].var_.Some?
    decreases REG_CNT - i
  {
    if i == REG_CNT then -1 else if st.regs[i].var_ == None then i else FirstFree(st, i + 1)
  }

  /** `find_in_regs` from register `i` on */
  function FindInRegs(st: State, v: nat, i: nat): (r: int)
    requires st.Ok() && i <= REG_CNT
    ensures r == -1 || (i <= r < REG_CNT && st.regs[r].var_ == Some(v))
    ensures r == -1 ==> forall k :: i <= k < REG_CNT ==> st.regs[k].var_ != Some(v)
    decreases REG_CNT - i
  {
    if i == REG_CNT then -1 else if st.regs[i].var_ == Some(v) then i else FindInRegs(st, v, i + 1)
  }

  /** The register of `v` by way of `phys_reg`, else by searching; -1 if it has none. */
  function RegisterOf(st: State, v: nat): (r: int)
    requires st.Ok() && v < |st.vars|
    ensures r == -1 || (0 <= r < REG_CNT && st.regs[r].var_ == Some(v))
    ensures r == -1 ==> forall k :: 0 <= k < REG_CNT ==> st.regs[k].var_ != Some(v)
  {
    var p := st.vars[v].phys;
    if 0 <= p < REG_CNT && st.regs[p].var_ == Some(v) then p else FindInRegs(st, v, 0)
  }

  /** The register given up when all are taken. */
  function Victim(st: State, b: IrBlock, avoid1: int, avoid2: int): (r: int)
    requires st.Ok() && forall k :: 0 <= k < REG_CNT ==> st.regs[k].var_.Some?
    ensures 0 <= r < REG_CNT && Candidate(st, avoid1, avoid2, r)
  {
    var best := BestSpill(st, b, avoid1, avoid2, REG_CNT).0;
    if best >= 0 then best
    else
      assert Candidate(st, avoid1, avoid2, 0) || Candidate(st, avoid1, avoid2, 1) || Candidate(st, avoid1, avoid2, 2);
      FirstCandidate(st, avoid1, avoid2, 0)
  }

  // ---- moving values ---------------------------------------------------------------------

  /** `spill_var` of the variable in register `i` */
  function Spill(st: State, i: nat): (r: State)
    requires st.Ok() && i < REG_CNT && st.regs[i].var_.Some?
    ensures r.Ok() && |r.vars| == |st.vars| && r.regs == st.regs[i := Reg(None, false)]
  {
    var v := st.regs[i].var_.value;
    if !st.regs[i].polluted then st.Release(i)
    else
      var st1 := st.Allocate(v);
      st1.Emit(PStore(i, st1.vars[v].Word())).Release(i)
  }

  /** `load_var` */
  function LoadVar(st: State, v: nat, i: nat): (r: State)
    requires st.Ok() && i < REG_CNT && v < |st.vars|
    ensures r.Ok() && |r.vars| == |st.vars| && r.regs == st.regs[i := Reg(Some(v), false)]
  {
    var x := st.vars[v];
    st.Emit(if x.isConst then PConstant(OP_LOAD_CONSTANT, i, x.initVal) else PLoad(i, x.Word()))
      .SetReg(i, Reg(Some(v), false)).MapPhys(v, i)
  }

  /** A register that holds nothing: a free one, else one that is spilled. */
  function MakeRoom(st: State, b: IrBlock, avoid1: int, avoid2: int): (r: (State, nat))
    requires st.Ok()
    ensures r.0.Ok() && |r.0.vars| == |st.vars| && r.1 < REG_CNT
    ensures r.0.regs[r.1].var_ == None
    ensures forall k :: 0 <= k < REG_CNT && k != r.1 ==> r.0.regs[k] == st.regs[k]
    ensures st.regs[r.1].var_.Some? ==> r.1 != avoid1 && r.1 != avoid2
  {
    var free := FirstFree(st, 0);
    if free >= 0 then (st, free)
    else
      var i := Victim(st, b, avoid1, avoid2);
      (Spill(st.MapPhys(st.regs[i].var_.value, NO_REG), i), i)
  }

  /** `prepare_operand` */
  function PrepareOperand(st: State, b: IrBlock, v: nat, operand0: int): (r: (State, nat))
    requires st.Ok() && v < |st.vars|
    ensures r.0.Ok() && |r.0.vars| == |st.vars| && r.1 < REG_CNT && r.0.regs[r.1].var_ == Some(v)
  {
    var found := RegisterOf(st, v);
    if found >= 0 then (st.MapPhys(v, found), found)
    else
      var room := MakeRoom(st, b, operand0, -1);
      (LoadVar(room.0, v, room.1), room.1)
  }

  /** `prepare_dest` */
  function PrepareDest(st: State, b: IrBlock, v: nat, operand0: int, operand1: int): (r: (State, nat))
    requires st.Ok() && v < |st.vars|
    ensures r.0.Ok() && |r.0.vars| == |st.vars| && r.1 < REG_CNT && r.0.regs[r.1] == Reg(Some(v), true)
  {
    var found := RegisterOf(st, v);
    if found >= 0 then (st.SetReg(found, Reg(Some(v), true)).MapPhys(v, found), found)
    else
      var room := MakeRoom(st, b, operand0, operand1);
      (room.0.SetReg(room.1, Reg(Some(v), true)).MapPhys(v, room.1), room.1)
  }

  function SpillLiveOutOne(st: State, b: IrBlock, i: nat): (r: State)
    requires st.Ok() && i < REG_CNT
    ensures r.Ok() && |r.vars| == |st.vars| && r.regs[i].var_ == None
    ensures forall k :: 0 <= k < REG_CNT && k != i ==> r.regs[k] == st.regs[k]
  {
    match st.regs[i].var_
    case None => st
    case Some(v) => if v !in b.liveOut || v !in b.liveKill then st.Release(i) else Spill(st, i)
  }

  /** `spill_live_out`, up to register `i` */
  function SpillLiveOut(st: State, b: IrBlock, i: nat): (r: State)
    requires st.Ok() && i <= REG_CNT
    ensures r.Ok() && |r.vars| == |st.vars| && forall k :: 0 <= k < i ==> r.regs[k].var_ == None
  {
    if i == 0 then st else SpillLiveOutOne(SpillLiveOut(st, b, i - 1), b, i - 1)
  }

  /** `track_var_use` */
  function TrackUse(st: State, v: nat, idx: int): (r: State)
    requires st.Ok() && v < |st.vars|
    ensures r.Ok() && |r.vars| == |st.vars| && r.regs == st.regs && r.code == st.code
  {
    var x := st.vars[v];
    st.(vars := st.vars[v := x.(useCount := x.useCount + 1, lastUse := idx,
                                firstUse := if x.firstUse < 0 then idx else x.firstUse)])
  }

  // ---- instructions and blocks -----------------------------------------------------------

  predicate VarsBelow(i: Insn, n: nat)
  {
    match i
    case Allocat(rd) => rd < n
    case Constant(_, rd) => rd < n
    case Assign(rd, rs1) => rd < n && rs1 < n
    case UnwoundPhi(rd, rs1) => rd < n && rs1 < n
    case Unary(_, _, rd, rs1) => rd < n && rs1 < n
    case Binary(_, rd, rs1, rs2) => rd < n && rs1 < n && rs2 < n
    case Branch(rs1) => rs1 < n
    case Return(rs) => rs.Some? ==> rs.value < n
  }

  /** OP_assign: an operand that had to be loaded does not keep its register. */
  function AllocAssign(st: State, b: IrBlock, idx: int, rd: nat, rs1: nat): (r: State)
    requires st.Ok() && rd < |st.vars| && rs1 < |st.vars|
    ensures r.Ok() && |r.vars| == |st.vars|
  {
    if st.vars[rd].consumed == -1 then st
    else
      var st1 := TrackUse(st, rs1, idx);
      var found := FindInRegs(st1, rs1, 0);
      var src := if found > -1 then (st1, found) else PrepareOperand(st1, b, rs1, -1);
      var dest := PrepareDest(src.0, b, rd, src.1, -1);
      var st2 := dest.0.Emit(PAssign(dest.1, src.1));
      if found > -1 then st2
      else if st2.regs[src.1].var_.Some? then
        st2.MapPhys(st2.regs[src.1].var_.value, NO_REG).SetReg(src.1, st2.regs[src.1].(var_ := None))
      else st2
  }

  /** OP_unwound_phi: the operand goes to the stack word of the phi's variable. */
  function AllocUnwoundPhi(st: State, b: IrBlock, idx: int, rd: nat, rs1: nat): (r: State)
    requires st.Ok() && rd < |st.vars| && rs1 < |st.vars|
    ensures r.Ok() && |r.vars| == |st.vars|
  {
    var src := PrepareOperand(TrackUse(st, rs1, idx), b, rs1, -1);
    var st1 := src.0.Allocate(rd);
    st1.Emit(PStore(src.1, st1.vars[rd].Word()))
  }

  function AllocUnary(st: State, b: IrBlock, op: nat, sz: int, rd: nat, rs1: nat): (r: State)
    requires st.Ok() && rd < |st.vars| && rs1 < |st.vars|
    ensures r.Ok() && |r.vars| == |st.vars|
  {
    var src := PrepareOperand(st, b, rs1, -1);
    var dest := PrepareDest(src.0, b, rd, src.1, -1);
    dest.0.Emit(PUnary(op, sz, dest.1, src.1))
  }

  function AllocBinary(st: State, b: IrBlock, idx: int, op: nat, rd: nat, rs1: nat, rs2: nat): (r: State)
    requires st.Ok() && rd < |st.vars| && rs1 < |st.vars| && rs2 < |st.vars|
    ensures r.Ok() && |r.vars| == |st.vars|
  {
    var src0 := PrepareOperand(TrackUse(TrackUse(st, rs1, idx), rs2, idx), b, rs1, -1);
    var src1 := PrepareOperand(src0.0, b, rs2, src0.1);
    var dest := PrepareDest(src1.0, b, rd, src0.1, src1.1);
    dest.0.Emit(PBinary(op, dest.1, src0.1, src1.1))
  }

  /** One turn of the instruction loop. */
  function AllocInsn(st: State, b: IrBlock, idx: nat): (r: State)
    requires st.Ok() && idx < |b.insns| && VarsBelow(b.insns[idx], |st.vars|)
    ensures r.Ok() && |r.vars| == |st.vars|
  {
    var st1 := Refresh(st, b, idx, REG_CNT);
    match b.insns[idx]
    case Allocat(_) => st1
    case Constant(op, rd) =>
      var dest := PrepareDest(st1, b, rd, -1, -1);
      dest.0.Emit(PConstant(op, dest.1, dest.0.vars[rd].initVal))
    case Assign(rd, rs1) => AllocAssign(st1, b, idx, rd, rs1)
    case UnwoundPhi(rd, rs1) => AllocUnwoundPhi(st1, b, idx, rd, rs1)
    case Unary(op, sz, rd, rs1) => AllocUnary(st1, b, op, sz, rd, rs1)
    case Binary(op, rd, rs1, rs2) => AllocBinary(st1, b, idx, op, rd, rs1, rs2)
    case Branch(rs1) =>
      var src := PrepareOperand(st1, b, rs1, -1);
      SpillLiveOut(src.0, b, REG_CNT).Emit(PBranch(src.1))
    case Return(rs) =>
      match rs
      case None => st1.Emit(PReturn(None))
      case Some(v) => var src := PrepareOperand(st1, b, v, -1); src.0.Emit(PReturn(Some(src.1)))
  }

  ghost predicate BlockBelow(b: IrBlock, n: nat)
  {
    forall j :: 0 <= j < |b.insns| ==> VarsBelow(b.insns[j], n)
  }

  /** The first `j` instructions of a block. */
  ghost function AllocInsns(st: State, b: IrBlock, j: nat): (r: State)
    requires st.Ok() && j <= |b.insns| && BlockBelow(b, |st.vars|)
    ensures r.Ok() && |r.vars| == |st.vars|
  {
    if j == 0 then st else AllocInsn(AllocInsns(st, b, j - 1), b, j - 1)
  }

  /** A whole block, with an empty instruction list to fill; `next` says that it has a plain
      successor. */
  ghost function AllocBlock(st: State, b: IrBlock, next: bool): (r: State)
    requires st.Ok() && BlockBelow(b, |st.vars|)
    ensures r.Ok() && |r.vars| == |st.vars|
  {
    var st1 := AllocInsns(st.(code := []), b, |b.insns|);
    if next then SpillLiveOut(st1, b, REG_CNT) else st1
  }

  // ---- the start of a function -------------------------------------------------------------

  /** Arguments that come in registers: `REGS` before the first block. */
  function StartRegs(regs: seq<Reg>, params: seq<nat>, maxArgs: nat): (r: seq<Reg>)
    ensures |r| == |regs|
  {
    seq(|regs|, i requires 0 <= i < |regs| =>
      if i < |params| && i < maxArgs then Reg(Some(params[i]), true) else regs[i].(var_ := None))
  }

  /** Arguments `maxArgs..i` are where the caller pushed them. */
  function StartVars(vars: seq<Var>, params: seq<nat>, maxArgs: nat, i: nat): (r: seq<Var>)
    requires i <= |params| && forall k :: 0 <= k < |params| ==> params[k] < |vars|
    ensures |r| == |vars|
  {
    if i <= maxArgs then vars
    else
      var r := StartVars(vars, params, maxArgs, i - 1);
      r[params[i - 1] := r[params[i - 1]].(offset := (i - 1 - maxArgs) * 4, hasSpace := true, top := true)]
  }

  function StartState(st: State, params: seq<nat>, maxArgs: nat): (r: State)
    requires |st.regs| == REG_CNT && forall k :: 0 <= k < |params| ==> params[k] < |st.vars|
    ensures r.Ok() && |r.vars| == |st.vars|
  {
    st.(regs := StartRegs(st.regs, params, maxArgs), vars := StartVars(st.vars, params, maxArgs, |params|))
  }
}
