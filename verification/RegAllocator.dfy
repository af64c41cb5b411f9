/** The allocator's methods (src/reg-alloc.c): registers and variables updated in place, each
    method equal to the function of `RegAlloc` that describes it. */
module RegAllocator {
  import opened Options
  import R = RegAlloc
  import P = AllocPaths

  type Reg = R.Reg
  type Var = R.Var
  type IrBlock = R.IrBlock

  class Allocator {
    const regs: array<Reg> // REGS
    const vars: array<Var>
    var stackSize: int     // func->stack_size
    var code: seq<R.Ph2>   // ph2_ir_list of the current block

    constructor (vs: seq<Var>, stack: int)
      ensures Valid() && fresh(regs) && fresh(vars)
      ensures vars[..] == vs && stackSize == stack && code == [] && forall i ::
        0 <= i < R.REG_CNT ==> regs[i].var_ == None
    {
      regs := new Reg[R.REG_CNT](_ => R.Reg(None, false));
      vars := new Var[|vs|](i requires 0 <= i < |vs| => vs[i]);
      stackSize := stack;
      code := [];
      new;
      assert vars[..] == vs;
    }

    function Snap(): R.State
      reads this, regs, vars
    {
      R.State(regs[..], vars[..], stackSize, code)
    }

    ghost predicate Valid()
      reads this, regs, vars
    {
      regs.Length == R.REG_CNT && Snap().Ok()
    }

    method CheckLiveOut(b: IrBlock, v: nat) returns (live: bool)
      ensures live <==> v in b.liveOut
    {
      for i := 0 to |b.liveOut|
        invariant v !in b.liveOut[..i]
      {
        if b.liveOut[i] == v {
          return true;
        }
      }
      assert b.liveOut[..|b.liveOut|] == b.liveOut;
      return false;
    }

    method VarCheckKilled(b: IrBlock, v: nat) returns (killed: bool)
      ensures killed <==> v in b.liveKill
    {
      for i := 0 to |b.liveKill|
        invariant v !in b.liveKill[..i]
      {
        if b.liveKill[i] == v {
          return true;
        }
      }
      assert b.liveKill[..|b.liveKill|] == b.liveKill;
      return false;
    }

    method Emit(i: R.Ph2)
      requires Valid()
      modifies `code
      ensures Valid() && Snap() == old(Snap()).Emit(i)
    {
      code := code + [i];
    }

    /** `vreg_map_to_phys` and, with `NO_REG`, `vreg_clear_phys` */
    method MapPhys(v: nat, r: int)
      requires Valid() && v < vars.Length
      modifies vars
      ensures Valid() && Snap() == old(Snap()).MapPhys(v, r)
    {
      vars[v] := vars[v].(phys := r);
    }

    method SetReg(i: nat, r: Reg)
      requires Valid() && i < R.REG_CNT && (r.var_.Some? ==> r.var_.value < vars.Length)
      modifies regs
      ensures Valid() && Snap() == old(Snap()).SetReg(i, r)
    {
      regs[i] := r;
    }

    method Release(i: nat)
      requires Valid() && i < R.REG_CNT && regs[i].var_.Some?
      modifies regs, vars
      ensures Valid() && Snap() == old(Snap()).Release(i)
    {
      MapPhys(regs[i].var_.value, R.NO_REG);
      SetReg(i, R.Reg(None, false));
    }

    method Refresh(b: IrBlock, idx: int)
      requires Valid()
      modifies regs, vars
      ensures Valid() && Snap() == R.Refresh(old(Snap()), b, idx, R.REG_CNT)
    {
      ghost var st0 := Snap();
      for i := 0 to R.REG_CNT
        invariant Valid() && Snap() == R.Refresh(st0, b, idx, i)
      {
        match regs[i].var_ {
          case None =>
          case Some(v) =>
            var live := CheckLiveOut(b, v);
            if !live && vars[v].consumed < idx {
              Release(i);
            }
        }
      }
    }

    method CalculateSpillCost(v: Var, live: bool, idx: int) returns (cost: int)
      ensures cost == R.SpillCost(v, live, idx)
    {
      cost := 0;
      if live {
        cost := cost + 1000;
      }
      if v.consumed > idx {
        var distance := v.consumed - idx;
        if distance < 10 {
          cost := cost + 100 - distance * 10;
        }
      }
      if v.useCount > 0 {
        cost := cost + v.useCount * 5;
      }
      if v.loopDepth > 0 {
        cost := cost + v.loopDepth * 200;
      }
      if v.isConst {
        cost := cost - 50;
      }
      if v.firstUse >= 0 && v.lastUse >= 0 {
        var range := v.lastUse - v.firstUse;
        if range > 100 {
          cost := cost + 20;
        }
      }
    }

    method FindBestSpill(b: IrBlock, avoid1: int, avoid2: int) returns (best: int)
      requires Valid()
      ensures best == R.BestSpill(Snap(), b, avoid1, avoid2, R.REG_CNT).0
    {
      best := -1;
      var min := R.MAX_COST;
      for i := 0 to R.REG_CNT
        invariant (best, min) == R.BestSpill(Snap(), b, avoid1, avoid2, i)
      {
        if i == avoid1 || i == avoid2 {
          continue;
        }
        match regs[i].var_ {
          case None =>
          case Some(v) =>
            var live := CheckLiveOut(b, v);
            var cost := CalculateSpillCost(vars[v], live, b.TailIdx());
            if cost < min {
              best, min := i, cost;
            }
        }
      }
    }

    method FindInRegs(v: nat) returns (r: int)
      requires Valid()
      ensures r == R.FindInRegs(Snap(), v, 0)
    {
      var i := 0;
      while i < R.REG_CNT
        invariant 0 <= i <= R.REG_CNT && R.FindInRegs(Snap(), v, 0) == R.FindInRegs(Snap(), v, i)
      {
        if regs[i].var_ == Some(v) {
          return i;
        }
        i := i + 1;
      }
      return -1;
    }

    method FirstFree() returns (r: int)
      requires Valid()
      ensures r == R.FirstFree(Snap(), 0)
    {
      var i := 0;
      while i < R.REG_CNT
        invariant 0 <= i <= R.REG_CNT && R.FirstFree(Snap(), 0) == R.FirstFree(Snap(), i)
      {
        if regs[i].var_ == None {
          return i;
        }
        i := i + 1;
      }
      return -1;
    }

    /** The register to give up when none is free. */
    method Victim(b: IrBlock, avoid1: int, avoid2: int) returns (r: nat)
      requires Valid() && forall k :: 0 <= k < R.REG_CNT ==> regs[k].var_.Some?
      ensures r < R.REG_CNT && r == R.Victim(Snap(), b, avoid1, avoid2)
    {
      assert forall k :: 0 <= k < R.REG_CNT ==> Snap().regs[k].var_.Some?;
      ghost var which := R.Victim(Snap(), b, avoid1, avoid2);
      var best := FindBestSpill(b, avoid1, avoid2);
      if best >= 0 {
        return best;
      }
      var i := 0;
      while i < R.REG_CNT
        invariant 0 <= i <= R.REG_CNT && which == R.FirstCandidate(Snap(), avoid1, avoid2, i)
      {
        if i != avoid1 && i != avoid2 && regs[i].var_.Some? {
          return i;
        }
        i := i + 1;
      }
    }

    method SpillVar(v: nat, i: nat)
      requires Valid() && i < R.REG_CNT && regs[i].var_ == Some(v)
      modifies this, regs, vars
      ensures Valid() && Snap() == R.Spill(old(Snap()), i)
    {
      if !regs[i].polluted {
        Release(i);
        return;
      }
      Allocate(v);
      Emit(R.PStore(i, vars[v].Word()));
      Release(i);
    }

    /** A new stack word, unless the variable has one. */
    method Allocate(v: nat)
      requires Valid() && v < vars.Length
      modifies `stackSize, vars
      ensures Valid() && Snap() == old(Snap()).Allocate(v)
    {
      if !vars[v].hasSpace {
        vars[v] := vars[v].(offset := stackSize, hasSpace := true);
        stackSize := stackSize + 4;
      }
    }

    method LoadVar(v: nat, i: nat)
      requires Valid() && i < R.REG_CNT && v < vars.Length
      modifies this, regs, vars
      ensures Valid() && Snap() == R.LoadVar(old(Snap()), v, i)
    {
      var x := vars[v];
      if x.isConst {
        Emit(R.PConstant(R.OP_LOAD_CONSTANT, i, x.initVal));
      } else {
        Emit(R.PLoad(i, x.Word()));
      }
      SetReg(i, R.Reg(Some(v), false));
      MapPhys(v, i);
    }

    method MakeRoom(b: IrBlock, avoid1: int, avoid2: int) returns (r: nat)
      requires Valid()
      modifies this, regs, vars
      ensures Valid() && r < R.REG_CNT && (Snap(), r) == R.MakeRoom(old(Snap()), b, avoid1, avoid2)
    {
      var free := FirstFree();
      if free >= 0 {
        return free;
      }
      assert forall k :: 0 <= k < R.REG_CNT ==> regs[k].var_ == Snap().regs[k].var_;
      r := Victim(b, avoid1, avoid2);
      MapPhys(regs[r].var_.value, R.NO_REG);
      SpillVar(regs[r].var_.value, r);
    }

    /** The register of `v` by way of `phys_reg`, else by searching. */
    method RegisterOf(v: nat) returns (r: int)
      requires Valid() && v < vars.Length
      ensures r == R.RegisterOf(Snap(), v)
    {
      var p := vars[v].phys;
      if 0 <= p < R.REG_CNT && regs[p].var_ == Some(v) {
        return p;
      }
      r := FindInRegs(v);
    }

    method PrepareOperand(b: IrBlock, v: nat, operand0: int) returns (r: nat)
      requires Valid() && v < vars.Length
      modifies this, regs, vars
      ensures Valid() && r < R.REG_CNT && (Snap(), r) == R.PrepareOperand(old(Snap()), b, v, operand0)
    {
      var found := RegisterOf(v);
      if found >= 0 {
        MapPhys(v, found);
        return found;
      }
      r := MakeRoom(b, operand0, -1);
      LoadVar(v, r);
    }

    method PrepareDest(b: IrBlock, v: nat, operand0: int, operand1: int) returns (r: nat)
      requires Valid() && v < vars.Length
      modifies this, regs, vars
      ensures Valid() && r < R.REG_CNT && (Snap(), r) == R.PrepareDest(old(Snap()), b, v, operand0, operand1)
    {
      var found := RegisterOf(v);
      if found >= 0 {
        SetReg(found, R.Reg(Some(v), true));
        MapPhys(v, found);
        return found;
      }
      r := MakeRoom(b, operand0, operand1);
      SetReg(r, R.Reg(Some(v), true));
      MapPhys(v, r);
    }

    method SpillLiveOut(b: IrBlock)
      requires Valid()
      modifies this, regs, vars
      ensures Valid() && Snap() == R.SpillLiveOut(old(Snap()), b, R.REG_CNT)
    {
      ghost var st0 := Snap();
      for i := 0 to R.REG_CNT
        invariant Valid() && Snap() == R.SpillLiveOut(st0, b, i)
      {
        match regs[i].var_ {
          case None =>
          case Some(v) =>
            var live := CheckLiveOut(b, v);
            var killed := VarCheckKilled(b, v);
            if !live || !killed {
              Release(i);
            } else {
              SpillVar(v, i);
            }
        }
      }
    }

    method TrackVarUse(v: nat, idx: int)
      requires Valid() && v < vars.Length
      modifies vars
      ensures Valid() && Snap() == R.TrackUse(old(Snap()), v, idx)
    {
      var x := vars[v];
      vars[v] := x.(useCount := x.useCount + 1, lastUse := idx, firstUse := if x.firstUse < 0 then idx else x.firstUse);
    }

    method AllocAssign(b: IrBlock, idx: int, rd: nat, rs1: nat)
      requires Valid() && rd < vars.Length && rs1 < vars.Length
      modifies this, regs, vars
      ensures Valid() && Snap() == R.AllocAssign(old(Snap()), b, idx, rd, rs1)
    {
      if vars[rd].consumed == -1 {
        return;
      }
      TrackVarUse(rs1, idx);
      var src := FindInRegs(rs1);
      var clearReg := src == -1;
      if clearReg {
        src := PrepareOperand(b, rs1, -1);
      }
      var dest := PrepareDest(b, rd, src, -1);
      Emit(R.PAssign(dest, src));
      if clearReg && regs[src].var_.Some? {
        MapPhys(regs[src].var_.value, R.NO_REG);
        SetReg(src, regs[src].(var_ := None));
      }
    }

    method AllocUnwoundPhi(b: IrBlock, idx: int, rd: nat, rs1: nat)
      requires Valid() && rd < vars.Length && rs1 < vars.Length
      modifies this, regs, vars
      ensures Valid() && Snap() == R.AllocUnwoundPhi(old(Snap()), b, idx, rd, rs1)
    {
      TrackVarUse(rs1, idx);
      var src := PrepareOperand(b, rs1, -1);
      Allocate(rd);
      Emit(R.PStore(src, vars[rd].Word()));
    }

    /** One turn of the instruction loop of `reg_alloc` */
    method AllocInsn(b: IrBlock, idx: nat)
      requires Valid() && idx < |b.insns| && R.VarsBelow(b.insns[idx], vars.Length)
      modifies this, regs, vars
      ensures Valid() && Snap() == R.AllocInsn(old(Snap()), b, idx)
    {
      hide R.AllocAssign, R.AllocUnwoundPhi, R.PrepareOperand, R.PrepareDest, R.SpillLiveOut, R.Refresh, R.TrackUse;
      Refresh(b, idx);
      match b.insns[idx] {
        case Allocat(_) =>
        case Constant(op, rd) =>
          var dest := PrepareDest(b, rd, -1, -1);
          Emit(R.PConstant(op, dest, vars[rd].initVal));
        case Assign(rd, rs1) => AllocAssign(b, idx, rd, rs1);
        case UnwoundPhi(rd, rs1) => AllocUnwoundPhi(b, idx, rd, rs1);
        case Unary(op, sz, rd, rs1) =>
          var src := PrepareOperand(b, rs1, -1);
          var dest := PrepareDest(b, rd, src, -1);
          Emit(R.PUnary(op, sz, dest, src));
        case Binary(op, rd, rs1, rs2) =>
          TrackVarUse(rs1, idx);
          TrackVarUse(rs2, idx);
          var src0 := PrepareOperand(b, rs1, -1);
          var src1 := PrepareOperand(b, rs2, src0);
          var dest := PrepareDest(b, rd, src0, src1);
          Emit(R.PBinary(op, dest, src0, src1));
        case Branch(rs1) =>
          var src := PrepareOperand(b, rs1, -1);
          SpillLiveOut(b);
          Emit(R.PBranch(src));
        case Return(rs) =>
          match rs {
            case None => Emit(R.PReturn(None));
            case Some(v) =>
              var src := PrepareOperand(b, v, -1);
              Emit(R.PReturn(Some(src)));
          }
      }
    }

    /** The loop of `reg_alloc` over the instructions of one block. */
    method AllocBlock(b: IrBlock, next: bool)
      requires Valid() && R.BlockBelow(b, vars.Length)
      modifies this, regs, vars
      ensures Valid() && Snap() == R.AllocBlock(old(Snap()), b, next)
    {
      hide R.AllocInsn, R.SpillLiveOut;
      code := [];
      ghost var st0 := Snap();
      for idx := 0 to |b.insns|
        invariant Valid() && Snap() == R.AllocInsns(st0, b, idx)
      {
        AllocInsn(b, idx);
      }
      if next {
        SpillLiveOut(b);
      }
    }

    /** `REGS` and the parameters before the first block of a function. */
    method SetArguments(params: seq<nat>, maxArgs: nat)
      requires Valid() && forall k :: 0 <= k < |params| ==> params[k] < vars.Length
      modifies regs, vars
      ensures Valid() && Snap() == R.StartState(old(Snap()), params, maxArgs)
    {
      ghost var st0 := Snap();
      for i := 0 to R.REG_CNT
        invariant vars[..] == st0.vars && forall k :: 0 <= k < R.REG_CNT ==>
          regs[k] == if k < i then st0.regs[k].(var_ := None) else st0.regs[k]
      {
        regs[i] := regs[i].(var_ := None);
      }
      var argsInReg := if |params| < maxArgs then |params| else maxArgs;
      if argsInReg > R.REG_CNT {
        argsInReg := R.REG_CNT;
      }
      for i := 0 to argsInReg
        invariant vars[..] == st0.vars && forall k :: 0 <= k < R.REG_CNT ==>
          regs[k] == if k < i then R.Reg(Some(params[k]), true) else st0.regs[k].(var_ := None)
      {
        regs[i] := R.Reg(Some(params[i]), true);
      }
      assert regs[..] == R.StartRegs(st0.regs, params, maxArgs);
      var i := maxArgs;
      while i < |params|
        invariant regs[..] == R.StartRegs(st0.regs, params, maxArgs)
        invariant i <= |params| ==> vars[..] == R.StartVars(st0.vars, params, maxArgs, i)
        invariant i > |params| ==> i == maxArgs && vars[..] == st0.vars
        invariant maxArgs <= i
      {
        vars[params[i]] := vars[params[i]].(offset := (i - maxArgs) * 4, hasSpace := true, top := true);
        i := i + 1;
      }
      if i > |params| {
        NoStackParams(st0.vars, params, maxArgs, |params|);
      }
    }

    /** `reg_alloc` for one function: its blocks in `rpo_next` order. */
    method AllocFunction(r: P.Routine, params: seq<nat>, maxArgs: nat) returns (codes: array<seq<R.Ph2>>)
      requires Valid() && r.Shaped() && forall k :: 0 <= k < |params| ==> params[k] < vars.Length
      requires forall b: nat :: b < |r.blocks| ==> R.BlockBelow(r.blocks[b], vars.Length)
      requires forall i, j :: 0 <= i < j < |r.order| ==> r.order[i] != r.order[j]
      modifies this, regs, vars
      ensures Valid() && P.CodesOf(r, R.StartState(old(Snap()), params, maxArgs), codes[..])
    {
      hide R.AllocBlock, R.StartState, P.StateAt, P.Below, R.BlockBelow;
      ghost var st := R.StartState(Snap(), params, maxArgs);
      SetArguments(params, maxArgs);
      P.StateBegins(r, st);
      codes := new seq<R.Ph2>[|r.g|](_ => []);
      for k := 0 to |r.order|
        invariant Valid() && vars.Length == |st.vars| && Snap() == P.StateAt(r, st, k)
        invariant forall i: nat :: i < k ==> codes[r.order[i]] == P.StateAt(r, st, i + 1).code
      {
        AllocBlock(r.blocks[r.order[k]], r.next[r.order[k]]);
        P.StateNext(r, st, k);
        codes[r.order[k]] := code;
      }
    }
  }

  lemma {:induction false} NoStackParams(vars: seq<Var>, params: seq<nat>, maxArgs: nat, i: nat)
    requires i <= |params| && (forall k :: 0 <= k < |params| ==> params[k] < |vars|) && i <= maxArgs
    ensures R.StartVars(vars, params, maxArgs, i) == vars
  {
  }
}
