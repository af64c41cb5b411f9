/** What the words emitted for a phase-2 instruction (src/riscv-codegen.c:183-483) do when they run:
    each value-producing instruction leaves the value its operator stands for, stores write memory,
    and taking a frame down undoes setting it up. */
module RiscvMeaning {
  import opened Options
  import opened Words
  import opened RiscvIsa
  import opened RiscvMachine
  import opened RiscvArith
  import opened RiscvLayout

  // ---- meanings, on words ------------------------------------------------------------------------

  function BinaryValue(op: BinOp, a: nat, b: nat): nat
    requires a < WORD && b < WORD
  {
    match op
    case OpAdd => Word(a + b)
    case OpSub => Word(a - b)
    case OpShl => Word(a * Pow2(b % 32))
    case OpShr => Word(Signed(a) / Pow2(b % 32))
    case OpEq => Flag(a == b)
    case OpNeq => Flag(a != b)
    case OpGt => Flag(Signed(a) > Signed(b))
    case OpGeq => Flag(Signed(a) >= Signed(b))
    case OpLt => Flag(Signed(a) < Signed(b))
    case OpLeq => Flag(Signed(a) <= Signed(b))
    case OpBitAnd => AndW(a, b)
    case OpBitOr => OrW(a, b)
    case OpBitXor => XorW(a, b)
  }

  /** With the M extension; its division by zero gives -1 and the dividend. */
  function HardValue(op: MulOp, a: nat, b: nat): nat
    requires a < WORD && b < WORD
  {
    match op
    case OpMul => Word(a * b)
    case OpDiv => if b == 0 then WORD - 1 else Word(TruncDiv(Signed(a), Signed(b)))
    case OpMod => if b == 0 then a else Word(TruncMod(Signed(a), Signed(b)))
  }

  function UnaryValue(op: UnOp, a: nat): nat
    requires a < WORD
  {
    match op
    case OpNegate => Word(0 - a)
    case OpBitNot => Word(-1 - a)
    case OpLogNot => Flag(a == 0)
  }

  /** Sign extension as `OP_sign_ext` has it: from the number of bits that a shift by the difference of
      the sizes leaves. */
  function Promoted(target: int, source: int, a: nat): nat
    requires 0 <= target - source < 4
  {
    Word(LowSigned(if source == 2 then a else a % 256, 32 - (target - source) * 8))
  }

  /** The base of stack and global variables. */
  function BaseOf(global: bool, c: Cpu): nat
  {
    c.Get(if global then GP else SP)
  }

  /** Instructions that leave a value in a register, with operands the allocator and the parser give. */
  predicate Computes(i: Ir, hard: bool)
  {
    match i
    case LoadConstant(dest, _) => dest < 8
    case AddressOf(_, dest, _) => dest < 8
    case Assign(dest, src0) => dest < 8 && src0 < 8
    case Load(_, dest, _) => dest < 8
    case Read(dest, src0, size) => dest < 8 && src0 < 8 && size in {1, 2, 4}
    case LoadDataAddress(dest, _) => dest < 8
    case LoadRodataAddress(dest, _) => dest < 8
    case Binary(_, dest, src0, src1) => dest < 8 && src0 < 8 && src1 < 8
    case MulDiv(_, dest, src0, src1) => hard && dest < 8 && src0 < 8 && src1 < 8
    case Unary(_, dest, src0) => dest < 8 && src0 < 8
    case Trunc(dest, src0, size) => dest < 8 && src0 < 8 && size in {1, 2, 4}
    case SignExt(dest, src0, target, source) => dest < 8 && src0 < 8 && 0 <= target - source < 4
    case Cast(dest, src0) => dest < 8 && src0 < 8
    case _ => false
  }

  /** The value such an instruction stands for. */
  function Value(i: Ir, hard: bool, m: Map, c: Cpu): nat
    requires Computes(i, hard) && c.Ok()
  {
    match i
    case LoadConstant(_, value) => Word(value)
    case AddressOf(global, _, ofs) => Word(BaseOf(global, c) + ofs)
    case Assign(_, src0) => c.x[Reg(src0)]
    case Load(global, _, ofs) => LoadBytes(c.mem, BaseOf(global, c) + ofs, 4)
    case Read(_, src0, size) => Word(LowSigned(LoadBytes(c.mem, c.x[Reg(src0)], size), 8 * size))
    case LoadDataAddress(_, ofs) => Word(m.dataStart + ofs)
    case LoadRodataAddress(_, ofs) => Word(m.rodataStart + ofs)
    case Binary(op, _, src0, src1) => BinaryValue(op, c.x[Reg(src0)], c.x[Reg(src1)])
    case MulDiv(op, _, src0, src1) => HardValue(op, c.x[Reg(src0)], c.x[Reg(src1)])
    case Unary(op, _, src0) => UnaryValue(op, c.x[Reg(src0)])
    case Trunc(_, src0, size) => c.x[Reg(src0)] % Pow2(8 * size)
    case SignExt(_, src0, target, source) => Promoted(target, source, c.x[Reg(src0)])
    case Cast(_, src0) => c.x[Reg(src0)]
  }

  /** Memory and every register but `rd` and t0 are as before. */
  ghost predicate OnlySets(c: Cpu, d: Cpu, rd: nat)
  {
    d.mem == c.mem && |d.x| == |c.x| == 32 && forall r :: 0 <= r < 32 && r != rd && r != T0 ==> d.x[r] == c.x[r]
  }

  // ---- running a few words -----------------------------------------------------------------------

  lemma InPlace(code: seq<nat>, m: Map, hard: bool, at: nat, i: Ir, insns: seq<Rv>)
    requires IrAt(code, m, hard, at, i) && Emit(i, m, hard, at) == Some(insns)
    requires forall k :: 0 <= k < |insns| ==> Encodable(insns[k])
    ensures Holds(code, m.codeStart, m.codeStart + at, CanonicalSeq(insns))
  {
    hide Emit, Encode, Holds, Encodable;
    WordsHold(code, m.codeStart, at, insns);
  }

  lemma RunOne(code: seq<nat>, m: Map, hard: bool, at: nat, i: Ir, a: Rv, c: Cpu, d: Cpu)
    requires IrAt(code, m, hard, at, i) && Emit(i, m, hard, at) == Some([a])
    requires Encodable(a) && !a.Lui? && c.Ok() && c.pc == m.codeStart + at && Exec(a, c) == Some(d)
    ensures Leads(code, m.codeStart, c, d)
  {
    hide Emit, Encode, Holds, Leads, Encodable, Exec;
    InPlace(code, m, hard, at, i, [a]);
    LeadsSelf(code, m.codeStart, c);
    StepInside(code, m.codeStart, c.pc, CanonicalSeq([a]), 0, c, c, d);
  }

  lemma RunTwo(code: seq<nat>, m: Map, hard: bool, at: nat, i: Ir, a: Rv, b: Rv, c: Cpu, c1: Cpu, d: Cpu)
    requires IrAt(code, m, hard, at, i) && Emit(i, m, hard, at) == Some([a, b])
    requires Encodable(a) && !a.Lui? && Encodable(b) && !b.Lui?
    requires c.Ok() && c.pc == m.codeStart + at && Exec(a, c) == Some(c1)
    requires c1.Ok() && c1.pc == c.pc + 4 && Exec(b, c1) == Some(d)
    ensures Leads(code, m.codeStart, c, d)
  {
    hide Emit, Encode, Holds, Leads, Encodable, Exec;
    InPlace(code, m, hard, at, i, [a, b]);
    var s := CanonicalSeq([a, b]);
    LeadsSelf(code, m.codeStart, c);
    StepInside(code, m.codeStart, c.pc, s, 0, c, c, c1);
    StepInside(code, m.codeStart, c.pc, s, 1, c, c1, d);
  }

  lemma RunThree(code: seq<nat>, m: Map, hard: bool, at: nat, i: Ir, a: Rv, b: Rv, b2: Rv, c: Cpu, c1: Cpu, c2: Cpu,
                 d: Cpu)
    requires IrAt(code, m, hard, at, i) && Emit(i, m, hard, at) == Some([a, b, b2])
    requires Encodable(a) && !a.Lui? && Encodable(b) && !b.Lui? && Encodable(b2) && !b2.Lui?
    requires c.Ok() && c.pc == m.codeStart + at && Exec(a, c) == Some(c1)
    requires c1.Ok() && c1.pc == c.pc + 4 && Exec(b, c1) == Some(c2)
    requires c2.Ok() && c2.pc == c.pc + 8 && Exec(b2, c2) == Some(d)
    ensures Leads(code, m.codeStart, c, d)
  {
    hide Emit, Encode, Holds, Leads, Encodable, Exec;
    InPlace(code, m, hard, at, i, [a, b, b2]);
    var s := CanonicalSeq([a, b, b2]);
    LeadsSelf(code, m.codeStart, c);
    StepInside(code, m.codeStart, c.pc, s, 0, c, c, c1);
    StepInside(code, m.codeStart, c.pc, s, 1, c, c1, c2);
    StepInside(code, m.codeStart, c.pc, s, 2, c, c2, d);
  }

  /** A value built by `lui` and `addi`, and what comes behind it. */
  lemma RunWide(code: seq<nat>, m: Map, hard: bool, at: nat, i: Ir, rd: nat, value: int, rest: seq<Rv>, c: Cpu)
    returns (s: seq<Rv>, d: Cpu)
    requires IrAt(code, m, hard, at, i) && Emit(i, m, hard, at) == Some(Wide(rd, value) + rest) && 0 < rd < 32
    requires forall k :: 0 <= k < |rest| ==> Encodable(rest[k]) && !rest[k].Lui?
    requires c.Ok() && c.pc == m.codeStart + at
    ensures s == CanonicalSeq(Wide(rd, value) + rest) && Holds(code, m.codeStart, c.pc, s)
    ensures |s| == 2 + |rest| && forall k :: 0 <= k < |rest| ==> s[2 + k] == rest[k]
    ensures Leads(code, m.codeStart, c, d) && d.Ok() && d == c.Put(rd, Word(value)).(pc := c.pc + 8)
  {
    hide Emit, Encode, Holds, Leads, Exec, Word, RvHi, RvLo, Upper;
    var insns := Wide(rd, value) + rest;
    HiLo(value);
    forall k | 0 <= k < |insns| ensures Encodable(insns[k]) {
      if k >= 2 { assert insns[k] == rest[k - 2]; }
    }
    InPlace(code, m, hard, at, i, insns);
    s := CanonicalSeq(insns);
    LeadsSelf(code, m.codeStart, c);
    assert insns[0..2] == Wide(rd, value);
    d := WideStep(code, m.codeStart, c.pc, insns, 0, rd, value, c, c);
  }

  // ---- values ------------------------------------------------------------------------------------

  /** Two-operand instructions that are one word. */
  predicate Direct(op: BinOp)
  {
    op !in {OpEq, OpNeq, OpGeq, OpLeq}
  }

  lemma DirectRuns(code: seq<nat>, m: Map, hard: bool, at: nat, i: Ir, c: Cpu) returns (d: Cpu)
    requires IrAt(code, m, hard, at, i) && i.Binary? && Direct(i.op) && Computes(i, hard)
    requires c.Ok() && c.pc == m.codeStart + at
    ensures Leads(code, m.codeStart, c, d) && d == c.Put(Reg(i.dest), Value(i, hard, m, c)).Next()
  {
    hide IrAt, Leads, Word, Bitwise, Pow2, Signed, SllW, SraW;
    d := c.Put(Reg(i.dest), Value(i, hard, m, c)).Next();
    var a, b := c.x[Reg(i.src0)], c.x[Reg(i.src1)];
    ShiftValues(a, b);
    var insn := EmitBinary(i.op, Reg(i.dest), Reg(i.src0), Reg(i.src1))[0];
    RunOne(code, m, hard, at, i, insn, c, d);
  }

  lemma ShiftValues(a: nat, b: nat)
    ensures SllW(a, b % 32) == Word(a * Pow2(b % 32)) && SraW(a, b % 32) == Word(Signed(a) / Pow2(b % 32))
  {
  }

  lemma EqualityRuns(code: seq<nat>, m: Map, hard: bool, at: nat, i: Ir, c: Cpu) returns (d: Cpu)
    requires IrAt(code, m, hard, at, i) && i.Binary? && i.op in {OpEq, OpNeq} && Computes(i, hard)
    requires c.Ok() && c.pc == m.codeStart + at
    ensures Leads(code, m.codeStart, c, d) && d.Ok() && d.pc == c.pc + Size(i, hard)
    ensures d.x[Reg(i.dest)] == Value(i, hard, m, c) && OnlySets(c, d, Reg(i.dest))
  {
    hide IrAt, Leads, Word, Bitwise, Signed;
    var rd, r1, r2 := Reg(i.dest), Reg(i.src0), Reg(i.src1);
    var a: int, b: int := c.x[r1], c.x[r2];
    DifferenceZero(a, b);
    var c1 := c.Put(rd, Word(a - b)).Next();
    var c2 := c1.Put(rd, Flag(a != b)).Next();
    if i.op == OpNeq {
      d := c2;
      RunTwo(code, m, hard, at, i, R(Sub, rd, r1, r2), R(Sltu, rd, ZERO, rd), c, c1, d);
    } else {
      SmallWord(1);
      FlipFlag(a != b);
      d := c2.Put(rd, Flag(a == b)).Next();
      RunThree(code, m, hard, at, i, R(Sub, rd, r1, r2), R(Sltu, rd, ZERO, rd), I(Xori, rd, rd, 1), c, c1, c2, d);
    }
  }

  lemma OrderRuns(code: seq<nat>, m: Map, hard: bool, at: nat, i: Ir, c: Cpu) returns (d: Cpu)
    requires IrAt(code, m, hard, at, i) && i.Binary? && i.op in {OpGeq, OpLeq} && Computes(i, hard)
    requires c.Ok() && c.pc == m.codeStart + at
    ensures Leads(code, m.codeStart, c, d) && d.Ok() && d.pc == c.pc + Size(i, hard)
    ensures d.x[Reg(i.dest)] == Value(i, hard, m, c) && OnlySets(c, d, Reg(i.dest))
  {
    hide IrAt, Leads, Word, Bitwise, Signed;
    var rd, r1, r2 := Reg(i.dest), Reg(i.src0), Reg(i.src1);
    var a, b := c.x[r1], c.x[r2];
    SmallWord(1);
    var less := if i.op == OpGeq then Signed(a) < Signed(b) else Signed(b) < Signed(a);
    FlipFlag(less);
    var c1 := c.Put(rd, Flag(less)).Next();
    d := c1.Put(rd, Flag(!less)).Next();
    var first := if i.op == OpGeq then R(Slt, rd, r1, r2) else R(Slt, rd, r2, r1);
    RunTwo(code, m, hard, at, i, first, I(Xori, rd, rd, 1), c, c1, d);
  }

  lemma UnaryRuns(code: seq<nat>, m: Map, hard: bool, at: nat, i: Ir, c: Cpu) returns (d: Cpu)
    requires IrAt(code, m, hard, at, i) && i.Unary? && Computes(i, hard) && c.Ok() && c.pc == m.codeStart + at
    ensures Leads(code, m.codeStart, c, d) && d.Ok() && d.pc == c.pc + Size(i, hard)
    ensures d.x[Reg(i.dest)] == Value(i, hard, m, c) && OnlySets(c, d, Reg(i.dest))
  {
    hide IrAt, Leads, Word, Bitwise;
    var rd, r := Reg(i.dest), Reg(i.src0);
    var a: int := c.x[r];
    match i.uop {
      case OpNegate =>
        d := c.Put(rd, Word(0 - a)).Next();
        RunOne(code, m, hard, at, i, R(Sub, rd, ZERO, r), c, d);
      case OpBitNot =>
        NotIsMask(a);
        d := c.Put(rd, Word(-1 - a)).Next();
        RunOne(code, m, hard, at, i, I(Xori, rd, r, -1), c, d);
      case OpLogNot =>
        SmallWord(1);
        FlipFlag(a != 0);
        var c1 := c.Put(rd, Flag(a != 0)).Next();
        d := c1.Put(rd, Flag(a == 0)).Next();
        RunTwo(code, m, hard, at, i, R(Sltu, rd, ZERO, r), I(Xori, rd, rd, 1), c, c1, d);
    }
  }

  lemma NotIsMask(a: nat)
    requires a < WORD
    ensures XorW(a, Word(-1)) == Word(-1 - a)
  {
    XorMask(a);
    WordShift(-1, 1);
    SmallWord(WORD - 1);
    WordShift(-1 - a, 1);
    SmallWord(WORD - 1 - a);
  }

  lemma TruncRuns(code: seq<nat>, m: Map, hard: bool, at: nat, i: Ir, c: Cpu) returns (d: Cpu)
    requires IrAt(code, m, hard, at, i) && i.Trunc? && Computes(i, hard) && c.Ok() && c.pc == m.codeStart + at
    ensures Leads(code, m.codeStart, c, d) && d.Ok() && d.pc == c.pc + Size(i, hard)
    ensures d.x[Reg(i.dest)] == Value(i, hard, m, c) && OnlySets(c, d, Reg(i.dest))
  {
    hide IrAt, Leads, Word, Bitwise, Pow2, SllW, SrlW;
    Powers();
    var rd, r := Reg(i.dest), Reg(i.src0);
    var a := c.x[r];
    if i.size == 1 {
      ByteMask(a);
      d := c.Put(rd, a % 256).Next();
      RunOne(code, m, hard, at, i, I(Andi, rd, r, 0xFF), c, d);
    } else if i.size == 2 {
      ShiftsClear(a, 16);
      ShiftedSmall(a, 16);
      var c1 := c.Put(rd, SllW(a, 16)).Next();
      d := c1.Put(rd, a % 65536).Next();
      RunTwo(code, m, hard, at, i, Shift(Slli, rd, r, 16), Shift(Srli, rd, rd, 16), c, c1, d);
    } else {
      SmallWord(a);
      d := c.Put(rd, a).Next();
      RunOne(code, m, hard, at, i, R(Add, rd, r, ZERO), c, d);
    }
  }

  lemma ByteMask(a: nat)
    requires a < WORD
    ensures AndW(a, Word(0xFF)) == a % 256
  {
    SmallWord(0xFF);
    Powers();
    MaskKeepsLow(a, 8, 32);
  }

  lemma ShiftedSmall(a: nat, n: nat)
    ensures SllW(a, n) < WORD && Pow2(16) == 65536
  {
    PowerProduct(8, 8);
  }

  lemma SignExtRuns(code: seq<nat>, m: Map, hard: bool, at: nat, i: Ir, c: Cpu) returns (d: Cpu)
    requires IrAt(code, m, hard, at, i) && i.SignExt? && Computes(i, hard) && c.Ok() && c.pc == m.codeStart + at
    ensures Leads(code, m.codeStart, c, d) && d.Ok() && d.pc == c.pc + Size(i, hard)
    ensures d.x[Reg(i.dest)] == Value(i, hard, m, c) && OnlySets(c, d, Reg(i.dest))
  {
    hide IrAt, Leads, Word, Bitwise, Pow2, SllW, SraW, LowSigned;
    var rd, r, n := Reg(i.dest), Reg(i.src0), (i.target - i.source) * 8;
    var a := c.x[r];
    var x := if i.source == 2 then a else a % 256;
    ShiftsExtend(x, n);
    ShiftedSmall(x, n);
    ByteMask(a);
    var c0 := if i.source == 2 then c else c.Put(rd, a % 256).Next();
    var c1 := c0.Put(rd, SllW(x, n)).Next();
    d := c1.Put(rd, Word(LowSigned(x, 32 - n))).Next();
    if i.source == 2 {
      RunTwo(code, m, hard, at, i, Shift(Slli, rd, r, n), Shift(Srai, rd, rd, n), c, c1, d);
    } else {
      RunThree(code, m, hard, at, i, I(Andi, rd, r, 0xFF), Shift(Slli, rd, rd, n), Shift(Srai, rd, rd, n), c, c0, c1,
               d);
    }
  }

  /** Constants and addresses. */
  lemma ConstantRuns(code: seq<nat>, m: Map, hard: bool, at: nat, i: Ir, c: Cpu) returns (d: Cpu)
    requires IrAt(code, m, hard, at, i) && Computes(i, hard) && c.Ok() && c.pc == m.codeStart + at
    requires i.LoadConstant? || i.LoadDataAddress? || i.LoadRodataAddress?
    ensures Leads(code, m.codeStart, c, d) && d.Ok() && d.pc == c.pc + Size(i, hard)
    ensures d.x[Reg(i.dest)] == Value(i, hard, m, c) && OnlySets(c, d, Reg(i.dest))
  {
    hide IrAt, Leads, Word, RvHi, RvLo, Upper, Holds;
    var rd := Reg(i.dest);
    d := c;
    match i {
      case LoadConstant(_, value) =>
        if Short(value) {
          d := c.Put(rd, Word(value)).Next();
          RunOne(code, m, hard, at, i, Li(rd, ZERO, value), c, d);
        } else {
          d := WideAlone(code, m, hard, at, i, rd, value, c);
        }
      case LoadDataAddress(_, ofs) => d := WideAlone(code, m, hard, at, i, rd, m.dataStart + ofs, c);
      case LoadRodataAddress(_, ofs) => d := WideAlone(code, m, hard, at, i, rd, m.rodataStart + ofs, c);
      case _ =>
    }
  }

  lemma AddressRuns(code: seq<nat>, m: Map, hard: bool, at: nat, i: Ir, c: Cpu) returns (d: Cpu)
    requires IrAt(code, m, hard, at, i) && i.AddressOf? && Computes(i, hard) && c.Ok() && c.pc == m.codeStart + at
    ensures Leads(code, m.codeStart, c, d) && d.Ok() && d.pc == c.pc + Size(i, hard)
    ensures d.x[Reg(i.dest)] == Value(i, hard, m, c) && OnlySets(c, d, Reg(i.dest))
  {
    hide IrAt, Leads, Word, RvHi, RvLo, Upper, Holds;
    var rd, base, ofs := Reg(i.dest), if i.global then GP else SP, i.ofs;
    if Short(ofs) {
      d := c.Put(rd, Word(c.x[base] + ofs)).Next();
      RunOne(code, m, hard, at, i, Li(rd, base, ofs), c, d);
    } else {
      var s, c1 := RunWide(code, m, hard, at, i, T0, ofs, [R(Add, rd, base, T0)], c);
      WordSum(ofs, c.x[base]);
      d := c1.Put(rd, Word(c.x[base] + ofs)).Next();
      StepInside(code, m.codeStart, c.pc, s, 2, c, c1, d);
    }
  }

  lemma WideAlone(code: seq<nat>, m: Map, hard: bool, at: nat, i: Ir, rd: nat, value: int, c: Cpu) returns (d: Cpu)
    requires IrAt(code, m, hard, at, i) && Emit(i, m, hard, at) == Some(Wide(rd, value)) && 0 < rd < 32
    requires c.Ok() && c.pc == m.codeStart + at
    ensures Leads(code, m.codeStart, c, d) && d.Ok() && d == c.Put(rd, Word(value)).(pc := c.pc + 8)
  {
    hide Emit, IrAt, Leads, Word, Holds, Wide;
    assert Wide(rd, value) + [] == Wide(rd, value);
    var s;
    s, d := RunWide(code, m, hard, at, i, rd, value, [], c);
  }

  lemma LoadedIs(m: Memory, a: int)
    ensures LoadBytes(m, a, 4) < WORD
    ensures Loaded(Lb, m, a) == Word(LowSigned(LoadBytes(m, a, 1), 8))
    ensures Loaded(Lh, m, a) == Word(LowSigned(LoadBytes(m, a, 2), 16))
    ensures Loaded(Lw, m, a) == LoadBytes(m, a, 4) == Word(LowSigned(LoadBytes(m, a, 4), 32))
  {
    hide Pow2, LoadBytes;
    Powers();
    PowerProduct(8, 8);
    LoadBound(m, a, 1);
    LoadBound(m, a, 2);
    LoadBound(m, a, 4);
    var w := LoadBytes(m, a, 4);
    WordShift(w, -1);
  }

  lemma ReadRuns(code: seq<nat>, m: Map, hard: bool, at: nat, i: Ir, c: Cpu) returns (d: Cpu)
    requires IrAt(code, m, hard, at, i) && i.Read? && Computes(i, hard) && c.Ok() && c.pc == m.codeStart + at
    ensures Leads(code, m.codeStart, c, d) && d.Ok() && d.pc == c.pc + Size(i, hard)
    ensures d.x[Reg(i.dest)] == Value(i, hard, m, c) && OnlySets(c, d, Reg(i.dest))
  {
    hide IrAt, Leads, Word, Loaded, LoadBytes, LowSigned;
    var rd, r := Reg(i.dest), Reg(i.src0);
    LoadedIs(c.mem, c.x[r] + 0);
    d := c.Put(rd, Value(i, hard, m, c)).Next();
    RunOne(code, m, hard, at, i, I(if i.size == 1 then Lb else if i.size == 2 then Lh else Lw, rd, r, 0), c, d);
  }

  lemma LoadRuns(code: seq<nat>, m: Map, hard: bool, at: nat, i: Ir, c: Cpu) returns (d: Cpu)
    requires IrAt(code, m, hard, at, i) && i.Load? && Computes(i, hard) && c.Ok() && c.pc == m.codeStart + at
    ensures Leads(code, m.codeStart, c, d) && d.Ok() && d.pc == c.pc + Size(i, hard)
    ensures d.x[Reg(i.dest)] == Value(i, hard, m, c) && OnlySets(c, d, Reg(i.dest))
  {
    hide IrAt, Leads, Word, Loaded, LoadBytes;
    if Short(i.ofs) {
      var rd, base := Reg(i.dest), if i.global then GP else SP;
      var a := c.x[base] + i.ofs;
      LoadedIs(c.mem, a);
      d := c.Put(rd, LoadBytes(c.mem, a, 4)).Next();
      RunOne(code, m, hard, at, i, I(Lw, rd, base, i.ofs), c, d);
    } else {
      d := FarLoadRuns(code, m, hard, at, i, c);
    }
  }

  lemma FarLoadRuns(code: seq<nat>, m: Map, hard: bool, at: nat, i: Ir, c: Cpu) returns (d: Cpu)
    requires IrAt(code, m, hard, at, i) && i.Load? && Computes(i, hard) && !Short(i.ofs)
    requires c.Ok() && c.pc == m.codeStart + at
    ensures Leads(code, m.codeStart, c, d) && d.Ok() && d.pc == c.pc + Size(i, hard)
    ensures d.x[Reg(i.dest)] == Value(i, hard, m, c) && OnlySets(c, d, Reg(i.dest))
  {
    hide IrAt, Leads, Word, Wide, Holds, Loaded, LoadBytes, StoreBytes, Alu, CanonicalSeq;
    var rd, base, ofs := Reg(i.dest), if i.global then GP else SP, i.ofs;
    var a := c.x[base] + ofs;
    LoadedIs(c.mem, a);
    var s, c1 := RunWide(code, m, hard, at, i, T0, ofs, [R(Add, T0, base, T0), I(Lw, rd, T0, 0)], c);
    var c2 := FarAddress(code, m.codeStart, s, base, ofs, 0, c, c1);
    LoadedIs(c.mem, c2.x[T0] + 0);
    d := c2.Put(rd, LoadBytes(c.mem, a, 4)).Next();
    StepInside(code, m.codeStart, c.pc, s, 3, c, c2, d);
  }

  /** The address of a variable out of reach of a 12-bit offset goes to t0. */
  lemma FarAddress(code: seq<nat>, start: int, s: seq<Rv>, base: nat, ofs: int, v: nat, c: Cpu, c1: Cpu)
    returns (c2: Cpu)
    requires c.Ok() && c1.Ok() && base in {SP, GP} && c1 == c.Put(T0, Word(ofs)).(pc := c.pc + 8)
    requires Holds(code, start, c.pc, s) && |s| > 2 && s[2] == R(Add, T0, base, T0) && Leads(code, start, c, c1)
    ensures Leads(code, start, c, c2) && c2.Ok() && c2 == c.Put(T0, Word(c.x[base] + ofs)).(pc := c.pc + 12)
    ensures LoadBytes(c.mem, c2.x[T0] + 0, 4) == LoadBytes(c.mem, c.x[base] + ofs, 4)
    ensures StoreBytes(c.mem, c2.x[T0] + 0, v, 4) == StoreBytes(c.mem, c.x[base] + ofs, v, 4)
  {
    hide Leads, Holds, Word, LoadBytes, StoreBytes;
    WordSum(ofs, c.x[base]);
    c2 := c1.Put(T0, Word(c.x[base] + ofs)).Next();
    StepInside(code, start, c.pc, s, 2, c, c1, c2);
    WordSum(c.x[base] + ofs, 0);
    AddressWraps(c.mem, c2.x[T0] + 0, c.x[base] + ofs, v, 4);
  }

  lemma MoveRuns(code: seq<nat>, m: Map, hard: bool, at: nat, i: Ir, c: Cpu) returns (d: Cpu)
    requires IrAt(code, m, hard, at, i) && Computes(i, hard) && c.Ok() && c.pc == m.codeStart + at
    requires i.Assign? || i.Cast? || i.MulDiv?
    ensures Leads(code, m.codeStart, c, d) && d.Ok() && d.pc == c.pc + Size(i, hard)
    ensures d.x[Reg(i.dest)] == Value(i, hard, m, c) && OnlySets(c, d, Reg(i.dest))
  {
    hide IrAt, Leads, Word, Signed, TruncDiv, TruncMod;
    var rd, r := Reg(i.dest), Reg(i.src0);
    SmallWord(c.x[r]);
    d := c.Put(rd, Value(i, hard, m, c)).Next();
    if i.MulDiv? {
      var op := if i.mop == OpMul then Mul else if i.mop == OpDiv then Div else Mod;
      RunOne(code, m, hard, at, i, R(op, rd, r, Reg(i.src1)), c, d);
    } else {
      RunOne(code, m, hard, at, i, Li(rd, r, 0), c, d);
    }
  }

  /** Wherever an instruction that computes a value was emitted, running its words leaves that value
      in its register, changes nothing else but t0, and goes on behind them. */
  lemma ValueRuns(code: seq<nat>, m: Map, hard: bool, at: nat, i: Ir, c: Cpu) returns (d: Cpu)
    requires IrAt(code, m, hard, at, i) && Computes(i, hard) && c.Ok() && c.pc == m.codeStart + at
    ensures Leads(code, m.codeStart, c, d) && d.Ok() && d.pc == c.pc + Size(i, hard)
    ensures d.x[Reg(i.dest)] == Value(i, hard, m, c) && OnlySets(c, d, Reg(i.dest))
  {
    hide IrAt, Leads, Value, Size;
    d := c;
    match i {
      case LoadConstant(_, _) => d := ConstantRuns(code, m, hard, at, i, c);
      case LoadDataAddress(_, _) => d := ConstantRuns(code, m, hard, at, i, c);
      case LoadRodataAddress(_, _) => d := ConstantRuns(code, m, hard, at, i, c);
      case AddressOf(_, _, _) => d := AddressRuns(code, m, hard, at, i, c);
      case Load(_, _, _) => d := LoadRuns(code, m, hard, at, i, c);
      case Read(_, _, _) => d := ReadRuns(code, m, hard, at, i, c);
      case Unary(_, _, _) => d := UnaryRuns(code, m, hard, at, i, c);
      case Trunc(_, _, _) => d := TruncRuns(code, m, hard, at, i, c);
      case SignExt(_, _, _, _) => d := SignExtRuns(code, m, hard, at, i, c);
      case Binary(op, _, _, _) =>
        if Direct(op) {
          d := DirectRuns(code, m, hard, at, i, c);
          DirectSize(i, hard, m, c, d);
        } else if op == OpEq || op == OpNeq {
          d := EqualityRuns(code, m, hard, at, i, c);
        } else {
          d := OrderRuns(code, m, hard, at, i, c);
        }
      case Assign(_, _) => d := MoveRuns(code, m, hard, at, i, c);
      case Cast(_, _) => d := MoveRuns(code, m, hard, at, i, c);
      case MulDiv(_, _, _, _) => d := MoveRuns(code, m, hard, at, i, c);
      case _ =>
    }
  }

  lemma DirectSize(i: Ir, hard: bool, m: Map, c: Cpu, d: Cpu)
    requires i.Binary? && Direct(i.op) && Computes(i, hard) && c.Ok()
    requires d == c.Put(Reg(i.dest), Value(i, hard, m, c)).Next()
    ensures d.Ok() && d.pc == c.pc + Size(i, hard)
    ensures d.x[Reg(i.dest)] == Value(i, hard, m, c) && OnlySets(c, d, Reg(i.dest))
  {
    hide Word, Signed, Pow2, Bitwise;
    BitwiseBounds(c.x[Reg(i.src0)], c.x[Reg(i.src1)]);
  }

  lemma BitwiseBounds(a: nat, b: nat)
    ensures AndW(a, b) < WORD && OrW(a, b) < WORD && XorW(a, b) < WORD
  {
    Powers();
    hide Pow2;
    BitwiseBound(AND_BIT, a, b, 32);
    BitwiseBound(OR_BIT, a, b, 32);
    BitwiseBound(XOR_BIT, a, b, 32);
  }

  lemma {:induction false} BitwiseBound(f: (nat, nat) -> nat, a: nat, b: nat, k: nat)
    requires forall x, y :: f(x, y) < 2
    ensures Bitwise(f, a, b, k) < Pow2(k)
  {
    if k > 0 {
      BitwiseBound(f, a / 2, b / 2, k - 1);
    }
  }

  // ---- memory ------------------------------------------------------------------------------------

  predicate Stores(i: Ir)
  {
    match i
    case Store(_, src0, _) => src0 < 8
    case Write(src0, src1, size) => src0 < 8 && src1 < 8 && size in {1, 2, 4}
    case AddressOfFunc(src0, _) => src0 < 8
    case _ => false
  }

  /** The memory such an instruction leaves. */
  function Written(i: Ir, m: Map, c: Cpu): Memory
    requires Stores(i) && c.Ok()
  {
    match i
    case Store(global, src0, ofs) => StoreBytes(c.mem, BaseOf(global, c) + ofs, c.x[Reg(src0)], 4)
    case Write(src0, src1, size) => StoreBytes(c.mem, c.x[Reg(src0)], c.x[Reg(src1)], size)
    case AddressOfFunc(src0, f) => StoreBytes(c.mem, c.x[Reg(src0)], Word(m.codeStart + m.FuncOffset(f)), 4)
  }

  ghost predicate KeepsRegisters(c: Cpu, d: Cpu)
  {
    |d.x| == |c.x| == 32 && forall r :: 0 <= r < 32 && r != T0 ==> d.x[r] == c.x[r]
  }

  lemma FarStoreRuns(code: seq<nat>, m: Map, hard: bool, at: nat, i: Ir, c: Cpu) returns (d: Cpu)
    requires IrAt(code, m, hard, at, i) && i.Store? && Stores(i) && !Short(i.ofs)
    requires c.Ok() && c.pc == m.codeStart + at
    ensures Leads(code, m.codeStart, c, d) && d.Ok() && d.pc == c.pc + Size(i, hard)
    ensures d.mem == Written(i, m, c) && KeepsRegisters(c, d)
  {
    hide IrAt, Leads, Word, RvHi, RvLo, Upper, Holds, LoadBytes, StoreBytes, Alu;
    var base, ofs, r := if i.global then GP else SP, i.ofs, Reg(i.src0);
    var s, c1 := RunWide(code, m, hard, at, i, T0, ofs, [R(Add, T0, base, T0), S(Sw, T0, r, 0)], c);
    var c2 := FarAddress(code, m.codeStart, s, base, ofs, c.x[r], c, c1);
    d := c2.Stored(c2.x[T0] + 0, c.x[r], 4).Next();
    StepInside(code, m.codeStart, c.pc, s, 3, c, c2, d);
  }

  lemma FuncStoreRuns(code: seq<nat>, m: Map, hard: bool, at: nat, i: Ir, c: Cpu) returns (d: Cpu)
    requires IrAt(code, m, hard, at, i) && i.AddressOfFunc? && Stores(i) && c.Ok() && c.pc == m.codeStart + at
    ensures Leads(code, m.codeStart, c, d) && d.Ok() && d.pc == c.pc + Size(i, hard)
    ensures d.mem == Written(i, m, c) && KeepsRegisters(c, d)
  {
    hide IrAt, Leads, Word, RvHi, RvLo, Upper, Holds, LoadBytes, StoreBytes;
    var r := Reg(i.src0);
    var s, c1 := RunWide(code, m, hard, at, i, T0, m.codeStart + m.FuncOffset(i.func), [S(Sw, r, T0, 0)], c);
    d := c1.Stored(c1.x[r] + 0, c1.x[T0], 4).Next();
    StepInside(code, m.codeStart, c.pc, s, 2, c, c1, d);
  }

  /** Stores write what they are to write and nothing else. */
  lemma StoreRuns(code: seq<nat>, m: Map, hard: bool, at: nat, i: Ir, c: Cpu) returns (d: Cpu)
    requires IrAt(code, m, hard, at, i) && Stores(i) && c.Ok() && c.pc == m.codeStart + at
    ensures Leads(code, m.codeStart, c, d) && d.Ok() && d.pc == c.pc + Size(i, hard)
    ensures d.mem == Written(i, m, c) && KeepsRegisters(c, d)
  {
    hide IrAt, Leads, Word, RvHi, RvLo, Upper, Holds, LoadBytes, StoreBytes;
    match i {
      case Store(global, src0, ofs) =>
        if Short(ofs) {
          var base := if global then GP else SP;
          d := c.Stored(c.x[base] + ofs, c.x[Reg(src0)], 4).Next();
          RunOne(code, m, hard, at, i, S(Sw, base, Reg(src0), ofs), c, d);
        } else {
          d := FarStoreRuns(code, m, hard, at, i, c);
        }
      case Write(src0, src1, size) =>
        d := c.Stored(c.x[Reg(src0)] + 0, c.x[Reg(src1)], size).Next();
        var op := if size == 1 then Sb else if size == 2 then Sh else Sw;
        RunOne(code, m, hard, at, i, S(op, Reg(src0), Reg(src1), 0), c, d);
      case AddressOfFunc(_, _) => d := FuncStoreRuns(code, m, hard, at, i, c);
    }
  }

  // ---- frames ------------------------------------------------------------------------------------

  /** The words that set up a frame. */
  lemma DefineInsns(code: seq<nat>, m: Map, hard: bool, at: nat, frame: int) returns (insns: seq<Rv>)
    requires IrAt(code, m, hard, at, Define(frame))
    ensures |insns| == 4 && insns[1..3] == Wide(T0, frame + 4)
    ensures Holds(code, m.codeStart, m.codeStart + at, CanonicalSeq(insns))
    ensures CanonicalSeq(insns)[0] == S(Sw, SP, RA, -4) && CanonicalSeq(insns)[3] == R(Sub, SP, SP, T0)
  {
    hide Holds, Encode, RvHi, RvLo;
    insns := [S(Sw, SP, RA, -4)] + Wide(T0, frame + 4) + [R(Sub, SP, SP, T0)];
    HiLo(frame + 4);
    InPlace(code, m, hard, at, Define(frame), insns);
  }

  /** Setting up a frame: the return address below the old stack pointer, the frame below that. */
  lemma DefineRuns(code: seq<nat>, m: Map, hard: bool, at: nat, frame: int, c: Cpu) returns (d: Cpu)
    requires IrAt(code, m, hard, at, Define(frame)) && c.Ok() && c.pc == m.codeStart + at
    ensures Leads(code, m.codeStart, c, d) && d.Ok() && d.pc == c.pc + 16
    ensures d.x[SP] == Word(c.x[SP] - (frame + 4)) && d.mem == StoreBytes(c.mem, c.x[SP] as int - 4, c.x[RA], 4)
    ensures forall r :: 0 <= r < 32 && r != T0 && r != SP ==> d.x[r] == c.x[r]
  {
    hide IrAt, Leads, Word, Wide, Holds, StoreBytes, Emit, Canonical;
    var start, sp: int := m.codeStart, c.x[SP];
    var insns := DefineInsns(code, m, hard, at, frame);
    var s := CanonicalSeq(insns);
    LeadsSelf(code, start, c);
    var c1 := c.Stored(sp - 4, c.x[RA], 4).Next();
    StepInside(code, start, c.pc, s, 0, c, c, c1);
    var c2 := WideStep(code, start, c.pc, insns, 1, T0, frame + 4, c, c1);
    WordLess(sp, frame + 4);
    d := c2.Put(SP, Word(sp - (frame + 4))).Next();
    StepInside(code, start, c.pc, s, 3, c, c2, d);
  }

  lemma WordLess(a: nat, b: int)
    ensures Word(a - Word(b)) == Word(a - b)
  {
    WordIs(b);
    WordShift(a - b, b / WORD);
  }

  /** The words of a return, behind the move of the result. */
  lemma ReturnInsns(code: seq<nat>, m: Map, hard: bool, at: nat, i: Ir) returns (insns: seq<Rv>)
    requires IrAt(code, m, hard, at, i) && i.Return? && (i.src.Some? ==> i.src.value < 8)
    ensures |insns| == 6 && insns[1..3] == Wide(T0, i.frame + 4)
    ensures Holds(code, m.codeStart, m.codeStart + at, CanonicalSeq(insns))
    ensures CanonicalSeq(insns)[0] == if i.src.Some? then Li(A0, Reg(i.src.value), 0) else Li(ZERO, ZERO, 0)
    ensures CanonicalSeq(insns)[3] == R(Add, SP, SP, T0) && CanonicalSeq(insns)[4] == I(Lw, RA, SP, -4)
    ensures CanonicalSeq(insns)[5] == I(Jalr, ZERO, RA, 0)
  {
    hide Holds, Encode, RvHi, RvLo;
    insns := [if i.src.Some? then Li(A0, Reg(i.src.value), 0) else Li(ZERO, ZERO, 0)] + Wide(T0, i.frame + 4)
        + [R(Add, SP, SP, T0), I(Lw, RA, SP, -4), I(Jalr, ZERO, RA, 0)];
    HiLo(i.frame + 4);
    InPlace(code, m, hard, at, i, insns);
  }

  /** The result is moved and the frame taken down. */
  lemma ReturnPops(code: seq<nat>, start: int, insns: seq<Rv>, i: Ir, c: Cpu) returns (d: Cpu)
    requires i.Return? && (i.src.Some? ==> i.src.value < 8) && c.Ok()
    requires |insns| == 6 && insns[1..3] == Wide(T0, i.frame + 4) && Holds(code, start, c.pc, CanonicalSeq(insns))
    requires CanonicalSeq(insns)[0] == if i.src.Some? then Li(A0, Reg(i.src.value), 0) else Li(ZERO, ZERO, 0)
    requires CanonicalSeq(insns)[3] == R(Add, SP, SP, T0)
    ensures Leads(code, start, c, d) && d.Ok() && d.mem == c.mem && d.pc == c.pc + 16
    ensures d.x[SP] == Word(c.x[SP] + (i.frame + 4))
    ensures d.x[A0] == if i.src.Some? then c.x[Reg(i.src.value)] else c.x[A0]
    ensures forall r :: 0 <= r < 32 && r !in {T0, SP, A0} ==> d.x[r] == c.x[r]
  {
    hide Leads, Word, Wide, Holds, Canonical;
    var s, sp: int := CanonicalSeq(insns), Word(c.x[SP] + (i.frame + 4));
    LeadsSelf(code, start, c);
    var c1 := (if i.src.Some? then c.Put(A0, c.x[Reg(i.src.value)]) else c).Next();
    SmallWord(c.x[if i.src.Some? then Reg(i.src.value) else ZERO]);
    StepInside(code, start, c.pc, s, 0, c, c, c1);
    var c2 := WideStep(code, start, c.pc, insns, 1, T0, i.frame + 4, c, c1);
    WordSum(i.frame + 4, c.x[SP]);
    d := c2.Put(SP, sp).Next();
    StepInside(code, start, c.pc, s, 3, c, c2, d);
  }

  /** The return address is loaded and control goes there. */
  lemma ReturnGoes(code: seq<nat>, start: int, at: int, s: seq<Rv>, c0: Cpu, c: Cpu) returns (d: Cpu)
    requires Holds(code, start, at, s) && |s| == 6 && s[4] == I(Lw, RA, SP, -4) && s[5] == I(Jalr, ZERO, RA, 0)
    requires Leads(code, start, c0, c) && c.Ok() && c.pc == at + 16
    ensures Leads(code, start, c0, d) && d.Ok() && d.mem == c.mem
    ensures d.x[RA] == LoadBytes(c.mem, c.x[SP] as int - 4, 4) && d.pc == d.x[RA] / 2 * 2
    ensures forall r :: 0 <= r < 32 && r != RA ==> d.x[r] == c.x[r]
  {
    hide Leads, Holds, Word, LoadBytes, Loaded;
    var sp: int := c.x[SP];
    LoadedIs(c.mem, sp - 4);
    var ra := LoadBytes(c.mem, sp - 4, 4);
    var c4 := c.Put(RA, ra).Next();
    StepInside(code, start, at, s, 4, c0, c, c4);
    SmallWord(ra);
    d := c4.(pc := ra / 2 * 2);
    StepInside(code, start, at, s, 5, c0, c4, d);
  }

  /** Taking a frame down: the stack pointer goes up, the return address comes from below it, the
      result is in a0, and control goes back. */
  lemma ReturnRuns(code: seq<nat>, m: Map, hard: bool, at: nat, i: Ir, c: Cpu) returns (d: Cpu)
    requires IrAt(code, m, hard, at, i) && i.Return? && (i.src.Some? ==> i.src.value < 8)
    requires c.Ok() && c.pc == m.codeStart + at
    ensures Leads(code, m.codeStart, c, d) && d.Ok() && d.mem == c.mem
    ensures d.x[SP] == Word(c.x[SP] + (i.frame + 4)) && d.x[RA] == LoadBytes(c.mem, d.x[SP] as int - 4, 4)
    ensures d.pc == d.x[RA] / 2 * 2 && d.x[A0] == if i.src.Some? then c.x[Reg(i.src.value)] else c.x[A0]
    ensures forall r :: 0 <= r < 32 && r !in {T0, SP, RA, A0} ==> d.x[r] == c.x[r]
  {
    hide IrAt, Leads, Word, Wide, Holds, LoadBytes, Emit, Canonical, CanonicalSeq;
    var insns := ReturnInsns(code, m, hard, at, i);
    var c3 := ReturnPops(code, m.codeStart, insns, i, c);
    d := ReturnGoes(code, m.codeStart, c.pc, CanonicalSeq(insns), c, c3);
  }

  /** Inside a function that has been entered in state `c`: its frame is on the stack and the saved
      return address is in place. */
  ghost predicate Inside(frame: int, c: Cpu, e: Cpu)
  {
    c.Ok() && e.Ok() && e.x[SP] == Word(c.x[SP] - (frame + 4)) && LoadBytes(e.mem, c.x[SP] as int - 4, 4) == c.x[RA]
  }

  lemma DefineEnters(code: seq<nat>, m: Map, hard: bool, at: nat, frame: int, c: Cpu) returns (d: Cpu)
    requires IrAt(code, m, hard, at, Define(frame)) && c.Ok() && c.pc == m.codeStart + at
    ensures Leads(code, m.codeStart, c, d) && Inside(frame, c, d) && d.pc == c.pc + 16
    ensures forall r :: 0 <= r < 32 && r != T0 && r != SP ==> d.x[r] == c.x[r]
  {
    hide IrAt, Leads, StoreBytes, LoadBytes, Pow2;
    var sp: int := c.x[SP];
    d := DefineRuns(code, m, hard, at, frame, c);
    LoadStored(c.mem, sp - 4, c.x[RA], 4);
    Powers();
  }

  /** Return undoes define: from anywhere inside the function, returning restores the stack pointer
      and the return address the caller had, goes back there, and hands over the result. */
  lemma ReturnUndoesDefine(code: seq<nat>, m: Map, hard: bool, at: nat, i: Ir, c: Cpu, e: Cpu) returns (d: Cpu)
    requires IrAt(code, m, hard, at, i) && i.Return? && (i.src.Some? ==> i.src.value < 8)
    requires Inside(i.frame, c, e) && e.pc == m.codeStart + at
    ensures Leads(code, m.codeStart, e, d) && d.Ok() && d.mem == e.mem
    ensures d.x[SP] == c.x[SP] && d.x[RA] == c.x[RA] && d.pc == c.x[RA] / 2 * 2
    ensures d.x[A0] == if i.src.Some? then e.x[Reg(i.src.value)] else e.x[A0]
    ensures forall r :: 0 <= r < 32 && r !in {T0, SP, RA, A0} ==> d.x[r] == e.x[r]
  {
    hide IrAt, Leads, Word, LoadBytes;
    d := ReturnRuns(code, m, hard, at, i, e);
    WordSum(c.x[SP] - (i.frame + 4), i.frame + 4);
    SmallWord(c.x[SP]);
  }

  // ---- calls through pointers --------------------------------------------------------------------

  /** A call through a function pointer: the address goes to t0, and control to the address. */
  lemma IndirectRuns(code: seq<nat>, m: Map, hard: bool, at: nat, src0: nat, c: Cpu) returns (d: Cpu)
    requires IrAt(code, m, hard, at, LoadFunc(src0)) && IrAt(code, m, hard, at + 4, Indirect) && src0 < 8
    requires c.Ok() && c.pc == m.codeStart + at
    ensures Leads(code, m.codeStart, c, d) && d.Ok() && d.pc == c.x[Reg(src0)] / 2 * 2 && d.mem == c.mem
    ensures d.x[RA] == Word(c.pc + 8) && forall r :: 0 <= r < 32 && r != T0 && r != RA ==> d.x[r] == c.x[r]
  {
    hide IrAt, Leads, Word;
    var a := c.x[Reg(src0)];
    SmallWord(a);
    var c1 := c.Put(T0, a).Next();
    RunOne(code, m, hard, at, LoadFunc(src0), Li(T0, Reg(src0), 0), c, c1);
    d := c1.Put(RA, Word(c1.pc + 4)).(pc := a / 2 * 2);
    RunOne(code, m, hard, at + 4, Indirect, I(Jalr, RA, T0, 0), c1, d);
    LeadsOn(code, m.codeStart, c, c1, d);
  }

  /** A pointer to a function that was stored and is read back leads to the function. */
  lemma FunctionPointerLands(code: seq<nat>, m: Map, hard: bool, at: nat, src0: nat, f: nat, c: Cpu, was: Cpu,
                             from: nat)
    returns (d: Cpu)
    requires IrAt(code, m, hard, at, LoadFunc(src0)) && IrAt(code, m, hard, at + 4, Indirect) && src0 < 8
    requires c.Ok() && c.pc == m.codeStart + at && Fits(code, m) && Target(code, m.FuncOffset(f)) && was.Ok()
    requires from < 8
    requires c.x[Reg(src0)] == LoadBytes(Written(AddressOfFunc(from, f), m, was), was.x[Reg(from)], 4)
    ensures Leads(code, m.codeStart, c, d) && d.Ok() && d.pc == m.codeStart + m.FuncOffset(f)
    ensures d.x[RA] == Word(c.pc + 8)
  {
    hide IrAt, Leads, Word, LoadBytes, StoreBytes, Pow2, Fits, Target;
    Powers();
    AddressFits(code, m, m.FuncOffset(f));
    LoadStored(was.mem, was.x[Reg(from)], Word(m.codeStart + m.FuncOffset(f)), 4);
    d := IndirectRuns(code, m, hard, at, src0, c);
  }

  // ---- in programs -------------------------------------------------------------------------------

  /** The number of blocks in the first `i` functions. */
  function BlocksBefore(fs: seq<Function>, i: nat): nat
    requires i <= |fs|
  {
    if i == 0 then 0 else BlocksBefore(fs, i - 1) + |fs[i - 1].bbs|
  }

  /** Every block of every function has its segment, in the order of functions and blocks. */
  lemma {:induction false} SegmentOf(p: Program, fs: seq<Function>, i: nat, b: nat)
    requires i < |fs| && b < |fs[i].bbs|
    ensures BlocksBefore(fs, i) + b < |p.Segments(fs)| == BlocksBefore(fs, |fs|)
    ensures p.Segments(fs)[BlocksBefore(fs, i) + b] == p.BlockSegment(fs[i], b)
    decreases |fs|
  {
    hide Program.BlockSegment;
    var init, last := fs[..|fs| - 1], fs[|fs| - 1];
    SegmentCount(p, init);
    assert p.Segments(fs) == p.Segments(init) + p.FuncSegments(last);
    hide Program.Segments;
    BlocksBeforePrefix(fs, |fs| - 1, i);
    BlocksBeforePrefix(fs, |fs| - 1, |fs| - 1);
    if i < |init| {
      SegmentOf(p, init, i, b);
    }
  }

  lemma {:induction false} SegmentCount(p: Program, fs: seq<Function>)
    ensures |p.Segments(fs)| == BlocksBefore(fs, |fs|)
  {
    if fs != [] {
      SegmentCount(p, fs[..|fs| - 1]);
      BlocksBeforePrefix(fs, |fs| - 1, |fs| - 1);
    }
  }

  lemma {:induction false} BlocksBeforePrefix(fs: seq<Function>, n: nat, i: nat)
    requires i <= n <= |fs|
    ensures BlocksBefore(fs[..n], i) == BlocksBefore(fs, i)
  {
    if i > 0 {
      BlocksBeforePrefix(fs, n, i - 1);
    }
  }

  /** Filling in the frame of returns changes no size. */
  lemma {:induction false} ReturningSize(irs: seq<Ir>, frame: int, j: nat, hard: bool)
    requires j <= |irs|
    ensures FlatSize(Returning(irs, frame)[..j], hard) == FlatSize(irs[..j], hard)
  {
    if j > 0 {
      ReturningSize(irs, frame, j - 1, hard);
      assert Returning(irs, frame)[..j][..j - 1] == Returning(irs, frame)[..j - 1] && irs[..j][..j - 1] == irs[..j - 1];
    }
  }

  lemma {:induction false} SizeBehindDefine(frame: int, irs: seq<Ir>, hard: bool)
    ensures FlatSize([Define(frame)] + irs, hard) == 16 + FlatSize(irs, hard)
  {
    FlatSizeAppend([Define(frame)], irs, hard);
    assert [Define(frame)][..0] == [];
  }

  /** The address of instruction `j` of block `b` of a function: behind the offset of the block, the
      four words that set up the frame if it is the entry, and the instructions before. */
  function PlaceOf(p: Program, m: Map, hard: bool, f: Function, b: nat, j: nat): int
    requires b < |f.bbs| && j <= |p.BlockCode(f.bbs[b])|
  {
    m.codeStart + m.Offset(f.bbs[b]) + (if b == 0 then 16 else 0) + FlatSize(p.BlockCode(f.bbs[b])[..j], hard)
  }

  lemma SegmentPlace(p: Program, m: Map, hard: bool, f: Function, b: nat, j: nat)
    requires b < |f.bbs| && j <= |p.BlockCode(f.bbs[b])|
    ensures var irs, at := p.BlockSegment(f, b).irs, if b == 0 then j + 1 else j;
            && p.BlockSegment(f, b).bb == f.bbs[b] && |irs| == |p.BlockCode(f.bbs[b])| + (if b == 0 then 1 else 0)
            && PlaceOf(p, m, hard, f, b, j) == m.codeStart + m.Offset(f.bbs[b]) + FlatSize(irs[..at], hard)
            && (j < |p.BlockCode(f.bbs[b])| ==> irs[at] == PatchReturn(p.BlockCode(f.bbs[b])[j], f.frame))
  {
    hide FlatSize;
    var code := p.BlockCode(f.bbs[b]);
    var irs := Returning(code, f.frame);
    ReturningSize(code, f.frame, j, hard);
    if b == 0 {
      SizeBehindDefine(f.frame, irs[..j], hard);
      assert ([Define(f.frame)] + irs)[..j + 1] == [Define(f.frame)] + irs[..j];
    }
  }

  /** In the generated program: an instruction stands at its place, returns with the frame of their
      function. */
  lemma InsnStands(p: Program, m: Map, hard: bool, i: nat, b: nat, j: nat) returns (at: nat)
    requires Laid(p, m, hard) && Generate(p, m, hard).Some? && i < |p.functions| && b < |p.functions[i].bbs|
    requires j < |p.BlockCode(p.functions[i].bbs[b])|
    ensures var f, code := p.functions[i], Generate(p, m, hard).value;
            var insn := PatchReturn(p.BlockCode(f.bbs[b])[j], f.frame);
            && m.codeStart + at == PlaceOf(p, m, hard, f, b, j) && at % 4 == 0
            && IrAt(code, m, hard, at, insn) && at + Size(insn, hard) <= 4 * |code|
  {
    hide Laid, Generate, IrAt, Size, FlatSize, PlaceOf, Program.BlockSegment;
    var f := p.functions[i];
    SegmentOf(p, p.functions, i, b);
    SegmentPlace(p, m, hard, f, b, j);
    at := StandsAt(p, m, hard, BlocksBefore(p.functions, i) + b, if b == 0 then j + 1 else j);
  }

  lemma NextPlace(p: Program, m: Map, hard: bool, f: Function, b: nat, j: nat)
    requires b < |f.bbs| && j < |p.BlockCode(f.bbs[b])|
    ensures PlaceOf(p, m, hard, f, b, j + 1) == PlaceOf(p, m, hard, f, b, j) + Size(p.BlockCode(f.bbs[b])[j], hard)
  {
    var code := p.BlockCode(f.bbs[b]);
    assert code[..j + 1][..j] == code[..j];
  }

  /** In the generated program: an instruction that computes or stores, run from its place, leaves its
      value or its bytes, and goes on at the place of the next instruction of the block. */
  lemma ProgramComputes(p: Program, m: Map, hard: bool, i: nat, b: nat, j: nat, c: Cpu) returns (d: Cpu)
    requires Laid(p, m, hard) && Generate(p, m, hard).Some? && c.Ok()
    requires i < |p.functions| && b < |p.functions[i].bbs| && j < |p.BlockCode(p.functions[i].bbs[b])|
    requires c.pc == PlaceOf(p, m, hard, p.functions[i], b, j)
    requires var insn := p.BlockCode(p.functions[i].bbs[b])[j]; Computes(insn, hard) || Stores(insn)
    ensures Leads(Generate(p, m, hard).value, m.codeStart, c, d) && d.Ok()
    ensures d.pc == PlaceOf(p, m, hard, p.functions[i], b, j + 1)
    ensures var insn := p.BlockCode(p.functions[i].bbs[b])[j];
            if Stores(insn) then d.mem == Written(insn, m, c) && KeepsRegisters(c, d)
            else Computes(insn, hard) && d.x[Reg(insn.dest)] == Value(insn, hard, m, c)
                 && OnlySets(c, d, Reg(insn.dest))
  {
    hide Laid, Generate, Leads, IrAt, Value, Written, Size, FlatSize, KeepsRegisters, OnlySets, PlaceOf;
    var insn := p.BlockCode(p.functions[i].bbs[b])[j];
    var at := InsnStands(p, m, hard, i, b, j);
    NextPlace(p, m, hard, p.functions[i], b, j);
    if Stores(insn) {
      d := StoreRuns(Generate(p, m, hard).value, m, hard, at, insn, c);
    } else {
      d := ValueRuns(Generate(p, m, hard).value, m, hard, at, insn, c);
    }
  }

  /** In the generated program: jumps, calls and branches, run from their place, arrive at the offset of
      the block they name, and change nothing but ra and t0. */
  lemma ProgramTransfers(p: Program, m: Map, hard: bool, i: nat, b: nat, j: nat, c: Cpu) returns (d: Cpu)
    requires Laid(p, m, hard) && Generate(p, m, hard).Some? && Fits(Generate(p, m, hard).value, m) && c.Ok()
    requires i < |p.functions| && b < |p.functions[i].bbs| && j < |p.BlockCode(p.functions[i].bbs[b])|
    requires c.pc == PlaceOf(p, m, hard, p.functions[i], b, j)
    requires TargetsPlaced(p, m, p.BlockCode(p.functions[i].bbs[b])[j])
    ensures Leads(Generate(p, m, hard).value, m.codeStart, c, d)
    ensures var insn := p.BlockCode(p.functions[i].bbs[b])[j];
            && (insn.Jump? ==> d.pc == m.codeStart + m.Offset(insn.bb))
            && (insn.Call? ==> d.pc == m.codeStart + m.Offset(m.entry[insn.func]) && d.Get(RA) == Word(c.pc + 4))
            && (insn.Branch? ==>
                  d.pc == m.codeStart + m.Offset(if c.x[Reg(insn.src0)] != 0 then insn.thenBb else insn.elseBb))
    ensures d.mem == c.mem && forall r: nat :: r < 32 && r != RA && r != T0 ==> d.Get(r) == c.Get(r)
  {
    hide Laid, Generate, Leads, IrAt, Size, FlatSize, PlaceOf, Fits, Word, Placed;
    var at := InsnStands(p, m, hard, i, b, j);
    d := TransferLands(p, m, hard, at, p.BlockCode(p.functions[i].bbs[b])[j], c);
  }

  /** In the generated program: a function entered at its first block sets up its frame, and a return in
      any of its blocks takes the same frame down and goes back to the caller. */
  lemma ProgramReturns(p: Program, m: Map, hard: bool, i: nat, b: nat, j: nat, c: Cpu, e: Cpu)
    returns (c1: Cpu, d: Cpu)
    requires Laid(p, m, hard) && Generate(p, m, hard).Some? && c.Ok()
    requires i < |p.functions| && b < |p.functions[i].bbs| && j < |p.BlockCode(p.functions[i].bbs[b])|
    requires var insn := p.BlockCode(p.functions[i].bbs[b])[j];
             insn.Return? && (insn.src.Some? ==> insn.src.value < 8)
    requires c.pc == m.codeStart + m.Offset(p.functions[i].bbs[0]) && Inside(p.functions[i].frame, c, e)
    requires e.pc == PlaceOf(p, m, hard, p.functions[i], b, j)
    ensures Leads(Generate(p, m, hard).value, m.codeStart, c, c1) && Inside(p.functions[i].frame, c, c1)
    ensures c1.pc == PlaceOf(p, m, hard, p.functions[i], 0, 0)
    ensures forall r :: 0 <= r < 32 && r != T0 && r != SP ==> c1.x[r] == c.x[r]
    ensures Leads(Generate(p, m, hard).value, m.codeStart, e, d) && d.Ok() && d.mem == e.mem
    ensures d.x[SP] == c.x[SP] && d.x[RA] == c.x[RA] && d.pc == c.x[RA] / 2 * 2
    ensures var src := p.BlockCode(p.functions[i].bbs[b])[j].src;
            d.x[A0] == if src.Some? then e.x[Reg(src.value)] else e.x[A0]
  {
    hide Laid, Generate, Leads, IrAt, FlatSize, Inside, Size, Cpu.Ok;
    var f, code := p.functions[i], Generate(p, m, hard).value;
    var first := EntryStands(p, m, hard, i);
    c1 := DefineEnters(code, m, hard, first, f.frame, c);
    InsideOk(f.frame, c, c1);
    EmptySize(p.BlockCode(f.bbs[0]), hard);
    var place := InsnStands(p, m, hard, i, b, j);
    d := ReturnUndoesDefine(code, m, hard, place, PatchReturn(p.BlockCode(f.bbs[b])[j], f.frame), c, e);
  }

  lemma InsideOk(frame: int, c: Cpu, e: Cpu)
    requires Inside(frame, c, e)
    ensures c.Ok() && e.Ok()
  {
  }

  lemma EntryStands(p: Program, m: Map, hard: bool, i: nat) returns (at: nat)
    requires Laid(p, m, hard) && Generate(p, m, hard).Some? && i < |p.functions| && p.functions[i].bbs != []
    ensures at == m.Offset(p.functions[i].bbs[0])
    ensures IrAt(Generate(p, m, hard).value, m, hard, at, Define(p.functions[i].frame))
  {
    hide Laid, Generate, IrAt, FlatSize;
    SegmentOf(p, p.functions, i, 0);
    EmptySize(p.BlockSegment(p.functions[i], 0).irs, hard);
    at := StandsAt(p, m, hard, BlocksBefore(p.functions, i), 0);
  }

  lemma EmptySize(irs: seq<Ir>, hard: bool)
    ensures FlatSize(irs[..0], hard) == 0
  {
  }

  // ---- sign extension ----------------------------------------------------------------------------

  /** Promotion to int always keeps the value, read as a signed number of its size; promotion of a
      char to short keeps it if and only if the char is not negative. */
  lemma PromotesExactly(target: int, source: int, a: nat)
    requires (target, source) in {(4, 2), (4, 1), (2, 1)} && a < WORD
    ensures Promoted(target, source, a) == Word(LowSigned(a, 8 * source)) <==> target == 4 || a % 256 < 128
  {
    Powers();
    PowerProduct(12, 12);
    PowerProduct(12, 11);
    hide Pow2;
    var b := a % 256;
    assert b % 256 == b && b % Pow2(24) == b;
  }

  /** The char -1 becomes the short 255. */
  lemma PromotionGoesWrong()
    ensures Promoted(2, 1, 0xFF) == 0xFF && Word(LowSigned(0xFF, 8)) == Word(-1)
  {
    Powers();
    PowerProduct(12, 12);
    PowerProduct(12, 11);
    hide Pow2;
  }
}
