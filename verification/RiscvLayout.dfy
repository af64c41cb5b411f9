/** The two passes of src/riscv-codegen.c: one sizes every phase-2 instruction and fixes the
    offset of each block, the other emits the words. They agree, so emitted jumps land. */
module RiscvLayout {
  import opened Options
  import opened Words
  import opened RiscvIsa
  import opened RiscvMachine
  import opened RiscvArith

  datatype BinOp = OpAdd | OpSub | OpShl | OpShr | OpEq | OpNeq | OpGt | OpGeq | OpLt | OpLeq | OpBitAnd | OpBitOr
      | OpBitXor
  datatype MulOp = OpMul | OpDiv | OpMod
  datatype UnOp = OpNegate | OpBitNot | OpLogNot

  /** Phase-2 instructions; registers are numbered from 0, blocks and functions by number. */
  datatype Ir =
    | Define(frame: int)
    | LoadConstant(dest: nat, value: int)
    | AddressOf(global: bool, dest: nat, ofs: int)
    | Assign(dest: nat, src0: nat)
    | Load(global: bool, dest: nat, ofs: int)
    | Store(global: bool, src0: nat, ofs: int)
    | Read(dest: nat, src0: nat, size: int)
    | Write(src0: nat, src1: nat, size: int)
    | Branch(src0: nat, thenBb: nat, elseBb: nat)
    | Jump(bb: nat)
    | Call(func: nat)
    | LoadDataAddress(dest: nat, ofs: int)
    | LoadRodataAddress(dest: nat, ofs: int)
    | AddressOfFunc(src0: nat, func: nat)
    | LoadFunc(src0: nat)
    | Indirect
    | Return(src: Option<nat>, frame: int)
    | Binary(op: BinOp, dest: nat, src0: nat, src1: nat)
    | MulDiv(mop: MulOp, dest: nat, src0: nat, src1: nat)
    | Unary(uop: UnOp, dest: nat, src0: nat)
    | Trunc(dest: nat, src0: nat, size: int)
    | SignExt(dest: nat, src0: nat, target: int, source: int)
    | Cast(dest: nat, src0: nat)

  predicate Short(x: int)
  {
    -2048 <= x <= 2047
  }

  /** `update_elf_offset`, and 16 bytes for a function's first instructions. */
  function Size(i: Ir, hard: bool): nat
  {
    match i
    case Define(_) => 16
    case LoadConstant(_, value) => if Short(value) then 4 else 8
    case AddressOf(_, _, ofs) => if Short(ofs) then 4 else 12
    case Load(_, _, ofs) => if Short(ofs) then 4 else 16
    case Store(_, _, ofs) => if Short(ofs) then 4 else 16
    case MulDiv(op, _, _, _) => if hard then 4 else if op == OpMul then 52 else 108
    case LoadDataAddress(_, _) => 8
    case LoadRodataAddress(_, _) => 8
    case Binary(op, _, _, _) => if op == OpEq then 12 else if op in {OpNeq, OpGeq, OpLeq} then 8 else 4
    case Unary(op, _, _) => if op == OpLogNot then 8 else 4
    case AddressOfFunc(_, _) => 12
    case Branch(_, _, _) => 20
    case Return(_, _) => 24
    case Trunc(_, _, size) => if size == 2 then 8 else 4
    case SignExt(_, _, _, source) => if source == 2 then 8 else 12
    case _ => 4
  }

  /** Where things are: sections, the offset of every block and the first block of every function. */
  datatype Map = Map(codeStart: int, dataStart: int, rodataStart: int, bbOffset: seq<int>, entry: seq<nat>)
  {
    function Offset(bb: nat): int {
      if bb < |bbOffset| then bbOffset[bb] else 0
    }

    function FuncOffset(f: nat): int {
      if f < |entry| then Offset(entry[f]) else 0
    }
  }

  function Reg(r: nat): nat { r + A0 }

  /** A 32-bit value into `rd` by `lui` and `addi`. */
  function Wide(rd: nat, value: int): seq<Rv>
  {
    [Lui(rd, RvHi(value)), Li(rd, rd, RvLo(value))]
  }

  function EmitBinary(op: BinOp, rd: nat, rs1: nat, rs2: nat): seq<Rv>
  {
    match op
    case OpAdd => [R(Add, rd, rs1, rs2)]
    case OpSub => [R(Sub, rd, rs1, rs2)]
    case OpShl => [R(Sll, rd, rs1, rs2)]
    case OpShr => [R(Sra, rd, rs1, rs2)]
    case OpEq => [R(Sub, rd, rs1, rs2), R(Sltu, rd, ZERO, rd), I(Xori, rd, rd, 1)]
    case OpNeq => [R(Sub, rd, rs1, rs2), R(Sltu, rd, ZERO, rd)]
    case OpGt => [R(Slt, rd, rs2, rs1)]
    case OpGeq => [R(Slt, rd, rs1, rs2), I(Xori, rd, rd, 1)]
    case OpLt => [R(Slt, rd, rs1, rs2)]
    case OpLeq => [R(Slt, rd, rs2, rs1), I(Xori, rd, rd, 1)]
    case OpBitAnd => [R(And, rd, rs1, rs2)]
    case OpBitOr => [R(Or, rd, rs1, rs2)]
    case OpBitXor => [R(Xor, rd, rs1, rs2)]
  }

  function EmitMulDiv(op: MulOp, hard: bool, rd: nat, rs1: nat, rs2: nat): seq<Rv>
  {
    if hard then [R(if op == OpMul then Mul else if op == OpDiv then Div else Mod, rd, rs1, rs2)]
    else if op == OpMul then MulSeq(rd, rs1, rs2)
    else DivSeq(op == OpMod, rd, rs1, rs2)
  }

  /** `emit_ph2_ir` when `size` bytes of code have been emitted; `None` where the source aborts. */
  function Emit(i: Ir, m: Map, hard: bool, size: int): Option<seq<Rv>>
  {
    match i
    case Define(frame) =>
      Some([S(Sw, SP, RA, -4)] + Wide(T0, frame + 4) + [R(Sub, SP, SP, T0)])
    case LoadConstant(dest, value) =>
      Some(if Short(value) then [Li(Reg(dest), ZERO, value)] else Wide(Reg(dest), value))
    case AddressOf(global, dest, ofs) =>
      var base := if global then GP else SP;
      Some(if Short(ofs) then [Li(Reg(dest), base, ofs)] else Wide(T0, ofs) + [R(Add, Reg(dest), base, T0)])
    case Assign(dest, src0) => Some([Li(Reg(dest), Reg(src0), 0)])
    case Load(global, dest, ofs) =>
      var base := if global then GP else SP;
      Some(if Short(ofs) then [I(Lw, Reg(dest), base, ofs)]
           else Wide(T0, ofs) + [R(Add, T0, base, T0), I(Lw, Reg(dest), T0, 0)])
    case Store(global, src0, ofs) =>
      var base := if global then GP else SP;
      Some(if Short(ofs) then [S(Sw, base, Reg(src0), ofs)]
           else Wide(T0, ofs) + [R(Add, T0, base, T0), S(Sw, T0, Reg(src0), 0)])
    case Read(dest, src0, bytes) =>
      if bytes == 1 then Some([I(Lb, Reg(dest), Reg(src0), 0)])
      else if bytes == 2 then Some([I(Lh, Reg(dest), Reg(src0), 0)])
      else if bytes == 4 then Some([I(Lw, Reg(dest), Reg(src0), 0)])
      else None
    case Write(src0, src1, bytes) =>
      if bytes == 1 then Some([S(Sb, Reg(src0), Reg(src1), 0)])
      else if bytes == 2 then Some([S(Sh, Reg(src0), Reg(src1), 0)])
      else if bytes == 4 then Some([S(Sw, Reg(src0), Reg(src1), 0)])
      else None
    case Branch(src0, thenBb, elseBb) =>
      Some(Wide(T0, m.codeStart + m.Offset(thenBb))
           + [B(Beq, Reg(src0), ZERO, 8), I(Jalr, ZERO, T0, 0), Jal(ZERO, m.Offset(elseBb) - (size + 16))])
    case Jump(bb) => Some([Jal(ZERO, m.Offset(bb) - size)])
    case Call(f) => Some([Jal(RA, m.FuncOffset(f) - size)])
    case LoadDataAddress(dest, ofs) => Some(Wide(Reg(dest), m.dataStart + ofs))
    case LoadRodataAddress(dest, ofs) => Some(Wide(Reg(dest), m.rodataStart + ofs))
    case AddressOfFunc(src0, f) => Some(Wide(T0, m.codeStart + m.FuncOffset(f)) + [S(Sw, Reg(src0), T0, 0)])
    case LoadFunc(src0) => Some([Li(T0, Reg(src0), 0)])
    case Indirect => Some([I(Jalr, RA, T0, 0)])
    case Return(src, frame) =>
      Some([if src.Some? then Li(A0, Reg(src.value), 0) else Li(ZERO, ZERO, 0)]
           + Wide(T0, frame + 4) + [R(Add, SP, SP, T0), I(Lw, RA, SP, -4), I(Jalr, ZERO, RA, 0)])
    case Binary(op, dest, src0, src1) => Some(EmitBinary(op, Reg(dest), Reg(src0), Reg(src1)))
    case MulDiv(op, dest, src0, src1) => Some(EmitMulDiv(op, hard, Reg(dest), Reg(src0), Reg(src1)))
    case Unary(op, dest, src0) =>
      Some(match op
           case OpNegate => [R(Sub, Reg(dest), ZERO, Reg(src0))]
           case OpBitNot => [I(Xori, Reg(dest), Reg(src0), -1)]
           case OpLogNot => [R(Sltu, Reg(dest), ZERO, Reg(src0)), I(Xori, Reg(dest), Reg(dest), 1)])
    case Trunc(dest, src0, bytes) =>
      if bytes == 1 then Some([I(Andi, Reg(dest), Reg(src0), 0xFF)])
      else if bytes == 2 then Some([Shift(Slli, Reg(dest), Reg(src0), 16), Shift(Srli, Reg(dest), Reg(dest), 16)])
      else if bytes == 4 then Some([R(Add, Reg(dest), Reg(src0), ZERO)])
      else None
    case SignExt(dest, src0, target, source) =>
      var amount := (target - source) * 8;
      Some(if source == 2 then [Shift(Slli, Reg(dest), Reg(src0), amount), Shift(Srai, Reg(dest), Reg(dest), amount)]
           else [I(Andi, Reg(dest), Reg(src0), 0xFF), Shift(Slli, Reg(dest), Reg(dest), amount),
                 Shift(Srai, Reg(dest), Reg(dest), amount)])
    case Cast(dest, src0) => Some([Li(Reg(dest), Reg(src0), 0)])
  }

  /** For every instruction the sizing pass reserves exactly what the emitting pass writes. */
  lemma SizeAgrees(i: Ir, m: Map, hard: bool, size: int)
    ensures Emit(i, m, hard, size).Some? ==> 4 * |Emit(i, m, hard, size).value| == Size(i, hard)
  {
  }

  // ---- programs --------------------------------------------------------------------------------

  /** A function: its frame and its blocks in `rpo_next` order, the entry first. */
  datatype Function = Function(frame: int, bbs: seq<nat>)

  /** A translation unit after register allocation: the global initialisation code in block
      `globalBb`, the code of every block, the functions and which of them is `main`. */
  datatype Program = Program(globalFrame: int, globalBb: nat, syscallBb: nat, code: seq<seq<Ir>>,
      functions: seq<Function>, main: nat)
  {
    /** No block belongs to two places, and every function has an entry. */
    ghost predicate Ok() {
      && globalBb < |code| && syscallBb < |code| && globalBb != syscallBb && main < |functions|
      && (forall s :: s in Segments(functions) ==> s.bb < |code| && s.bb != globalBb && s.bb != syscallBb)
      && (forall i, j :: 0 <= i < j < |Segments(functions)| ==> Segments(functions)[i].bb != Segments(functions)[j].bb)
      && (forall f :: f in functions ==> f.bbs != [])
    }

    function BlockCode(bb: nat): seq<Ir> {
      if bb < |code| then code[bb] else []
    }

    function Segments(fs: seq<Function>): (r: seq<Segment>)
    {
      if fs == [] then [] else Segments(fs[..|fs| - 1]) + FuncSegments(fs[|fs| - 1])
    }

    /** The blocks of a function; the entry starts with the frame set-up and returns learn the
        frame to take down. */
    function FuncSegments(f: Function): (r: seq<Segment>)
      ensures |r| == |f.bbs|
    {
      seq(|f.bbs|, k requires 0 <= k < |f.bbs| => BlockSegment(f, k))
    }

    function BlockSegment(f: Function, k: nat): Segment
      requires k < |f.bbs|
    {
      var irs := Returning(BlockCode(f.bbs[k]), f.frame);
      Segment(f.bbs[k], if k == 0 then [Define(f.frame)] + irs else irs)
    }
  }

  /** The flattened instructions of one block. */
  datatype Segment = Segment(bb: nat, irs: seq<Ir>)

  function Returning(irs: seq<Ir>, frame: int): (r: seq<Ir>)
    ensures |r| == |irs| && forall k :: 0 <= k < |irs| ==> r[k] == PatchReturn(irs[k], frame)
  {
    if irs == [] then [] else Returning(irs[..|irs| - 1], frame) + [PatchReturn(irs[|irs| - 1], frame)]
  }

  function PatchReturn(i: Ir, frame: int): Ir
  {
    if i.Return? then i.(frame := frame) else i
  }

  function FlatSize(irs: seq<Ir>, hard: bool): nat
  {
    if irs == [] then 0 else FlatSize(irs[..|irs| - 1], hard) + Size(irs[|irs| - 1], hard)
  }

  function SegSize(segs: seq<Segment>, hard: bool): nat
  {
    if segs == [] then 0 else SegSize(segs[..|segs| - 1], hard) + FlatSize(segs[|segs| - 1].irs, hard)
  }

  function Flatten(segs: seq<Segment>): seq<Ir>
  {
    if segs == [] then [] else Flatten(segs[..|segs| - 1]) + segs[|segs| - 1].irs
  }

  const SYSCALL_OFFSET := 24
  const GLOBAL_OFFSET := 60
  const MAIN_CALL_SIZE := 24

  /** Where the first function starts. */
  function Base(p: Program, hard: bool): nat
  {
    GLOBAL_OFFSET + FlatSize(p.BlockCode(p.globalBb), hard) + MAIN_CALL_SIZE
  }

  /** The offset `cfg_flatten` gives to the block of segment `k`. */
  function SegOffset(p: Program, hard: bool, k: nat): nat
    requires k <= |p.Segments(p.functions)|
  {
    Base(p, hard) + SegSize(p.Segments(p.functions)[..k], hard)
  }

  function Prologue(p: Program, m: Map): seq<Rv>
  {
    [Li(S0, SP, 0)] + Wide(T0, p.globalFrame) + [R(Sub, SP, SP, T0), Li(GP, SP, 0), Jal(RA, m.Offset(p.globalBb) - 20)]
  }

  const A1: nat := 11
  const A7: nat := 17

  /** The body of `__syscall` */
  function Trampoline(): seq<Rv>
  {
    [ Li(A7, A0, 0), Li(A0, A1, 0), Li(A1, 12, 0), Li(12, 13, 0), Li(13, 14, 0), Li(14, 15, 0), Li(15, 16, 0),
      Ecall, I(Jalr, ZERO, RA, 0) ]
  }

  function MainCall(p: Program, m: Map, size: int): seq<Rv>
  {
    [ Li(T0, S0, 0), I(Lw, A0, T0, 0), Li(A1, T0, 4), Jal(RA, m.FuncOffset(p.main) - (size + 12)),
      Li(A7, ZERO, 93), Ecall ]
  }

  /** Words appended one by one; `None` where an encoder stops. */
  function EmitWords(code: seq<nat>, insns: seq<Rv>): Option<seq<nat>>
  {
    if insns == [] then Some(code)
    else
      var r := EmitWords(code, insns[..|insns| - 1]);
      var w := Encode(insns[|insns| - 1]);
      if r.Some? && w.Some? then Some(r.value + [w.value]) else None
  }

  /** `emit_ph2_ir` for each instruction in turn. */
  function EmitAll(irs: seq<Ir>, m: Map, hard: bool, code: seq<nat>): Option<seq<nat>>
  {
    if irs == [] then Some(code)
    else
      var r := EmitAll(irs[..|irs| - 1], m, hard, code);
      if r == None then None
      else
        var insns := Emit(irs[|irs| - 1], m, hard, 4 * |r.value|);
        if insns == None then None else EmitWords(r.value, insns.value)
  }

  /** `code_generate` */
  function Generate(p: Program, m: Map, hard: bool): Option<seq<nat>>
  {
    var start := EmitWords([], Prologue(p, m) + Trampoline());
    if start == None then None
    else
      var init := EmitAll(p.BlockCode(p.globalBb), m, hard, start.value);
      if init == None then None
      else
        var call := EmitWords(init.value, MainCall(p, m, 4 * |init.value|));
        if call == None then None
        else EmitAll(Flatten(p.Segments(p.functions)), m, hard, call.value)
  }

  // ---- agreement -------------------------------------------------------------------------------

  /** The words of `insns` stand at byte `at` of `code`. */
  ghost predicate WordsAt(code: seq<nat>, at: nat, insns: seq<Rv>)
  {
    at % 4 == 0 && at / 4 + |insns| <= |code|
    && forall i :: 0 <= i < |insns| ==> Encode(insns[i]) == Some(code[at / 4 + i])
  }

  /** Instruction `i` stands at byte `at`, emitted for that place. */
  ghost predicate IrAt(code: seq<nat>, m: Map, hard: bool, at: nat, i: Ir)
  {
    Emit(i, m, hard, at).Some? && WordsAt(code, at, Emit(i, m, hard, at).value)
  }

  lemma {:induction false} EmitWordsAppends(code: seq<nat>, insns: seq<Rv>)
    requires EmitWords(code, insns).Some?
    ensures var w := EmitWords(code, insns).value;
            |w| == |code| + |insns| && code <= w && WordsAt(w, 4 * |code|, insns)
  {
    if insns != [] {
      EmitWordsAppends(code, insns[..|insns| - 1]);
    }
  }

  lemma WordsStay(code: seq<nat>, more: seq<nat>, at: nat, insns: seq<Rv>)
    requires WordsAt(code, at, insns) && code <= more
    ensures WordsAt(more, at, insns)
  {
  }

  lemma IrStays(code: seq<nat>, more: seq<nat>, m: Map, hard: bool, at: nat, i: Ir)
    requires IrAt(code, m, hard, at, i) && code <= more
    ensures IrAt(more, m, hard, at, i)
  {
    hide Emit, Encode;
    WordsStay(code, more, at, Emit(i, m, hard, at).value);
  }

  lemma EmitOne(code: seq<nat>, m: Map, hard: bool, i: Ir) returns (w: seq<nat>)
    requires Emit(i, m, hard, 4 * |code|).Some? && EmitWords(code, Emit(i, m, hard, 4 * |code|).value).Some?
    ensures EmitWords(code, Emit(i, m, hard, 4 * |code|).value) == Some(w)
    ensures code <= w && 4 * |w| == 4 * |code| + Size(i, hard) && IrAt(w, m, hard, 4 * |code|, i)
  {
    hide Emit, Encode, Size;
    var insns := Emit(i, m, hard, 4 * |code|).value;
    EmitWordsAppends(code, insns);
    SizeAgrees(i, m, hard, 4 * |code|);
    w := EmitWords(code, insns).value;
  }

  ghost predicate AllPlaced(code: seq<nat>, m: Map, hard: bool, base: nat, irs: seq<Ir>)
  {
    forall j :: 0 <= j < |irs| ==> IrAt(code, m, hard, base + FlatSize(irs[..j], hard), irs[j])
  }

  lemma PlacesNext(irs: seq<Ir>, m: Map, hard: bool, base: nat, r: seq<nat>, w: seq<nat>)
    requires irs != [] && AllPlaced(r, m, hard, base, irs[..|irs| - 1]) && r <= w
    requires IrAt(w, m, hard, base + FlatSize(irs[..|irs| - 1], hard), irs[|irs| - 1])
    ensures AllPlaced(w, m, hard, base, irs)
  {
    hide IrAt, FlatSize;
    var init := irs[..|irs| - 1];
    forall j | 0 <= j < |irs| ensures IrAt(w, m, hard, base + FlatSize(irs[..j], hard), irs[j]) {
      if j < |init| {
        assert init[..j] == irs[..j] && init[j] == irs[j];
        IrStays(r, w, m, hard, base + FlatSize(irs[..j], hard), irs[j]);
      } else {
        assert irs[..j] == init;
      }
    }
  }

  lemma {:induction false} EmitAllPlaces(irs: seq<Ir>, m: Map, hard: bool, code: seq<nat>)
    requires EmitAll(irs, m, hard, code).Some?
    ensures var w := EmitAll(irs, m, hard, code).value;
            4 * |w| == 4 * |code| + FlatSize(irs, hard) && code <= w && AllPlaced(w, m, hard, 4 * |code|, irs)
  {
    hide Emit, EmitWords, Size, IrAt;
    if irs != [] {
      hide AllPlaced;
      var init, last := irs[..|irs| - 1], irs[|irs| - 1];
      EmitAllPlaces(init, m, hard, code);
      var r := EmitAll(init, m, hard, code).value;
      var w := EmitOne(r, m, hard, last);
      PlacesNext(irs, m, hard, 4 * |code|, r, w);
    }
  }

  lemma {:induction false} FlatSizeAppend(a: seq<Ir>, b: seq<Ir>, hard: bool)
    ensures FlatSize(a + b, hard) == FlatSize(a, hard) + FlatSize(b, hard)
  {
    if b == [] {
      assert a + b == a;
    } else {
      FlatSizeAppend(a, b[..|b| - 1], hard);
      assert (a + b)[..|a + b| - 1] == a + b[..|b| - 1];
    }
  }

  /** Where instruction `j` of segment `k` comes in the flattened list. */
  lemma {:induction false} FlatPosition(segs: seq<Segment>, hard: bool, k: nat, j: nat) returns (at: nat)
    requires k < |segs| && j <= |segs[k].irs|
    ensures at + |segs[k].irs| - j <= |Flatten(segs)|
    ensures FlatSize(Flatten(segs)[..at], hard) == SegSize(segs[..k], hard) + FlatSize(segs[k].irs[..j], hard)
    ensures j < |segs[k].irs| ==> Flatten(segs)[at] == segs[k].irs[j]
  {
    var init, last := segs[..|segs| - 1], segs[|segs| - 1];
    var flat := Flatten(segs);
    assert flat == Flatten(init) + last.irs;
    if k < |init| {
      at := FlatPosition(init, hard, k, j);
      assert init[..k] == segs[..k] && flat[..at] == Flatten(init)[..at];
    } else {
      at := |Flatten(init)| + j;
      assert flat[..at] == Flatten(init) + last.irs[..j];
      FlatSizeAppend(Flatten(init), last.irs[..j], hard);
      FlatSizeIs(init, hard);
      assert segs[..k] == init;
    }
  }

  lemma {:induction false} FlatSizeIs(segs: seq<Segment>, hard: bool)
    ensures FlatSize(Flatten(segs), hard) == SegSize(segs, hard)
  {
    if segs != [] {
      FlatSizeIs(segs[..|segs| - 1], hard);
      FlatSizeAppend(Flatten(segs[..|segs| - 1]), segs[|segs| - 1].irs, hard);
    }
  }

  /** The offsets `cfg_flatten` has fixed. */
  ghost predicate Laid(p: Program, m: Map, hard: bool)
  {
    && p.globalBb < |m.bbOffset| && m.bbOffset[p.globalBb] == GLOBAL_OFFSET
    && p.syscallBb < |m.bbOffset| && m.bbOffset[p.syscallBb] == SYSCALL_OFFSET
    && forall k: nat :: k < |p.Segments(p.functions)| ==>
         && p.Segments(p.functions)[k].bb < |m.bbOffset|
         && m.bbOffset[p.Segments(p.functions)[k].bb] == SegOffset(p, hard, k)
  }

  /** Two-pass layout agrees: every instruction of every block stands exactly where the first
      pass put it, so the code of each block starts at its `elf_offset`. */
  lemma LayoutAgrees(p: Program, m: Map, hard: bool, k: nat, j: nat)
    requires Laid(p, m, hard) && Generate(p, m, hard).Some?
    requires k < |p.Segments(p.functions)| && j < |p.Segments(p.functions)[k].irs|
    ensures var seg := p.Segments(p.functions)[k];
            IrAt(Generate(p, m, hard).value, m, hard, m.Offset(seg.bb) + FlatSize(seg.irs[..j], hard), seg.irs[j])
  {
    hide Emit, Encode, IrAt, Generate, FlatSize, SegSize, Flatten, EmitAll, EmitWords;
    var segs := p.Segments(p.functions);
    var start, init, call := Pieces(p, m, hard);
    EmitAllPlaces(Flatten(segs), m, hard, call);
    var at := FlatPosition(segs, hard, k, j);
    assert m.bbOffset[segs[k].bb] == SegOffset(p, hard, k);
  }

  /** The words before the functions: 24 bytes of prologue, 36 of trampoline, the global
      initialisation and 24 that call `main`. */
  lemma Pieces(p: Program, m: Map, hard: bool) returns (start: seq<nat>, init: seq<nat>, call: seq<nat>)
    requires Generate(p, m, hard).Some?
    ensures EmitWords([], Prologue(p, m) + Trampoline()) == Some(start) && 4 * |start| == GLOBAL_OFFSET
    ensures EmitAll(p.BlockCode(p.globalBb), m, hard, start) == Some(init)
    ensures EmitWords(init, MainCall(p, m, 4 * |init|)) == Some(call) && 4 * |call| == Base(p, hard)
    ensures Generate(p, m, hard) == EmitAll(Flatten(p.Segments(p.functions)), m, hard, call)
  {
    hide Emit, Encode, IrAt;
    start := EmitWords([], Prologue(p, m) + Trampoline()).value;
    EmitWordsAppends([], Prologue(p, m) + Trampoline());
    init := EmitAll(p.BlockCode(p.globalBb), m, hard, start).value;
    EmitAllPlaces(p.BlockCode(p.globalBb), m, hard, start);
    call := EmitWords(init, MainCall(p, m, 4 * |init|)).value;
    EmitWordsAppends(init, MainCall(p, m, 4 * |init|));
  }

  // ---- control transfers land ------------------------------------------------------------------

  function CanonicalSeq(insns: seq<Rv>): (r: seq<Rv>)
    ensures |r| == |insns| && forall k :: 0 <= k < |insns| ==> r[k] == Canonical(insns[k])
  {
    seq(|insns|, k requires 0 <= k < |insns| => Canonical(insns[k]))
  }

  /** Words in place are fetched as the instructions they encode. */
  lemma WordsHold(code: seq<nat>, start: int, at: nat, insns: seq<Rv>)
    requires WordsAt(code, at, insns) && forall k :: 0 <= k < |insns| ==> Encodable(insns[k])
    ensures Holds(code, start, start + at, CanonicalSeq(insns))
  {
    hide Encode, Decode, Encodable;
    var s := CanonicalSeq(insns);
    forall k | 0 <= k < |s| ensures Fetch(code, start, start + at + 4 * k) == Some(s[k]) {
      RoundTrip(insns[k]);
      assert (at + 4 * k) % 4 == 0 && (at + 4 * k) / 4 == at / 4 + k;
    }
  }

  lemma {:induction false} FlatSizeFour(irs: seq<Ir>, hard: bool)
    ensures FlatSize(irs, hard) % 4 == 0
  {
    if irs != [] {
      FlatSizeFour(irs[..|irs| - 1], hard);
    }
  }

  lemma {:induction false} SegSizeFour(segs: seq<Segment>, hard: bool, k: nat)
    requires k <= |segs|
    ensures SegSize(segs[..k], hard) % 4 == 0 && SegSize(segs[..k], hard) <= SegSize(segs, hard)
    decreases |segs|
  {
    if k < |segs| {
      SegSizeFour(segs[..|segs| - 1], hard, k);
      assert segs[..|segs| - 1][..k] == segs[..k];
    } else {
      assert segs[..k] == segs;
      if segs != [] {
        SegSizeFour(segs[..|segs| - 1], hard, |segs| - 1);
        assert segs[..|segs| - 1][..|segs| - 1] == segs[..|segs| - 1];
        FlatSizeFour(segs[|segs| - 1].irs, hard);
      }
    }
  }

  lemma SumFour(a: nat, b: nat)
    requires a % 4 == 0 && b % 4 == 0
    ensures (GLOBAL_OFFSET + a + MAIN_CALL_SIZE + b) % 4 == 0
  {
    Quotient(GLOBAL_OFFSET + a + MAIN_CALL_SIZE + b, 4, 21 + a / 4 + b / 4, 0);
  }

  const MAX_JUMP := 0x10_0000 // a jump reaches 1 MiB either way

  /** Block `bb` has a place in the program: in a function, as the trampoline of `__syscall`, or as
      the global initialisation. */
  ghost predicate Placed(p: Program, bb: nat)
  {
    bb == p.syscallBb || bb == p.globalBb
    || exists k: nat :: k < |p.Segments(p.functions)| && p.Segments(p.functions)[k].bb == bb
  }

  /** The generated words reach past the functions. */
  lemma CodeSize(p: Program, m: Map, hard: bool)
    requires Generate(p, m, hard).Some?
    ensures 4 * |Generate(p, m, hard).value| == Base(p, hard) + SegSize(p.Segments(p.functions), hard)
  {
    hide Emit, Encode, IrAt, Generate, FlatSize, SegSize, Flatten, EmitAll, EmitWords, AllPlaced, MainCall, Prologue;
    hide Trampoline, Base;
    var segs := p.Segments(p.functions);
    var start, init, call := Pieces(p, m, hard);
    EmitAllPlaces(Flatten(segs), m, hard, call);
    FlatSizeIs(segs, hard);
  }

  lemma SegmentOffset(p: Program, hard: bool, k: nat)
    requires k < |p.Segments(p.functions)|
    ensures 0 <= SegOffset(p, hard, k) <= Base(p, hard) + SegSize(p.Segments(p.functions), hard)
    ensures SegOffset(p, hard, k) % 4 == 0
  {
    hide FlatSize, SegSize, p.Segments;
    var segs := p.Segments(p.functions);
    SegSizeFour(segs, hard, k);
    FlatSizeFour(p.BlockCode(p.globalBb), hard);
    SumFour(FlatSize(p.BlockCode(p.globalBb), hard), SegSize(segs[..k], hard));
  }

  /** The offset of a block is a word boundary inside the code. */
  lemma OffsetInside(p: Program, m: Map, hard: bool, bb: nat)
    requires Laid(p, m, hard) && Generate(p, m, hard).Some? && Placed(p, bb)
    ensures 0 <= m.Offset(bb) <= 4 * |Generate(p, m, hard).value| && m.Offset(bb) % 4 == 0
  {
    hide Generate, FlatSize, SegSize, SegOffset, p.Segments;
    CodeSize(p, m, hard);
    if bb != p.syscallBb && bb != p.globalBb {
      var k: nat :| k < |p.Segments(p.functions)| && p.Segments(p.functions)[k].bb == bb;
      SegmentOffset(p, hard, k);
    }
  }

  /** Addresses fit: the code is shorter than a jump reaches and ends below 2^32. */
  ghost predicate Fits(code: seq<nat>, m: Map)
  {
    4 * |code| < MAX_JUMP && m.codeStart >= 0 && m.codeStart % 2 == 0 && m.codeStart + 4 * |code| < WORD
  }

  ghost predicate Target(code: seq<nat>, ofs: int)
  {
    0 <= ofs <= 4 * |code| && ofs % 4 == 0
  }

  /** Distances between word boundaries of short code can be encoded in a jump. */
  lemma DistanceFits(code: seq<nat>, m: Map, ofs: int, at: int)
    requires Fits(code, m) && Target(code, ofs) && Target(code, at)
    ensures (ofs - at) % 2 == 0 && -1048576 <= ofs - at < 1048576
  {
    Quotient(ofs - at, 2, ofs / 4 * 2 - at / 4 * 2, 0);
  }

  lemma OneInsn(code: seq<nat>, m: Map, hard: bool, at: nat, i: Ir, insn: Rv)
    requires IrAt(code, m, hard, at, i) && Emit(i, m, hard, at) == Some([insn]) && Encodable(insn)
    ensures Holds(code, m.codeStart, m.codeStart + at, [Canonical(insn)])
  {
    hide Emit, Encode, Holds;
    WordsHold(code, m.codeStart, at, [insn]);
    assert CanonicalSeq([insn]) == [Canonical(insn)];
  }

  lemma JalStep(code: seq<nat>, start: int, rd: nat, imm: int, c: Cpu)
    requires Holds(code, start, c.pc, [Jal(rd, imm)]) && rd < 32 && c.Ok()
    ensures Leads(code, start, c, c.Put(rd, Word(c.pc + 4)).(pc := c.pc + imm))
  {
    hide Leads, Holds, Word;
    LeadsSelf(code, start, c);
    StepInside(code, start, c.pc, [Jal(rd, imm)], 0, c, c, c.Put(rd, Word(c.pc + 4)).(pc := c.pc + imm));
  }

  /** A jump goes where its target block was laid out. */
  lemma JumpStep(code: seq<nat>, m: Map, hard: bool, at: nat, bb: nat, c: Cpu)
    requires IrAt(code, m, hard, at, Jump(bb)) && Fits(code, m) && c.Ok() && c.pc == m.codeStart + at
    requires at % 4 == 0 && at < 4 * |code| && Target(code, m.Offset(bb))
    ensures Leads(code, m.codeStart, c, c.(pc := m.codeStart + m.Offset(bb)))
  {
    hide IrAt, Holds, Leads, Encode, Word, Fits, Target;
    var imm := m.Offset(bb) - at;
    DistanceFits(code, m, imm + at, at);
    OneInsn(code, m, hard, at, Jump(bb), Jal(ZERO, imm));
    JalStep(code, m.codeStart, ZERO, imm, c);
  }

  /** A call goes to the entry of the function and leaves the return address in ra. */
  lemma CallStep(code: seq<nat>, m: Map, hard: bool, at: nat, f: nat, c: Cpu)
    requires IrAt(code, m, hard, at, Call(f)) && Fits(code, m) && c.Ok() && c.pc == m.codeStart + at
    requires at % 4 == 0 && at < 4 * |code| && Target(code, m.FuncOffset(f))
    ensures Leads(code, m.codeStart, c, c.Put(RA, Word(c.pc + 4)).(pc := m.codeStart + m.FuncOffset(f)))
  {
    hide IrAt, Holds, Leads, Encode, Word, Fits, Target;
    var imm := m.FuncOffset(f) - at;
    DistanceFits(code, m, imm + at, at);
    OneInsn(code, m, hard, at, Call(f), Jal(RA, imm));
    JalStep(code, m.codeStart, RA, imm, c);
  }

  /** `lui` and `addi` put a 32-bit value into a register. */
  lemma WideStep(code: seq<nat>, start: int, at: int, insns: seq<Rv>, k: nat, rd: nat, value: int, c0: Cpu, c: Cpu)
    returns (d: Cpu)
    requires Holds(code, start, at, CanonicalSeq(insns)) && k + 1 < |insns| && insns[k..k + 2] == Wide(rd, value)
    requires c.Ok() && c.pc == at + 4 * k && Leads(code, start, c0, c) && 0 < rd < 32
    ensures Leads(code, start, c0, d) && d.Ok() && d == c.Put(rd, Word(value)).(pc := at + 4 * (k + 2))
  {
    hide Leads, Holds, RvHi, RvLo, Upper, Word;
    HiLo(value);
    var s := CanonicalSeq(insns);
    assert s[k] == Canonical(insns[k..k + 2][0]) && s[k + 1] == Canonical(insns[k..k + 2][1]);
    var c1 := c.Put(rd, Word(Upper(RvHi(value)))).Next();
    StepInside(code, start, at, s, k, c0, c, c1);
    d := c1.Put(rd, Word(Word(Upper(RvHi(value))) + RvLo(value))).Next();
    StepInside(code, start, at, s, k + 1, c0, c1, d);
    WordCongruent(Upper(RvHi(value)), 0, 0);
    WordSum(Upper(RvHi(value)), RvLo(value));
  }

  /** The five instructions of a branch, as they are fetched. */
  lemma BranchInsns(code: seq<nat>, m: Map, hard: bool, at: nat, i: Ir) returns (insns: seq<Rv>)
    requires IrAt(code, m, hard, at, i) && i.Branch? && i.src0 < 8 && Fits(code, m)
    requires at % 4 == 0 && at + 20 <= 4 * |code| && Target(code, m.Offset(i.elseBb))
    ensures |insns| == 5 && insns[0..2] == Wide(T0, m.codeStart + m.Offset(i.thenBb))
    ensures Holds(code, m.codeStart, m.codeStart + at, CanonicalSeq(insns))
    ensures CanonicalSeq(insns)[2] == B(Beq, Reg(i.src0), ZERO, 8) && CanonicalSeq(insns)[3] == I(Jalr, ZERO, T0, 0)
    ensures CanonicalSeq(insns)[4] == Jal(ZERO, m.Offset(i.elseBb) - (at + 16))
  {
    hide Holds, Encode, RvHi, RvLo, Fits;
    var value := m.codeStart + m.Offset(i.thenBb);
    insns := Wide(T0, value) + [B(Beq, Reg(i.src0), ZERO, 8), I(Jalr, ZERO, T0, 0),
        Jal(ZERO, m.Offset(i.elseBb) - (at + 16))];
    HiLo(value);
    DistanceFits(code, m, m.Offset(i.elseBb), at + 16);
    forall k | 0 <= k < 5 ensures Encodable(insns[k]) {
    }
    WordsHold(code, m.codeStart, at, insns);
  }

  lemma AddressFits(code: seq<nat>, m: Map, ofs: int)
    requires Fits(code, m) && Target(code, ofs)
    ensures Word(m.codeStart + ofs) == m.codeStart + ofs && (m.codeStart + ofs) / 2 * 2 == m.codeStart + ofs
  {
    Quotient(m.codeStart + ofs, 2, m.codeStart / 2 + ofs / 4 * 2, 0);
  }

  /** A branch goes to its `then` block when the register is not zero, else to its `else` block. */
  lemma BranchSteps(code: seq<nat>, m: Map, hard: bool, at: nat, i: Ir, c: Cpu) returns (d: Cpu)
    requires IrAt(code, m, hard, at, i) && i.Branch? && i.src0 < 8 && Fits(code, m) && c.Ok()
    requires c.pc == m.codeStart + at
    requires at % 4 == 0 && at + 20 <= 4 * |code| && Target(code, m.Offset(i.thenBb))
    requires Target(code, m.Offset(i.elseBb))
    ensures Leads(code, m.codeStart, c, d)
    ensures d == c.Put(T0, Word(m.codeStart + m.Offset(i.thenBb)))
                  .(pc := m.codeStart + m.Offset(if c.x[Reg(i.src0)] != 0 then i.thenBb else i.elseBb))
  {
    hide Leads, Holds, Word, IrAt, Wide, Emit, Fits, Target, Alu;
    var start, r := m.codeStart, Reg(i.src0);
    var then_ := start + m.Offset(i.thenBb);
    var insns := BranchInsns(code, m, hard, at, i);
    var s := CanonicalSeq(insns);
    LeadsSelf(code, start, c);
    var c1 := WideStep(code, start, c.pc, insns, 0, T0, then_, c, c);
    AddressFits(code, m, m.Offset(i.thenBb));
    if c.x[r] == 0 {
      var c2 := c1.(pc := c1.pc + 8);
      StepInside(code, start, c.pc, s, 2, c, c1, c2);
      d := c2.(pc := start + m.Offset(i.elseBb));
      StepInside(code, start, c.pc, s, 4, c, c2, d);
    } else {
      StepInside(code, start, c.pc, s, 2, c, c1, c1.Next());
      d := c1.(pc := then_);
      StepInside(code, start, c.pc, s, 3, c, c1.Next(), d);
    }
  }

  /** The instruction `j` of segment `k`, ready for the steps above. */
  lemma StandsAt(p: Program, m: Map, hard: bool, k: nat, j: nat) returns (at: nat)
    requires Laid(p, m, hard) && Generate(p, m, hard).Some?
    requires k < |p.Segments(p.functions)| && j < |p.Segments(p.functions)[k].irs|
    ensures var seg, code := p.Segments(p.functions)[k], Generate(p, m, hard).value;
            && at == m.Offset(seg.bb) + FlatSize(seg.irs[..j], hard) && at % 4 == 0
            && IrAt(code, m, hard, at, seg.irs[j]) && at + Size(seg.irs[j], hard) <= 4 * |code|
  {
    hide Emit, Encode, Generate, FlatSize, SegSize, Flatten, EmitAll, EmitWords, Size;
    var seg, code := p.Segments(p.functions)[k], Generate(p, m, hard).value;
    assert Placed(p, seg.bb);
    OffsetInside(p, m, hard, seg.bb);
    FlatSizeFour(seg.irs[..j], hard);
    at := m.Offset(seg.bb) + FlatSize(seg.irs[..j], hard);
    Quotient(at, 4, m.Offset(seg.bb) / 4 + FlatSize(seg.irs[..j], hard) / 4, 0);
    LayoutAgrees(p, m, hard, k, j);
    SizeAgrees(seg.irs[j], m, hard, at);
  }

  /** The address a control transfer is meant for. */
  function Arrival(m: Map, i: Ir, c: Cpu): int
  {
    match i
    case Jump(bb) => m.codeStart + m.Offset(bb)
    case Call(f) => m.codeStart + m.FuncOffset(f)
    case Branch(src0, thenBb, elseBb) => m.codeStart + m.Offset(if c.Get(Reg(src0)) != 0 then thenBb else elseBb)
    case _ => c.pc + 4
  }

  /** Wherever a transfer was emitted, running the words from there arrives at its target. */
  lemma TransferLands(p: Program, m: Map, hard: bool, at: nat, i: Ir, c: Cpu) returns (d: Cpu)
    requires Laid(p, m, hard) && Generate(p, m, hard).Some? && Fits(Generate(p, m, hard).value, m)
    requires IrAt(Generate(p, m, hard).value, m, hard, at, i) && TargetsPlaced(p, m, i)
    requires at % 4 == 0 && at + Size(i, hard) <= 4 * |Generate(p, m, hard).value|
    requires c.Ok() && c.pc == m.codeStart + at
    ensures Leads(Generate(p, m, hard).value, m.codeStart, c, d)
    ensures d.pc == Arrival(m, i, c) && (i.Call? ==> d.Get(RA) == Word(c.pc + 4))
    ensures d.mem == c.mem && forall r: nat :: r < 32 && r != RA && r != T0 ==> d.Get(r) == c.Get(r)
  {
    hide Emit, Encode, Generate, IrAt, Leads, Laid, Fits, Word, Placed;
    var code := Generate(p, m, hard).value;
    match i {
      case Jump(bb) =>
        OffsetInside(p, m, hard, bb);
        JumpStep(code, m, hard, at, bb, c);
        d := c.(pc := m.codeStart + m.Offset(bb));
      case Call(f) =>
        OffsetInside(p, m, hard, m.entry[f]);
        CallStep(code, m, hard, at, f, c);
        d := c.Put(RA, Word(c.pc + 4)).(pc := m.codeStart + m.FuncOffset(f));
      case Branch(src0, thenBb, elseBb) =>
        OffsetInside(p, m, hard, thenBb);
        OffsetInside(p, m, hard, elseBb);
        d := BranchSteps(code, m, hard, at, i, c);
    }
  }

  /** The main result for jumps, calls and branches of functions: from wherever one stands, control
      arrives at the address of the target block, `__syscall` included. */
  lemma TransfersLand(p: Program, m: Map, hard: bool, k: nat, j: nat, c: Cpu) returns (d: Cpu)
    requires Laid(p, m, hard) && Generate(p, m, hard).Some? && Fits(Generate(p, m, hard).value, m) && c.Ok()
    requires k < |p.Segments(p.functions)| && j < |p.Segments(p.functions)[k].irs|
    requires var seg := p.Segments(p.functions)[k];
             c.pc == m.codeStart + m.Offset(seg.bb) + FlatSize(seg.irs[..j], hard) && TargetsPlaced(p, m, seg.irs[j])
    ensures var i := p.Segments(p.functions)[k].irs[j];
            && Leads(Generate(p, m, hard).value, m.codeStart, c, d)
            && d.pc == Arrival(m, i, c) && (i.Call? ==> d.Get(RA) == Word(c.pc + 4))
            && d.mem == c.mem && forall r: nat :: r < 32 && r != RA && r != T0 ==> d.Get(r) == c.Get(r)
  {
    hide *;
    var at := StandsAt(p, m, hard, k, j);
    d := TransferLands(p, m, hard, at, p.Segments(p.functions)[k].irs[j], c);
  }

  /** The same for the code of the global initialisation. */
  lemma GlobalTransfersLand(p: Program, m: Map, hard: bool, j: nat, c: Cpu) returns (d: Cpu)
    requires Laid(p, m, hard) && Generate(p, m, hard).Some? && Fits(Generate(p, m, hard).value, m) && c.Ok()
    requires j < |p.BlockCode(p.globalBb)| && TargetsPlaced(p, m, p.BlockCode(p.globalBb)[j])
    requires c.pc == m.codeStart + m.Offset(p.globalBb) + FlatSize(p.BlockCode(p.globalBb)[..j], hard)
    ensures var i := p.BlockCode(p.globalBb)[j];
            && Leads(Generate(p, m, hard).value, m.codeStart, c, d)
            && d.pc == Arrival(m, i, c) && (i.Call? ==> d.Get(RA) == Word(c.pc + 4))
            && d.mem == c.mem && forall r: nat :: r < 32 && r != RA && r != T0 ==> d.Get(r) == c.Get(r)
  {
    var at := GlobalStandsAt(p, m, hard, j);
    hide *;
    d := TransferLands(p, m, hard, at, p.BlockCode(p.globalBb)[j], c);
  }

  /** Two-pass layout agrees on the global initialisation too. */
  lemma GlobalStandsAt(p: Program, m: Map, hard: bool, j: nat) returns (at: nat)
    requires Laid(p, m, hard) && Generate(p, m, hard).Some? && j < |p.BlockCode(p.globalBb)|
    ensures var irs, code := p.BlockCode(p.globalBb), Generate(p, m, hard).value;
            && at == m.Offset(p.globalBb) + FlatSize(irs[..j], hard) && at % 4 == 0
            && IrAt(code, m, hard, at, irs[j]) && at + Size(irs[j], hard) <= 4 * |code|
  {
    hide Emit, Encode, IrAt, Generate, FlatSize, SegSize, Flatten, EmitAll, EmitWords, Size, MainCall, Prologue;
    hide Trampoline;
    var irs, code := p.BlockCode(p.globalBb), Generate(p, m, hard).value;
    var start, init, call := Pieces(p, m, hard);
    EmitAllPlaces(irs, m, hard, start);
    EmitWordsAppends(init, MainCall(p, m, 4 * |init|));
    EmitAllPlaces(Flatten(p.Segments(p.functions)), m, hard, call);
    at := GLOBAL_OFFSET + FlatSize(irs[..j], hard);
    FlatSizeFour(irs[..j], hard);
    Quotient(at, 4, 15 + FlatSize(irs[..j], hard) / 4, 0);
    IrStays(init, code, m, hard, at, irs[j]);
    IrEnds(code, m, hard, at, irs[j]);
  }

  lemma IrEnds(code: seq<nat>, m: Map, hard: bool, at: nat, i: Ir)
    requires IrAt(code, m, hard, at, i)
    ensures at + Size(i, hard) <= 4 * |code|
  {
    hide Emit, Size, Encode;
    SizeAgrees(i, m, hard, at);
  }

  /** A jump, call or branch whose targets are blocks of the program. */
  ghost predicate TargetsPlaced(p: Program, m: Map, i: Ir)
  {
    match i
    case Jump(bb) => Placed(p, bb)
    case Call(f) => f < |m.entry| && Placed(p, m.entry[f])
    case Branch(src0, thenBb, elseBb) => src0 < 8 && Placed(p, thenBb) && Placed(p, elseBb)
    case _ => false
  }

  /** The software sequences can be encoded, and are fetched as they are. */
  lemma SoftEncodable(op: MulOp, rd: nat, rs1: nat, rs2: nat)
    requires Arg(rd) && Arg(rs1) && Arg(rs2)
    ensures var s := EmitMulDiv(op, false, rd, rs1, rs2);
            (forall k :: 0 <= k < |s| ==> Encodable(s[k])) && CanonicalSeq(s) == s
  {
    var s := EmitMulDiv(op, false, rd, rs1, rs2);
    forall k | 0 <= k < |s| ensures Encodable(s[k]) && Canonical(s[k]) == s[k] {
    }
  }

  /** What the C operator means on words. */
  function Meaning(op: MulOp, a: nat, b: nat): nat
    requires a < WORD && b < WORD
  {
    match op case OpMul => Word(a * b) case OpDiv => SoftDiv(false, a, b) case OpMod => SoftDiv(true, a, b)
  }

  /** Wherever a multiplication, division or remainder was emitted in software, running the
      words from there computes it and goes on with the next instruction. */
  lemma SoftArithmeticRuns(code: seq<nat>, m: Map, at: nat, op: MulOp, dest: nat, src0: nat, src1: nat, c: Cpu)
    returns (d: Cpu)
    requires IrAt(code, m, false, at, MulDiv(op, dest, src0, src1)) && dest < 8 && src0 < 8 && src1 < 8
    requires c.Ok() && c.pc == m.codeStart + at
    ensures Leads(code, m.codeStart, c, d) && d.pc == c.pc + Size(MulDiv(op, dest, src0, src1), false)
    ensures d.Get(Reg(dest)) == Meaning(op, c.x[Reg(src0)], c.x[Reg(src1)]) && KeepsOthers(c, d, Reg(dest))
  {
    hide Encode, Leads, Holds, MulSeq, DivSeq, Encodable, SoftDiv;
    var s := EmitMulDiv(op, false, Reg(dest), Reg(src0), Reg(src1));
    SoftEncodable(op, Reg(dest), Reg(src0), Reg(src1));
    SizeAgrees(MulDiv(op, dest, src0, src1), m, false, at);
    WordsHold(code, m.codeStart, at, s);
    if op == OpMul {
      d := SoftMultiply(code, m.codeStart, Reg(dest), Reg(src0), Reg(src1), c);
    } else {
      d := SoftDivide(code, m.codeStart, op == OpMod, Reg(dest), Reg(src0), Reg(src1), c);
    }
  }
}
