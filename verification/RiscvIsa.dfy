/** RISC-V instruction words: the encoders of src/riscv.c, and decoding as sections 2.2 and 2.3
    of the RISC-V Unprivileged ISA lay the fields out. */
module RiscvIsa {
  import opened Options
  import opened Words

  datatype ROp = Add | Sub | Xor | Or | And | Sll | Srl | Sra | Slt | Sltu | Mul | Div | Mod
  datatype IOp = Addi | Xori | Ori | Andi | Slti | Sltiu | Jalr | Lb | Lh | Lw | Lbu | Lhu
  datatype ShiftOp = Slli | Srli | Srai
  datatype SOp = Sb | Sh | Sw
  datatype BOp = Beq | Bne | Blt | Bge | Bltu | Bgeu

  datatype Rv =
    | R(r: ROp, rd: nat, rs1: nat, rs2: nat)
    | I(i: IOp, rd: nat, rs1: nat, imm: int)
    | Shift(sh: ShiftOp, rd: nat, rs1: nat, imm: int)
    | S(s: SOp, rs1: nat, rs2: nat, imm: int)
    | B(b: BOp, rs1: nat, rs2: nat, imm: int)
    | Jal(rd: nat, imm: int)
    | Lui(rd: nat, imm: int)
    | Ecall

  // ---- src/riscv.c ---------------------------------------------------------------------------

  /** `rv_op` */
  function OpR(op: ROp): nat
  {
    match op
    case Add => 51
    case Sub => 1073741875
    case Xor => 16435
    case Or => 24627
    case And => 28723
    case Sll => 4147
    case Srl => 20531
    case Sra => 1073762355
    case Slt => 8243
    case Sltu => 12339
    case Mul => 33554483
    case Div => 33570867
    case Mod => 33579059
  }

  function OpI(op: IOp): nat
  {
    match op
    case Addi => 19
    case Xori => 16403
    case Ori => 24595
    case Andi => 28691
    case Slti => 8211
    case Sltiu => 12307
    case Jalr => 103
    case Lb => 3
    case Lh => 4099
    case Lw => 8195
    case Lbu => 16387
    case Lhu => 20483
  }

  function OpShift(op: ShiftOp): nat
  {
    match op case Slli => 4115 case Srli => 20499 case Srai => 1073762323
  }

  function OpS(op: SOp): nat
  {
    match op case Sb => 35 case Sh => 4131 case Sw => 8227
  }

  function OpB(op: BOp): nat
  {
    match op case Beq => 99 case Bne => 4195 case Blt => 16483 case Bge => 20579 case Bltu => 24675 case Bgeu => 28771
  }

  /** `rv_extract_bits`: bits `iStart..=iEnd` moved to `dStart..=dEnd` */
  function ExtractBits(imm: int, iStart: nat, iEnd: nat, dStart: nat, dEnd: nat): int
    requires dEnd - dStart == iEnd - iStart && iStart <= iEnd
  {
    (imm / Pow2(iStart)) % Pow2(iEnd - iStart + 1) * Pow2(dStart)
  }

  /** `rv_hi` and `rv_lo`; `val & (1 << 11)` is bit 11. */
  function RvHi(val: int): int
  {
    val + (val / 2048 % 2) * 4096
  }

  function RvLo(val: int): int
  {
    val % 4096 - (val / 2048 % 2) * 4096
  }

  function EncodeR(op: nat, rd: nat, rs1: nat, rs2: nat): nat
  {
    Word(op + rd * Pow2(7) + rs1 * Pow2(15) + rs2 * Pow2(20))
  }

  /** `None` where the source stops with "Offset too large". */
  function EncodeI(op: nat, rd: nat, rs1: nat, imm: int): Option<nat>
  {
    if imm > 2047 || imm < -2048 then None
    else
      var field := if imm < 0 then (imm + 4096) % Pow2(13) else imm;
      Some(Word(op + rd * Pow2(7) + rs1 * Pow2(15) + field * Pow2(20)))
  }

  function EncodeS(op: nat, rs1: nat, rs2: nat, imm: int): Option<nat>
  {
    if imm > 2047 || imm < -2048 then None
    else
      var field := if imm < 0 then (imm + 4096) % Pow2(13) else imm;
      Some(Word(op + rs1 * Pow2(15) + rs2 * Pow2(20) + ExtractBits(field, 0, 4, 7, 11)
                + ExtractBits(field, 5, 11, 25, 31)))
  }

  function EncodeB(op: nat, rs1: nat, rs2: nat, imm: int): Option<nat>
  {
    if imm > 4095 || imm < -4096 then None
    else
      var sign := if imm < 0 then 1 else 0;
      Some(Word(op + rs1 * Pow2(15) + rs2 * Pow2(20) + ExtractBits(imm, 11, 11, 7, 7) + ExtractBits(imm, 1, 4, 8, 11)
                + ExtractBits(imm, 5, 10, 25, 30) + sign * Pow2(31)))
  }

  function EncodeJ(op: nat, rd: nat, imm: int): nat
  {
    var sign := if imm < 0 then 1 else 0;
    var field := if imm < 0 then Pow2(21) - (-imm) else imm;
    Word(op + rd * Pow2(7) + ExtractBits(field, 1, 10, 21, 30) + ExtractBits(field, 11, 11, 20, 20)
         + ExtractBits(field, 12, 19, 12, 19) + sign * Pow2(31))
  }

  function EncodeU(op: nat, rd: nat, imm: int): nat
  {
    Word(op + rd * Pow2(7) + ExtractBits(imm, 12, 31, 12, 31))
  }

  /** The word of an instruction: `__add`, `__addi` and so on. */
  function Encode(i: Rv): Option<nat>
  {
    match i
    case R(op, rd, rs1, rs2) => Some(EncodeR(OpR(op), rd, rs1, rs2))
    case I(op, rd, rs1, imm) => EncodeI(OpI(op), rd, rs1, imm)
    case Shift(op, rd, rs1, imm) => EncodeI(OpShift(op), rd, rs1, imm)
    case S(op, rs1, rs2, imm) => EncodeS(OpS(op), rs1, rs2, imm)
    case B(op, rs1, rs2, imm) => EncodeB(OpB(op), rs1, rs2, imm)
    case Jal(rd, imm) => Some(EncodeJ(111, rd, imm))
    case Lui(rd, imm) => Some(EncodeU(55, rd, imm))
    case Ecall => EncodeI(115, 0, 0, 0)
  }

  // ---- the ISA -------------------------------------------------------------------------------

  /** Bits `lo..=hi` of a word. */
  function Bits(w: nat, lo: nat, hi: nat): nat
    requires lo <= hi
  {
    w / Pow2(lo) % Pow2(hi - lo + 1)
  }

  function SignExtend(x: nat, bits: nat): int
    requires bits > 0
  {
    if x >= Pow2(bits - 1) then x - Pow2(bits) else x
  }

  function ImmI(w: nat): int { SignExtend(Bits(w, 20, 31), 12) }

  function ImmS(w: nat): int { SignExtend(Bits(w, 25, 31) * 32 + Bits(w, 7, 11), 12) }

  function ImmB(w: nat): int {
    SignExtend(Bits(w, 31, 31) * 4096 + Bits(w, 7, 7) * 2048 + Bits(w, 25, 30) * 32 + Bits(w, 8, 11) * 2, 13)
  }

  function ImmU(w: nat): int { SignExtend(Bits(w, 12, 31) * 4096, 32) }

  function ImmJ(w: nat): int {
    SignExtend(Bits(w, 31, 31) * 1048576 + Bits(w, 12, 19) * 4096 + Bits(w, 20, 20) * 2048 + Bits(w, 21, 30) * 2, 21)
  }

  function DecodeR(funct3: nat, funct7: nat): Option<ROp>
  {
    if funct7 == 0 then
      match funct3
      case 0 => Some(Add)
      case 1 => Some(Sll)
      case 2 => Some(Slt)
      case 3 => Some(Sltu)
      case 4 => Some(Xor)
      case 5 => Some(Srl)
      case 6 => Some(Or)
      case 7 => Some(And)
      case _ => None
    else if funct7 == 32 then (if funct3 == 0 then Some(Sub) else if funct3 == 5 then Some(Sra) else None)
    else if funct7 == 1 then
      (if funct3 == 0 then Some(Mul) else if funct3 == 4 then Some(Div) else if funct3 == 6 then Some(Mod) else None)
    else None
  }

  function DecodeLoad(funct3: nat): Option<IOp>
  {
    match funct3
    case 0 => Some(Lb)
    case 1 => Some(Lh)
    case 2 => Some(Lw)
    case 4 => Some(Lbu)
    case 5 => Some(Lhu)
    case _ => None
  }

  function DecodeB(funct3: nat): Option<BOp>
  {
    match funct3
    case 0 => Some(Beq)
    case 1 => Some(Bne)
    case 4 => Some(Blt)
    case 5 => Some(Bge)
    case 6 => Some(Bltu)
    case 7 => Some(Bgeu)
    case _ => None
  }

  /** OP-IMM: register-immediate operations and shifts. */
  function DecodeImm(w: nat, rd: nat, funct3: nat, rs1: nat): Option<Rv>
  {
    match funct3
    case 0 => Some(I(Addi, rd, rs1, ImmI(w)))
    case 2 => Some(I(Slti, rd, rs1, ImmI(w)))
    case 3 => Some(I(Sltiu, rd, rs1, ImmI(w)))
    case 4 => Some(I(Xori, rd, rs1, ImmI(w)))
    case 6 => Some(I(Ori, rd, rs1, ImmI(w)))
    case 7 => Some(I(Andi, rd, rs1, ImmI(w)))
    case 1 => if Bits(w, 25, 31) == 0 then Some(Shift(Slli, rd, rs1, Bits(w, 20, 24))) else None
    case 5 =>
      if Bits(w, 25, 31) == 0 then Some(Shift(Srli, rd, rs1, Bits(w, 20, 24)))
      else if Bits(w, 25, 31) == 32 then Some(Shift(Srai, rd, rs1, Bits(w, 20, 24)))
      else None
    case _ => None
  }

  function Lift<T, U>(o: Option<T>, f: T -> U): Option<U>
  {
    match o case None => None case Some(t) => Some(f(t))
  }

  function Decode(w: nat): Option<Rv>
  {
    var rd, funct3, rs1, rs2 := Bits(w, 7, 11), Bits(w, 12, 14), Bits(w, 15, 19), Bits(w, 20, 24);
    match Bits(w, 0, 6)
    case 51 => Lift(DecodeR(funct3, Bits(w, 25, 31)), r => R(r, rd, rs1, rs2))
    case 19 => DecodeImm(w, rd, funct3, rs1)
    case 3 => Lift(DecodeLoad(funct3), i => I(i, rd, rs1, ImmI(w)))
    case 103 => if funct3 == 0 then Some(I(Jalr, rd, rs1, ImmI(w))) else None
    case 35 => if funct3 == 0 then Some(S(Sb, rs1, rs2, ImmS(w)))
      else if funct3 == 1 then Some(S(Sh, rs1, rs2, ImmS(w)))
               else if funct3 == 2 then Some(S(Sw, rs1, rs2, ImmS(w))) else None
    case 99 => Lift(DecodeB(funct3), b => B(b, rs1, rs2, ImmB(w)))
    case 111 => Some(Jal(rd, ImmJ(w)))
    case 55 => Some(Lui(rd, ImmU(w)))
    case 115 => if rd == 0 && funct3 == 0 && rs1 == 0 && ImmI(w) == 0 then Some(Ecall) else None
    case _ => None
  }

  // ---- round trips ---------------------------------------------------------------------------

  /** The six fields of an R-type word. */
  function Pack(op: nat, rd: nat, funct3: nat, rs1: nat, rs2: nat, funct7: nat): nat
  {
    op + rd * 128 + funct3 * 4096 + rs1 * 32768 + rs2 * 1048576 + funct7 * 33554432
  }

  ghost predicate InFields(op: nat, rd: nat, funct3: nat, rs1: nat, rs2: nat, funct7: nat)
  {
    op < 128 && rd < 32 && funct3 < 8 && rs1 < 32 && rs2 < 32 && funct7 < 128
  }

  lemma BitsAt(w: nat, lo: nat, hi: nat, below: nat, field: nat, above: nat)
    requires lo <= hi && below < Pow2(lo) && field < Pow2(hi - lo + 1)
    requires w == below + Pow2(lo) * (field + Pow2(hi - lo + 1) * above)
    ensures Bits(w, lo, hi) == field
  {
    Quotient(w, Pow2(lo), field + Pow2(hi - lo + 1) * above, below);
    Quotient(field + Pow2(hi - lo + 1) * above, Pow2(hi - lo + 1), above, field);
  }

  lemma PackFields(op: nat, rd: nat, funct3: nat, rs1: nat, rs2: nat, funct7: nat)
    requires InFields(op, rd, funct3, rs1, rs2, funct7)
    ensures var w := Pack(op, rd, funct3, rs1, rs2, funct7);
            && w < WORD && Bits(w, 0, 6) == op && Bits(w, 7, 11) == rd && Bits(w, 12, 14) == funct3
            && Bits(w, 15, 19) == rs1 && Bits(w, 20, 24) == rs2 && Bits(w, 25, 31) == funct7
  {
    hide Bits;
    Powers();
    var w := Pack(op, rd, funct3, rs1, rs2, funct7);
    var b1, b2 := op + rd * 128, op + rd * 128 + funct3 * 4096;
    var b3 := b2 + rs1 * 32768;
    BitsAt(w, 0, 6, 0, op, rd + funct3 * 32 + rs1 * 256 + rs2 * 8192 + funct7 * 262144);
    BitsAt(w, 7, 11, op, rd, funct3 + rs1 * 8 + rs2 * 256 + funct7 * 8192);
    BitsAt(w, 12, 14, b1, funct3, rs1 + rs2 * 32 + funct7 * 1024);
    BitsAt(w, 15, 19, b2, rs1, rs2 + funct7 * 32);
    BitsAt(w, 20, 24, b3, rs2, funct7);
    BitsAt(w, 25, 31, b3 + rs2 * 1048576, funct7, 0);
  }

  /** Other fields of the formats, from the six. */
  lemma WiderFields(op: nat, rd: nat, funct3: nat, rs1: nat, rs2: nat, funct7: nat)
    requires InFields(op, rd, funct3, rs1, rs2, funct7)
    ensures var w := Pack(op, rd, funct3, rs1, rs2, funct7);
            && Bits(w, 20, 31) == rs2 + funct7 * 32
            && Bits(w, 12, 31) == funct3 + rs1 * 8 + rs2 * 256 + funct7 * 8192
            && Bits(w, 12, 19) == funct3 + rs1 * 8 && Bits(w, 20, 20) == rs2 % 2 && Bits(w, 31, 31) == funct7 / 64
            && Bits(w, 21, 30) == rs2 / 2 + funct7 % 64 * 16
            && Bits(w, 7, 7) == rd % 2 && Bits(w, 8, 11) == rd / 2 && Bits(w, 25, 30) == funct7 % 64
  {
    hide Bits;
    Powers();
    var w := Pack(op, rd, funct3, rs1, rs2, funct7);
    var b1, b2 := op + rd * 128, op + rd * 128 + funct3 * 4096;
    var b3, b4 := b2 + rs1 * 32768, b2 + rs1 * 32768 + rs2 * 1048576;
    BitsAt(w, 20, 31, b3, rs2 + funct7 * 32, 0);
    BitsAt(w, 12, 31, b1, funct3 + rs1 * 8 + rs2 * 256 + funct7 * 8192, 0);
    BitsAt(w, 12, 19, b1, funct3 + rs1 * 8, rs2 + funct7 * 32);
    BitsAt(w, 20, 20, b3, rs2 % 2, rs2 / 2 + funct7 * 16);
    BitsAt(w, 31, 31, b4 + funct7 % 64 * 33554432, funct7 / 64, 0);
    BitsAt(w, 21, 30, b3 + rs2 % 2 * 1048576, rs2 / 2 + funct7 % 64 * 16, funct7 / 64);
    BitsAt(w, 7, 7, op, rd % 2, rd / 2 + funct3 * 16 + rs1 * 128 + rs2 * 4096 + funct7 * 131072);
    BitsAt(w, 8, 11, op + rd % 2 * 128, rd / 2, funct3 + rs1 * 8 + rs2 * 256 + funct7 * 8192);
    BitsAt(w, 25, 30, b4, funct7 % 64, funct7 / 64);
  }

  predicate Regs(rd: nat, rs1: nat, rs2: nat)
  {
    rd < 32 && rs1 < 32 && rs2 < 32
  }

  /** Operands the format can hold: immediates of branches and jumps are even and a shift
      amount has five bits; `lui` takes any operand. */
  predicate Encodable(i: Rv)
  {
    match i
    case R(_, rd, rs1, rs2) => Regs(rd, rs1, rs2)
    case I(_, rd, rs1, imm) => Regs(rd, rs1, 0) && -2048 <= imm <= 2047
    case Shift(_, rd, rs1, imm) => Regs(rd, rs1, 0) && 0 <= imm < 32
    case S(_, rs1, rs2, imm) => Regs(0, rs1, rs2) && -2048 <= imm <= 2047
    case B(_, rs1, rs2, imm) => Regs(0, rs1, rs2) && -4096 <= imm <= 4095 && imm % 2 == 0
    case Jal(rd, imm) => Regs(rd, 0, 0) && -1048576 <= imm < 1048576 && imm % 2 == 0
    case Lui(rd, imm) => Regs(rd, 0, 0)
    case Ecall => true
  }

  /** What the word can say: `lui` drops the low twelve bits of its operand. */
  function Canonical(i: Rv): Rv
  {
    match i case Lui(rd, imm) => Lui(rd, Upper(imm)) case _ => i
  }

  lemma RTrip(op: ROp, rd: nat, rs1: nat, rs2: nat)
    requires Regs(rd, rs1, rs2)
    ensures Decode(EncodeR(OpR(op), rd, rs1, rs2)) == Some(R(op, rd, rs1, rs2))
  {
    hide Bits, Pow2;
    Powers();
    var funct3 := OpR(op) / 4096 % 8;
    var funct7 := OpR(op) / 33554432;
    PackFields(51, rd, funct3, rs1, rs2, funct7);
    assert EncodeR(OpR(op), rd, rs1, rs2) == Pack(51, rd, funct3, rs1, rs2, funct7);
  }

  /** A signed immediate as its field of `2 * half` values. */
  function Field(imm: int, half: nat): int
  {
    if imm < 0 then imm + 2 * half else imm
  }

  lemma OpIFields(op: IOp) returns (opcode: nat, funct3: nat)
    ensures opcode < 128 && funct3 < 8 && OpI(op) == opcode + funct3 * 4096
    ensures opcode == 3 <==> DecodeLoad(funct3) == Some(op)
    ensures opcode == 103 <==> op == Jalr
    ensures opcode == 103 ==> funct3 == 0
    ensures opcode in {3, 103, 19}
    ensures opcode == 19 ==>
      op == match funct3 case 0 => Addi case 2 => Slti case 3 => Sltiu case 4 => Xori case 6 => Ori case _ => Andi
    ensures opcode == 19 ==> funct3 in {0, 2, 3, 4, 6, 7}
  {
    opcode, funct3 := OpI(op) % 128, OpI(op) / 4096 % 8;
  }

  lemma EncodeIPacks(op: nat, opcode: nat, funct3: nat, rd: nat, rs1: nat, imm: int) returns (rs2: nat, funct7: nat)
    requires InFields(opcode, rd, funct3, rs1, 0, 0) && -2048 <= imm <= 2047 && op == opcode + funct3 * 4096
    ensures InFields(opcode, rd, funct3, rs1, rs2, funct7) && rs2 + funct7 * 32 == Field(imm, 2048)
    ensures EncodeI(op, rd, rs1, imm) == Some(Pack(opcode, rd, funct3, rs1, rs2, funct7))
  {
    hide Pow2, Word, Bits;
    Powers();
    var field: nat := Field(imm, 2048);
    rs2, funct7 := field % 32, field / 32;
    PackFields(opcode, rd, funct3, rs1, rs2, funct7);
    SmallWord(Pack(opcode, rd, funct3, rs1, rs2, funct7));
    if imm < 0 {
      Quotient(imm + 4096, 8192, 0, imm + 4096);
    }
  }

  lemma ITrip(op: IOp, rd: nat, rs1: nat, imm: int)
    requires Regs(rd, rs1, 0) && -2048 <= imm <= 2047
    ensures var w := EncodeI(OpI(op), rd, rs1, imm); w.Some? && Decode(w.value) == Some(I(op, rd, rs1, imm))
  {
    hide Bits, Pow2, EncodeI, OpI;
    Powers();
    var opcode, funct3 := OpIFields(op);
    var rs2, funct7 := EncodeIPacks(OpI(op), opcode, funct3, rd, rs1, imm);
    PackFields(opcode, rd, funct3, rs1, rs2, funct7);
    WiderFields(opcode, rd, funct3, rs1, rs2, funct7);
    var w := Pack(opcode, rd, funct3, rs1, rs2, funct7);
    hide Pack;
    assert ImmI(w) == imm;
  }

  lemma ShiftTrip(op: ShiftOp, rd: nat, rs1: nat, imm: int)
    requires Regs(rd, rs1, 0) && 0 <= imm < 32
    ensures var w := EncodeI(OpShift(op), rd, rs1, imm); w.Some? && Decode(w.value) == Some(Shift(op, rd, rs1, imm))
  {
    hide Bits, Pow2;
    Powers();
    var funct3, funct7 := OpShift(op) / 4096 % 8, OpShift(op) / 33554432;
    PackFields(19, rd, funct3, rs1, imm, funct7);
    assert EncodeI(OpShift(op), rd, rs1, imm) == Some(Pack(19, rd, funct3, rs1, imm, funct7));
  }

  lemma STrip(op: SOp, rs1: nat, rs2: nat, imm: int)
    requires Regs(0, rs1, rs2) && -2048 <= imm <= 2047
    ensures var w := EncodeS(OpS(op), rs1, rs2, imm); w.Some? && Decode(w.value) == Some(S(op, rs1, rs2, imm))
  {
    hide Bits, Pow2;
    Powers();
    var field: nat := Field(imm, 2048);
    var funct3, low, high := OpS(op) / 4096 % 8, field % 32, field / 32;
    assert ExtractBits(field, 0, 4, 7, 11) == low * 128;
    assert ExtractBits(field, 5, 11, 25, 31) == high * 33554432;
    PackFields(35, low, funct3, rs1, rs2, high);
    assert EncodeS(OpS(op), rs1, rs2, imm) == Some(Pack(35, low, funct3, rs1, rs2, high));
  }

  lemma OpBFields(op: BOp) returns (funct3: nat)
    ensures funct3 < 8 && OpB(op) == 99 + funct3 * 4096 && DecodeB(funct3) == Some(op)
  {
    funct3 := OpB(op) / 4096;
  }

  /** The pieces of a branch offset. */
  lemma BranchPieces(imm: int) returns (sign: nat, b11: nat, mid: nat, low: nat)
    requires -4096 <= imm <= 4095 && imm % 2 == 0
    ensures sign < 2 && b11 < 2 && mid < 64 && low < 16 && (sign == 1 <==> imm < 0)
    ensures imm == b11 * 2048 + mid * 32 + low * 2 - 4096 * sign
    ensures imm / 2048 % 2 == b11 && imm / 2 % 16 == low && imm / 32 % 64 == mid
  {
    sign := if imm < 0 then 1 else 0;
    b11, low, mid := imm / 2048 % 2, imm / 2 % 16, imm / 32 % 64;
    var field := imm + 4096 * sign;
    Quotient(field, 2048, field / 2048, field % 2048);
    assert imm / 2048 == field / 2048 - 2 * sign;
    assert imm / 32 == field / 32 - 128 * sign;
    assert field / 32 == field / 2048 * 64 + mid;
    assert field / 2 == field / 32 * 16 + low;
  }

  lemma EncodeBPacks(op: nat, funct3: nat, rs1: nat, rs2: nat, imm: int, sign: nat, b11: nat, mid: nat, low: nat)
    requires Regs(0, rs1, rs2) && op == 99 + funct3 * 4096 && funct3 < 8 && -4096 <= imm <= 4095
    requires sign < 2 && b11 < 2 && mid < 64 && low < 16 && (sign == 1 <==> imm < 0)
    requires imm / 2048 % 2 == b11 && imm / 2 % 16 == low && imm / 32 % 64 == mid
    ensures EncodeB(op, rs1, rs2, imm) == Some(Pack(99, b11 + low * 2, funct3, rs1, rs2, mid + sign * 64))
  {
    hide Pow2, Word, Bits;
    Powers();
    PackFields(99, b11 + low * 2, funct3, rs1, rs2, mid + sign * 64);
    SmallWord(Pack(99, b11 + low * 2, funct3, rs1, rs2, mid + sign * 64));
    assert ExtractBits(imm, 11, 11, 7, 7) == b11 * 128;
    assert ExtractBits(imm, 1, 4, 8, 11) == low * 256;
    assert ExtractBits(imm, 5, 10, 25, 30) == mid * 33554432;
  }

  lemma BTrip(op: BOp, rs1: nat, rs2: nat, imm: int)
    requires Regs(0, rs1, rs2) && -4096 <= imm <= 4095 && imm % 2 == 0
    ensures var w := EncodeB(OpB(op), rs1, rs2, imm); w.Some? && Decode(w.value) == Some(B(op, rs1, rs2, imm))
  {
    hide Bits, Pow2, OpB, EncodeB;
    Powers();
    var sign, b11, mid, low := BranchPieces(imm);
    var funct3 := OpBFields(op);
    var rd, funct7 := b11 + low * 2, mid + sign * 64;
    EncodeBPacks(OpB(op), funct3, rs1, rs2, imm, sign, b11, mid, low);
    PackFields(99, rd, funct3, rs1, rs2, funct7);
    WiderFields(99, rd, funct3, rs1, rs2, funct7);
    var w := Pack(99, rd, funct3, rs1, rs2, funct7);
    hide Pack;
    assert ImmB(w) == imm;
  }

  /** The pieces of a jump offset. */
  lemma JumpPieces(field: nat) returns (sign: nat, mid: nat, b11: nat, low: nat)
    requires field < 2097152 && field % 2 == 0
    ensures sign < 2 && mid < 256 && b11 < 2 && low < 1024
    ensures field == sign * 1048576 + mid * 4096 + b11 * 2048 + low * 2
    ensures field / 2 % 1024 == low && field / 2048 % 2 == b11 && field / 4096 % 256 == mid
  {
    low, b11, mid, sign := field / 2 % 1024, field / 2048 % 2, field / 4096 % 256, field / 1048576;
    assert field / 2 == field / 2048 * 1024 + low;
    assert field / 2048 == field / 4096 * 2 + b11;
    assert field / 4096 == field / 1048576 * 256 + mid;
  }

  lemma EncodeJPacks(rd: nat, imm: int, sign: nat, mid: nat, b11: nat, low: nat)
    requires Regs(rd, 0, 0) && sign < 2 && mid < 256 && b11 < 2 && low < 1024 && (sign == 1 <==> imm < 0)
    requires var field := Field(imm, 1048576);
             field / 2 % 1024 == low && field / 2048 % 2 == b11 && field / 4096 % 256 == mid
    ensures EncodeJ(111, rd, imm) == Pack(111, rd, mid % 8, mid / 8, b11 + low % 16 * 2, low / 16 + sign * 64)
  {
    hide Pow2, Word, Bits;
    Powers();
    var field := Field(imm, 1048576);
    assert ExtractBits(field, 1, 10, 21, 30) == low * 2097152;
    assert ExtractBits(field, 11, 11, 20, 20) == b11 * 1048576;
    assert ExtractBits(field, 12, 19, 12, 19) == mid * 4096;
    PackFields(111, rd, mid % 8, mid / 8, b11 + low % 16 * 2, low / 16 + sign * 64);
    SmallWord(Pack(111, rd, mid % 8, mid / 8, b11 + low % 16 * 2, low / 16 + sign * 64));
  }

  lemma JTrip(rd: nat, imm: int)
    requires Regs(rd, 0, 0) && -1048576 <= imm < 1048576 && imm % 2 == 0
    ensures Decode(EncodeJ(111, rd, imm)) == Some(Jal(rd, imm))
  {
    hide Bits, Pow2, EncodeJ;
    Powers();
    var field: nat := Field(imm, 1048576);
    var sign, mid, b11, low := JumpPieces(field);
    assert sign == if imm < 0 then 1 else 0;
    EncodeJPacks(rd, imm, sign, mid, b11, low);
    var funct3, rs1, rs2, funct7 := mid % 8, mid / 8, b11 + low % 16 * 2, low / 16 + sign * 64;
    PackFields(111, rd, funct3, rs1, rs2, funct7);
    WiderFields(111, rd, funct3, rs1, rs2, funct7);
    var w := Pack(111, rd, funct3, rs1, rs2, funct7);
    hide Pack;
    JumpImmediate(w, imm, sign, mid, b11, low);
  }

  lemma JumpImmediate(w: nat, imm: int, sign: nat, mid: nat, b11: nat, low: nat)
    requires sign < 2 && mid < 256 && b11 < 2 && low < 1024 && (sign == 1 <==> imm < 0)
    requires Field(imm, 1048576) == sign * 1048576 + mid * 4096 + b11 * 2048 + low * 2
    requires Bits(w, 12, 19) == mid % 8 + mid / 8 * 8 && Bits(w, 20, 20) == (b11 + low % 16 * 2) % 2
    requires Bits(w, 31, 31) == (low / 16 + sign * 64) / 64
    requires Bits(w, 21, 30) == (b11 + low % 16 * 2) / 2 + (low / 16 + sign * 64) % 64 * 16
    ensures ImmJ(w) == imm
  {
    hide Bits, Pow2;
    Powers();
  }

  /** The pieces of the upper twenty bits. */
  lemma UpperPieces(upper: nat) returns (funct3: nat, rs1: nat, rs2: nat, funct7: nat)
    requires upper < 1048576
    ensures funct3 < 8 && rs1 < 32 && rs2 < 32 && funct7 < 128 && upper == funct3 + rs1 * 8 + rs2 * 256 + funct7 * 8192
  {
    funct3, rs1, rs2, funct7 := upper % 8, upper / 8 % 32, upper / 256 % 32, upper / 8192;
    assert upper / 8 == upper / 256 * 32 + rs1;
    assert upper / 256 == upper / 8192 * 32 + rs2;
  }

  /** The value `lui` loads: the upper twenty bits of its operand. */
  function Upper(imm: int): int
  {
    Field0(imm / 4096 % 1048576) * 4096
  }

  /** A twenty-bit field as a signed number. */
  function Field0(x: nat): int
  {
    if x >= 524288 then x - 1048576 else x
  }

  lemma UTrip(rd: nat, imm: int)
    requires Regs(rd, 0, 0)
    ensures Decode(EncodeU(55, rd, imm)) == Some(Lui(rd, Upper(imm)))
  {
    hide Bits, Pow2, Word;
    Powers();
    var upper: nat := imm / 4096 % 1048576;
    var funct3, rs1, rs2, funct7 := UpperPieces(upper);
    PackFields(55, rd, funct3, rs1, rs2, funct7);
    WiderFields(55, rd, funct3, rs1, rs2, funct7);
    var w := Pack(55, rd, funct3, rs1, rs2, funct7);
    SmallWord(w);
    assert EncodeU(55, rd, imm) == w;
    hide Pack;
    assert ImmU(w) == Upper(imm);
  }

  /** Decoding an encoded instruction gives it back, for every operand its format can hold. */
  lemma RoundTrip(i: Rv)
    requires Encodable(i)
    ensures Encode(i).Some? && Decode(Encode(i).value) == Some(Canonical(i))
  {
    hide Decode, EncodeR, EncodeI, EncodeS, EncodeB, EncodeJ, EncodeU;
    match i {
      case R(op, rd, rs1, rs2) => RTrip(op, rd, rs1, rs2);
      case I(op, rd, rs1, imm) => ITrip(op, rd, rs1, imm);
      case Shift(op, rd, rs1, imm) => ShiftTrip(op, rd, rs1, imm);
      case S(op, rs1, rs2, imm) => STrip(op, rs1, rs2, imm);
      case B(op, rs1, rs2, imm) => BTrip(op, rs1, rs2, imm);
      case Jal(rd, imm) => JTrip(rd, imm);
      case Lui(rd, imm) => UTrip(rd, imm);
      case Ecall => EcallTrip();
    }
  }

  lemma EcallTrip()
    ensures var w := EncodeI(115, 0, 0, 0); w.Some? && Decode(w.value) == Some(Ecall)
  {
    hide Bits, Pow2;
    Powers();
    PackFields(115, 0, 0, 0, 0, 0);
    WiderFields(115, 0, 0, 0, 0, 0);
    var w := Pack(115, 0, 0, 0, 0, 0);
    assert EncodeI(115, 0, 0, 0) == Some(w);
    hide Pack;
    assert ImmI(w) == 0;
  }

  /** The encoders refuse exactly the immediates that the 12- and 13-bit fields cannot hold. */
  lemma RefusedOffsets(i: Rv)
    ensures i.I? || i.S? ==> (Encode(i) == None <==> !(-2048 <= i.imm <= 2047))
    ensures i.B? ==> (Encode(i) == None <==> !(-4096 <= i.imm <= 4095))
  {
  }

  /** `lui` of `rv_hi` and `addi` of `rv_lo` rebuild any value. */
  lemma HiLo(val: int)
    ensures -2048 <= RvLo(val) <= 2047
    ensures Word(Upper(RvHi(val)) + RvLo(val)) == Word(val)
  {
    hide Word;
    var c, q, r := val / 2048 % 2, val / 4096, val % 4096;
    Quotient(val, 2048, q * 2 + r / 2048, r % 2048);
    Quotient(RvHi(val), 4096, q + c, r);
    var k := (q + c) / 1048576;
    var x := (q + c) % 1048576;
    assert Upper(RvHi(val)) == if x >= 524288 then (q + c) * 4096 - (k + 1) * WORD else (q + c) * 4096 - k * WORD;
    WordShift(val, -(k + 1));
    WordShift(val, -k);
  }
}
