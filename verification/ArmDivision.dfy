/** Division without hardware support on Armv7-A (src/arm-codegen.c:486-538): a sequence of
    conditional instructions that shifts and subtracts, run on a small-step semantics. */
module ArmDivision {
  import opened Options
  import opened Words

  datatype Cond = EQ | NE | CS | CC | AL
  datatype ShiftKind = LogicLs | LogicRs | ArithRs

  /** The instructions of the sequence; `Stmdb` and `Ldm` move the listed registers through sp. */
  datatype Arm =
    | Stmdb(r1: nat, r2: nat)
    | Ldm(r1: nat, r2: nat)
    | ShiftAmt(cond: Cond, s: bool, kind: ShiftKind, rd: nat, rm: nat, amt: nat)
    | AddR(cond: Cond, rd: nat, rn: nat, rm: nat)
    | SubR(cond: Cond, rd: nat, rn: nat, rm: nat)
    | EorR(cond: Cond, rd: nat, rn: nat, rm: nat)
    | MovR(cond: Cond, rd: nat, rm: nat)
    | MovI(cond: Cond, rd: nat, imm: nat)
    | CmpR(rn: nat, rm: nat)
    | CmpI(rn: nat, imm: nat)
    | RsbI(cond: Cond, rd: nat, imm: nat, rn: nat)
    | Bc(cond: Cond, ofs: int)

  const R8: nat := 8
  const R9: nat := 9
  const R10: nat := 10
  const SP: nat := 13

  /** The sequence for `rd = rn / rm` or, with `mod`, `rd = rn % rm`. */
  function DivArm(mod: bool, rd: nat, rn: nat, rm: nat): seq<Arm>
  {
    [ Stmdb(rn, rm),
      ShiftAmt(AL, false, ArithRs, R8, rn, 31), AddR(AL, rn, rn, R8), EorR(AL, rn, rn, R8),
      ShiftAmt(AL, false, ArithRs, R9, rm, 31), AddR(AL, rm, rm, R9), EorR(AL, rm, rm, R9),
      if mod then MovR(AL, R10, R8) else EorR(AL, R10, R8, R9),
      MovI(AL, R8, 0), MovI(AL, R9, 1),
      CmpI(rm, 0), Bc(EQ, 52), CmpI(rn, 0), Bc(EQ, 44),
      CmpR(rm, rn), ShiftAmt(CC, false, LogicLs, rm, rm, 1), ShiftAmt(CC, false, LogicLs, R9, R9, 1), Bc(CC, -12),
      CmpR(rn, rm), SubR(CS, rn, rn, rm), AddR(CS, R8, R8, R9),
      ShiftAmt(AL, true, LogicRs, R9, R9, 1), ShiftAmt(CC, false, LogicRs, rm, rm, 1), Bc(CC, -20),
      MovR(AL, R9, rn), Ldm(rn, rm), MovR(AL, rd, if mod then R9 else R8),
      CmpI(R10, 0), RsbI(NE, rd, 0, rd) ]
  }

  /** Program counter, sixteen registers, the zero and carry flags, and memory words. */
  datatype Cpu = Cpu(pc: int, x: seq<nat>, z: bool, c: bool, mem: map<nat, nat>)
  {
    predicate Ok() {
      |x| == 16 && forall i :: 0 <= i < 16 ==> x[i] < WORD
    }

    function Get(r: nat): nat {
      if r < |x| then x[r] else 0
    }

    function Put(r: nat, v: nat): Cpu {
      if r < |x| then this.(x := x[r := v]) else this
    }

    function Next(): Cpu {
      this.(pc := pc + 4)
    }

    predicate Holds(cond: Cond) {
      match cond
      case EQ => z
      case NE => !z
      case CS => c
      case CC => !c
      case AL => true
    }

    /** Flags of a comparison: carry means no borrow. */
    function Compare(a: nat, b: nat): Cpu {
      this.(z := a == b, c := a >= b)
    }

    function Load(a: nat): nat {
      if a in mem then mem[a] else 0
    }
  }

  /** A register list in increasing order, as it goes to increasing addresses. */
  function RegList(r1: nat, r2: nat): seq<nat>
  {
    if r1 == r2 then [r1] else if r1 < r2 then [r1, r2] else [r2, r1]
  }

  function StoreFrom(c: Cpu, a: nat, regs: seq<nat>): map<nat, nat>
  {
    if regs == [] then c.mem
      else StoreFrom(c, a, regs[..|regs| - 1])[Word(a + 4 * (|regs| - 1)) := c.Get(regs[|regs| - 1])]
  }

  function LoadTo(c: Cpu, a: nat, regs: seq<nat>): Cpu
  {
    if regs == [] then c
    else LoadTo(c, a, regs[..|regs| - 1]).Put(regs[|regs| - 1], c.Load(Word(a + 4 * (|regs| - 1))))
  }

  function Shifted(kind: ShiftKind, a: nat, amt: nat): nat
  {
    match kind case LogicLs => SllW(a, amt) case LogicRs => SrlW(a, amt) case ArithRs => SraW(a, amt)
  }

  /** `__b` stores a 24-bit word distance from the instruction after the next one. */
  function BranchTarget(pc: int, ofs: int): int
  {
    var field := (ofs - 8) / 4 % 16777216;
    pc + 8 + 4 * (if field >= 8388608 then field - 16777216 else field)
  }

  function Exec(i: Arm, c: Cpu): Cpu
  {
    match i
    case Stmdb(r1, r2) =>
      var regs := RegList(r1, r2);
      var a := Word(c.Get(SP) - 4 * |regs|);
      c.(mem := StoreFrom(c, a, regs)).Put(SP, a).Next()
    case Ldm(r1, r2) =>
      var regs := RegList(r1, r2);
      LoadTo(c, c.Get(SP), regs).Put(SP, Word(c.Get(SP) + 4 * |regs|)).Next()
    case ShiftAmt(cond, s, kind, rd, rm, amt) =>
      if !c.Holds(cond) then c.Next()
      else
        var v := Shifted(kind, c.Get(rm), amt);
        // with `s`, a right shift by one leaves the bit it drops in the carry flag
        var d := c.Put(rd, v).Next();
        if s then d.(z := v == 0, c := c.Get(rm) % 2 == 1) else d
    case AddR(cond, rd, rn, rm) => if c.Holds(cond) then c.Put(rd, Word(c.Get(rn) + c.Get(rm))).Next() else c.Next()
    case SubR(cond, rd, rn, rm) => if c.Holds(cond) then c.Put(rd, Word(c.Get(rn) - c.Get(rm))).Next() else c.Next()
    case EorR(cond, rd, rn, rm) => if c.Holds(cond) then c.Put(rd, XorW(c.Get(rn), c.Get(rm))).Next() else c.Next()
    case MovR(cond, rd, rm) => if c.Holds(cond) then c.Put(rd, c.Get(rm)).Next() else c.Next()
    case MovI(cond, rd, imm) => if c.Holds(cond) then c.Put(rd, imm).Next() else c.Next()
    case CmpR(rn, rm) => c.Compare(c.Get(rn), c.Get(rm)).Next()
    case CmpI(rn, imm) => c.Compare(c.Get(rn), imm).Next()
    case RsbI(cond, rd, imm, rn) => if c.Holds(cond) then c.Put(rd, Word(imm - c.Get(rn))).Next() else c.Next()
    case Bc(cond, ofs) => if c.Holds(cond) then c.(pc := BranchTarget(c.pc, ofs)) else c.Next()
  }

  /** `insns` stands at `at`; running it from `c` passes through `d`. */
  ghost predicate Leads(insns: seq<Arm>, at: int, c: Cpu, d: Cpu)
  {
    exists n: nat :: Run(insns, at, c, n) == Some(d)
  }

  /** After `n` instructions; `None` once control has left the sequence. */
  function Run(insns: seq<Arm>, at: int, c: Cpu, n: nat): Option<Cpu>
  {
    if n == 0 then Some(c)
    else
      match Run(insns, at, c, n - 1)
      case None => None
      case Some(d) =>
        if at <= d.pc && (d.pc - at) % 4 == 0 && (d.pc - at) / 4 < |insns|
          then Some(Exec(insns[(d.pc - at) / 4], d)) else None
  }

  lemma LeadsSelf(insns: seq<Arm>, at: int, c: Cpu)
    ensures Leads(insns, at, c, c)
  {
    assert Run(insns, at, c, 0) == Some(c);
  }

  lemma LeadsStep(insns: seq<Arm>, at: int, k: nat, c0: Cpu, c: Cpu) returns (d: Cpu)
    requires Leads(insns, at, c0, c) && k < |insns| && c.pc == at + 4 * k
    ensures d == Exec(insns[k], c) && Leads(insns, at, c0, d)
  {
    hide Exec;
    var n: nat :| Run(insns, at, c0, n) == Some(c);
    Quotient(c.pc - at, 4, k, 0);
    d := Exec(insns[k], c);
    assert Run(insns, at, c0, n + 1) == Some(d);
  }

  // ---- the sequence, instruction by instruction --------------------------------------------------

  lemma DivFirst(mod: bool, rd: nat, rn: nat, rm: nat)
    ensures var s := DivArm(mod, rd, rn, rm);
            && |s| == 29 && s[0] == Stmdb(rn, rm)
            && s[1] == ShiftAmt(AL, false, ArithRs, R8, rn, 31) && s[2] == AddR(AL, rn, rn, R8)
            && s[3] == EorR(AL, rn, rn, R8)
            && s[4] == ShiftAmt(AL, false, ArithRs, R9, rm, 31)
  {
  }

  lemma DivSecond(mod: bool, rd: nat, rn: nat, rm: nat)
    ensures var s := DivArm(mod, rd, rn, rm);
            && |s| == 29 && s[5] == AddR(AL, rm, rm, R9) && s[6] == EorR(AL, rm, rm, R9)
            && s[7] == (if mod then MovR(AL, R10, R8) else EorR(AL, R10, R8, R9)) && s[8] == MovI(AL, R8, 0)
            && s[9] == MovI(AL, R9, 1)
  {
  }

  lemma DivMiddle(mod: bool, rd: nat, rn: nat, rm: nat)
    ensures var s := DivArm(mod, rd, rn, rm);
            && |s| == 29 && s[10] == CmpI(rm, 0) && s[11] == Bc(EQ, 52) && s[12] == CmpI(rn, 0) && s[13] == Bc(EQ, 44)
            && s[14] == CmpR(rm, rn) && s[15] == ShiftAmt(CC, false, LogicLs, rm, rm, 1)
            && s[16] == ShiftAmt(CC, false, LogicLs, R9, R9, 1) && s[17] == Bc(CC, -12)
  {
  }

  lemma DivLast(mod: bool, rd: nat, rn: nat, rm: nat)
    ensures var s := DivArm(mod, rd, rn, rm);
            && |s| == 29 && s[18] == CmpR(rn, rm) && s[19] == SubR(CS, rn, rn, rm) && s[20] == AddR(CS, R8, R8, R9)
            && s[21] == ShiftAmt(AL, true, LogicRs, R9, R9, 1) && s[22] == ShiftAmt(CC, false, LogicRs, rm, rm, 1)
            && s[23] == Bc(CC, -20) && s[24] == MovR(AL, R9, rn) && s[25] == Ldm(rn, rm)
            && s[26] == MovR(AL, rd, if mod then R9 else R8) && s[27] == CmpI(R10, 0) && s[28] == RsbI(NE, rd, 0, rd)
  {
  }

  /** Operand and result registers: r0 to r7. */
  predicate Arg(r: nat) { r < 8 }

  /** While the sequence runs: the operands' values are saved below the stack pointer, and only
      the operand registers and the temporaries have changed. */
  ghost predicate Inside(c0: Cpu, c: Cpu, rn: nat, rm: nat)
    requires c0.Ok()
  {
    var regs := RegList(rn, rm);
    var a := Word(c0.x[SP] - 4 * |regs|);
    && c.Ok() && c.x[SP] == a && c.mem == StoreFrom(c0, a, regs)
    && forall r :: 0 <= r < 16 && r !in {rn, rm, R8, R9, R10, SP} ==> c.x[r] == c0.x[r]
  }

  /** r10 says whether to negate the result. */
  ghost predicate SignKnown(c: Cpu, mod: bool, a: nat, b: nat)
  {
    c.Get(R10) != 0 <==> if mod then a >= HALF else (a >= HALF) != (b >= HALF)
  }

  lemma PushSaves(c: Cpu, rn: nat, rm: nat) returns (d: Cpu)
    requires c.Ok() && Arg(rn) && Arg(rm)
    ensures d == Exec(Stmdb(rn, rm), c) && Inside(c, d, rn, rm) && d.pc == c.pc + 4
    ensures d.x[rn] == c.x[rn] && d.x[rm] == c.x[rm]
  {
    d := Exec(Stmdb(rn, rm), c);
  }

  /** Popping gives both operand registers and the stack pointer their old values back. */
  lemma PopRestores(c0: Cpu, c: Cpu, rn: nat, rm: nat) returns (d: Cpu)
    requires c0.Ok() && Arg(rn) && Arg(rm) && Inside(c0, c, rn, rm)
    ensures d == Exec(Ldm(rn, rm), c) && d.Ok() && d.pc == c.pc + 4 && d.z == c.z && d.c == c.c && d.mem == c.mem
    ensures forall r :: 0 <= r < 16 && r !in {R8, R9, R10} ==> d.x[r] == c0.x[r]
    ensures d.x[R8] == c.x[R8] && d.x[R9] == c.x[R9] && d.x[R10] == c.x[R10]
  {
    hide Word, LoadTo, StoreFrom;
    d := Exec(Ldm(rn, rm), c);
    var regs := RegList(rn, rm);
    var a := Word(c0.x[SP] - 4 * |regs|);
    WordRoundTrip(c0.x[SP], 4 * |regs|);
    if rn == rm {
      SavedOne(c0, a, rn);
      LoadOne(c, a, rn);
    } else {
      SavedTwo(c0, a, regs[0], regs[1]);
      LoadTwo(c, a, regs[0], regs[1]);
    }
  }

  lemma LoadOne(c: Cpu, a: nat, r: nat)
    ensures LoadTo(c, a, [r]) == c.Put(r, c.Load(Word(a)))
  {
    assert [r][..0] == [];
  }

  lemma LoadTwo(c: Cpu, a: nat, r: nat, r2: nat)
    ensures LoadTo(c, a, [r, r2]) == c.Put(r, c.Load(Word(a))).Put(r2, c.Load(Word(a + 4)))
  {
    assert [r, r2][..1] == [r];
    LoadOne(c, a, r);
  }

  lemma SavedOne(c: Cpu, a: nat, r: nat)
    ensures var m := StoreFrom(c, a, [r]); Word(a) in m && m[Word(a)] == c.Get(r)
  {
    assert [r][..0] == [];
  }

  lemma SavedTwo(c: Cpu, a: nat, r: nat, r2: nat)
    ensures var m := StoreFrom(c, a, [r, r2]);
            Word(a) in m && m[Word(a)] == c.Get(r) && Word(a + 4) in m && m[Word(a + 4)] == c.Get(r2)
  {
    assert [r, r2][..1] == [r];
    SavedOne(c, a, r);
    assert Word(a) != Word(a + 4) by {
      WordSum(a, 4);
    }
  }

  lemma WordRoundTrip(x: nat, n: nat)
    requires x < WORD
    ensures Word(Word(x - n) + n) == x
  {
    WordSum(x - n, n);
    SmallWord(x);
  }

  /** The branches of the sequence go where their byte offsets say. */
  lemma Targets(pc: int)
    ensures BranchTarget(pc, 52) == pc + 52 && BranchTarget(pc, 44) == pc + 44
    ensures BranchTarget(pc, -12) == pc - 12 && BranchTarget(pc, -20) == pc - 20
  {
  }

  lemma InsideKeeps(c0: Cpu, c: Cpu, d: Cpu, rn: nat, rm: nat)
    requires c0.Ok() && Inside(c0, c, rn, rm) && d.Ok() && d.mem == c.mem && d.x[SP] == c.x[SP]
    requires forall r :: 0 <= r < 16 && r !in {rn, rm, R8, R9, R10, SP} ==> d.x[r] == c.x[r]
    ensures Inside(c0, d, rn, rm)
  {
  }

  // ---- different operand registers ---------------------------------------------------------------

  lemma Magnitudes(insns: seq<Arm>, mod: bool, rd: nat, rn: nat, rm: nat, c0: Cpu) returns (d: Cpu)
    requires insns == DivArm(mod, rd, rn, rm) && c0.Ok() && Arg(rn) && Arg(rm) && rn != rm
    ensures Leads(insns, c0.pc, c0, d) && d.pc == c0.pc + 28 && d.Ok() && Inside(c0, d, rn, rm)
    ensures d.x[rn] == MagnitudeW(c0.x[rn]) && d.x[rm] == MagnitudeW(c0.x[rm])
    ensures d.x[R8] == SraW(c0.x[rn], 31) && d.x[R9] == SraW(c0.x[rm], 31)
  {
    hide Leads, Inside, Word, XorW, SraW, MagnitudeW, DivArm;
    var at, a, b := c0.pc, c0.x[rn], c0.x[rm];
    DivFirst(mod, rd, rn, rm);
    DivSecond(mod, rd, rn, rm);
    MagnitudeByMask(a);
    MagnitudeByMask(b);
    MagnitudeIsWord(a);
    MagnitudeIsWord(b);
    LeadsSelf(insns, at, c0);
    var c1 := LeadsStep(insns, at, 0, c0, c0);
    var p := PushSaves(c0, rn, rm);
    var c2 := LeadsStep(insns, at, 1, c0, c1);
    var c3 := LeadsStep(insns, at, 2, c0, c2);
    var c4 := LeadsStep(insns, at, 3, c0, c3);
    var c5 := LeadsStep(insns, at, 4, c0, c4);
    var c6 := LeadsStep(insns, at, 5, c0, c5);
    d := LeadsStep(insns, at, 6, c0, c6);
    InsideKeeps(c0, c1, d, rn, rm);
  }

  lemma Prepare(insns: seq<Arm>, mod: bool, rd: nat, rn: nat, rm: nat, c0: Cpu) returns (d: Cpu)
    requires insns == DivArm(mod, rd, rn, rm) && c0.Ok() && Arg(rn) && Arg(rm) && rn != rm
    ensures Leads(insns, c0.pc, c0, d) && d.pc == c0.pc + 40 && d.Ok() && Inside(c0, d, rn, rm)
    ensures d.x[rn] == MagnitudeW(c0.x[rn]) && d.x[rm] == MagnitudeW(c0.x[rm]) && d.x[R8] == 0 && d.x[R9] == 1
    ensures SignKnown(d, mod, c0.x[rn], c0.x[rm])
  {
    hide Leads, Inside, Word, XorW, SraW, MagnitudeW, DivArm;
    var at := c0.pc;
    DivSecond(mod, rd, rn, rm);
    var c7 := Magnitudes(insns, mod, rd, rn, rm, c0);
    SignOfResult(mod, c0.x[rn], c0.x[rm]);
    MagnitudeByMask(c0.x[rn]);
    XorMask(SraW(c0.x[rn], 31));
    var c8 := LeadsStep(insns, at, 7, c0, c7);
    var c9 := LeadsStep(insns, at, 8, c0, c8);
    d := LeadsStep(insns, at, 9, c0, c9);
    InsideKeeps(c0, c7, d, rn, rm);
  }

  /** The doubling loop at its head: rm is the divisor times a power of two. */
  ghost predicate Doubling(c: Cpu, at: int, rn: nat, rm: nat, n: nat, dv: nat, k: nat)
  {
    && c.Ok() && c.pc == at + 56 && 0 < n <= HALF && 0 < dv
    && c.Get(R8) == 0 && c.Get(R9) == Pow2(k) && c.Get(rn) == n && c.Get(rm) == dv * Pow2(k)
  }

  /** The subtracting loop at its head: quotient in r8, remainder in rn. */
  ghost predicate Subtracting(c: Cpu, at: int, rn: nat, rm: nat, n: nat, dv: nat, k: nat)
  {
    && c.Ok() && c.pc == at + 72 && n <= HALF && 0 < dv
    && c.Get(R9) == Pow2(k) && c.Get(rm) == dv * Pow2(k)
    && n == c.Get(R8) * dv + c.Get(rn) && c.Get(rn) < 2 * c.Get(rm)
  }

  lemma {:induction false} DoublingLoop(insns: seq<Arm>, mod: bool, rd: nat, rn: nat, rm: nat, at: int, c0: Cpu, c: Cpu,
                                        n: nat, dv: nat, k: nat) returns (d: Cpu, k2: nat)
    requires insns == DivArm(mod, rd, rn, rm) && c0.Ok() && Arg(rn) && Arg(rm) && rn != rm
    requires Leads(insns, at, c0, c) && Inside(c0, c, rn, rm) && Doubling(c, at, rn, rm, n, dv, k)
    ensures Leads(insns, at, c0, d) && Inside(c0, d, rn, rm) && Subtracting(d, at, rn, rm, n, dv, k2)
    ensures d.Get(R10) == c.Get(R10)
    decreases if c.Get(rm) < n then n - c.Get(rm) else 0
  {
    hide Leads, Inside, Word, DivArm, SllW;
    DivMiddle(mod, rd, rn, rm);
    var c1 := LeadsStep(insns, at, 14, c0, c);
    ShiftByOne(c.x[rm], 0);
    ShiftByOne(c.x[R9], 0);
    if c.x[rm] < n {
      DoublingFits(dv, k, n);
      assert dv * Pow2(k + 1) == dv * (2 * Pow2(k)) == 2 * (dv * Pow2(k)) by {
        assert Pow2(k + 1) == 2 * Pow2(k);
      }
    }
    var c2 := LeadsStep(insns, at, 15, c0, c1);
    var c3 := LeadsStep(insns, at, 16, c0, c2);
    var c4 := LeadsStep(insns, at, 17, c0, c3);
    Targets(c3.pc);
    InsideKeeps(c0, c, c4, rn, rm);
    if c.x[rm] < n {
      d, k2 := DoublingLoop(insns, mod, rd, rn, rm, at, c0, c4, n, dv, k + 1);
    } else {
      d, k2 := c4, k;
    }
  }

  /** The conditional subtraction. */
  lemma SubtractOnce(insns: seq<Arm>, mod: bool, rd: nat, rn: nat, rm: nat, at: int, c0: Cpu, c: Cpu,
                     n: nat, dv: nat, k: nat) returns (d: Cpu)
    requires insns == DivArm(mod, rd, rn, rm) && c0.Ok() && Arg(rn) && Arg(rm) && rn != rm
    requires Leads(insns, at, c0, c) && Inside(c0, c, rn, rm) && Subtracting(c, at, rn, rm, n, dv, k)
    ensures Leads(insns, at, c0, d) && Inside(c0, d, rn, rm) && d.Ok() && d.pc == at + 84 && d.Get(R10) == c.Get(R10)
    ensures d.x[R9] == c.x[R9] && d.x[rm] == c.x[rm] && d.x[rn] < d.x[rm] && n == d.x[R8] * dv + d.x[rn]
  {
    hide Leads, Inside, Word, DivArm, Pow2;
    DivLast(mod, rd, rn, rm);
    var c1 := LeadsStep(insns, at, 18, c0, c);
    if c.x[rn] >= c.x[rm] {
      SmallWord(c.x[rn] - c.x[rm]);
      QuotientFits(c.x[R8], c.x[R9], c.x[rn] - c.x[rm], dv, n);
      SmallWord(c.x[R8] + c.x[R9]);
    }
    var c2 := LeadsStep(insns, at, 19, c0, c1);
    d := LeadsStep(insns, at, 20, c0, c2);
    InsideKeeps(c0, c, d, rn, rm);
  }

  lemma {:induction false} SubtractLoop(insns: seq<Arm>, mod: bool, rd: nat, rn: nat, rm: nat, at: int, c0: Cpu, c: Cpu,
                                        n: nat, dv: nat, k: nat) returns (d: Cpu)
    requires insns == DivArm(mod, rd, rn, rm) && c0.Ok() && Arg(rn) && Arg(rm) && rn != rm
    requires Leads(insns, at, c0, c) && Inside(c0, c, rn, rm) && Subtracting(c, at, rn, rm, n, dv, k)
    ensures Leads(insns, at, c0, d) && Inside(c0, d, rn, rm) && d.Ok() && d.pc == at + 96 && d.Get(R10) == c.Get(R10)
    ensures n == d.x[R8] * dv + d.x[rn] && d.x[rn] < dv
    decreases k
  {
    hide Leads, Inside, Word, DivArm, SrlW;
    DivLast(mod, rd, rn, rm);
    var e := SubtractOnce(insns, mod, rd, rn, rm, at, c0, c, n, dv, k);
    ShiftByOne(0, e.x[R9]);
    ShiftByOne(0, e.x[rm]);
    if k > 0 {
      assert dv * Pow2(k) == 2 * (dv * Pow2(k - 1));
    }
    var c4 := LeadsStep(insns, at, 21, c0, e);
    var c5 := LeadsStep(insns, at, 22, c0, c4);
    var c6 := LeadsStep(insns, at, 23, c0, c5);
    Targets(c5.pc);
    InsideKeeps(c0, e, c6, rn, rm);
    if k > 0 {
      d := SubtractLoop(insns, mod, rd, rn, rm, at, c0, c6, n, dv, k - 1);
    } else {
      d := c6;
    }
  }

  /** The unsigned part; a zero divisor or dividend skips it. */
  lemma Unsigned(insns: seq<Arm>, mod: bool, rd: nat, rn: nat, rm: nat, at: int, c0: Cpu, c: Cpu, n: nat, dv: nat)
    returns (d: Cpu)
    requires insns == DivArm(mod, rd, rn, rm) && c0.Ok() && Arg(rn) && Arg(rm) && rn != rm
    requires Leads(insns, at, c0, c) && Inside(c0, c, rn, rm) && c.Ok() && c.pc == at + 40
    requires c.x[rn] == n <= HALF && c.x[rm] == dv && c.x[R8] == 0 && c.x[R9] == 1
    ensures Leads(insns, at, c0, d) && Inside(c0, d, rn, rm) && d.Ok() && d.pc == at + 96 && d.Get(R10) == c.Get(R10)
    ensures if dv == 0 then d.x[R8] == 0 && d.x[rn] == n else n == d.x[R8] * dv + d.x[rn] && d.x[rn] < dv
  {
    hide Leads, Inside, Word, DivArm;
    DivMiddle(mod, rd, rn, rm);
    var c1 := LeadsStep(insns, at, 10, c0, c);
    var c2 := LeadsStep(insns, at, 11, c0, c1);
    Targets(c1.pc);
    InsideKeeps(c0, c, c2, rn, rm);
    if dv == 0 {
      d := c2;
    } else {
      var c3 := LeadsStep(insns, at, 12, c0, c2);
      var c4 := LeadsStep(insns, at, 13, c0, c3);
      Targets(c3.pc);
      InsideKeeps(c0, c, c4, rn, rm);
      if n == 0 {
        d := c4;
      } else {
        Powers();
        var e, k := DoublingLoop(insns, mod, rd, rn, rm, at, c0, c4, n, dv, 0);
        d := SubtractLoop(insns, mod, rd, rn, rm, at, c0, e, n, dv, k);
      }
    }
  }

  /** The restored registers, the result and its sign. */
  lemma Finish(insns: seq<Arm>, mod: bool, rd: nat, rn: nat, rm: nat, at: int, c0: Cpu, c: Cpu) returns (d: Cpu)
    requires insns == DivArm(mod, rd, rn, rm) && c0.Ok() && Arg(rd) && Arg(rn) && Arg(rm)
    requires Leads(insns, at, c0, c) && Inside(c0, c, rn, rm) && c.Ok() && c.pc == at + 96
    ensures Leads(insns, at, c0, d) && d.Ok() && d.pc == at + 116
    ensures var m: int := if mod then c.x[rn] else c.x[R8]; d.x[rd] == if c.x[R10] != 0 then Word(0 - m) else Word(m)
    ensures forall r :: 0 <= r < 16 && r !in {rd, R8, R9, R10} ==> d.x[r] == c0.x[r]
  {
    hide Leads, Inside, Word, DivArm;
    DivLast(mod, rd, rn, rm);
    var c1 := LeadsStep(insns, at, 24, c0, c);
    InsideKeeps(c0, c, c1, rn, rm);
    var c2 := LeadsStep(insns, at, 25, c0, c1);
    var p := PopRestores(c0, c1, rn, rm);
    var c3 := LeadsStep(insns, at, 26, c0, c2);
    var c4 := LeadsStep(insns, at, 27, c0, c3);
    d := LeadsStep(insns, at, 28, c0, c4);
    SmallWord(c.x[rn]);
    SmallWord(c.x[R8]);
  }

  /** With different operand registers the sequence computes the truncated quotient, or the
      remainder with the sign of the dividend, for all pairs of words; every other register,
      the operands and the stack pointer among them, has its old value. */
  lemma DivideCorrect(mod: bool, rd: nat, rn: nat, rm: nat, c: Cpu) returns (d: Cpu)
    requires c.Ok() && Arg(rd) && Arg(rn) && Arg(rm) && rn != rm
    ensures Leads(DivArm(mod, rd, rn, rm), c.pc, c, d) && d.pc == c.pc + 4 * |DivArm(mod, rd, rn, rm)|
    ensures d.Get(rd) == SoftDiv(mod, c.x[rn], c.x[rm])
    ensures forall r :: 0 <= r < 16 && r !in {rd, R8, R9, R10} ==> d.Get(r) == c.x[r]
  {
    hide Leads, Inside, Word, SoftDiv, MagnitudeW;
    var insns := DivArm(mod, rd, rn, rm);
    var e := Prepare(insns, mod, rd, rn, rm, c);
    MagnitudeIsWord(c.x[rn]);
    var e2 := Unsigned(insns, mod, rd, rn, rm, c.pc, c, e, MagnitudeW(c.x[rn]), MagnitudeW(c.x[rm]));
    d := Finish(insns, mod, rd, rn, rm, c.pc, c, e2);
    SignedResult(mod, c.x[rn], c.x[rm], e2.x[R8], e2.x[rn]);
  }

  // ---- one operand register ------------------------------------------------------------------------

  /** When both operands are in one register, the second absolute value is taken of the first. */
  lemma SelfMagnitude(insns: seq<Arm>, mod: bool, rd: nat, rn: nat, c0: Cpu) returns (d: Cpu)
    requires insns == DivArm(mod, rd, rn, rn) && c0.Ok() && Arg(rn)
    ensures Leads(insns, c0.pc, c0, d) && d.pc == c0.pc + 28 && d.Ok() && Inside(c0, d, rn, rn)
    ensures var m := MagnitudeW(c0.x[rn]); d.x[rn] == MagnitudeW(m) && d.x[R9] == SraW(m, 31)
    ensures d.x[R8] == SraW(c0.x[rn], 31)
  {
    hide Leads, Inside, Word, XorW, SraW, MagnitudeW, DivArm;
    var at, a, m := c0.pc, c0.x[rn], MagnitudeW(c0.x[rn]);
    DivFirst(mod, rd, rn, rn);
    DivSecond(mod, rd, rn, rn);
    MagnitudeIsWord(a);
    MagnitudeByMask(a);
    MagnitudeByMask(m);
    MagnitudeIsWord(m);
    LeadsSelf(insns, at, c0);
    var c1 := LeadsStep(insns, at, 0, c0, c0);
    var p := PushSaves(c0, rn, rn);
    var c2 := LeadsStep(insns, at, 1, c0, c1);
    var c3 := LeadsStep(insns, at, 2, c0, c2);
    var c4 := LeadsStep(insns, at, 3, c0, c3);
    var c5 := LeadsStep(insns, at, 4, c0, c4);
    var c6 := LeadsStep(insns, at, 5, c0, c5);
    d := LeadsStep(insns, at, 6, c0, c6);
    InsideKeeps(c0, c1, d, rn, rn);
  }

  /** A magnitude is its own magnitude; only 2^31 still has its sign bit set. */
  lemma MagnitudeTwice(a: nat)
    requires a < WORD
    ensures var m := MagnitudeW(a); MagnitudeW(m) == m && (SraW(m, 31) == if m == HALF then WORD - 1 else 0)
    ensures MagnitudeW(a) == HALF <==> a == HALF
    ensures XorW(SraW(a, 31), SraW(MagnitudeW(a), 31)) != 0 <==> a > HALF
    ensures XorW(SraW(a, 31), SraW(MagnitudeW(a), 31)) < WORD
  {
    SignMask(a);
    SignMask(MagnitudeW(a));
    XorMask(0);
    XorMask(WORD - 1);
  }

  lemma SelfPrepare(insns: seq<Arm>, mod: bool, rd: nat, rn: nat, c0: Cpu) returns (d: Cpu)
    requires insns == DivArm(mod, rd, rn, rn) && c0.Ok() && Arg(rn)
    ensures Leads(insns, c0.pc, c0, d) && d.pc == c0.pc + 40 && d.Ok() && Inside(c0, d, rn, rn)
    ensures d.x[rn] == MagnitudeW(c0.x[rn]) && d.x[R8] == 0 && d.x[R9] == 1
    ensures !mod ==> (d.x[R10] != 0 <==> c0.x[rn] > HALF)
  {
    hide Leads, Inside, Word, XorW, SraW, MagnitudeW, DivArm;
    var at := c0.pc;
    DivSecond(mod, rd, rn, rn);
    var c7 := SelfMagnitude(insns, mod, rd, rn, c0);
    MagnitudeTwice(c0.x[rn]);
    MagnitudeByMask(c0.x[rn]);
    var c8 := LeadsStep(insns, at, 7, c0, c7);
    var c9 := LeadsStep(insns, at, 8, c0, c8);
    d := LeadsStep(insns, at, 9, c0, c9);
    InsideKeeps(c0, c7, d, rn, rn);
  }

  /** One subtraction of the register from itself, or none for zero. */
  lemma SelfUnsigned(insns: seq<Arm>, mod: bool, rd: nat, rn: nat, at: int, c0: Cpu, c: Cpu) returns (d: Cpu)
    requires insns == DivArm(mod, rd, rn, rn) && c0.Ok() && Arg(rn)
    requires Leads(insns, at, c0, c) && Inside(c0, c, rn, rn) && c.Ok() && c.pc == at + 40 && c.x[R8] == 0
    requires c.x[R9] == 1
    ensures Leads(insns, at, c0, d) && Inside(c0, d, rn, rn) && d.Ok() && d.pc == at + 96
    ensures d.x[R10] == c.x[R10] && d.x[rn] == 0 && d.x[R8] == if c.x[rn] == 0 then 0 else 1
  {
    hide Leads, Inside, DivArm, LoadTo, StoreFrom, SrlW, SllW;
    DivMiddle(mod, rd, rn, rn);
    DivLast(mod, rd, rn, rn);
    Targets(at + 44);
    var c1 := LeadsStep(insns, at, 10, c0, c);
    var c2 := LeadsStep(insns, at, 11, c0, c1);
    if c.x[rn] == 0 {
      d := c2;
    } else {
      var c3 := LeadsStep(insns, at, 12, c0, c2);
      var c4 := LeadsStep(insns, at, 13, c0, c3);
      var c5 := LeadsStep(insns, at, 14, c0, c4);
      var c6 := LeadsStep(insns, at, 15, c0, c5);
      var c7 := LeadsStep(insns, at, 16, c0, c6);
      var c8 := LeadsStep(insns, at, 17, c0, c7);
      var c9 := LeadsStep(insns, at, 18, c0, c8);
      var c10 := LeadsStep(insns, at, 19, c0, c9);
      var c11 := LeadsStep(insns, at, 20, c0, c10);
      ShiftByOne(0, 1);
      var c12 := LeadsStep(insns, at, 21, c0, c11);
      var c13 := LeadsStep(insns, at, 22, c0, c12);
      d := LeadsStep(insns, at, 23, c0, c13);
    }
    InsideKeeps(c0, c, d, rn, rn);
  }

  /** When one register holds both operands, the remainder is always right, but the quotient is
      right exactly if the operand is not negative, or is -2^31: otherwise it comes out as -1. */
  lemma DivideBySelf(mod: bool, rd: nat, rn: nat, c: Cpu) returns (d: Cpu)
    requires c.Ok() && Arg(rd) && Arg(rn)
    ensures Leads(DivArm(mod, rd, rn, rn), c.pc, c, d) && d.pc == c.pc + 4 * |DivArm(mod, rd, rn, rn)|
    ensures d.Get(rd) == SoftDiv(mod, c.x[rn], c.x[rn]) <==> mod || c.x[rn] <= HALF
    ensures !mod && c.x[rn] > HALF ==> Signed(d.Get(rd)) == -1
    ensures forall r :: 0 <= r < 16 && r !in {rd, R8, R9, R10} ==> d.Get(r) == c.x[r]
  {
    hide Leads, Inside, MagnitudeW, DivArm;
    var insns, a := DivArm(mod, rd, rn, rn), c.x[rn];
    var e := SelfPrepare(insns, mod, rd, rn, c);
    var e2 := SelfUnsigned(insns, mod, rd, rn, c.pc, c, e);
    d := Finish(insns, mod, rd, rn, rn, c.pc, c, e2);
    DivLast(mod, rd, rn, rn);
    MagnitudeZero(a);
    SelfQuotient(a);
  }

  /** An input that fails: -3 / -3 in one register comes out as -1. */
  lemma SelfGoesWrong(rd: nat, rn: nat, c: Cpu) returns (d: Cpu)
    requires c.Ok() && Arg(rd) && Arg(rn) && Signed(c.x[rn]) == -3
    ensures Leads(DivArm(false, rd, rn, rn), c.pc, c, d) && d.pc == c.pc + 4 * |DivArm(false, rd, rn, rn)|
    ensures Signed(d.Get(rd)) == -1 && TruncDiv(Signed(c.x[rn]), Signed(c.x[rn])) == 1
  {
    hide Leads, DivArm;
    d := DivideBySelf(false, rd, rn, c);
  }

  lemma MagnitudeZero(a: nat)
    requires a < WORD
    ensures MagnitudeW(a) == 0 <==> a == 0
  {
  }

  lemma SelfQuotient(a: nat)
    requires a < WORD
    ensures SoftDiv(true, a, a) == 0 && SoftDiv(false, a, a) == if a == 0 then 0 else 1
  {
    if a != 0 {
      var n := Abs(Signed(a));
      DivisionOf(n, n, 1, 0);
    }
  }
}
