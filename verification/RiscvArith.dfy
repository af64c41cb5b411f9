/** The multiply and divide loops that src/riscv-codegen.c:317-385 emits when the target has no
    multiplier: for every pair of words they end with the product, the quotient or the remainder. */
module RiscvArith {
  import opened Words
  import opened RiscvIsa
  import opened RiscvMachine

  function Li(rd: nat, rs: nat, imm: int): Rv { I(Addi, rd, rs, imm) }

  /** OP_mul without hardware support */
  function MulSeq(rd: nat, rs1: nat, rs2: nat): seq<Rv>
  {
    [ Li(T0, ZERO, 0), Li(T1, ZERO, 0), Li(T3, rs1, 0), Li(T4, rs2, 0),
      B(Beq, T3, ZERO, 32), B(Beq, T4, ZERO, 28), I(Andi, T1, T4, 1), B(Beq, T1, ZERO, 8),
      R(Add, T0, T0, T3), Shift(Slli, T3, T3, 1), Shift(Srli, T4, T4, 1), Jal(ZERO, -28),
      Li(rd, T0, 0) ]
  }

  /** OP_div and OP_mod without hardware support; a remainder is left in t2 and takes no sign
      from the divisor. */
  function DivSeq(mod: bool, rd: nat, rs1: nat, rs2: nat): seq<Rv>
  {
    var interm, mask := if mod then T2 else T0, if mod then ZERO else T1;
    [ Li(T2, rs1, 0), Li(T3, rs2, 0),
      Shift(Srai, T0, T2, 31), R(Add, T2, T2, T0), R(Xor, T2, T2, T0),
      Shift(Srai, T1, T3, 31), R(Add, T3, T3, T1), R(Xor, T3, T3, T1),
      R(Xor, T5, T0, mask),
      Li(T0, ZERO, 0), Li(T1, ZERO, 1),
      B(Beq, T3, ZERO, 52), B(Beq, T2, ZERO, 48),
      B(Beq, T2, T3, 20), B(Bltu, T2, T3, 16), Shift(Slli, T3, T3, 1), Shift(Slli, T1, T1, 1), Jal(ZERO, -16),
      B(Bltu, T2, T3, 12), R(Sub, T2, T2, T3), R(Add, T0, T0, T1), Shift(Srli, T1, T1, 1), Shift(Srli, T3, T3, 1),
      B(Bne, T1, ZERO, -20),
      Li(rd, interm, 0), B(Beq, T5, ZERO, 8), R(Sub, rd, ZERO, rd) ]
  }

  /** Registers the compiler gives to values: a0 to a7. */
  predicate Arg(r: nat) { A0 <= r < A0 + 8 }

  /** Nothing but `rd` and the temporaries has changed. */
  ghost predicate KeepsOthers(c: Cpu, d: Cpu, rd: nat)
  {
    && d.mem == c.mem && |d.x| == |c.x| == 32
    && forall r :: 0 <= r < 32 && r != rd && r !in {T0, T1, T2, T3, T4, T5} ==> d.x[r] == c.x[r]
  }

  lemma KeepsTransitive(c: Cpu, d: Cpu, e: Cpu, rd: nat)
    requires KeepsOthers(c, d, rd) && KeepsOthers(d, e, rd)
    ensures KeepsOthers(c, e, rd)
  {
  }

  // ---- multiplication --------------------------------------------------------------------------

  /** Inside the loop: what is still to be added makes the product. */
  ghost predicate MulState(c: Cpu, at: int, product: int)
  {
    c.Ok() && c.pc == at + 16 && Word(c.x[T0] + c.x[T3] * c.x[T4]) == Word(product)
  }

  lemma MulStart(code: seq<nat>, start: int, rd: nat, rs1: nat, rs2: nat, c: Cpu) returns (d: Cpu)
    requires Holds(code, start, c.pc, MulSeq(rd, rs1, rs2)) && c.Ok() && Arg(rs1) && Arg(rs2)
    ensures Leads(code, start, c, d) && MulState(d, c.pc, c.x[rs1] * c.x[rs2]) && KeepsOthers(c, d, rd)
  {
    hide Leads, Holds;
    var insns := MulSeq(rd, rs1, rs2);
    LeadsSelf(code, start, c);
    var c1 := c.Put(T0, 0).Next();
    StepInside(code, start, c.pc, insns, 0, c, c, c1);
    var c2 := c1.Put(T1, 0).Next();
    StepInside(code, start, c.pc, insns, 1, c, c1, c2);
    var c3 := c2.Put(T3, c.x[rs1]).Next();
    StepInside(code, start, c.pc, insns, 2, c, c2, c3);
    d := c3.Put(T4, c.x[rs2]).Next();
    StepInside(code, start, c.pc, insns, 3, c, c3, d);
  }

  /** One turn of the loop halves the multiplier and keeps the product. */
  lemma MulTurn(t0: nat, t3: nat, t4: nat)
    ensures Word(Word(t0 + (t4 % 2) * t3) + Word(t3 * 2) * (t4 / 2)) == Word(t0 + t3 * t4)
  {
    WordCongruent(t0 + (t4 % 2) * t3, t3 * 2, t4 / 2);
    var h, b := t4 / 2, t4 % 2;
    assert t4 == 2 * h + b;
    assert t3 * 2 * h == t3 * (2 * h);
    assert t3 * t4 == t3 * (2 * h) + t3 * b;
    assert t0 + b * t3 + t3 * 2 * h == t0 + t3 * t4;
  }

  /** From the loop head past the conditional addition. */
  lemma MulAdd(code: seq<nat>, start: int, rd: nat, rs1: nat, rs2: nat, at: int, c0: Cpu, c: Cpu) returns (d: Cpu)
    requires Holds(code, start, at, MulSeq(rd, rs1, rs2)) && Leads(code, start, c0, c) && c.Ok() && c.pc == at + 16
    requires c.x[T3] != 0 && c.x[T4] != 0
    ensures Leads(code, start, c0, d) && d.Ok() && d.pc == at + 36 && KeepsOthers(c, d, rd)
    ensures d.x[T0] == Word(c.x[T0] + (c.x[T4] % 2) * c.x[T3]) && d.x[T3] == c.x[T3] && d.x[T4] == c.x[T4]
  {
    hide Leads, Holds, Word, Bitwise;
    var insns := MulSeq(rd, rs1, rs2);
    var t0, t3, t4 := c.x[T0], c.x[T3], c.x[T4];
    AndOne(t4);
    SmallWord(1);
    StepInside(code, start, at, insns, 4, c0, c, c.Next());
    var c1 := c.Next().Next();
    StepInside(code, start, at, insns, 5, c0, c.Next(), c1);
    var c2 := c1.Put(T1, t4 % 2).Next();
    StepInside(code, start, at, insns, 6, c0, c1, c2);
    if t4 % 2 == 0 {
      d := c2.(pc := at + 36);
      StepInside(code, start, at, insns, 7, c0, c2, d);
      SmallWord(t0);
    } else {
      StepInside(code, start, at, insns, 7, c0, c2, c2.Next());
      d := c2.Next().Put(T0, Word(t0 + t3)).Next();
      StepInside(code, start, at, insns, 8, c0, c2.Next(), d);
    }
  }

  /** The two shifts and the jump back. */
  lemma MulShift(code: seq<nat>, start: int, rd: nat, rs1: nat, rs2: nat, at: int, c0: Cpu, c: Cpu) returns (d: Cpu)
    requires Holds(code, start, at, MulSeq(rd, rs1, rs2)) && Leads(code, start, c0, c) && c.Ok() && c.pc == at + 36
    ensures Leads(code, start, c0, d) && d.Ok() && d.pc == at + 16 && KeepsOthers(c, d, rd)
    ensures d.x[T0] == c.x[T0] && d.x[T3] == Word(c.x[T3] * 2) && d.x[T4] == c.x[T4] / 2
  {
    hide Leads, Holds, Word, Bitwise;
    var insns := MulSeq(rd, rs1, rs2);
    ShiftByOne(c.x[T3], c.x[T4]);
    var c4 := c.Put(T3, Word(c.x[T3] * 2)).Next();
    StepInside(code, start, at, insns, 9, c0, c, c4);
    var c5 := c4.Put(T4, c.x[T4] / 2).Next();
    StepInside(code, start, at, insns, 10, c0, c4, c5);
    d := c5.(pc := at + 16);
    StepInside(code, start, at, insns, 11, c0, c5, d);
  }

  lemma MulBody(code: seq<nat>, start: int, rd: nat, rs1: nat, rs2: nat, at: int, c0: Cpu, c: Cpu, product: int)
    returns (d: Cpu)
    requires Holds(code, start, at, MulSeq(rd, rs1, rs2)) && Leads(code, start, c0, c) && MulState(c, at, product)
    requires c.x[T3] != 0 && c.x[T4] != 0
    ensures Leads(code, start, c0, d) && MulState(d, at, product) && d.x[T4] < c.x[T4] && KeepsOthers(c, d, rd)
  {
    hide Leads, Holds, Word;
    var e := MulAdd(code, start, rd, rs1, rs2, at, c0, c);
    d := MulShift(code, start, rd, rs1, rs2, at, c0, e);
    KeepsTransitive(c, e, d, rd);
    MulTurn(c.x[T0], c.x[T3], c.x[T4]);
  }

  lemma {:induction false} MulLoop(code: seq<nat>, start: int, rd: nat, rs1: nat, rs2: nat, at: int, c0: Cpu, c: Cpu,
                                   product: int)
    returns (d: Cpu)
    requires Holds(code, start, at, MulSeq(rd, rs1, rs2)) && Leads(code, start, c0, c) && MulState(c, at, product)
    requires Arg(rd)
    ensures Leads(code, start, c0, d) && d.Ok() && d.pc == at + 52 && d.x[rd] == Word(product) && KeepsOthers(c, d, rd)
    decreases if |c.x| == 32 then c.x[T4] else 0
  {
    hide Leads, Holds, Word;
    var insns := MulSeq(rd, rs1, rs2);
    if c.x[T3] != 0 && c.x[T4] != 0 {
      var e := MulBody(code, start, rd, rs1, rs2, at, c0, c, product);
      d := MulLoop(code, start, rd, rs1, rs2, at, c0, e, product);
      KeepsTransitive(c, e, d, rd);
    } else {
      var out := c.(pc := at + 48);
      if c.x[T3] == 0 {
        StepInside(code, start, at, insns, 4, c0, c, out);
      } else {
        StepInside(code, start, at, insns, 4, c0, c, c.Next());
        StepInside(code, start, at, insns, 5, c0, c.Next(), out);
      }
      assert c.x[T3] * c.x[T4] == 0;
      SmallWord(c.x[T0]);
      d := out.Put(rd, c.x[T0]).Next();
      StepInside(code, start, at, insns, 12, c0, out, d);
    }
  }

  /** The emitted multiplication: the product modulo 2^32, all other registers but the
      temporaries as they were. */
  lemma SoftMultiply(code: seq<nat>, start: int, rd: nat, rs1: nat, rs2: nat, c: Cpu) returns (d: Cpu)
    requires Holds(code, start, c.pc, MulSeq(rd, rs1, rs2)) && c.Ok() && Arg(rd) && Arg(rs1) && Arg(rs2)
    ensures Leads(code, start, c, d) && d.pc == c.pc + 4 * |MulSeq(rd, rs1, rs2)| && KeepsOthers(c, d, rd)
    ensures d.x[rd] == Alu(Mul, c.x[rs1], c.x[rs2])
  {
    var c1 := MulStart(code, start, rd, rs1, rs2, c);
    d := MulLoop(code, start, rd, rs1, rs2, c.pc, c, c1, c.x[rs1] * c.x[rs2]);
    KeepsTransitive(c, c1, d, rd);
  }

  // ---- division --------------------------------------------------------------------------------

  /** t2 and t3 hold the magnitudes, t5 says whether the result is to be negated. */
  ghost predicate Prepared(c: Cpu, mod: bool, a: nat, b: nat)
  {
    && c.Ok() && a < WORD && b < WORD && c.x[T2] == MagnitudeW(a) && c.x[T3] == MagnitudeW(b)
    && (c.x[T5] != 0 <==> if mod then a >= HALF else (a >= HALF) != (b >= HALF))
  }

  // The sequence, instruction by instruction.

  lemma DivInsnsFirst(mod: bool, rd: nat, rs1: nat, rs2: nat)
    ensures var s := DivSeq(mod, rd, rs1, rs2);
            && |s| == 27 && s[0] == Li(T2, rs1, 0) && s[1] == Li(T3, rs2, 0) && s[2] == Shift(Srai, T0, T2, 31)
            && s[3] == R(Add, T2, T2, T0) && s[4] == R(Xor, T2, T2, T0) && s[5] == Shift(Srai, T1, T3, 31)
            && s[6] == R(Add, T3, T3, T1) && s[7] == R(Xor, T3, T3, T1)
            && s[8] == R(Xor, T5, T0, if mod then ZERO else T1)
  {
  }

  lemma DivInsnsMiddle(mod: bool, rd: nat, rs1: nat, rs2: nat)
    ensures var s := DivSeq(mod, rd, rs1, rs2);
            && |s| == 27 && s[9] == Li(T0, ZERO, 0) && s[10] == Li(T1, ZERO, 1) && s[11] == B(Beq, T3, ZERO, 52)
            && s[12] == B(Beq, T2, ZERO, 48) && s[13] == B(Beq, T2, T3, 20) && s[14] == B(Bltu, T2, T3, 16)
            && s[15] == Shift(Slli, T3, T3, 1) && s[16] == Shift(Slli, T1, T1, 1) && s[17] == Jal(ZERO, -16)
  {
  }

  lemma DivInsnsLast(mod: bool, rd: nat, rs1: nat, rs2: nat)
    ensures var s := DivSeq(mod, rd, rs1, rs2);
            && |s| == 27 && s[18] == B(Bltu, T2, T3, 12) && s[19] == R(Sub, T2, T2, T3) && s[20] == R(Add, T0, T0, T1)
            && s[21] == Shift(Srli, T1, T1, 1) && s[22] == Shift(Srli, T3, T3, 1) && s[23] == B(Bne, T1, ZERO, -20)
            && s[24] == Li(rd, if mod then T2 else T0, 0) && s[25] == B(Beq, T5, ZERO, 8)
            && s[26] == R(Sub, rd, ZERO, rd)
  {
  }

  lemma DivDividend(code: seq<nat>, start: int, mod: bool, rd: nat, rs1: nat, rs2: nat, c: Cpu) returns (d: Cpu)
    requires Holds(code, start, c.pc, DivSeq(mod, rd, rs1, rs2)) && c.Ok() && Arg(rs1) && Arg(rs2)
    ensures Leads(code, start, c, d) && d.Ok() && d.pc == c.pc + 20 && KeepsOthers(c, d, rd)
    ensures d.x[T2] == MagnitudeW(c.x[rs1]) && d.x[T3] == c.x[rs2] && d.x[T0] == SraW(c.x[rs1], 31)
  {
    hide Leads, Holds, Word, XorW, SraW, MagnitudeW, DivSeq;
    DivInsnsFirst(mod, rd, rs1, rs2);
    var insns, a, b := DivSeq(mod, rd, rs1, rs2), c.x[rs1], c.x[rs2];
    MagnitudeByMask(a);
    SmallWord(a);
    SmallWord(b);
    LeadsSelf(code, start, c);
    var c1 := c.Put(T2, a).Next();
    StepInside(code, start, c.pc, insns, 0, c, c, c1);
    var c2 := c1.Put(T3, b).Next();
    StepInside(code, start, c.pc, insns, 1, c, c1, c2);
    var c3 := c2.Put(T0, SraW(a, 31)).Next();
    StepInside(code, start, c.pc, insns, 2, c, c2, c3);
    var c4 := c3.Put(T2, Word(a + SraW(a, 31))).Next();
    StepInside(code, start, c.pc, insns, 3, c, c3, c4);
    MagnitudeIsWord(a);
    d := c4.Put(T2, MagnitudeW(a)).Next();
    StepInside(code, start, c.pc, insns, 4, c, c4, d);
  }

  lemma DivDivisor(code: seq<nat>, start: int, mod: bool, rd: nat, rs1: nat, rs2: nat, at: int, c0: Cpu, c: Cpu)
    returns (d: Cpu)
    requires Holds(code, start, at, DivSeq(mod, rd, rs1, rs2)) && Leads(code, start, c0, c) && c.Ok() && c.pc == at + 20
    ensures Leads(code, start, c0, d) && d.Ok() && d.pc == at + 32 && KeepsOthers(c, d, rd)
    ensures d.x[T3] == MagnitudeW(c.x[T3]) && d.x[T1] == SraW(c.x[T3], 31) && d.x[T0] == c.x[T0] && d.x[T2] == c.x[T2]
  {
    hide Leads, Holds, Word, XorW, SraW, MagnitudeW, DivSeq;
    DivInsnsFirst(mod, rd, rs1, rs2);
    var insns, b := DivSeq(mod, rd, rs1, rs2), c.x[T3];
    MagnitudeByMask(b);
    MagnitudeIsWord(b);
    var c5 := c.Put(T1, SraW(b, 31)).Next();
    StepInside(code, start, at, insns, 5, c0, c, c5);
    var c6 := c5.Put(T3, Word(b + SraW(b, 31))).Next();
    StepInside(code, start, at, insns, 6, c0, c5, c6);
    d := c6.Put(T3, MagnitudeW(b)).Next();
    StepInside(code, start, at, insns, 7, c0, c6, d);
  }

  lemma DivPrepare(code: seq<nat>, start: int, mod: bool, rd: nat, rs1: nat, rs2: nat, c: Cpu) returns (d: Cpu)
    requires Holds(code, start, c.pc, DivSeq(mod, rd, rs1, rs2)) && c.Ok() && Arg(rs1) && Arg(rs2)
    ensures Leads(code, start, c, d) && Prepared(d, mod, c.x[rs1], c.x[rs2]) && KeepsOthers(c, d, rd)
    ensures d.pc == c.pc + 44 && d.x[T0] == 0 && d.x[T1] == 1
  {
    hide Leads, Holds, Word, XorW, SraW, MagnitudeW, DivSeq;
    DivInsnsFirst(mod, rd, rs1, rs2);
    DivInsnsMiddle(mod, rd, rs1, rs2);
    var insns, at := DivSeq(mod, rd, rs1, rs2), c.pc;
    var e := DivDividend(code, start, mod, rd, rs1, rs2, c);
    var e2 := DivDivisor(code, start, mod, rd, rs1, rs2, at, c, e);
    KeepsTransitive(c, e, e2, rd);
    SignOfResult(mod, c.x[rs1], c.x[rs2]);
    SmallWord(0);
    SmallWord(1);
    var c8 := e2.Put(T5, XorW(SraW(c.x[rs1], 31), if mod then 0 else SraW(c.x[rs2], 31))).Next();
    StepInside(code, start, at, insns, 8, c, e2, c8);
    var c9 := c8.Put(T0, 0).Next();
    StepInside(code, start, at, insns, 9, c, c8, c9);
    d := c9.Put(T1, 1).Next();
    StepInside(code, start, at, insns, 10, c, c9, d);
  }

  /** The doubling phase, at its head: t3 is the divisor times a power of two. */
  ghost predicate Doubling(c: Cpu, at: int, n: nat, dv: nat, k: nat)
  {
    && c.Ok() && c.pc == at + 52 && 0 < n <= HALF && 0 < dv
    && c.x[T0] == 0 && c.x[T1] == Pow2(k) && c.x[T2] == n && c.x[T3] == dv * Pow2(k)
  }

  /** The subtracting phase, at its head: quotient so far, remainder so far. */
  ghost predicate Subtracting(c: Cpu, at: int, n: nat, dv: nat, k: nat)
  {
    && c.Ok() && c.pc == at + 72 && n <= HALF && 0 < dv
    && c.x[T1] == Pow2(k) && c.x[T3] == dv * Pow2(k)
    && n == c.x[T0] * dv + c.x[T2] && c.x[T2] < 2 * c.x[T3]
  }

  lemma DoublingTurn(code: seq<nat>, start: int, mod: bool, rd: nat, rs1: nat, rs2: nat, at: int, c0: Cpu, c: Cpu,
                     n: nat, dv: nat, k: nat) returns (d: Cpu)
    requires Holds(code, start, at, DivSeq(mod, rd, rs1, rs2)) && Leads(code, start, c0, c) && Doubling(c, at, n, dv, k)
    requires c.x[T2] > c.x[T3]
    ensures Leads(code, start, c0, d) && Doubling(d, at, n, dv, k + 1) && KeepsOthers(c, d, rd) && d.x[T5] == c.x[T5]
  {
    hide Leads, Holds, Word, Pow2, DivSeq;
    DivInsnsMiddle(mod, rd, rs1, rs2);
    var insns := DivSeq(mod, rd, rs1, rs2);
    StepInside(code, start, at, insns, 13, c0, c, c.Next());
    var c1 := c.Next().Next();
    StepInside(code, start, at, insns, 14, c0, c.Next(), c1);
    ShiftByOne(c.x[T3], 0);
    ShiftByOne(c.x[T1], 0);
    DoublingFits(dv, k, n);
    var c2 := c1.Put(T3, dv * Pow2(k + 1)).Next();
    StepInside(code, start, at, insns, 15, c0, c1, c2);
    var c3 := c2.Put(T1, Pow2(k + 1)).Next();
    StepInside(code, start, at, insns, 16, c0, c2, c3);
    d := c3.(pc := at + 52);
    StepInside(code, start, at, insns, 17, c0, c3, d);
  }

  lemma {:induction false} DoublingLoop(code: seq<nat>, start: int, mod: bool, rd: nat, rs1: nat, rs2: nat, at: int,
                                        c0: Cpu,
                                        c: Cpu, n: nat, dv: nat, k: nat) returns (d: Cpu, k2: nat)
    requires Holds(code, start, at, DivSeq(mod, rd, rs1, rs2)) && Leads(code, start, c0, c) && Doubling(c, at, n, dv, k)
    ensures Leads(code, start, c0, d) && Subtracting(d, at, n, dv, k2) && KeepsOthers(c, d, rd) && d.x[T5] == c.x[T5]
    decreases if |c.x| == 32 && c.x[T2] > c.x[T3] then c.x[T2] - c.x[T3] else 0
  {
    hide Leads, Holds, DivSeq;
    DivInsnsMiddle(mod, rd, rs1, rs2);
    var insns := DivSeq(mod, rd, rs1, rs2);
    if c.x[T2] > c.x[T3] {
      var e := DoublingTurn(code, start, mod, rd, rs1, rs2, at, c0, c, n, dv, k);
      assert e.x[T3] > c.x[T3] by {
        assert dv * Pow2(k + 1) == dv * (2 * Pow2(k)) == 2 * (dv * Pow2(k));
      }
      d, k2 := DoublingLoop(code, start, mod, rd, rs1, rs2, at, c0, e, n, dv, k + 1);
      KeepsTransitive(c, e, d, rd);
    } else {
      d, k2 := c.(pc := at + 72), k;
      if c.x[T2] == c.x[T3] {
        StepInside(code, start, at, insns, 13, c0, c, d);
      } else {
        StepInside(code, start, at, insns, 13, c0, c, c.Next());
        StepInside(code, start, at, insns, 14, c0, c.Next(), d);
      }
    }
  }

  /** The conditional subtraction, up to the two shifts. */
  lemma SubtractOnce(code: seq<nat>, start: int, mod: bool, rd: nat, rs1: nat, rs2: nat, at: int, c0: Cpu, c: Cpu,
                     n: nat, dv: nat, k: nat) returns (d: Cpu)
    requires Holds(code, start, at, DivSeq(mod, rd, rs1, rs2)) && Leads(code, start, c0, c)
    requires Subtracting(c, at, n, dv, k)
    ensures Leads(code, start, c0, d) && d.Ok() && d.pc == at + 84 && KeepsOthers(c, d, rd) && d.x[T5] == c.x[T5]
    ensures d.x[T1] == c.x[T1] && d.x[T3] == c.x[T3] && d.x[T2] < d.x[T3] && n == d.x[T0] * dv + d.x[T2]
  {
    hide Leads, Holds, Word, Pow2, DivSeq;
    DivInsnsLast(mod, rd, rs1, rs2);
    var insns := DivSeq(mod, rd, rs1, rs2);
    if c.x[T2] < c.x[T3] {
      d := c.(pc := at + 84);
      StepInside(code, start, at, insns, 18, c0, c, d);
    } else {
      StepInside(code, start, at, insns, 18, c0, c, c.Next());
      SmallWord(c.x[T2] - c.x[T3]);
      var c1 := c.Next().Put(T2, c.x[T2] - c.x[T3]).Next();
      StepInside(code, start, at, insns, 19, c0, c.Next(), c1);
      QuotientFits(c.x[T0], c.x[T1], c.x[T2] - c.x[T3], dv, n);
      SmallWord(c.x[T0] + c.x[T1]);
      d := c1.Put(T0, c.x[T0] + c.x[T1]).Next();
      StepInside(code, start, at, insns, 20, c0, c1, d);
    }
  }

  /** The rest of a turn: back to the head with half the power, or out after the last one. */
  lemma HalveOnce(code: seq<nat>, start: int, mod: bool, rd: nat, rs1: nat, rs2: nat, at: int, c0: Cpu, c: Cpu,
                  dv: nat, k: nat)
    returns (d: Cpu)
    requires Holds(code, start, at, DivSeq(mod, rd, rs1, rs2)) && Leads(code, start, c0, c) && c.Ok() && c.pc == at + 84
    requires c.x[T1] == Pow2(k) && c.x[T3] == dv * Pow2(k)
    ensures Leads(code, start, c0, d) && d.Ok() && KeepsOthers(c, d, rd) && d.x[T5] == c.x[T5]
    ensures d.x[T0] == c.x[T0] && d.x[T2] == c.x[T2]
    ensures if k > 0 then d.pc == at + 72 && d.x[T1] == Pow2(k - 1) && d.x[T3] == dv * Pow2(k - 1) else d.pc == at + 96
  {
    hide Leads, Holds, Word, DivSeq, SrlW, SllW;
    DivInsnsLast(mod, rd, rs1, rs2);
    var insns := DivSeq(mod, rd, rs1, rs2);
    ShiftByOne(0, c.x[T1]);
    ShiftByOne(0, c.x[T3]);
    var c1 := c.Put(T1, c.x[T1] / 2).Next();
    StepInside(code, start, at, insns, 21, c0, c, c1);
    var c2 := c1.Put(T3, c.x[T3] / 2).Next();
    StepInside(code, start, at, insns, 22, c0, c1, c2);
    if k > 0 {
      assert dv * Pow2(k) == 2 * (dv * Pow2(k - 1));
      d := c2.(pc := at + 72);
    } else {
      d := c2.Next();
    }
    StepInside(code, start, at, insns, 23, c0, c2, d);
  }

  lemma {:induction false} SubtractLoop(code: seq<nat>, start: int, mod: bool, rd: nat, rs1: nat, rs2: nat, at: int,
                                        c0: Cpu,
                                        c: Cpu, n: nat, dv: nat, k: nat) returns (d: Cpu)
    requires Holds(code, start, at, DivSeq(mod, rd, rs1, rs2)) && Leads(code, start, c0, c)
    requires Subtracting(c, at, n, dv, k)
    ensures Leads(code, start, c0, d) && d.Ok() && d.pc == at + 96 && KeepsOthers(c, d, rd) && d.x[T5] == c.x[T5]
    ensures n == d.x[T0] * dv + d.x[T2] && d.x[T2] < dv
    decreases k
  {
    hide Leads, Holds, Word;
    var e := SubtractOnce(code, start, mod, rd, rs1, rs2, at, c0, c, n, dv, k);
    var e2 := HalveOnce(code, start, mod, rd, rs1, rs2, at, c0, e, dv, k);
    KeepsTransitive(c, e, e2, rd);
    if k > 0 {
      assert dv * Pow2(k) == 2 * (dv * Pow2(k - 1));
      d := SubtractLoop(code, start, mod, rd, rs1, rs2, at, c0, e2, n, dv, k - 1);
      KeepsTransitive(c, e2, d, rd);
    } else {
      d := e2;
    }
  }

  /** The unsigned part: quotient in t0, remainder in t2; nothing happens for a zero divisor. */
  lemma DivUnsigned(code: seq<nat>, start: int, mod: bool, rd: nat, rs1: nat, rs2: nat, at: int, c0: Cpu, c: Cpu,
                    a: nat, b: nat)
    returns (d: Cpu)
    requires Holds(code, start, at, DivSeq(mod, rd, rs1, rs2)) && Leads(code, start, c0, c)
    requires Prepared(c, mod, a, b) && c.pc == at + 44 && c.x[T0] == 0 && c.x[T1] == 1
    ensures Leads(code, start, c0, d) && d.Ok() && d.pc == at + 96 && KeepsOthers(c, d, rd) && d.x[T5] == c.x[T5]
    ensures var n, dv := MagnitudeW(a), MagnitudeW(b);
            if dv == 0 then d.x[T0] == 0 && d.x[T2] == n
            else n == d.x[T0] * dv + d.x[T2] && d.x[T2] < dv
  {
    hide Leads, Holds, Word, DivSeq;
    DivInsnsMiddle(mod, rd, rs1, rs2);
    var insns, n, dv := DivSeq(mod, rd, rs1, rs2), MagnitudeW(a), MagnitudeW(b);
    MagnitudeIsWord(a);
    var out := c.(pc := at + 96);
    if dv == 0 {
      d := out;
      StepInside(code, start, at, insns, 11, c0, c, d);
    } else {
      StepInside(code, start, at, insns, 11, c0, c, c.Next());
      if n == 0 {
        d := out;
        StepInside(code, start, at, insns, 12, c0, c.Next(), d);
      } else {
        var c1 := c.Next().Next();
        StepInside(code, start, at, insns, 12, c0, c.Next(), c1);
        Powers();
        var e, k := DoublingLoop(code, start, mod, rd, rs1, rs2, at, c0, c1, n, dv, 0);
        d := SubtractLoop(code, start, mod, rd, rs1, rs2, at, c0, e, n, dv, k);
        KeepsTransitive(c, c1, e, rd);
        KeepsTransitive(c, e, d, rd);
      }
    }
  }

  /** The last three instructions: pick the result and negate it if need be. */
  lemma DivFinish(code: seq<nat>, start: int, mod: bool, rd: nat, rs1: nat, rs2: nat, at: int, c0: Cpu, c: Cpu)
    returns (d: Cpu)
    requires Holds(code, start, at, DivSeq(mod, rd, rs1, rs2)) && Leads(code, start, c0, c) && c.Ok()
    requires c.pc == at + 96 && Arg(rd)
    ensures Leads(code, start, c0, d) && d.Ok() && d.pc == at + 108 && KeepsOthers(c, d, rd)
    ensures var m: int := if mod then c.x[T2] else c.x[T0]; d.x[rd] == if c.x[T5] != 0 then Word(0 - m) else Word(m)
  {
    hide Leads, Holds, Word, DivSeq;
    DivInsnsLast(mod, rd, rs1, rs2);
    var insns := DivSeq(mod, rd, rs1, rs2);
    var m: int := if mod then c.x[T2] else c.x[T0];
    SmallWord(m);
    var c1 := c.Put(rd, m).Next();
    StepInside(code, start, at, insns, 24, c0, c, c1);
    if c.x[T5] != 0 {
      StepInside(code, start, at, insns, 25, c0, c1, c1.Next());
      d := c1.Next().Put(rd, Word(0 - m)).Next();
      StepInside(code, start, at, insns, 26, c0, c1.Next(), d);
    } else {
      d := c1.(pc := at + 108);
      StepInside(code, start, at, insns, 25, c0, c1, d);
    }
  }

  /** The emitted division: truncated quotient or remainder as C99 section 6.5.5 defines them,
      with INT_MIN / -1 wrapping and a zero divisor giving 0 and the dividend. */
  lemma SoftDivide(code: seq<nat>, start: int, mod: bool, rd: nat, rs1: nat, rs2: nat, c: Cpu) returns (d: Cpu)
    requires Holds(code, start, c.pc, DivSeq(mod, rd, rs1, rs2)) && c.Ok() && Arg(rd) && Arg(rs1) && Arg(rs2)
    ensures Leads(code, start, c, d) && d.pc == c.pc + 4 * |DivSeq(mod, rd, rs1, rs2)| && KeepsOthers(c, d, rd)
    ensures d.x[rd] == SoftDiv(mod, c.x[rs1], c.x[rs2])
  {
    hide Leads, Holds, Word;
    var a, b := c.x[rs1], c.x[rs2];
    var e := DivPrepare(code, start, mod, rd, rs1, rs2, c);
    var e2 := DivUnsigned(code, start, mod, rd, rs1, rs2, c.pc, c, e, a, b);
    KeepsTransitive(c, e, e2, rd);
    d := DivFinish(code, start, mod, rd, rs1, rs2, c.pc, c, e2);
    KeepsTransitive(c, e2, d, rd);
    SignedResult(mod, a, b, e2.x[T0], e2.x[T2]);
  }
}
