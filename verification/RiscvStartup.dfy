/** The fixed pieces of `code_generate`, src/riscv-codegen.c:485-523: the start-up code at offset 0,
    the trampoline of `__syscall` at 24 and the call of `main` before the first function. */
module RiscvStartup {
  import opened Options
  import opened Words
  import opened RiscvIsa
  import opened RiscvMachine
  import opened RiscvArith
  import opened RiscvLayout
  import opened RiscvMeaning

  /** Code generated for a laid-out program, short enough for its jumps. */
  ghost predicate Built(p: Program, m: Map, hard: bool, code: seq<nat>)
  {
    Laid(p, m, hard) && Generate(p, m, hard) == Some(code) && Fits(code, m)
  }

  lemma WordsFirst(code: seq<nat>, at: nat, a: seq<Rv>, b: seq<Rv>)
    requires WordsAt(code, at, a + b)
    ensures WordsAt(code, at, a) && WordsAt(code, at + 4 * |a|, b)
  {
    hide Encode;
    forall i | 0 <= i < |a| ensures Encode(a[i]) == Some(code[at / 4 + i]) {
      assert (a + b)[i] == a[i];
    }
    Quotient(at + 4 * |a|, 4, at / 4 + |a|, 0);
    forall i | 0 <= i < |b| ensures Encode(b[i]) == Some(code[(at + 4 * |a|) / 4 + i]) {
      assert (a + b)[|a| + i] == b[i];
    }
  }

  /** Where the three fixed pieces stand. */
  lemma FixedPieces(p: Program, m: Map, hard: bool, code: seq<nat>)
    requires Built(p, m, hard, code)
    ensures WordsAt(code, 0, Prologue(p, m)) && WordsAt(code, m.Offset(p.syscallBb), Trampoline())
    ensures var at := Base(p, hard) - MAIN_CALL_SIZE; WordsAt(code, at, MainCall(p, m, at)) && at + 24 <= 4 * |code|
    ensures m.Offset(p.syscallBb) == SYSCALL_OFFSET && m.Offset(p.globalBb) == GLOBAL_OFFSET
  {
    hide Emit, Encode, IrAt, Generate, FlatSize, SegSize, Flatten, EmitAll, EmitWords, MainCall, AllPlaced;
    var start, init, call := Pieces(p, m, hard);
    EmitWordsAppends([], Prologue(p, m) + Trampoline());
    EmitAllPlaces(p.BlockCode(p.globalBb), m, hard, start);
    EmitWordsAppends(init, MainCall(p, m, 4 * |init|));
    EmitAllPlaces(Flatten(p.Segments(p.functions)), m, hard, call);
    WordsStay(start, code, 0, Prologue(p, m) + Trampoline());
    WordsFirst(code, 0, Prologue(p, m), Trampoline());
    WordsStay(call, code, 4 * |init|, MainCall(p, m, 4 * |init|));
    MainCallSize(p, m, 4 * |init|);
  }

  lemma MainCallSize(p: Program, m: Map, at: int)
    ensures |MainCall(p, m, at)| == 6
  {
  }

  /** The start-up code sets up the frame of the globals and reaches the global initialisation:
      the block laid out at 60. */
  lemma StartsAtGlobals(p: Program, m: Map, hard: bool, code: seq<nat>, c: Cpu) returns (d: Cpu)
    requires Built(p, m, hard, code) && c.Ok() && c.pc == m.codeStart
    ensures Leads(code, m.codeStart, c, d) && d.Ok() && d.pc == m.codeStart + m.Offset(p.globalBb)
    ensures d.Get(S0) == c.Get(SP) && d.Get(SP) == Word(c.Get(SP) - p.globalFrame) && d.Get(GP) == d.Get(SP)
    ensures d.Get(RA) == Word(m.codeStart + 24)
  {
    hide Leads, Holds, Laid, Generate, Fits, Encode, WordsAt, RvHi, RvLo, Upper, Word;
    var start := m.codeStart;
    FixedPieces(p, m, hard, code);
    var insns := Prologue(p, m);
    PrologueFits(p, m);
    WordsHold(code, start, 0, insns);
    var s := CanonicalSeq(insns);
    LeadsSelf(code, start, c);
    var c1 := c.Put(S0, Word(c.x[SP] + 0)).Next();
    WordIdentity(c.x[SP]);
    StepInside(code, start, start, s, 0, c, c, c1);
    assert insns[1..3] == Wide(T0, p.globalFrame);
    var c2 := WideStep(code, start, start, insns, 1, T0, p.globalFrame, c, c1);
    var c3 := c2.Put(SP, Alu(Sub, c2.x[SP], c2.x[T0])).Next();
    StepInside(code, start, start, s, 3, c, c2, c3);
    WordDifference(c.x[SP], p.globalFrame);
    var c4 := c3.Put(GP, Word(c3.x[SP] + 0)).Next();
    WordIdentity(c3.x[SP]);
    StepInside(code, start, start, s, 4, c, c3, c4);
    d := c4.Put(RA, Word(c4.pc + 4)).(pc := c4.pc + 40);
    StepInside(code, start, start, s, 5, c, c4, d);
  }

  lemma WordIdentity(w: nat)
    requires w < WORD
    ensures Word(w + 0) == w
  {
  }

  lemma WordDifference(a: nat, b: int)
    ensures Word(a - Word(b)) == Word(a - b)
  {
    WordIs(b);
    WordShift(a - b, b / WORD);
  }

  lemma PrologueFits(p: Program, m: Map)
    requires m.Offset(p.globalBb) == GLOBAL_OFFSET
    ensures forall k :: 0 <= k < |Prologue(p, m)| ==> Encodable(Prologue(p, m)[k])
    ensures |Prologue(p, m)| == 6 && Prologue(p, m)[5] == Jal(RA, 40)
  {
    HiLo(p.globalFrame);
    hide RvHi, RvLo;
  }

  lemma MoveStep(code: seq<nat>, start: int, at: int, insns: seq<Rv>, k: nat, rd: nat, rs: nat, c0: Cpu, c: Cpu)
    requires Holds(code, start, at, insns) && k < |insns| && insns[k] == Li(rd, rs, 0) && 0 < rd < 32 && rs < 32
    requires c.Ok() && c.pc == at + 4 * k && Leads(code, start, c0, c)
    ensures Leads(code, start, c0, c.Put(rd, c.x[rs]).Next()) && c.Put(rd, c.x[rs]).Next().Ok()
  {
    hide Leads, Holds, Word;
    WordIdentity(c.x[rs]);
    StepInside(code, start, at, insns, k, c0, c, c.Put(rd, c.x[rs]).Next());
  }

  /** Register `r` when `k` of the trampoline's moves are done. */
  function Shifted(c: Cpu, k: nat, r: nat): nat
  {
    if k > 0 && r == A7 then c.Get(A0)
    else if A0 <= r < A0 + k - 1 then c.Get(r + 1)
    else c.Get(r)
  }

  lemma TrampolineMoves(code: seq<nat>, start: int, c: Cpu) returns (d: Cpu)
    requires Holds(code, start, c.pc, Trampoline()) && c.Ok()
    ensures Leads(code, start, c, d) && d.Ok() && d.pc == c.pc + 28
    ensures forall r :: 0 <= r < 32 ==> d.x[r] == Shifted(c, 7, r)
  {
    hide Leads, Holds;
    LeadsSelf(code, start, c);
    d := c;
    for k := 0 to 7
      invariant Leads(code, start, c, d) && d.Ok() && d.pc == c.pc + 4 * k
      invariant forall r :: 0 <= r < 32 ==> d.x[r] == Shifted(c, k, r)
    {
      var rd, rs := if k == 0 then A7 else A0 + k - 1, A0 + k;
      MoveStep(code, start, c.pc, Trampoline(), k, rd, rs, c, d);
      d := d.Put(rd, d.x[rs]).Next();
    }
  }

  /** The trampoline hands its arguments on one register earlier, the number in a7, and stops at
      the system call; the instruction after that returns to the caller. */
  lemma TrampolineRuns(p: Program, m: Map, hard: bool, code: seq<nat>, c: Cpu) returns (d: Cpu)
    requires Built(p, m, hard, code) && c.Ok() && c.pc == m.codeStart + m.Offset(p.syscallBb)
    ensures Leads(code, m.codeStart, c, d) && d.Ok() && d.pc == c.pc + 28
    ensures Fetch(code, m.codeStart, d.pc) == Some(Ecall)
    ensures Fetch(code, m.codeStart, d.pc + 4) == Some(I(Jalr, ZERO, RA, 0))
    ensures d.Get(A7) == c.Get(A0) && forall r {:trigger d.Get(r)} :: A0 <= r < A0 + 6 ==> d.Get(r) == c.Get(r + 1)
    ensures forall r :: 0 <= r < 32 && r != A7 && !(A0 <= r < A0 + 6) ==> d.Get(r) == c.Get(r)
  {
    hide Leads, Laid, Generate, Fits, Encode, WordsAt, Fetch;
    FixedPieces(p, m, hard, code);
    WordsHold(code, m.codeStart, SYSCALL_OFFSET, Trampoline());
    assert CanonicalSeq(Trampoline()) == Trampoline();
    d := TrampolineMoves(code, m.codeStart, c);
    HoldsThere(code, m.codeStart, c.pc, Trampoline(), 7);
    HoldsThere(code, m.codeStart, c.pc, Trampoline(), 8);
  }

  lemma HoldsThere(code: seq<nat>, start: int, at: int, insns: seq<Rv>, k: nat)
    requires Holds(code, start, at, insns) && k < |insns|
    ensures Fetch(code, start, at + 4 * k) == Some(insns[k]) && Holds(code, start, at + 4 * k, [insns[k]])
  {
    hide Fetch;
    assert Fetch(code, start, at + 4 * k + 4 * 0) == Some(insns[k]);
  }

  /** The call of `main`: with the stack pointer the program was started with in s0, a0 gets the
      word there and a1 the address behind it; control goes to the offset the entry of `main` was
      given, and the return address is that of the two instructions that end the program. */
  lemma CallsMain(p: Program, m: Map, hard: bool, code: seq<nat>, c: Cpu) returns (d: Cpu)
    requires Built(p, m, hard, code) && c.Ok() && c.pc == m.codeStart + Base(p, hard) - MAIN_CALL_SIZE
    requires p.main < |m.entry| && Placed(p, m.entry[p.main])
    ensures Leads(code, m.codeStart, c, d) && d.Ok() && d.pc == m.codeStart + m.FuncOffset(p.main) && d.mem == c.mem
    ensures d.x[A0] == LoadBytes(c.mem, c.x[S0], 4) && d.x[A1] == Word(c.x[S0] + 4) && d.x[RA] == Word(c.pc + 16)
    ensures forall r :: 0 <= r < 32 && r !in {T0, A0, A1, RA} ==> d.x[r] == c.x[r]
    ensures Fetch(code, m.codeStart, c.pc + 16) == Some(Li(A7, ZERO, 93))
    ensures Fetch(code, m.codeStart, c.pc + 20) == Some(Ecall)
  {
    hide Laid, Generate, FlatSize, MainCall, Prologue, Trampoline, WordsAt, Fits, Placed, Leads, Fetch, Word, Target;
    FixedPieces(p, m, hard, code);
    OffsetInside(p, m, hard, m.entry[p.main]);
    InTarget(code, m.FuncOffset(p.main));
    d := MainCallRuns(p, m, code, Base(p, hard) - MAIN_CALL_SIZE, c);
  }

  lemma MainCallRuns(p: Program, m: Map, code: seq<nat>, at: nat, c: Cpu) returns (d: Cpu)
    requires WordsAt(code, at, MainCall(p, m, at)) && Fits(code, m) && Target(code, m.FuncOffset(p.main))
    requires at + 24 <= 4 * |code| && c.Ok() && c.pc == m.codeStart + at
    ensures Leads(code, m.codeStart, c, d) && d.Ok() && d.pc == m.codeStart + m.FuncOffset(p.main) && d.mem == c.mem
    ensures d.x[A0] == LoadBytes(c.mem, c.x[S0], 4) && d.x[A1] == Word(c.x[S0] + 4) && d.x[RA] == Word(c.pc + 16)
    ensures forall r :: 0 <= r < 32 && r !in {T0, A0, A1, RA} ==> d.x[r] == c.x[r]
    ensures Fetch(code, m.codeStart, c.pc + 16) == Some(Li(A7, ZERO, 93))
    ensures Fetch(code, m.codeStart, c.pc + 20) == Some(Ecall)
  {
    hide Leads, Fits, Encode, WordsAt, Fetch, Word, Target, Holds, MainCall, Map.FuncOffset, Loaded, LoadBytes;
    var start := m.codeStart;
    var s := MainCallHolds(p, m, code, at);
    HoldsThere(code, start, c.pc, s, 4);
    HoldsThere(code, start, c.pc, s, 5);
    LeadsSelf(code, start, c);
    var sp: int := c.x[S0];
    MoveStep(code, start, c.pc, s, 0, T0, S0, c, c);
    var c1 := c.Put(T0, c.x[S0]).Next();
    LoadedIs(c.mem, sp + 0);
    var c2 := c1.Put(A0, LoadBytes(c.mem, sp, 4)).Next();
    StepInside(code, start, c.pc, s, 1, c, c1, c2);
    var c3 := c2.Put(A1, Word(sp + 4)).Next();
    StepInside(code, start, c.pc, s, 2, c, c2, c3);
    d := c3.Put(RA, Word(c3.pc + 4)).(pc := start + m.FuncOffset(p.main));
    StepInside(code, start, c.pc, s, 3, c, c3, d);
  }

  lemma InTarget(code: seq<nat>, ofs: int)
    requires 0 <= ofs <= 4 * |code| && ofs % 4 == 0
    ensures Target(code, ofs)
  {
  }

  lemma MainCallHolds(p: Program, m: Map, code: seq<nat>, at: nat) returns (s: seq<Rv>)
    requires WordsAt(code, at, MainCall(p, m, at)) && Fits(code, m) && Target(code, m.FuncOffset(p.main))
    requires at + 24 <= 4 * |code|
    ensures |s| == 6 && Holds(code, m.codeStart, m.codeStart + at, s)
    ensures s[0] == Li(T0, S0, 0) && s[1] == I(Lw, A0, T0, 0) && s[2] == Li(A1, T0, 4)
    ensures s[3] == Jal(RA, m.FuncOffset(p.main) - (at + 12)) && s[4] == Li(A7, ZERO, 93) && s[5] == Ecall
  {
    hide Fits, Target, Encode, Holds;
    MainCallFits(p, m, code, at);
    WordsHold(code, m.codeStart, at, MainCall(p, m, at));
    s := CanonicalSeq(MainCall(p, m, at));
  }

  lemma MainCallFits(p: Program, m: Map, code: seq<nat>, at: nat)
    requires Fits(code, m) && Target(code, m.FuncOffset(p.main)) && at % 4 == 0 && at + 24 <= 4 * |code|
    ensures forall k :: 0 <= k < |MainCall(p, m, at)| ==> Encodable(MainCall(p, m, at)[k])
  {
    DistanceFits(code, m, m.FuncOffset(p.main), at + 12);
  }
}
