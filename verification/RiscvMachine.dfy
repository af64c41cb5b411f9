/** A small-step semantics for the RISC-V instructions src/riscv-codegen.c emits, system calls
    excepted; it runs on encoded words. */
module RiscvMachine {
  import opened Options
  import opened Words
  import opened RiscvIsa

  const ZERO: nat := 0
  const RA: nat := 1
  const SP: nat := 2
  const GP: nat := 3
  const T0: nat := 5
  const T1: nat := 6
  const T2: nat := 7
  const S0: nat := 8
  const A0: nat := 10
  const T3: nat := 28
  const T4: nat := 29
  const T5: nat := 30

  type Byte = b: nat | b < 256

  /** A byte at every address. */
  type Memory = nat -> Byte

  function Poke(m: Memory, a: nat, v: nat): Memory
  {
    p => if p == a then v % 256 else m(p)
  }

  /** The first `n` bytes of `v`, the lowest first, from address `a` on. */
  function StoreBytes(m: Memory, a: int, v: nat, n: nat): Memory
    decreases n
  {
    if n == 0 then m else StoreBytes(Poke(m, Word(a), v), a + 1, v / 256, n - 1)
  }

  /** The number in the `n` bytes from address `a` on. */
  function LoadBytes(m: Memory, a: int, n: nat): nat
    decreases n
  {
    if n == 0 then 0 else m(Word(a)) + 256 * LoadBytes(m, a + 1, n - 1)
  }

  /** A program counter, thirty-two registers holding words, and the data memory. */
  datatype Cpu = Cpu(pc: int, x: seq<nat>, mem: Memory)
  {
    predicate Ok() {
      |x| == 32 && x[ZERO] == 0 && forall i :: 0 <= i < 32 ==> x[i] < WORD
    }

    function Get(r: nat): nat
    {
      if r < |x| then x[r] else 0
    }

    /** Write a register, register zero excepted. */
    function Put(r: nat, v: nat): Cpu
    {
      if 0 < r < |x| then this.(x := x[r := v]) else this
    }

    function Stored(a: int, v: nat, n: nat): Cpu {
      this.(mem := StoreBytes(mem, a, v, n))
    }

    function Next(): Cpu {
      this.(pc := pc + 4)
    }
  }

  function Alu(op: ROp, a: nat, b: nat): nat
    requires a < WORD && b < WORD
  {
    match op
    case Add => Word(a + b)
    case Sub => Word(a - b)
    case Xor => XorW(a, b)
    case Or => OrW(a, b)
    case And => AndW(a, b)
    case Sll => SllW(a, b % 32)
    case Srl => SrlW(a, b % 32)
    case Sra => SraW(a, b % 32)
    case Slt => Flag(Signed(a) < Signed(b))
    case Sltu => Flag(a < b)
    case Mul => Word(a * b)
    case Div => if b == 0 then WORD - 1 else Word(TruncDiv(Signed(a), Signed(b)))
    case Mod => if b == 0 then a else Word(TruncMod(Signed(a), Signed(b)))
  }

  function Taken(op: BOp, a: nat, b: nat): bool
  {
    match op
    case Beq => a == b
    case Bne => a != b
    case Blt => Signed(a) < Signed(b)
    case Bge => Signed(a) >= Signed(b)
    case Bltu => a < b
    case Bgeu => a >= b
  }

  /** What a load leaves in its register. */
  function Loaded(op: IOp, m: Memory, a: int): nat
    requires op in {Lb, Lh, Lw, Lbu, Lhu}
  {
    match op
    case Lb => Word(SignExtend(LoadBytes(m, a, 1), 8))
    case Lh => Word(SignExtend(LoadBytes(m, a, 2), 16))
    case Lw => Word(LoadBytes(m, a, 4))
    case Lbu => Word(LoadBytes(m, a, 1))
    case _ => Word(LoadBytes(m, a, 2))
  }

  function StoreSize(op: SOp): nat
  {
    match op case Sb => 1 case Sh => 2 case Sw => 4
  }

  /** One instruction; `None` for system calls. */
  function Exec(i: Rv, c: Cpu): Option<Cpu>
    requires c.Ok()
  {
    match i
    case R(op, rd, rs1, rs2) => if Regs(rd, rs1, rs2) then Some(c.Put(rd, Alu(op, c.x[rs1], c.x[rs2])).Next()) else None
    case I(op, rd, rs1, imm) =>
      if !Regs(rd, rs1, 0) then None
      else (
        match op
        case Addi => Some(c.Put(rd, Word(c.x[rs1] + imm)).Next())
        case Xori => Some(c.Put(rd, XorW(c.x[rs1], Word(imm))).Next())
        case Ori => Some(c.Put(rd, OrW(c.x[rs1], Word(imm))).Next())
        case Andi => Some(c.Put(rd, AndW(c.x[rs1], Word(imm))).Next())
        case Slti => Some(c.Put(rd, Flag(Signed(c.x[rs1]) < imm)).Next())
        case Sltiu => Some(c.Put(rd, Flag(c.x[rs1] < Word(imm))).Next())
        case Jalr => Some(c.Put(rd, Word(c.pc + 4)).(pc := Word(c.x[rs1] + imm) / 2 * 2))
        case _ => Some(c.Put(rd, Loaded(op, c.mem, c.x[rs1] + imm)).Next())
      )
    case Shift(op, rd, rs1, imm) =>
      if !Regs(rd, rs1, 0) || !(0 <= imm < 32) then None
      else (
        match op
        case Slli => Some(c.Put(rd, SllW(c.x[rs1], imm)).Next())
        case Srli => Some(c.Put(rd, SrlW(c.x[rs1], imm)).Next())
        case Srai => Some(c.Put(rd, SraW(c.x[rs1], imm)).Next())
      )
    case B(op, rs1, rs2, imm) =>
      if !Regs(0, rs1, rs2) then None
      else Some(c.(pc := if Taken(op, c.x[rs1], c.x[rs2]) then c.pc + imm else c.pc + 4))
    case Jal(rd, imm) => if Regs(rd, 0, 0) then Some(c.Put(rd, Word(c.pc + 4)).(pc := c.pc + imm)) else None
    case Lui(rd, imm) => if Regs(rd, 0, 0) then Some(c.Put(rd, Word(imm)).Next()) else None
    case S(op, rs1, rs2, imm) =>
      if Regs(0, rs1, rs2) then Some(c.Stored(c.x[rs1] + imm, c.x[rs2], StoreSize(op)).Next()) else None
    case Ecall => None
  }

  /** The instruction at an address of code that starts at `start`. */
  function Fetch(code: seq<nat>, start: int, pc: int): Option<Rv>
  {
    if start <= pc && (pc - start) % 4 == 0 && (pc - start) / 4 < |code| then Decode(code[(pc - start) / 4]) else None
  }

  ghost predicate Steps(code: seq<nat>, start: int, c: Cpu, d: Cpu)
  {
    c.Ok() && Fetch(code, start, c.pc).Some? && Exec(Fetch(code, start, c.pc).value, c) == Some(d)
  }

  /** Running the code from `c` passes through `d`. */
  ghost predicate Leads(code: seq<nat>, start: int, c: Cpu, d: Cpu)
  {
    exists run: seq<Cpu> :: IsRun(code, start, run, c, d)
  }

  ghost predicate IsRun(code: seq<nat>, start: int, run: seq<Cpu>, c: Cpu, d: Cpu)
  {
    |run| > 0 && run[0] == c && run[|run| - 1] == d && forall i ::
      0 <= i < |run| - 1 ==> Steps(code, start, run[i], run[i + 1])
  }

  lemma LeadsSelf(code: seq<nat>, start: int, c: Cpu)
    ensures Leads(code, start, c, c)
  {
    assert IsRun(code, start, [c], c, c);
  }

  lemma LeadsStep(code: seq<nat>, start: int, c: Cpu, d: Cpu, e: Cpu)
    requires Leads(code, start, c, d) && Steps(code, start, d, e)
    ensures Leads(code, start, c, e)
  {
    var run :| IsRun(code, start, run, c, d);
    assert IsRun(code, start, run + [e], c, e);
  }

  lemma LeadsOn(code: seq<nat>, start: int, c: Cpu, d: Cpu, e: Cpu)
    requires Leads(code, start, c, d) && Leads(code, start, d, e)
    ensures Leads(code, start, c, e)
  {
    var run :| IsRun(code, start, run, c, d);
    var run2 :| IsRun(code, start, run2, d, e);
    var r := run + run2[1..];
    forall i | 0 <= i < |r| - 1 ensures Steps(code, start, r[i], r[i + 1]) {
      if i >= |run| - 1 {
        assert Steps(code, start, run2[i - (|run| - 1)], run2[i - (|run| - 1) + 1]);
      } else {
        assert Steps(code, start, run[i], run[i + 1]);
      }
    }
    assert IsRun(code, start, r, c, e);
  }

  /** The words of `insns` stand at address `at`. */
  ghost predicate Holds(code: seq<nat>, start: int, at: int, insns: seq<Rv>)
  {
    forall k :: 0 <= k < |insns| ==> Fetch(code, start, at + 4 * k) == Some(insns[k])
  }

  /** One step inside a sequence that stands at `at`. */
  lemma StepInside(code: seq<nat>, start: int, at: int, insns: seq<Rv>, k: nat, c0: Cpu, c: Cpu, d: Cpu)
    requires Holds(code, start, at, insns) && k < |insns| && c.Ok() && c.pc == at + 4 * k
    requires Leads(code, start, c0, c) && Exec(insns[k], c) == Some(d)
    ensures Leads(code, start, c0, d)
  {
    hide Exec, Fetch, Leads;
    LeadsStep(code, start, c0, c, d);
  }

  // ---- memory ------------------------------------------------------------------------------------

  /** Addresses are words: only their value modulo 2^32 counts. */
  lemma {:induction false} AddressWraps(m: Memory, a: int, b: int, v: nat, n: nat)
    requires Word(a) == Word(b)
    ensures LoadBytes(m, a, n) == LoadBytes(m, b, n) && StoreBytes(m, a, v, n) == StoreBytes(m, b, v, n)
    decreases n
  {
    hide Word;
    if n > 0 {
      WordSum(a, 1);
      WordSum(b, 1);
      AddressWraps(m, a + 1, b + 1, v, n - 1);
      AddressWraps(Poke(m, Word(a), v), a + 1, b + 1, v / 256, n - 1);
    }
  }

  /** Address `p` is not one of the `n` bytes from `a` on. */
  predicate Outside(p: nat, a: int, n: nat)
    decreases n
  {
    n == 0 || (Word(a) != p && Outside(p, a + 1, n - 1))
  }

  lemma {:induction false} StoreOutside(m: Memory, a: int, v: nat, n: nat, p: nat)
    requires Outside(p, a, n)
    ensures StoreBytes(m, a, v, n)(p) == m(p)
    decreases n
  {
    hide Word;
    if n > 0 {
      StoreOutside(Poke(m, Word(a), v), a + 1, v / 256, n - 1, p);
    }
  }

  lemma {:induction false} NextOutside(a: int, d: nat, n: nat)
    requires 0 < d && d + n <= WORD
    ensures Outside(Word(a), a + d, n)
    decreases n
  {
    if n > 0 {
      hide Word;
      assert Word(a + d) != Word(a) by {
        WordIs(a);
        WordIs(a + d);
        MultipleApart((a + d) / WORD - a / WORD, WORD);
      }
      NextOutside(a, d + 1, n - 1);
    }
  }

  /** What has been stored is loaded again. */
  lemma {:induction false} LoadStored(m: Memory, a: int, v: nat, n: nat)
    requires n <= 4
    ensures LoadBytes(StoreBytes(m, a, v, n), a, n) == v % Pow2(8 * n)
    decreases n
  {
    hide Word, Pow2;
    if n > 0 {
      var m1 := Poke(m, Word(a), v);
      LoadStored(m1, a + 1, v / 256, n - 1);
      NextOutside(a, 1, n - 1);
      StoreOutside(m1, a + 1, v / 256, n - 1, Word(a));
      BytesOf(v, n);
    } else {
      Powers();
    }
  }

  lemma BytesOf(v: nat, n: nat)
    requires 0 < n <= 4
    ensures v % Pow2(8 * n) == v % 256 + 256 * (v / 256 % Pow2(8 * (n - 1)))
  {
    hide Pow2;
    Powers();
    PowerProduct(8, 8 * (n - 1));
    var p := Pow2(8 * (n - 1));
    var q, r := v / 256 / p, v / 256 % p;
    assert v / 256 == q * p + r;
    assert q * (256 * p) == 256 * (q * p);
    Quotient(v, 256 * p, q, v % 256 + 256 * r);
  }

  lemma {:induction false} LoadBound(m: Memory, a: int, n: nat)
    ensures LoadBytes(m, a, n) < Pow2(8 * n)
    decreases n
  {
    if n > 0 {
      LoadBound(m, a + 1, n - 1);
      hide Pow2;
      Powers();
      PowerProduct(8, 8 * (n - 1));
    } else {
      Powers();
    }
  }
}
