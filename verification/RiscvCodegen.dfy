/** The code generator of src/riscv-codegen.c: `cfg_flatten` and `code_generate` over the running
    offset, the offset of every block and the growing code buffer. */
module RiscvCodegen {
  import opened Options
  import opened Words
  import opened RiscvIsa
  import opened RiscvLayout

  /** Some of the program's blocks have their offsets. */
  ghost predicate LaidSo(p: Program, hard: bool, segs: seq<Segment>, offsets: seq<int>)
  {
    forall k: nat :: k < |segs| ==>
      segs[k].bb < |offsets| && offsets[segs[k].bb] == Base(p, hard) + SegSize(segs[..k], hard)
  }

  lemma LayNext(p: Program, hard: bool, segs: seq<Segment>, seg: Segment, offsets: seq<int>)
    requires LaidSo(p, hard, segs, offsets) && seg.bb < |offsets| && forall k ::
      0 <= k < |segs| ==> segs[k].bb != seg.bb
    ensures LaidSo(p, hard, segs + [seg], offsets[seg.bb := Base(p, hard) + SegSize(segs, hard)])
    ensures SegSize(segs + [seg], hard) == SegSize(segs, hard) + FlatSize(seg.irs, hard)
    ensures Flatten(segs + [seg]) == Flatten(segs) + seg.irs
  {
    var more := segs + [seg];
    assert more[..|segs|] == segs;
    forall k: nat | k < |more| ensures more[..k] == segs[..k] {
    }
  }

  /** Segments of the first functions come first. */
  lemma {:induction false} SegmentsPrefix(p: Program, f: nat)
    requires f <= |p.functions|
    ensures p.Segments(p.functions[..f]) <= p.Segments(p.functions)
    decreases |p.functions| - f
  {
    if f < |p.functions| {
      SegmentsPrefix(p, f + 1);
      SegmentsNext(p, f);
    } else {
      assert p.functions[..f] == p.functions;
    }
  }

  lemma SegmentsNext(p: Program, f: nat)
    requires f < |p.functions|
    ensures p.Segments(p.functions[..f + 1]) == p.Segments(p.functions[..f]) + p.FuncSegments(p.functions[f])
  {
    assert p.functions[..f + 1][..f] == p.functions[..f];
  }

  lemma AllElsewhere(all: seq<Segment>, done: seq<Segment>, own: seq<Segment>, i: nat)
    requires done + own <= all && i < |own| && forall j, k :: 0 <= j < k < |all| ==> all[j].bb != all[k].bb
    ensures |done| + i < |all| && all[|done| + i] == own[i]
    ensures forall k :: 0 <= k < |done + own[..i]| ==> (done + own[..i])[k].bb != own[i].bb
  {
    assert all[|done| + i] == (done + own)[|done| + i];
    forall k | 0 <= k < |done + own[..i]| ensures (done + own[..i])[k].bb != own[i].bb {
      assert (done + own[..i])[k] == (done + own)[k] == all[k];
    }
  }

  /** Block `i` of function `f` is a block of its own, unlike those laid out before it. */
  lemma NewSegment(p: Program, f: nat, i: nat)
    requires p.Ok() && f < |p.functions| && i < |p.functions[f].bbs|
    ensures var segs, seg := p.Segments(p.functions[..f]) + p.FuncSegments(p.functions[f])[..i],
        p.BlockSegment(p.functions[f], i);
            && seg.bb < |p.code| && seg.bb != p.globalBb && seg.bb != p.syscallBb
            && forall k :: 0 <= k < |segs| ==> segs[k].bb != seg.bb
  {
    SegmentsPrefix(p, f + 1);
    SegmentsNext(p, f);
    var all, done := p.Segments(p.functions), p.Segments(p.functions[..f]);
    var own := p.FuncSegments(p.functions[f]);
    assert own[i] == p.BlockSegment(p.functions[f], i);
    hide p.Segments, p.BlockSegment;
    AllElsewhere(all, done, own, i);
    var n := |done| + i;
    assert all[n] in all && all[n] == own[i];
  }

  lemma FlatNext(irs: seq<Ir>, j: nat, hard: bool)
    requires j < |irs|
    ensures FlatSize(irs[..j + 1], hard) == FlatSize(irs[..j], hard) + Size(irs[j], hard)
  {
    assert irs[..j + 1][..j] == irs[..j];
  }

  lemma DefineFirst(frame: int, irs: seq<Ir>, hard: bool)
    ensures FlatSize([Define(frame)] + irs, hard) == 16 + FlatSize(irs, hard)
  {
    FlatSizeAppend([Define(frame)], irs, hard);
    assert FlatSize([Define(frame)], hard) == FlatSize([], hard) + 16;
  }

  lemma NothingToReturn(frame: int, hard: bool)
    ensures Returning([], frame) == [] && FlatSize([], hard) == 0
  {
  }

  lemma ReturningNext(insns: seq<Ir>, frame: int, j: nat)
    requires j < |insns|
    ensures Returning(insns[..j + 1], frame) == Returning(insns[..j], frame) + [PatchReturn(insns[j], frame)]
  {
    assert insns[..j + 1][..j] == insns[..j];
  }

  lemma FlatSizeOne(irs: seq<Ir>, i: Ir, hard: bool)
    ensures FlatSize(irs + [i], hard) == FlatSize(irs, hard) + Size(i, hard)
  {
    assert (irs + [i])[..|irs|] == irs;
  }

  class Generator {
    const hard: bool          // hard_mul_div
    const bbOffset: array<int> // elf_offset of every block
    var elfOffset: int
    var flat: seq<Ir>         // PH2_IR_FLATTEN
    var code: seq<nat>        // elf_code, a word at a time

    constructor (hard: bool, blocks: nat)
      ensures this.hard == hard && fresh(bbOffset) && bbOffset.Length == blocks && flat == [] && code == []
    {
      this.hard, elfOffset, flat, code := hard, 0, [], [];
      bbOffset := new int[blocks](_ => 0);
    }

    /** `update_elf_offset` */
    method UpdateElfOffset(i: Ir)
      modifies `elfOffset
      ensures elfOffset == old(elfOffset) + Size(i, hard)
    {
      match i {
        case Define(_) => elfOffset := elfOffset + 16;
        case LoadConstant(_, value) => elfOffset := elfOffset + if value < -2048 || value > 2047 then 8 else 4;
        case AddressOf(_, _, ofs) => elfOffset := elfOffset + if ofs < -2048 || ofs > 2047 then 12 else 4;
        case Load(_, _, ofs) => elfOffset := elfOffset + if ofs < -2048 || ofs > 2047 then 16 else 4;
        case Store(_, _, ofs) => elfOffset := elfOffset + if ofs < -2048 || ofs > 2047 then 16 else 4;
        case MulDiv(op, _, _, _) => elfOffset := elfOffset + if hard then 4 else if op == OpMul then 52 else 108;
        case LoadDataAddress(_, _) => elfOffset := elfOffset + 8;
        case LoadRodataAddress(_, _) => elfOffset := elfOffset + 8;
        case Binary(op, _, _, _) =>
          elfOffset := elfOffset + match op case OpEq => 12 case OpNeq => 8 case OpGeq => 8 case OpLeq => 8 case _ => 4;
        case Unary(op, _, _) => elfOffset := elfOffset + if op == OpLogNot then 8 else 4;
        case AddressOfFunc(_, _) => elfOffset := elfOffset + 12;
        case Branch(_, _, _) => elfOffset := elfOffset + 20;
        case Return(_, _) => elfOffset := elfOffset + 24;
        case Trunc(_, _, size) => elfOffset := elfOffset + if size == 2 then 8 else 4;
        case SignExt(_, _, _, source) => elfOffset := elfOffset + if source == 2 then 8 else 12;
        case _ => elfOffset := elfOffset + 4;
      }
    }

    /** The instructions of a block, returns learning the frame. */
    method FlattenInsns(insns: seq<Ir>, frame: int)
      modifies `elfOffset, `flat
      ensures flat == old(flat) + Returning(insns, frame)
      ensures elfOffset == old(elfOffset) + FlatSize(Returning(insns, frame), hard)
    {
      hide Returning, FlatSize;
      assert Returning(insns[..0], frame) == [] && FlatSize([], hard) == 0 by {
        NothingToReturn(frame, hard);
        assert insns[..0] == [];
      }
      for j := 0 to |insns|
        invariant flat == old(flat) + Returning(insns[..j], frame)
        invariant elfOffset == old(elfOffset) + FlatSize(Returning(insns[..j], frame), hard)
      {
        var insn := PatchReturn(insns[j], frame);
        flat := flat + [insn];
        UpdateElfOffset(insn);
        ReturningNext(insns, frame, j);
        FlatSizeOne(Returning(insns[..j], frame), insn, hard);
      }
      assert insns[..|insns|] == insns;
    }

    /** One block of `cfg_flatten`: its offset, the frame set-up of an entry, its instructions. */
    method FlattenBlock(p: Program, f: Function, k: nat)
      requires k < |f.bbs| && f.bbs[k] < bbOffset.Length
      modifies `elfOffset, `flat, bbOffset
      ensures var seg := p.BlockSegment(f, k);
              && bbOffset[..] == old(bbOffset[..])[seg.bb := old(elfOffset)]
              && elfOffset == old(elfOffset) + FlatSize(seg.irs, hard) && flat == old(flat) + seg.irs
    {
      hide Returning, FlatSize;
      var bb := f.bbs[k];
      bbOffset[bb] := elfOffset;
      if k == 0 {
        flat := flat + [Define(f.frame)];
        elfOffset := elfOffset + 16;
        DefineFirst(f.frame, Returning(p.BlockCode(bb), f.frame), hard);
      }
      FlattenInsns(p.BlockCode(bb), f.frame);
    }

    /** What holds between two blocks of `cfg_flatten`, with `segs` behind it. */
    ghost predicate Flattened(p: Program, segs: seq<Segment>)
      reads this, bbOffset
    {
      && bbOffset.Length == |p.code| && LaidSo(p, hard, segs, bbOffset[..])
      && elfOffset == Base(p, hard) + SegSize(segs, hard) && flat == Flatten(segs)
      && p.globalBb < bbOffset.Length && bbOffset[p.globalBb] == GLOBAL_OFFSET
      && p.syscallBb < bbOffset.Length && bbOffset[p.syscallBb] == SYSCALL_OFFSET
    }

    /** The offsets of the fixed parts and the size of the global initialisation. */
    method FlattenGlobals(p: Program)
      requires p.Ok() && bbOffset.Length == |p.code| && flat == []
      modifies `elfOffset, bbOffset
      ensures Flattened(p, [])
    {
      bbOffset[p.syscallBb] := SYSCALL_OFFSET;
      elfOffset := GLOBAL_OFFSET;
      bbOffset[p.globalBb] := elfOffset;
      var globals := p.BlockCode(p.globalBb);
      for j := 0 to |globals|
        invariant elfOffset == GLOBAL_OFFSET + FlatSize(globals[..j], hard)
        invariant bbOffset[p.globalBb] == GLOBAL_OFFSET && bbOffset[p.syscallBb] == SYSCALL_OFFSET
      {
        UpdateElfOffset(globals[j]);
        FlatNext(globals, j, hard);
      }
      assert globals[..|globals|] == globals;
      elfOffset := elfOffset + MAIN_CALL_SIZE;
    }

    /** The blocks of function `f`. */
    method FlattenFunction(p: Program, f: nat)
      requires p.Ok() && f < |p.functions| && Flattened(p, p.Segments(p.functions[..f]))
      modifies `elfOffset, `flat, bbOffset
      ensures Flattened(p, p.Segments(p.functions[..f + 1]))
    {
      hide LaidSo, Base, SegSize, Flatten, p.Segments, Program.Ok, FlatSize;
      var fn := p.functions[f];
      ghost var own, before := p.FuncSegments(fn), p.Segments(p.functions[..f]);
      ghost var segs := before;
      for i := 0 to |fn.bbs|
        invariant segs == before + own[..i] && Flattened(p, segs)
      {
        NewSegment(p, f, i);
        LayNext(p, hard, segs, own[i], bbOffset[..]);
        FlattenBlock(p, fn, i);
        segs := segs + [own[i]];
      }
      SegmentsNext(p, f);
      assert own[..|fn.bbs|] == own;
    }

    /** `cfg_flatten`: sizes everything and fixes the offset of every block. */
    method CfgFlatten(p: Program, ghost m: Map)
      requires p.Ok() && bbOffset.Length == |p.code| && flat == []
      modifies `elfOffset, `flat, bbOffset
      ensures Laid(p, m.(bbOffset := bbOffset[..]), hard) && flat == Flatten(p.Segments(p.functions))
    {
      hide Base, SegSize, Flatten, Program.Ok, FlatSize;
      assert p.functions[..0] == [];
      FlattenGlobals(p);
      for f := 0 to |p.functions|
        invariant Flattened(p, p.Segments(p.functions[..f]))
      {
        FlattenFunction(p, f);
      }
      assert p.functions[..|p.functions|] == p.functions;
    }

    /** `emit` for a list of instructions; false where an encoder stops. */
    method EmitInsns(insns: seq<Rv>) returns (ok: bool)
      modifies `code
      ensures ok <==> EmitWords(old(code), insns).Some?
      ensures ok ==> code == EmitWords(old(code), insns).value
    {
      ghost var code0 := code;
      for k := 0 to |insns|
        invariant EmitWords(code0, insns[..k]) == Some(code)
      {
        assert insns[..k + 1][..k] == insns[..k];
        match Encode(insns[k]) {
          case None =>
            EmitWordsStops(code0, insns, k + 1);
            return false;
          case Some(w) => code := code + [w];
        }
      }
      assert insns[..|insns|] == insns;
      return true;
    }

    /** `emit_ph2_ir` for each instruction of a list */
    method EmitIrs(irs: seq<Ir>, m: Map) returns (ok: bool)
      modifies `code
      ensures ok <==> EmitAll(irs, m, hard, old(code)).Some?
      ensures ok ==> code == EmitAll(irs, m, hard, old(code)).value
    {
      ghost var code0 := code;
      for k := 0 to |irs|
        invariant EmitAll(irs[..k], m, hard, code0) == Some(code)
      {
        assert irs[..k + 1][..k] == irs[..k];
        match Emit(irs[k], m, hard, 4 * |code|) {
          case None =>
            EmitAllStops(irs, m, hard, code0, k + 1);
            return false;
          case Some(insns) =>
            ok := EmitInsns(insns);
            if !ok {
              EmitAllStops(irs, m, hard, code0, k + 1);
              return;
            }
        }
      }
      assert irs[..|irs|] == irs;
      return true;
    }

    /** `code_generate` */
    method CodeGenerate(p: Program, m: Map) returns (ok: bool)
      requires code == [] && flat == Flatten(p.Segments(p.functions))
      modifies `code
      ensures ok <==> Generate(p, m, hard).Some?
      ensures ok ==> code == Generate(p, m, hard).value
    {
      hide Emit, Encode;
      ok := EmitInsns(Prologue(p, m) + Trampoline());
      if !ok { return; }
      ok := EmitIrs(p.BlockCode(p.globalBb), m);
      if !ok { return; }
      ok := EmitInsns(MainCall(p, m, 4 * |code|));
      if !ok { return; }
      ok := EmitIrs(flat, m);
    }
  }

  lemma {:induction false} EmitWordsStops(code: seq<nat>, insns: seq<Rv>, k: nat)
    requires k <= |insns| && EmitWords(code, insns[..k]) == None
    ensures EmitWords(code, insns) == None
    decreases |insns|
  {
    if k == |insns| {
      assert insns[..k] == insns;
    } else {
      assert insns[..|insns| - 1][..k] == insns[..k];
      EmitWordsStops(code, insns[..|insns| - 1], k);
    }
  }

  lemma {:induction false} EmitAllStops(irs: seq<Ir>, m: Map, hard: bool, code: seq<nat>, k: nat)
    requires k <= |irs| && EmitAll(irs[..k], m, hard, code) == None
    ensures EmitAll(irs, m, hard, code) == None
    decreases |irs|
  {
    hide Emit, EmitWords;
    if k == |irs| {
      assert irs[..k] == irs;
    } else {
      assert irs[..|irs| - 1][..k] == irs[..k];
      EmitAllStops(irs[..|irs| - 1], m, hard, code, k);
    }
  }
}
