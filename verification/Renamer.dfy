/** `new_name`, `rename_var`, `pop_name` and `bb_solve_phi_params` of src/ssa.c: renaming with
    one stack of subscripts per variable, in a walk over the dominator tree. */
module Renaming {
  import opened Cfg
  import opened Options
  import opened Dfs
  import opened Dominators
  import opened DomLinks
  import opened PhiPlacement
  import opened SsaForm

  function Top(s: seq<nat>): Option<nat>
  {
    if s == [] then None else Some(s[|s| - 1])
  }

  function Tops(stacks: seq<seq<nat>>): (r: seq<Option<nat>>)
    ensures |r| == |stacks| && forall x :: 0 <= x < |stacks| ==> r[x] == Top(stacks[x])
  {
    seq(|stacks|, x requires 0 <= x < |stacks| => Top(stacks[x]))
  }

  /** Subscripts of `x` that the definitions in `insns` have pushed, oldest first. */
  ghost function Pushed(insns: seq<Insn>, x: nat): seq<nat>
  {
    if insns == [] then []
    else
      var last, rest := Def(insns[|insns| - 1]), Pushed(insns[..|insns| - 1], x);
      if last.Some? && last.value.base == x && last.value.sub.Some? then rest + [last.value.sub.value] else rest
  }

  /** Before renaming no name carries a subscript. */
  predicate PlainName(o: Option<Name>, n: nat)
  {
    o.Some? ==> o.value.base < n && o.value.sub == None
  }

  predicate Plain(insns: seq<Insn>, n: nat)
  {
    forall j :: 0 <= j < |insns| ==>
      PlainName(Def(insns[j]), n) && (insns[j].Op? ==> PlainName(insns[j].rs1, n) && PlainName(insns[j].rs2, n))
  }

  type Sites = map<(nat, nat), (nat, nat)>

  /** Every definition of a local variable in block `b` is the recorded site of its subscript. */
  ghost predicate DefsSited(insns: seq<Insn>, b: nat, sites: Sites, isGlobal: seq<bool>)
  {
    forall i :: 0 <= i < |insns| && Def(insns[i]).Some? ==> DefSited(Def(insns[i]).value, b, i, sites, isGlobal)
  }

  ghost predicate DefSited(n: Name, b: nat, i: nat, sites: Sites, isGlobal: seq<bool>)
  {
    n.base < |isGlobal| ==>
      if isGlobal[n.base] then n.sub == None
      else n.sub.Some? && (n.base, n.sub.value) in sites && sites[(n.base, n.sub.value)] == (b, i)
  }

  ghost predicate SitesBelow(sites: Sites, counter: seq<nat>)
  {
    forall key: (nat, nat) :: key in sites ==> key.0 < |counter| && key.1 < counter[key.0]
  }

  ghost predicate AllSited(code: seq<seq<Insn>>, outs: map<nat, seq<Option<nat>>>, sites: Sites, isGlobal: seq<bool>)
  {
    forall b: nat :: b in outs && b < |code| ==> DefsSited(code[b], b, sites, isGlobal)
  }

  /** Each version has one defining instruction. */
  lemma OneDefinition(code: seq<seq<Insn>>, outs: map<nat, seq<Option<nat>>>, sites: Sites, isGlobal: seq<bool>,
                      b: nat, i: nat, b2: nat, i2: nat)
    requires AllSited(code, outs, sites, isGlobal)
    requires b in outs && b < |code| && i < |code[b]| && b2 in outs && b2 < |code| && i2 < |code[b2]|
    requires Def(code[b][i]).Some? && Def(code[b2][i2]) == Def(code[b][i])
    requires Def(code[b][i]).value.base < |isGlobal| && !isGlobal[Def(code[b][i]).value.base]
    ensures b == b2 && i == i2
  {
    assert DefsSited(code[b], b, sites, isGlobal) && DefsSited(code[b2], b2, sites, isGlobal);
    assert DefSited(Def(code[b][i]).value, b, i, sites, isGlobal);
    assert DefSited(Def(code[b2][i2]).value, b2, i2, sites, isGlobal);
  }

  lemma SitedGrows(insns: seq<Insn>, b: nat, sites: Sites, isGlobal: seq<bool>, counter: seq<nat>, x: nat,
                   at: (nat, nat))
    requires DefsSited(insns, b, sites, isGlobal) && SitesBelow(sites, counter) && x < |counter|
    ensures DefsSited(insns, b, sites[(x, counter[x]) := at], isGlobal)
  {
    var sites2 := sites[(x, counter[x]) := at];
    forall i | 0 <= i < |insns| && Def(insns[i]).Some?
      ensures DefSited(Def(insns[i]).value, b, i, sites2, isGlobal)
    {
      assert DefSited(Def(insns[i]).value, b, i, sites, isGlobal);
    }
  }

  // ---- renaming one block -----------------------------------------------------------------

  /** Progress of the first loop of `bb_solve_phi_params` after `j` instructions. */
  ghost predicate Progress(src: seq<Insn>, cur: seq<Insn>, j: nat, st0: seq<seq<nat>>, st: seq<seq<nat>>)
  {
    && |cur| == |src| && j <= |src| && |st| == |st0|
    && (forall i :: 0 <= i < j ==> InsnRenamed(src[i], cur[i], cur[..i], Tops(st0)))
    && (forall i :: j <= i < |src| ==> cur[i] == src[i])
    && (forall x: nat :: x < |st| ==> Top(st[x]) == LastDef(cur[..j], x, Top(st0[x])))
    && (forall x: nat :: x < |st| ==> st[x] == st0[x] + Pushed(cur[..j], x))
  }

  lemma ProgressStart(src: seq<Insn>, st: seq<seq<nat>>)
    ensures Progress(src, src, 0, st, st)
  {
    assert src[..0] == [];
  }

  lemma ProgressAt(src: seq<Insn>, cur: seq<Insn>, j: nat, st0: seq<seq<nat>>, st: seq<seq<nat>>)
    requires Progress(src, cur, j, st0, st)
    ensures |cur| == |src| && j <= |src| && (j < |src| ==> cur[j] == src[j])
  {
  }

  /** Renaming the `j`-th instruction, with the stacks before and after it. */
  lemma ProgressStep(src: seq<Insn>, cur: seq<Insn>, j: nat, st0: seq<seq<nat>>, st: seq<seq<nat>>, dst: Insn,
                     st2: seq<seq<nat>>)
    requires Progress(src, cur, j, st0, st) && j < |src| && |st2| == |st|
    requires InsnRenamed(src[j], dst, cur[..j], Tops(st0))
    requires forall x: nat :: x < |st| ==>
      st2[x] == if Def(dst).Some? && Def(dst).value.base == x && Def(dst).value.sub.Some?
                then st[x] + [Def(dst).value.sub.value] else st[x]
    requires Def(dst).Some? && Def(dst).value.base < |st| && Def(dst).value.sub == None ==>
      st[Def(dst).value.base] == []
    ensures Progress(src, cur[j := dst], j + 1, st0, st2)
  {
    hide InsnRenamed;
    var cur2 := cur[j := dst];
    forall x: nat | x < |st|
      ensures Top(st2[x]) == LastDef(cur2[..j + 1], x, Top(st0[x])) && st2[x] == st0[x] + Pushed(cur2[..j + 1], x)
    {
      assert cur2[..j + 1][..j] == cur[..j];
      assert Top(st[x]) == LastDef(cur[..j], x, Top(st0[x])) && st[x] == st0[x] + Pushed(cur[..j], x);
    }
    forall i | 0 <= i < j + 1 ensures InsnRenamed(src[i], cur2[i], cur2[..i], Tops(st0)) {
      assert cur2[..i] == cur[..i];
    }
  }

  lemma ProgressDone(src: seq<Insn>, cur: seq<Insn>, st0: seq<seq<nat>>, st: seq<seq<nat>>)
    requires Progress(src, cur, |src|, st0, st)
    ensures BlockRenamed(src, cur, Tops(st0)) && BlockOut(cur, Tops(st0), Tops(st))
    ensures forall x: nat :: x < |st| ==> st[x] == st0[x] + Pushed(cur, x)
  {
    assert cur[..|src|] == cur;
  }

  ghost predicate RenamedOperand(o: Option<Name>, r: Option<Name>, stacks: seq<seq<nat>>)
  {
    if o == None then r == None
    else o.value.base < |stacks| && r == Some(Name(o.value.base, Top(stacks[o.value.base])))
  }

  /** A definition of a local variable takes the next subscript and pushes it. */
  ghost predicate NewDef(o: Option<Name>, r: Option<Name>, isGlobal: seq<bool>, cnt0: seq<nat>, st0: seq<seq<nat>>,
                         cnt: seq<nat>, st: seq<seq<nat>>)
  {
    if o == None || (o.value.base < |isGlobal| && isGlobal[o.value.base]) then r == o && cnt == cnt0 && st == st0
    else (var x := o.value.base;
          x < |isGlobal| == |cnt0| == |st0| && r == Some(Name(x, Some(cnt0[x])))
          && cnt == cnt0[x := cnt0[x] + 1] && st == st0[x := st0[x] + [cnt0[x]]])
  }

  /** The new definition gets its site recorded. */
  ghost function Record(sites: Sites, o: Option<Name>, isGlobal: seq<bool>, cnt0: seq<nat>, at: (nat, nat)): Sites
    requires |cnt0| == |isGlobal| && (o.Some? ==> o.value.base < |isGlobal|)
  {
    if o.Some? && !isGlobal[o.value.base] then sites[(o.value.base, cnt0[o.value.base]) := at] else sites
  }

  lemma RecordKeeps(code: seq<seq<Insn>>, outs: map<nat, seq<Option<nat>>>, sites: Sites, isGlobal: seq<bool>,
                    insns: seq<Insn>, b: nat, o: Option<Name>, r: Option<Name>,
                    cnt0: seq<nat>, st0: seq<seq<nat>>, cnt: seq<nat>, st: seq<seq<nat>>, j: nat)
    requires AllSited(code, outs, sites, isGlobal) && SitesBelow(sites, cnt0) && |cnt0| == |isGlobal|
    requires o.Some? ==> o.value.base < |isGlobal| && o.value.sub == None
    requires NewDef(o, r, isGlobal, cnt0, st0, cnt, st)
    requires j < |insns| && DefsSited(insns[..j], b, sites, isGlobal) && Def(insns[j]) == r
    ensures var sites2 := Record(sites, o, isGlobal, cnt0, (b, j));
      && AllSited(code, outs, sites2, isGlobal) && SitesBelow(sites2, cnt)
      && DefsSited(insns[..j + 1], b, sites2, isGlobal)
  {
    var sites2 := Record(sites, o, isGlobal, cnt0, (b, j));
    if o.Some? && !isGlobal[o.value.base] {
      var x := o.value.base;
      forall c: nat | c in outs && c < |code| ensures DefsSited(code[c], c, sites2, isGlobal) {
        assert DefsSited(code[c], c, sites, isGlobal);
        SitedGrows(code[c], c, sites, isGlobal, cnt0, x, (b, j));
      }
      SitedGrows(insns[..j], b, sites, isGlobal, cnt0, x, (b, j));
    } else {
      assert forall c: nat :: c in outs && c < |code| ==> DefsSited(code[c], c, sites, isGlobal);
    }
    forall i | 0 <= i < j + 1 && Def(insns[i]).Some? ensures DefSited(Def(insns[i]).value, b, i, sites2, isGlobal) {
      if i < j { assert insns[..j][i] == insns[i]; }
    }
  }

  lemma AllSitedMore(code: seq<seq<Insn>>, outs: map<nat, seq<Option<nat>>>, sites: Sites, isGlobal: seq<bool>,
                     b: nat, dst: seq<Insn>, out: seq<Option<nat>>)
    requires AllSited(code, outs, sites, isGlobal) && b !in outs && b < |code| && DefsSited(dst, b, sites, isGlobal)
    ensures AllSited(code[b := dst], outs[b := out], sites, isGlobal)
  {
  }

  lemma NoneSited(b: nat, sites: Sites, isGlobal: seq<bool>)
    ensures DefsSited([], b, sites, isGlobal)
  {
  }

  lemma OutSize(dst: seq<Insn>, inn: seq<Option<nat>>, out: seq<Option<nat>>)
    requires BlockOut(dst, inn, out)
    ensures |out| == |inn|
  {
  }

  /** A block that is not above `c` enters `outs`. */
  lemma InOfKeeps(t: DomTree, init: seq<Option<nat>>, outs: map<nat, seq<Option<nat>>>, c: nat, b: nat,
                  out: seq<Option<nat>>)
    requires c == t.entry || t.Up(c) != b
    ensures InOf(t, init, outs[b := out], c) == InOf(t, init, outs, c)
  {
  }

  /** A freshly renamed block enters `outs`. */
  lemma RenamedMore(t: DomTree, init: seq<Option<nat>>, src: seq<seq<Insn>>, code: seq<seq<Insn>>,
                    outs: map<nat, seq<Option<nat>>>, b: nat, dst: seq<Insn>, out: seq<Option<nat>>)
    requires Renamed(t, init, src, code, outs) && b !in outs && b < |src|
    requires b == t.entry || t.Up(b) in outs
    requires BlockRenamed(src[b], dst, InOf(t, init, outs, b)) && BlockOut(dst, InOf(t, init, outs, b), out)
    requires |InOf(t, init, outs, b)| == |init| && (b != t.entry ==> t.Up(b) != b)
    ensures Renamed(t, init, src, code[b := dst], outs[b := out])
  {
    hide BlockRenamed, BlockOut, InOf, DomTree.Up;
    OutSize(dst, InOf(t, init, outs, b), out);
    var outs2, code2 := outs[b := out], code[b := dst];
    forall c: nat | c in outs2
      ensures c < |src| && (c == t.entry || t.Up(c) in outs2) && |outs2[c]| == |init|
        && BlockRenamed(src[c], code2[c], InOf(t, init, outs2, c))
        && BlockOut(code2[c], InOf(t, init, outs2, c), outs2[c])
    {
      assert c != b ==> c in outs;
      InOfKeeps(t, init, outs, c, b, out);
    }
  }

  lemma PhisExtend(g: Graph, src: seq<seq<Insn>>, ops: seq<seq<seq<PhiOp>>>, outs: map<nat, seq<Option<nat>>>,
                   filled: set<nat>, b: nat, out: seq<Option<nat>>)
    requires |src| == |g| && PhisOk(g, src, ops, outs, filled) && b !in outs
    ensures PhisOk(g, src, ops, outs[b := out], filled)
  {
    forall c: nat, j | c < |src| && 0 <= j < |src[c]| && src[c][j].Phi?
      ensures OperandsOk(g, outs[b := out], filled, c, src[c][j].dest.base, ops[c][j])
    {
      assert OperandsOk(g, outs, filled, c, src[c][j].dest.base, ops[c][j]);
    }
  }

  // ---- phi operands ------------------------------------------------------------------------

  /** Every phi of block `s` has an operand from block `a`. */
  ghost predicate HasFrom(src: seq<seq<Insn>>, ops: seq<seq<seq<PhiOp>>>, s: nat, j: int, a: nat)
  {
    s < |src| && s < |ops| && |src[s]| == |ops[s]| && j <= |src[s]| &&
    forall i :: 0 <= i < j && src[s][i].Phi? ==> FromIn(ops[s][i], a)
  }

  ghost predicate FromIn(ops: seq<PhiOp>, a: nat)
  {
    exists k :: 0 <= k < |ops| && ops[k].from == a
  }

  /** Operand lists only grow. */
  ghost predicate Grown(ops: seq<seq<seq<PhiOp>>>, ops2: seq<seq<seq<PhiOp>>>)
  {
    |ops| == |ops2| && forall b: nat :: b < |ops| ==> GrownBlock(ops[b], ops2[b])
  }

  ghost predicate GrownBlock(ops: seq<seq<PhiOp>>, ops2: seq<seq<PhiOp>>)
  {
    |ops| == |ops2| && forall i :: 0 <= i < |ops| ==> ops[i] <= ops2[i]
  }

  lemma GrownKeeps(src: seq<seq<Insn>>, ops: seq<seq<seq<PhiOp>>>, ops2: seq<seq<seq<PhiOp>>>, s: nat, j: int, a: nat)
    requires Grown(ops, ops2) && HasFrom(src, ops, s, j, a)
    ensures HasFrom(src, ops2, s, j, a)
  {
    assert GrownBlock(ops[s], ops2[s]);
    forall i | 0 <= i < j && src[s][i].Phi? ensures FromIn(ops2[s][i], a) {
      assert FromIn(ops[s][i], a);
      var k :| 0 <= k < |ops[s][i]| && ops[s][i][k].from == a;
      assert ops2[s][i][k] == ops[s][i][k];
    }
  }

  lemma GrownTransitive(o1: seq<seq<seq<PhiOp>>>, o2: seq<seq<seq<PhiOp>>>, o3: seq<seq<seq<PhiOp>>>)
    requires Grown(o1, o2) && Grown(o2, o3)
    ensures Grown(o1, o3)
  {
    forall b: nat | b < |o1| ensures GrownBlock(o1[b], o3[b]) {
      assert GrownBlock(o1[b], o2[b]) && GrownBlock(o2[b], o3[b]);
      forall i | 0 <= i < |o1[b]| ensures o1[b][i] <= o3[b][i] {
        assert o1[b][i] <= o2[b][i] && o2[b][i] <= o3[b][i];
      }
    }
  }

  /** `append_phi_operand` for the `j`-th instruction of block `s`. */
  ghost function AppendAt(ops: seq<seq<seq<PhiOp>>>, s: nat, j: nat, op: PhiOp): seq<seq<seq<PhiOp>>>
    requires s < |ops| && j < |ops[s]|
  {
    ops[s := ops[s][j := ops[s][j] + [op]]]
  }

  lemma AppendKeeps(g: Graph, src: seq<seq<Insn>>, ops: seq<seq<seq<PhiOp>>>, outs: map<nat, seq<Option<nat>>>,
                    filled: set<nat>, a: nat, s: nat, j: nat, sub: Option<nat>)
    requires |src| == |g| && PhisOk(g, src, ops, outs, filled) && Edge(g, a, s) && a in outs
    requires s < |src| && j < |src[s]| && src[s][j].Phi? && src[s][j].dest.base < |outs[a]|
    requires outs[a][src[s][j].dest.base].Some? ==> sub == outs[a][src[s][j].dest.base]
    ensures s < |ops| && j < |ops[s]|
    ensures var ops2 := AppendAt(ops, s, j, PhiOp(a, sub));
      PhisOk(g, src, ops2, outs, filled) && Grown(ops, ops2) && FromIn(ops2[s][j], a)
  {
    var ops2: seq<seq<seq<PhiOp>>> := AppendAt(ops, s, j, PhiOp(a, sub));
    assert ops2[s][j][|ops[s][j]|].from == a;
    forall c: nat, i | c < |src| && 0 <= i < |src[c]| && src[c][i].Phi?
      ensures OperandsOk(g, outs, filled, c, src[c][i].dest.base, ops2[c][i])
    {
      assert OperandsOk(g, outs, filled, c, src[c][i].dest.base, ops[c][i]);
      if c == s && i == j {
        forall z: nat | z in filled && Edge(g, z, c) ensures exists k ::
          0 <= k < |ops2[c][i]| && ops2[c][i][k].from == z {
          var k :| 0 <= k < |ops[c][i]| && ops[c][i][k].from == z;
          assert ops2[c][i][k] == ops[c][i][k];
        }
      }
    }
  }

  /** When all successors of `a` have their operands, `a` counts as filled. */
  lemma FillDone(g: Graph, src: seq<seq<Insn>>, ops: seq<seq<seq<PhiOp>>>, outs: map<nat, seq<Option<nat>>>,
                 filled: set<nat>, a: nat)
    requires WellFormed(g) && |src| == |g| && PhisOk(g, src, ops, outs, filled)
    requires forall s: nat :: Edge(g, a, s) ==> s < |src| && HasFrom(src, ops, s, |src[s]|, a)
    ensures PhisOk(g, src, ops, outs, filled + {a})
  {
    forall c: nat, i | c < |src| && 0 <= i < |src[c]| && src[c][i].Phi?
      ensures OperandsOk(g, outs, filled + {a}, c, src[c][i].dest.base, ops[c][i])
    {
      assert OperandsOk(g, outs, filled, c, src[c][i].dest.base, ops[c][i]);
      if Edge(g, a, c) {
        assert HasFrom(src, ops, c, |src[c]|, a);
        assert FromIn(ops[c][i], a);
      }
    }
  }

  /** Renaming keeps which instructions are phis, and of which variables. */
  lemma PhiShape(t: DomTree, init: seq<Option<nat>>, src: seq<seq<Insn>>, code: seq<seq<Insn>>,
                 outs: map<nat, seq<Option<nat>>>, b: nat)
    requires Renamed(t, init, src, code, outs) && b < |src|
    ensures |code[b]| == |src[b]|
    ensures forall j :: 0 <= j < |src[b]| ==>
      ((code[b][j].Phi? <==> src[b][j].Phi?) && (src[b][j].Phi? ==> code[b][j].dest.base == src[b][j].dest.base))
  {
    if b in outs {
      forall j | 0 <= j < |src[b]| ensures (code[b][j].Phi? <==> src[b][j].Phi?)
        && (src[b][j].Phi? ==> code[b][j].dest.base == src[b][j].dest.base)
      {
        assert InsnRenamed(src[b][j], code[b][j], code[b][..j], InOf(t, init, outs, b));
      }
    }
  }

  lemma EdgeInside(g: Graph, a: nat, s: nat)
    requires WellFormed(g) && Edge(g, a, s)
    ensures s < |g|
  {
  }

  lemma HasFromNone(src: seq<seq<Insn>>, ops: seq<seq<seq<PhiOp>>>, s: nat, a: nat)
    requires s < |src| == |ops| && |src[s]| == |ops[s]|
    ensures HasFrom(src, ops, s, 0, a)
  {
  }

  lemma GrownSelf(ops: seq<seq<seq<PhiOp>>>)
    ensures Grown(ops, ops)
  {
  }

  lemma OpsShape(g: Graph, src: seq<seq<Insn>>, ops: seq<seq<seq<PhiOp>>>, outs: map<nat, seq<Option<nat>>>,
                 filled: set<nat>)
    requires |src| == |g| && PhisOk(g, src, ops, outs, filled)
    ensures |ops| == |src| && forall b: nat :: b < |src| ==> |ops[b]| == |src[b]|
  {
  }

  // ---- popping ---------------------------------------------------------------------------

  lemma {:induction false} PushedMono(insns: seq<Insn>, j: nat, x: nat)
    requires j <= |insns|
    ensures |Pushed(insns[..j], x)| <= |Pushed(insns, x)|
  {
    if j == |insns| {
      assert insns[..j] == insns;
    } else {
      var init := insns[..|insns| - 1];
      PushedMono(init, j, x);
      assert init[..j] == insns[..j];
    }
  }

  lemma PushedNext(insns: seq<Insn>, j: nat, x: nat)
    requires j < |insns|
    ensures var d := Def(insns[j]);
      |Pushed(insns[..j + 1], x)| == |Pushed(insns[..j], x)| +
        (if d.Some? && d.value.base == x && d.value.sub.Some? then 1 else 0)
    ensures |Pushed(insns[..j + 1], x)| <= |Pushed(insns, x)|
  {
    PushedMono(insns, j + 1, x);
    assert insns[..j + 1][..j] == insns[..j];
  }

  // ---- subtrees of the dominator tree ------------------------------------------------------

  ghost function Subtree(t: DomTree, b: nat): (r: set<nat>)
    requires t.Valid() && t.Done(b)
    ensures forall v: nat {:trigger v in r} :: v in r <==> t.Done(v) && b in t.Chain(v)
  {
    set v | v in UpTo(|t.idom|) && t.Done(v) && b in t.Chain(v)
  }

  ghost function Subtrees(t: DomTree, bs: seq<nat>): set<nat>
    requires t.Valid() && forall i :: 0 <= i < |bs| ==> t.Done(bs[i])
  {
    if bs == [] then {} else Subtrees(t, bs[..|bs| - 1]) + Subtree(t, bs[|bs| - 1])
  }

  lemma {:induction false} SubtreesIntro(t: DomTree, bs: seq<nat>, i: nat, v: nat)
    requires t.Valid() && (forall k :: 0 <= k < |bs| ==> t.Done(bs[k])) && i < |bs| && v in Subtree(t, bs[i])
    ensures v in Subtrees(t, bs)
  {
    if i < |bs| - 1 {
      SubtreesIntro(t, bs[..|bs| - 1], i, v);
    }
  }

  lemma {:induction false} SubtreesElim(t: DomTree, bs: seq<nat>, v: nat) returns (i: nat)
    requires t.Valid() && (forall k :: 0 <= k < |bs| ==> t.Done(bs[k])) && v in Subtrees(t, bs)
    ensures i < |bs| && v in Subtree(t, bs[i])
  {
    if v in Subtree(t, bs[|bs| - 1]) {
      i := |bs| - 1;
    } else {
      i := SubtreesElim(t, bs[..|bs| - 1], v);
    }
  }

  lemma {:induction false} ChildOnChain(t: DomTree, b: nat, v: nat) returns (c: nat)
    requires t.Valid() && t.Done(b) && t.Done(v) && b in t.Chain(v) && v != b
    ensures t.Done(c) && c != t.entry && t.Up(c) == b && c in t.Chain(v)
    decreases t.rpo[v]
  {
    if t.Up(v) == b {
      c := v;
    } else {
      c := ChildOnChain(t, b, t.Up(v));
    }
  }

  lemma ChildrenDone(t: DomTree, children: seq<seq<nat>>, b: nat)
    requires t.Valid() && ChildLists(t, children) && t.Done(b)
    ensures b < |children| && forall k :: 0 <= k < |children[b]| ==> t.Done(children[b][k])
  {
    forall k | 0 <= k < |children[b]| ensures t.Done(children[b][k]) {
      assert children[b][k] in children[b];
    }
  }

  /** A subtree is its root and the subtrees of the children. */
  lemma SubtreeSplits(t: DomTree, children: seq<seq<nat>>, b: nat)
    requires t.Valid() && ChildLists(t, children) && t.Done(b)
    requires forall i :: 0 <= i < |children[b]| ==> t.Done(children[b][i])
    ensures Subtree(t, b) == {b} + Subtrees(t, children[b])
  {
    forall v: nat | v in Subtree(t, b) ensures v in {b} + Subtrees(t, children[b]) {
      if v != b {
        var c := ChildOnChain(t, b, v);
        assert c in children[b];
        var i :| 0 <= i < |children[b]| && children[b][i] == c;
        SubtreesIntro(t, children[b], i, v);
      }
    }
    forall v: nat | v in Subtrees(t, children[b]) ensures v in Subtree(t, b) {
      var i := SubtreesElim(t, children[b], v);
      var c := children[b][i];
      assert c in children[b] && t.Up(c) == b;
      assert b in t.Chain(c);
      ChainTransitive(t, c, v);
    }
  }

  /** The blocks renamed when the first `i` children of `b` are finished. */
  ghost function ChildKeys(t: DomTree, children: seq<seq<nat>>, b: nat, keys: set<nat>, i: nat): set<nat>
    requires t.Valid() && ChildLists(t, children) && t.Done(b) && i <= |children[b]|
  {
    ChildrenDone(t, children, b);
    keys + {b} + Subtrees(t, children[b][..i])
  }

  lemma AllChildKeys(t: DomTree, children: seq<seq<nat>>, b: nat, keys: set<nat>)
    requires t.Valid() && ChildLists(t, children) && t.Done(b)
    ensures ChildKeys(t, children, b, keys, 0) == keys + {b}
    ensures ChildKeys(t, children, b, keys, |children[b]|) == keys + Subtree(t, b)
  {
    ChildrenDone(t, children, b);
    SubtreeSplits(t, children, b);
    assert children[b][..|children[b]|] == children[b];
  }

  /** Subtrees of different children of one block are disjoint. */
  lemma ListedChild(t: DomTree, children: seq<seq<nat>>, b: nat, i: nat)
    requires t.Valid() && ChildLists(t, children) && t.Done(b) && i < |children[b]|
    ensures var c := children[b][i]; t.Done(c) && c != t.entry && t.Up(c) == b && t.rpo[b] < t.rpo[c]
  {
    assert children[b][i] in children[b];
  }

  /** A block is not in the subtree of its child. */
  lemma ParentAbove(t: DomTree, b: nat, c: nat, v: nat)
    requires t.Valid() && t.Done(b) && t.Done(c) && t.rpo[b] < t.rpo[c] && v in Subtree(t, c)
    ensures v != b
  {
  }

  lemma SiblingsApart(t: DomTree, children: seq<seq<nat>>, b: nat, i: nat, v: nat)
    requires t.Valid() && ChildLists(t, children) && t.Done(b) && i < |children[b]|
    requires forall k :: 0 <= k < |children[b]| ==> t.Done(children[b][k])
    requires v in Subtree(t, children[b][i])
    ensures v !in Subtrees(t, children[b][..i])
  {
    hide Subtree, Subtrees;
    ListedChild(t, children, b, i);
    if v in Subtrees(t, children[b][..i]) {
      var k := SubtreesElim(t, children[b][..i], v);
      ListedChild(t, children, b, k);
      ChildrenApart(t, b, children[b][i], children[b][k], v);
    }
  }

  lemma ChildrenApart(t: DomTree, b: nat, c: nat, d: nat, v: nat)
    requires t.Valid() && t.Done(c) && t.Done(d) && c != d && c != t.entry && d != t.entry && t.Up(c) == b == t.Up(d)
    ensures !(v in Subtree(t, c) && v in Subtree(t, d))
  {
    if v in Subtree(t, c) && v in Subtree(t, d) {
      if t.rpo[c] <= t.rpo[d] {
        ChainLinear(t, c, d, v);
      } else {
        ChainLinear(t, d, c, v);
      }
    }
  }

  class Renamer {
    const g: Graph
    const domNext: seq<seq<nat>>
    const isGlobal: seq<bool>
    const insns: array<seq<Insn>>
    const phiOps: array<seq<seq<PhiOp>>> // phi_ops of every instruction of every block
    const counter: array<nat>            // rename.counter of every variable
    const stack: array<seq<nat>>         // rename.stack of every variable
    ghost const t: DomTree
    ghost const src: seq<seq<Insn>>      // the function before renaming
    ghost const init: seq<Option<nat>>   // the subscripts at the function entry
    ghost var outs: map<nat, seq<Option<nat>>>
    ghost var sites: Sites

    ghost predicate Shaped()
    {
      && WellFormed(g) && t.Valid() && |g| == |t.idom| == |src| && ChildLists(t, domNext)
      && insns.Length == phiOps.Length == |g| && counter.Length == stack.Length == |isGlobal| == |init|
      && (forall b: nat :: b < |src| ==> Plain(src[b], |isGlobal|))
    }

    ghost predicate GlobalsEmpty()
      requires Shaped()
      reads stack
    {
      forall x: nat :: x < stack.Length && isGlobal[x] ==> stack[x] == []
    }

    /** `new_name` on the base name `n`. */
    method NewName(n: Name) returns (r: Name)
      requires Shaped() && n.base < |isGlobal| && n.sub == None
      modifies counter, stack
      ensures isGlobal[n.base] ==> r == n && counter[..] == old(counter[..]) && stack[..] == old(stack[..])
      ensures NewDef(Some(n), Some(r), isGlobal, old(counter[..]), old(stack[..]), counter[..], stack[..])
    {
      if isGlobal[n.base] {
        return n;
      }
      var i := counter[n.base];
      counter[n.base] := i + 1;
      stack[n.base] := stack[n.base] + [i];
      return Name(n.base, Some(i));
    }

    /** `rename_var` on the base name `n`: the subscript on top of the stack, or the base name
        itself when there is no definition yet. */
    method RenameVar(n: Name) returns (r: Name)
      requires Shaped() && GlobalsEmpty() && n.base < |isGlobal| && n.sub == None
      ensures r == Name(n.base, Top(stack[n.base]))
    {
      if isGlobal[n.base] {
        return n;
      }
      if |stack[n.base]| < 1 {
        return n;
      }
      return Name(n.base, Some(stack[n.base][|stack[n.base]| - 1]));
    }

    method RenameOperand(o: Option<Name>) returns (r: Option<Name>)
      requires Shaped() && GlobalsEmpty() && PlainName(o, |isGlobal|)
      ensures RenamedOperand(o, r, stack[..])
    {
      if o == None {
        return None;
      }
      var n := RenameVar(o.value);
      return Some(n);
    }

    /** The body of the first loop of `bb_solve_phi_params`: operands first, then the result. */
    method RenameInsn(i: Insn) returns (r: Insn)
      requires Shaped() && GlobalsEmpty()
      requires PlainName(Def(i), |isGlobal|) && (i.Op? ==> PlainName(i.rs1, |isGlobal|) && PlainName(i.rs2, |isGlobal|))
      modifies counter, stack
      ensures GlobalsEmpty()
      ensures r.Phi? <==> i.Phi?
      ensures i.Op? ==> RenamedOperand(i.rs1, r.rs1, old(stack[..])) && RenamedOperand(i.rs2, r.rs2, old(stack[..]))
      ensures NewDef(Def(i), Def(r), isGlobal, old(counter[..]), old(stack[..]), counter[..], stack[..])
    {
      match i {
        case Phi(d) =>
          var n := NewName(d);
          r := Phi(n);
        case Op(rd, rs1, rs2) =>
          var a := RenameOperand(rs1);
          var b := RenameOperand(rs2);
          var d := rd;
          if rd.Some? {
            var n := NewName(rd.value);
            d := Some(n);
          }
          r := Op(d, a, b);
      }
    }

    /** What holds between the calls; `filled` are the blocks whose outgoing phi operands have
        been appended. */
    ghost predicate Consistent(filled: set<nat>)
      reads this, insns, phiOps, counter, stack
    {
      && Shaped() && GlobalsEmpty()
      && Renamed(t, init, src, insns[..], outs)
      && PhisOk(g, src, phiOps[..], outs, filled)
      && AllSited(insns[..], outs, sites, isGlobal) && SitesBelow(sites, counter[..])
    }

    /** The first loop of `bb_solve_phi_params`. */
    method RenameInsns(bb: nat)
      requires Shaped() && GlobalsEmpty() && bb < |g| && insns[bb] == src[bb]
      requires AllSited(insns[..], outs, sites, isGlobal) && SitesBelow(sites, counter[..])
      modifies insns, counter, stack, `sites
      ensures GlobalsEmpty() && insns[..] == old(insns[..])[bb := insns[bb]] && |insns[bb]| == |src[bb]|
      ensures Progress(src[bb], insns[bb], |src[bb]|, old(stack[..]), stack[..])
      ensures AllSited(old(insns[..]), outs, sites, isGlobal) && SitesBelow(sites, counter[..])
      ensures DefsSited(insns[bb], bb, sites, isGlobal)
    {
      hide Progress, AllSited, SitesBelow, NewDef, ChildLists, WellFormed, DefsSited;
      ghost var code0, st0 := insns[..], stack[..];
      ProgressStart(src[bb], st0);
      NoneSited(bb, sites, isGlobal);
      assert insns[bb][..0] == [];
      var j := 0;
      while j < |insns[bb]|
        invariant GlobalsEmpty() && insns[..] == code0[bb := insns[bb]]
        invariant Progress(src[bb], insns[bb], j, st0, stack[..]) && |insns[bb]| == |src[bb]| && j <= |src[bb]|
        invariant AllSited(code0, outs, sites, isGlobal) && SitesBelow(sites, counter[..])
        invariant DefsSited(insns[bb][..j], bb, sites, isGlobal)
      {
        ghost var cur, cnt, st := insns[bb], counter[..], stack[..];
        var i := insns[bb][j];
        ProgressAt(src[bb], cur, j, st0, st);
        var r := RenameInsn(i);
        insns[bb] := insns[bb][j := r];
        StepIsProgress(src[bb], cur, j, st0, st, r, stack[..], cnt, counter[..]);
        assert insns[bb][..j] == cur[..j];
        RecordKeeps(code0, outs, sites, isGlobal, insns[bb], bb, Def(i), Def(r), cnt, st, counter[..], stack[..], j);
        sites := Record(sites, Def(i), isGlobal, cnt, (bb, j));
        j := j + 1;
      }
      assert insns[bb][..|insns[bb]|] == insns[bb];
    }

    /** The same with the renamed block entered among the finished ones. */
    method RenameBlock(bb: nat)
      requires Consistent(outs.Keys) && bb < |g| && bb !in outs && t.Done(bb)
      requires (bb == t.entry || t.Up(bb) in outs) && Tops(stack[..]) == InOf(t, init, outs, bb)
      modifies insns, counter, stack, `outs, `sites
      ensures Consistent(old(outs).Keys) && outs == old(outs)[bb := Tops(stack[..])]
      ensures insns[..] == old(insns[..])[bb := insns[bb]] && |insns[bb]| == |src[bb]|
      ensures forall x: nat :: x < stack.Length ==> stack[x] == old(stack[x]) + Pushed(insns[bb], x)
    {
      hide PhisOk, BlockRenamed, BlockOut, DefsSited, ChildLists, Plain;
      ghost var code0, st0 := insns[..], stack[..];
      assert insns[bb] == src[bb];
      RenamedFacts(bb);
      hide Progress, AllSited, SitesBelow, Renamed;
      RenameInsns(bb);
      ProgressDone(src[bb], insns[bb], st0, stack[..]);
      RenamedMore(t, init, src, code0, outs, bb, insns[bb], Tops(stack[..]));
      AllSitedMore(code0, outs, sites, isGlobal, bb, insns[bb], Tops(stack[..]));
      PhisExtend(g, src, phiOps[..], outs, outs.Keys, bb, Tops(stack[..]));
      outs := outs[bb := Tops(stack[..])];
    }

    lemma RenamedFacts(bb: nat)
      requires Shaped() && bb < |g| && t.Done(bb) && (bb == t.entry || t.Up(bb) in outs)
      requires Renamed(t, init, src, insns[..], outs)
      ensures |InOf(t, init, outs, bb)| == |init| && (bb != t.entry ==> t.Up(bb) != bb)
    {
    }

    lemma StepIsProgress(s: seq<Insn>, cur: seq<Insn>, j: nat, st0: seq<seq<nat>>, st: seq<seq<nat>>, r: Insn,
                         st2: seq<seq<nat>>, cnt: seq<nat>, cnt2: seq<nat>)
      requires Progress(s, cur, j, st0, st) && j < |s| && Plain(s, |isGlobal|) && |st| == |isGlobal| == |cnt|
      requires forall x: nat :: x < |st| && isGlobal[x] ==> st[x] == []
      requires r.Phi? <==> s[j].Phi?
      requires s[j].Op? ==> RenamedOperand(s[j].rs1, r.rs1, st) && RenamedOperand(s[j].rs2, r.rs2, st)
      requires NewDef(Def(s[j]), Def(r), isGlobal, cnt, st, cnt2, st2)
      ensures Progress(s, cur[j := r], j + 1, st0, st2)
    {
      assert InsnRenamed(s[j], r, cur[..j], Tops(st0));
      ProgressStep(s, cur, j, st0, st, r, st2);
    }

    /** `append_phi_operand` for the `j`-th instruction of block `s`: with an empty rename stack the
        operand is the phi's own destination, renamed by then or not. */
    method AppendPhiOperand(bb: nat, s: nat, j: nat, ghost filled: set<nat>)
      requires Shaped() && PhisOk(g, src, phiOps[..], outs, filled) && bb in outs && Tops(stack[..]) == outs[bb]
      requires Edge(g, bb, s) && s < |src| && j < |src[s]| && |insns[s]| == |src[s]|
      requires src[s][j].Phi? && insns[s][j].Phi? && insns[s][j].dest.base == src[s][j].dest.base
      modifies phiOps
      ensures PhisOk(g, src, phiOps[..], outs, filled) && Grown(old(phiOps[..]), phiOps[..])
      ensures FromIn(phiOps[s][j], bb)
    {
      var x := insns[s][j].dest.base;
      assert Plain(src[s], |isGlobal|) && PlainName(Def(src[s][j]), |isGlobal|);
      var sub := if |stack[x]| < 1 then insns[s][j].dest.sub else Some(stack[x][|stack[x]| - 1]);
      assert outs[bb][x].Some? ==> sub == outs[bb][x];
      ghost var ops := phiOps[..];
      AppendKeeps(g, src, ops, outs, filled, bb, s, j, sub);
      hide PhisOk, Grown, FromIn, ChildLists, WellFormed;
      phiOps[s] := phiOps[s][j := phiOps[s][j] + [PhiOp(bb, sub)]];
      assert phiOps[..] == AppendAt(ops, s, j, PhiOp(bb, sub));
    }

    /** The body of the operand loops. */
    method AppendIfPhi(bb: nat, s: nat, j: nat, ghost filled: set<nat>)
      requires Shaped() && PhisOk(g, src, phiOps[..], outs, filled) && bb in outs && Tops(stack[..]) == outs[bb]
      requires Edge(g, bb, s) && s < |src| && j < |src[s]| && |insns[s]| == |src[s]|
      requires insns[s][j].Phi? <==> src[s][j].Phi?
      requires src[s][j].Phi? ==> insns[s][j].dest.base == src[s][j].dest.base
      requires HasFrom(src, phiOps[..], s, j, bb)
      modifies phiOps
      ensures PhisOk(g, src, phiOps[..], outs, filled) && Grown(old(phiOps[..]), phiOps[..])
      ensures HasFrom(src, phiOps[..], s, j + 1, bb)
    {
      hide PhisOk, Grown, FromIn, ChildLists, WellFormed;
      ghost var ops := phiOps[..];
      GrownSelf(ops);
      if insns[s][j].Phi? {
        AppendPhiOperand(bb, s, j, filled);
        GrownKeeps(src, ops, phiOps[..], s, j, bb);
      }
    }

    /** One of the three operand loops of `bb_solve_phi_params`. */
    method AppendOperands(bb: nat, o: Option<nat>, ghost filled: set<nat>)
      requires Consistent(filled) && bb in outs && Tops(stack[..]) == outs[bb]
      requires o.Some? ==> Edge(g, bb, o.value)
      modifies phiOps
      ensures Consistent(filled) && Grown(old(phiOps[..]), phiOps[..])
      ensures o.Some? ==> o.value < |src| && HasFrom(src, phiOps[..], o.value, |src[o.value]|, bb)
    {
      hide Renamed, AllSited, SitesBelow, PhisOk, Grown, FromIn, ChildLists, WellFormed, HasFrom, Plain;
      ghost var ops0 := phiOps[..];
      GrownSelf(ops0);
      if o == None {
        return;
      }
      var s := o.value;
      EdgeInside(g, bb, s);
      PhiShape(t, init, src, insns[..], outs, s);
      OpsShape(g, src, ops0, outs, filled);
      HasFromNone(src, ops0, s, bb);
      var j := 0;
      while j < |insns[s]|
        invariant 0 <= j <= |insns[s]| && PhisOk(g, src, phiOps[..], outs, filled)
        invariant Grown(ops0, phiOps[..]) && HasFrom(src, phiOps[..], s, j, bb)
      {
        ghost var ops := phiOps[..];
        AppendIfPhi(bb, s, j, filled);
        GrownTransitive(ops0, ops, phiOps[..]);
        j := j + 1;
      }
    }

    /** The three operand loops together. */
    method FillOperands(bb: nat, ghost filled: set<nat>)
      requires Consistent(filled) && bb in outs && bb < |g| && Tops(stack[..]) == outs[bb]
      modifies phiOps
      ensures Consistent(filled + {bb})
    {
      AppendOperands(bb, g[bb].next, filled);
      ghost var o1 := phiOps[..];
      AppendOperands(bb, g[bb].then_, filled);
      ghost var o2 := phiOps[..];
      AppendOperands(bb, g[bb].else_, filled);
      forall s: nat | Edge(g, bb, s) ensures s < |src| && HasFrom(src, phiOps[..], s, |src[s]|, bb) {
        if g[bb].next == Some(s) {
          GrownKeeps(src, o1, o2, s, |src[s]|, bb);
          GrownKeeps(src, o2, phiOps[..], s, |src[s]|, bb);
        } else if g[bb].then_ == Some(s) {
          GrownKeeps(src, o2, phiOps[..], s, |src[s]|, bb);
        }
      }
      FillDone(g, src, phiOps[..], outs, filled, bb);
    }

    /** The last loop of `bb_solve_phi_params`: `pop_name` for every definition of the block. */
    method PopBlock(bb: nat, ghost base: seq<seq<nat>>)
      requires Shaped() && bb < |g| && |base| == |isGlobal|
      requires forall i :: 0 <= i < |insns[bb]| && Def(insns[bb][i]).Some? ==>
        Def(insns[bb][i]).value.base < |isGlobal| &&
        (Def(insns[bb][i]).value.sub.Some? <==> !isGlobal[Def(insns[bb][i]).value.base])
      requires forall x: nat :: x < |base| ==> stack[x] == base[x] + Pushed(insns[bb], x)
      modifies stack
      ensures stack[..] == base
    {
      ghost var all := insns[bb];
      var j := 0;
      while j < |insns[bb]|
        invariant 0 <= j <= |all|
        invariant forall x: nat :: x < |base| ==>
          |Pushed(all[..j], x)| <= |Pushed(all, x)| &&
          stack[x] == base[x] + Pushed(all, x)[..|Pushed(all, x)| - |Pushed(all[..j], x)|]
      {
        forall x: nat | x < |base|
          ensures var d := Def(all[j]);
            |Pushed(all[..j + 1], x)| == |Pushed(all[..j], x)| +
              (if d.Some? && d.value.base == x && d.value.sub.Some? then 1 else 0)
          ensures |Pushed(all[..j + 1], x)| <= |Pushed(all, x)|
        {
          PushedNext(all, j, x);
        }
        if Def(insns[bb][j]).Some? {
          var x := Def(insns[bb][j]).value.base;
          if !isGlobal[x] {
            stack[x] := stack[x][..|stack[x]| - 1];
          }
        }
        j := j + 1;
      }
      assert all[..|all|] == all;
      assert forall x: nat :: x < |base| ==> stack[x] == base[x];
    }

    lemma DefsPop(bb: nat)
      requires Shaped() && Consistent(outs.Keys) && bb in outs && bb < |g|
      ensures forall i :: 0 <= i < |insns[bb]| && Def(insns[bb][i]).Some? ==>
        Def(insns[bb][i]).value.base < |isGlobal| &&
        (Def(insns[bb][i]).value.sub.Some? <==> !isGlobal[Def(insns[bb][i]).value.base])
    {
      assert DefsSited(insns[bb], bb, sites, isGlobal);
      forall i | 0 <= i < |insns[bb]| && Def(insns[bb][i]).Some?
        ensures Def(insns[bb][i]).value.base < |isGlobal| &&
          (Def(insns[bb][i]).value.sub.Some? <==> !isGlobal[Def(insns[bb][i]).value.base])
      {
        assert InsnRenamed(src[bb][i], insns[bb][i], insns[bb][..i], InOf(t, init, outs, bb));
        assert Plain(src[bb], |isGlobal|);
        assert DefSited(Def(insns[bb][i]).value, bb, i, sites, isGlobal);
      }
    }

    /** A child is ready to be renamed after its earlier siblings. */
    lemma ChildReady(bb: nat, i: nat, before: set<nat>)
      requires Shaped() && t.Done(bb) && i < |domNext[bb]|
      requires forall k :: 0 <= k < |domNext[bb]| ==> t.Done(domNext[bb][k])
      requires forall v: nat :: v in Subtree(t, bb) ==> v !in before
      ensures var c := domNext[bb][i];
        && c < |g| && c != t.entry && t.Up(c) == bb && t.rpo[bb] < t.rpo[c]
        && forall v: nat :: v in Subtree(t, c) ==> v !in before + {bb} + Subtrees(t, domNext[bb][..i])
    {
      ListedChild(t, domNext, bb, i);
      SubtreeSplits(t, domNext, bb);
      hide Subtrees, Subtree, ChildLists, Plain, WellFormed;
      forall v: nat | v in Subtree(t, domNext[bb][i]) ensures v !in before + {bb} + Subtrees(t, domNext[bb][..i]) {
        SubtreesIntro(t, domNext[bb], i, v);
        SiblingsApart(t, domNext, bb, i, v);
        ParentAbove(t, bb, domNext[bb][i], v);
      }
    }

    lemma NextChild(bb: nat, i: nat, keys: set<nat>)
      requires Shaped() && t.Done(bb) && bb in outs && i < |domNext[bb]|
      requires outs.Keys == ChildKeys(t, domNext, bb, keys, i)
      requires forall v: nat :: v in Subtree(t, bb) ==> v !in keys
      ensures var c := domNext[bb][i];
        && c < |g| && t.Done(c) && t.Up(c) in outs && c != t.entry && InOf(t, init, outs, c) == outs[bb]
        && t.rpo[bb] < t.rpo[c] < Bound(t.rpo)
        && (forall v: nat :: v in Subtree(t, c) ==> v !in outs)
        && ChildKeys(t, domNext, bb, keys, i) + Subtree(t, c) == ChildKeys(t, domNext, bb, keys, i + 1)
    {
      ChildrenDone(t, domNext, bb);
      ChildReady(bb, i, keys);
      assert domNext[bb][..i + 1][..i] == domNext[bb][..i];
    }

    /** The recursive call of `bb_solve_phi_params` on the `i`-th child. */
    method RenameChild(bb: nat, i: nat, ghost keys: set<nat>)
      requires Consistent(outs.Keys) && bb < |g| && t.Done(bb) && bb in outs && outs[bb] == Tops(stack[..])
      requires i < |domNext[bb]| && outs.Keys == ChildKeys(t, domNext, bb, keys, i)
      requires forall v: nat :: v in Subtree(t, bb) ==> v !in keys
      modifies insns, phiOps, counter, stack, `outs, `sites
      ensures Consistent(outs.Keys) && stack[..] == old(stack[..])
      ensures outs.Keys == ChildKeys(t, domNext, bb, keys, i + 1)
      ensures forall b: nat :: b in old(outs) ==> b in outs && outs[b] == old(outs)[b]
      ensures forall b: nat :: b in old(outs) && b < |g| ==> insns[b] == old(insns[b])
      decreases Bound(t.rpo) - t.rpo[bb], 0
    {
      NextChild(bb, i, keys);
      hide Renamed, PhisOk, AllSited, SitesBelow, Plain, ChildLists, WellFormed, GlobalsEmpty, Subtree, ChildKeys, InOf;
      SolvePhiParams(domNext[bb][i]);
    }

    /** All of them. */
    method RenameChildren(bb: nat, ghost keys: set<nat>)
      requires Consistent(outs.Keys) && bb < |g| && t.Done(bb) && outs.Keys == keys + {bb}
      requires outs[bb] == Tops(stack[..])
      requires forall v: nat :: v in Subtree(t, bb) ==> v !in keys
      modifies insns, phiOps, counter, stack, `outs, `sites
      ensures Consistent(outs.Keys) && stack[..] == old(stack[..])
      ensures outs.Keys == keys + Subtree(t, bb)
      ensures forall b: nat :: b in old(outs) ==> b in outs && outs[b] == old(outs)[b]
      ensures forall b: nat :: b in old(outs) && b < |g| ==> insns[b] == old(insns[b])
      decreases Bound(t.rpo) - t.rpo[bb], 1
    {
      ChildrenDone(t, domNext, bb);
      AllChildKeys(t, domNext, bb, keys);
      hide Consistent, Plain, ChildLists, Subtree, ChildKeys;
      ghost var st, outs1, code1 := stack[..], outs, insns[..];
      var i := 0;
      while i < |domNext[bb]|
        invariant 0 <= i <= |domNext[bb]| && Consistent(outs.Keys) && stack[..] == st
        invariant bb in outs && outs[bb] == Tops(st) && outs.Keys == ChildKeys(t, domNext, bb, keys, i)
        invariant forall b: nat :: b in outs1 ==> b in outs && outs[b] == outs1[b]
        invariant forall b: nat :: b in outs1 && b < |g| ==> insns[b] == code1[b]
      {
        RenameChild(bb, i, keys);
        i := i + 1;
      }
    }

    /** `bb_solve_phi_params`: renames the blocks of one dominator subtree, appends the operands
        of the phis their edges lead to, and leaves the stacks as it found them. */
    method SolvePhiParams(bb: nat)
      requires Consistent(outs.Keys) && bb < |g| && t.Done(bb)
      requires (bb == t.entry || t.Up(bb) in outs) && Tops(stack[..]) == InOf(t, init, outs, bb)
      requires forall v: nat :: v in Subtree(t, bb) ==> v !in outs
      modifies insns, phiOps, counter, stack, `outs, `sites
      ensures Consistent(outs.Keys) && stack[..] == old(stack[..])
      ensures outs.Keys == old(outs).Keys + Subtree(t, bb)
      ensures forall b: nat :: b in old(outs) ==> b in outs && outs[b] == old(outs)[b]
      ensures forall b: nat :: b in old(outs) && b < |g| ==> insns[b] == old(insns[b])
      decreases Bound(t.rpo) - t.rpo[bb], 2
    {
      hide Renamed, PhisOk, AllSited, SitesBelow, Plain, ChildLists;
      assert bb in Subtree(t, bb);
      ghost var keys, st0 := outs.Keys, stack[..];
      RenameBlock(bb);
      FillOperands(bb, keys);
      assert keys + {bb} == outs.Keys;
      ghost var code := insns[bb];
      RenameChildren(bb, keys);
      assert insns[bb] == code;
      DefsPop(bb);
      PopBlock(bb, st0);
    }

    /** A function about to be renamed: no subscripts, no operands, empty stacks. */
    constructor (g: Graph, domNext: seq<seq<nat>>, isGlobal: seq<bool>, blocks: seq<seq<Insn>>, ghost t: DomTree,
                 ghost init: seq<Option<nat>>)
      requires |blocks| == |g|
      ensures fresh(insns) && fresh(phiOps) && fresh(counter) && fresh(stack)
      ensures this.g == g && this.domNext == domNext && this.isGlobal == isGlobal && this.t == t && src == blocks
      ensures this.init == init && outs == map[] && sites == map[]
      ensures insns[..] == blocks && phiOps[..] == seq(|g|, b requires 0 <= b < |g| => seq(|blocks[b]|, _ => []))
      ensures counter[..] == seq(|isGlobal|, _ => 0) && stack[..] == seq(|isGlobal|, _ => [])
    {
      this.g, this.domNext, this.isGlobal, this.t, this.src, this.init := g, domNext, isGlobal, t, blocks, init;
      outs, sites := map[], map[];
      insns := new seq<Insn>[|g|](b requires 0 <= b < |g| => blocks[b]);
      phiOps := new seq<seq<PhiOp>>[|g|](b requires 0 <= b < |g| => seq(|blocks[b]|, _ => []));
      counter := new nat[|isGlobal|](_ => 0);
      stack := new seq<nat>[|isGlobal|](_ => []);
      new;
      assert insns[..] == blocks;
      assert phiOps[..] == seq(|g|, b requires 0 <= b < |g| => seq(|blocks[b]|, _ => []));
      assert counter[..] == seq(|isGlobal|, _ => 0);
      assert stack[..] == seq(|isGlobal|, _ => []);
    }

    /** `solve_phi_params`: the parameters get subscript 0, then the whole dominator tree is
        renamed. */
    method SolveFunction(entry: nat, params: seq<nat>)
      requires Shaped() && entry == t.entry && outs == map[] && sites == map[] && insns[..] == src
      requires phiOps[..] == seq(|src|, b requires 0 <= b < |src| => seq(|src[b]|, _ => []))
      requires counter[..] == seq(|isGlobal|, _ => 0) && stack[..] == seq(|isGlobal|, _ => [])
      requires NoDup(params) && forall i :: 0 <= i < |params| ==> params[i] < |isGlobal| && !isGlobal[params[i]]
      requires init == seq(|isGlobal|, x => if x in params then Some(0) else None)
      modifies insns, phiOps, counter, stack, `outs, `sites
      ensures Consistent(outs.Keys) && outs.Keys == Subtree(t, t.entry)
    {
      ghost var n := |src|;
      var i := 0;
      while i < |params|
        invariant 0 <= i <= |params| && GlobalsEmpty() && insns[..] == src && phiOps[..] == old(phiOps[..])
        invariant outs == map[]
        invariant forall x: nat :: x < |isGlobal| ==>
          (if x in params[..i] then stack[x] == [0] && counter[x] == 1 else stack[x] == [] && counter[x] == 0)
        invariant SitesBelow(sites, counter[..])
      {
        var x := params[i];
        assert x !in params[..i];
        stack[x] := stack[x] + [counter[x]];
        counter[x] := counter[x] + 1;
        sites := sites[(x, 0) := (n, x)]; // subscript 0 of a parameter is defined by the call
        i := i + 1;
      }
      assert params[..|params|] == params;
      assert Tops(stack[..]) == init;
      SolvePhiParams(entry);
    }
  }
}
