/** `append_unwound_phi_insn`, `bb_unwind_phi` and `unwind_phi` of src/ssa.c:892-955: the copies
    that phis stand for, on the edges into their block, become instructions at the end of the
    blocks before. */
module PhiUnwind {
  import opened Cfg
  import opened Options
  import opened PhiPlacement
  import opened SsaForm
  import opened SsaMeaning

  /** One copy of an unwound phi. */
  datatype Copy = Copy(dest: Name, src: Name)

  /** An instruction of the SSA form, with its place in the block, or a copy. */
  datatype Item = Keep(place: nat, insn: Insn) | Do(copy: Copy)

  // ---- one after the other, or all at once ----------------------------------------------------

  /** The first `j` copies one after the other. */
  function InTurn(cs: seq<Copy>, j: nat, e: Env): Env
    requires j <= |cs|
  {
    if j == 0 then e
    else
      var before := InTurn(cs, j - 1, e);
      Put(before, cs[j - 1].dest, before(cs[j - 1].src))
  }

  /** The first `j` copies, all reading what was there before. */
  function AtOnce(cs: seq<Copy>, j: nat, e: Env): Env
    requires j <= |cs|
  {
    if j == 0 then e else Put(AtOnce(cs, j - 1, e), cs[j - 1].dest, e(cs[j - 1].src))
  }

  ghost predicate DestsApart(cs: seq<Copy>)
  {
    forall i, j :: 0 <= i < j < |cs| ==> cs[i].dest != cs[j].dest
  }

  /** No copy reads what an earlier one has overwritten with something else. */
  ghost predicate NoClash(cs: seq<Copy>, n: nat)
    requires n <= |cs|
  {
    forall i, j :: 0 <= i < j < n ==> !Clash(cs[i], cs[j])
  }

  predicate Clash(first: Copy, later: Copy)
  {
    later.src == first.dest && first.src != first.dest
  }

  ghost predicate SameEffect(cs: seq<Copy>)
  {
    forall e: Env, n: Name :: InTurn(cs, |cs|, e)(n) == AtOnce(cs, |cs|, e)(n)
  }

  lemma {:induction false} NoClashSame(cs: seq<Copy>, j: nat, e: Env, n: Name)
    requires DestsApart(cs) && j <= |cs| && NoClash(cs, j)
    ensures InTurn(cs, j, e)(n) == AtOnce(cs, j, e)(n)
  {
    if j > 0 {
      NoClashSame(cs, j - 1, e, n);
      NoClashSame(cs, j - 1, e, cs[j - 1].src);
      AtOnceKeeps(cs, j - 1, e, cs[j - 1].src);
    }
  }

  /** What is not overwritten with something else keeps its value. */
  lemma {:induction false} AtOnceKeeps(cs: seq<Copy>, j: nat, e: Env, n: Name)
    requires j <= |cs| && forall i :: 0 <= i < j ==> cs[i].dest != n || cs[i].src == n
    ensures AtOnce(cs, j, e)(n) == e(n)
  {
    if j > 0 {
      AtOnceKeeps(cs, j - 1, e, n);
    }
  }

  /** A destination has the value its copy gave it. */
  lemma {:induction false} AtOnceGives(cs: seq<Copy>, j: nat, e: Env, i: nat)
    requires DestsApart(cs) && i < j <= |cs|
    ensures AtOnce(cs, j, e)(cs[i].dest) == e(cs[i].src)
  {
    if i < j - 1 {
      AtOnceGives(cs, j - 1, e, i);
    }
  }

  lemma {:induction false} InTurnStays(cs: seq<Copy>, i: nat, j: nat, e: Env)
    requires DestsApart(cs) && i < j <= |cs|
    ensures InTurn(cs, j, e)(cs[i].dest) == InTurn(cs, i + 1, e)(cs[i].dest)
  {
    if i + 1 < j {
      InTurnStays(cs, i, j - 1, e);
    }
  }

  /** Copies to different destinations done in turn have the effect of copies done at once, for
      all values, if and only if none reads what an earlier one has overwritten. */
  lemma InTurnIsAtOnce(cs: seq<Copy>)
    requires DestsApart(cs)
    ensures SameEffect(cs) <==> NoClash(cs, |cs|)
  {
    if NoClash(cs, |cs|) {
      forall e: Env, n: Name ensures InTurn(cs, |cs|, e)(n) == AtOnce(cs, |cs|, e)(n) {
        NoClashSame(cs, |cs|, e, n);
      }
    } else {
      FirstClash(cs, |cs|);
    }
  }

  /** The first copy that reads an overwritten value gets it wrong. */
  lemma {:induction false} FirstClash(cs: seq<Copy>, n: nat)
    requires DestsApart(cs) && n <= |cs| && !NoClash(cs, n)
    ensures !SameEffect(cs)
    decreases n
  {
    if !NoClash(cs, n - 1) {
      FirstClash(cs, n - 1);
    } else {
      var i, j :| 0 <= i < j < n && Clash(cs[i], cs[j]);
      assert j == n - 1;
      var d := cs[i].dest;
      var e: Env := m => if m == d then 1 else 0;
      NoClashSame(cs, j, e, d);
      AtOnceGives(cs, j, e, i);
      InTurnStays(cs, j, |cs|, e);
      AtOnceGives(cs, |cs|, e, j);
      assert InTurn(cs, |cs|, e)(cs[j].dest) == 0 && AtOnce(cs, |cs|, e)(cs[j].dest) == 1;
    }
  }

  /** Two phis that exchange their variables around a loop are unwound to copies that do not. */
  lemma SwapGoesWrong(x: Name, y: Name, e: Env)
    requires x != y
    ensures var cs := [Copy(x, y), Copy(y, x)];
            && DestsApart(cs) && !SameEffect(cs)
            && InTurn(cs, 2, e)(x) == InTurn(cs, 2, e)(y) == e(y)
  {
    var cs := [Copy(x, y), Copy(y, x)];
    assert Clash(cs[0], cs[1]);
    InTurnIsAtOnce(cs);
    assert InTurn(cs, 1, e)(x) == e(y);
  }

  lemma {:induction false} InTurnKeeps(cs: seq<Copy>, j: nat, e: Env, n: Name)
    requires j <= |cs| && forall i :: 0 <= i < j && cs[i].dest == n ==> cs[i].src == n
    ensures InTurn(cs, j, e)(n) == e(n)
  {
    if j > 0 {
      InTurnKeeps(cs, j - 1, e, n);
    }
  }

  /** When all copies of a variable read the same name, each destination gets the value of that name. */
  lemma {:induction false} InTurnGives(cs: seq<Copy>, j: nat, e: Env, n: Name, i: nat)
    requires i < j <= |cs| && n.base == cs[i].dest.base
    requires forall l :: 0 <= l < j && cs[l].dest.base == n.base ==> cs[l].src == n
    ensures InTurn(cs, j, e)(cs[i].dest) == e(n)
  {
    InTurnKeeps(cs, j - 1, e, n);
    if i < j - 1 {
      InTurnGives(cs, j - 1, e, n, i);
    }
  }

  // ---- the copies of a function -----------------------------------------------------------------

  /** The copies of one phi, each with the block it goes to. */
  function PhiCopies(dest: Name, ops: seq<PhiOp>): (r: seq<(nat, Copy)>)
    ensures |r| == |ops|
    ensures forall k :: 0 <= k < |ops| ==> r[k] == (ops[k].from, Copy(dest, Name(dest.base, ops[k].sub)))
  {
    seq(|ops|, k requires 0 <= k < |ops| => (ops[k].from, Copy(dest, Name(dest.base, ops[k].sub))))
  }

  /** Those of the first `i` phis of a block. */
  function BlockCopies(insns: seq<Insn>, ops: seq<seq<PhiOp>>, i: nat): seq<(nat, Copy)>
    requires i <= |insns| == |ops| && forall j :: 0 <= j < i ==> insns[j].Phi?
  {
    if i == 0 then [] else BlockCopies(insns, ops, i - 1) + PhiCopies(insns[i - 1].dest, ops[i - 1])
  }

  /** Those of the blocks of `order`. */
  ghost function AllCopies(code: seq<seq<Insn>>, ops: seq<seq<seq<PhiOp>>>, order: seq<nat>): seq<(nat, Copy)>
    requires Shapes(code, ops) && forall k :: 0 <= k < |order| ==> order[k] < |code|
  {
    if order == [] then []
    else
      var s := order[|order| - 1];
      AllCopies(code, ops, order[..|order| - 1]) + BlockCopies(code[s], ops[s], Lead(code[s]))
  }

  ghost predicate Shapes(code: seq<seq<Insn>>, ops: seq<seq<seq<PhiOp>>>)
  {
    |ops| == |code| && forall b: nat :: b < |code| ==> |ops[b]| == |code[b]|
  }

  /** The copies that go to block `a`, in order. */
  function GoingTo(all: seq<(nat, Copy)>, a: nat): seq<Copy>
  {
    if all == [] then []
    else
      var init, last := GoingTo(all[..|all| - 1], a), all[|all| - 1];
      if last.0 == a then init + [last.1] else init
  }

  lemma {:induction false} GoingToAppend(x: seq<(nat, Copy)>, y: seq<(nat, Copy)>, a: nat)
    ensures GoingTo(x + y, a) == GoingTo(x, a) + GoingTo(y, a)
  {
    if y == [] {
      assert x + y == x;
    } else {
      GoingToAppend(x, y[..|y| - 1], a);
      assert (x + y)[..|x + y| - 1] == x + y[..|y| - 1];
    }
  }

  lemma {:induction false} GoingToHas(all: seq<(nat, Copy)>, a: nat, c: Copy)
    ensures c in GoingTo(all, a) <==> (a, c) in all
  {
    if all != [] {
      GoingToHas(all[..|all| - 1], a, c);
      assert all == all[..|all| - 1] + [all[|all| - 1]];
    }
  }

  /** The copy for operand `k` of phi `i` is among those of its block. */
  lemma {:induction false} BlockHas(insns: seq<Insn>, ops: seq<seq<PhiOp>>, n: nat, i: nat, k: nat)
    requires i < n <= |insns| == |ops| && (forall j :: 0 <= j < n ==> insns[j].Phi?) && k < |ops[i]|
    ensures (ops[i][k].from, Copy(insns[i].dest, Name(insns[i].dest.base, ops[i][k].sub))) in BlockCopies(insns, ops, n)
  {
    if i < n - 1 {
      BlockHas(insns, ops, n - 1, i, k);
    } else {
      assert PhiCopies(insns[i].dest, ops[i])[k] in PhiCopies(insns[i].dest, ops[i]);
    }
  }

  lemma {:induction false} AllHas(code: seq<seq<Insn>>, ops: seq<seq<seq<PhiOp>>>, order: seq<nat>, s: nat,
                                  c: (nat, Copy))
    requires Shapes(code, ops) && (forall k :: 0 <= k < |order| ==> order[k] < |code|) && s in order
    requires s < |code| && c in BlockCopies(code[s], ops[s], Lead(code[s]))
    ensures c in AllCopies(code, ops, order)
  {
    if order[|order| - 1] != s {
      assert s in order[..|order| - 1];
      AllHas(code, ops, order[..|order| - 1], s, c);
    }
  }

  /** The phi operand a copy comes from. */
  lemma {:induction false} BlockFrom(insns: seq<Insn>, ops: seq<seq<PhiOp>>, n: nat, c: (nat, Copy))
    returns (i: nat, k: nat)
    requires n <= |insns| == |ops| && (forall j :: 0 <= j < n ==> insns[j].Phi?) && c in BlockCopies(insns, ops, n)
    ensures i < n && k < |ops[i]|
    ensures c == (ops[i][k].from, Copy(insns[i].dest, Name(insns[i].dest.base, ops[i][k].sub)))
  {
    if c in BlockCopies(insns, ops, n - 1) {
      i, k := BlockFrom(insns, ops, n - 1, c);
    } else {
      i := n - 1;
      k :| 0 <= k < |ops[i]| && PhiCopies(insns[i].dest, ops[i])[k] == c;
    }
  }

  lemma {:induction false} AllFrom(code: seq<seq<Insn>>, ops: seq<seq<seq<PhiOp>>>, order: seq<nat>, c: (nat, Copy))
    returns (s: nat, i: nat, k: nat)
    requires Shapes(code, ops) && forall k :: 0 <= k < |order| ==> order[k] < |code|
    requires c in AllCopies(code, ops, order)
    ensures s < |code| && i < Lead(code[s]) && k < |ops[s][i]|
    ensures c == (ops[s][i][k].from, Copy(code[s][i].dest, Name(code[s][i].dest.base, ops[s][i][k].sub)))
  {
    s := order[|order| - 1];
    if c in BlockCopies(code[s], ops[s], Lead(code[s])) {
      i, k := BlockFrom(code[s], ops[s], Lead(code[s]), c);
    } else {
      s, i, k := AllFrom(code, ops, order[..|order| - 1], c);
    }
  }

  // ---- where the copies go ------------------------------------------------------------------------

  /** Instructions `i..j` of a block with their places. */
  function Kept(insns: seq<Insn>, i: nat, j: nat): (r: seq<Item>)
    requires i <= j <= |insns|
    ensures |r| == j - i && forall k :: 0 <= k < j - i ==> r[k] == Keep(i + k, insns[i + k])
  {
    seq(j - i, k requires 0 <= k < j - i => Keep(i + k, insns[i + k]))
  }

  function Done(cs: seq<Copy>): (r: seq<Item>)
    ensures |r| == |cs| && forall k :: 0 <= k < |cs| ==> r[k] == Do(cs[k])
  {
    seq(|cs|, k requires 0 <= k < |cs| => Do(cs[k]))
  }

  /** The number of instructions before the copies: all, or all but the branch that ends the block. */
  function Body(insns: seq<Insn>, branch: bool): (m: nat)
    ensures m <= |insns|
  {
    if branch && insns != [] then |insns| - 1 else |insns|
  }

  /** A block with copies in it, its leading phis there or removed. */
  function Layout(insns: seq<Insn>, branch: bool, cs: seq<Copy>, removed: bool): seq<Item>
    requires Lead(insns) <= Body(insns, branch)
  {
    var m := Body(insns, branch);
    Kept(insns, if removed then Lead(insns) else 0, m) + Done(cs) + Kept(insns, m, |insns|)
  }

  /** A branch is an instruction behind the phis that gives no value. */
  ghost predicate BranchLast(insns: seq<Insn>, branch: bool)
  {
    branch ==> insns != [] && insns[|insns| - 1].Op? && insns[|insns| - 1].rd == None
  }

  lemma LeadInBody(insns: seq<Insn>, branch: bool)
    requires BranchLast(insns, branch)
    ensures Lead(insns) <= Body(insns, branch)
  {
  }

  /** A function in SSA form and the copies that go to each of its blocks. */
  datatype Unwinding = Unwinding(code: seq<seq<Insn>>, ops: seq<seq<seq<PhiOp>>>, branch: seq<bool>,
                                 copies: seq<seq<Copy>>)
  {
    ghost predicate Ok()
    {
      && Shapes(code, ops) && |branch| == |copies| == |code|
      && forall b: nat :: b < |code| ==> BranchLast(code[b], branch[b])
    }

    /** The copies come from the phis of the blocks in `order`. */
    ghost predicate From(order: seq<nat>)
    {
      && Ok() && (forall k :: 0 <= k < |order| ==> order[k] < |code|)
      && forall b: nat :: b < |code| ==> copies[b] == GoingTo(AllCopies(code, ops, order), b)
    }

    /** The lists hold the blocks with their copies, phis removed or not. */
    ghost predicate Lists(lists: seq<seq<Item>>)
      requires Ok()
    {
      |lists| == |code| && forall b: nat :: b < |code| ==> ListOf(lists[b], b)
    }

    ghost predicate ListOf(list: seq<Item>, b: nat)
      requires Ok() && b < |code|
    {
      Lead(code[b]) <= Body(code[b], branch[b])
      && (list == Layout(code[b], branch[b], copies[b], true) || list == Layout(code[b], branch[b], copies[b], false))
    }
  }

  class Unwinder {
    const code: seq<seq<Insn>>
    const ops: seq<seq<seq<PhiOp>>>
    const branch: seq<bool>           // blocks that end in OP_branch
    const insns: array<seq<Item>>     // insn_list of every block

    constructor (code: seq<seq<Insn>>, ops: seq<seq<seq<PhiOp>>>, branch: seq<bool>)
      ensures this.code == code && this.ops == ops && this.branch == branch && fresh(insns)
      ensures insns[..] == seq(|code|, b requires 0 <= b < |code| => Kept(code[b], 0, |code[b]|))
    {
      this.code, this.ops, this.branch := code, ops, branch;
      insns := new seq<Item>[|code|](b requires 0 <= b < |code| => Kept(code[b], 0, |code[b]|));
      new;
      assert insns[..] == seq(|code|, b requires 0 <= b < |code| => Kept(code[b], 0, |code[b]|));
    }

    ghost predicate Shaped()
    {
      && Shapes(code, ops) && |branch| == |code| == insns.Length
      && (forall b: nat :: b < |code| ==> BranchLast(code[b], branch[b]))
      && (forall s: nat :: s < |code| ==> OperandsInside(s))
    }

    /** The operands of the phis of block `s` come from blocks of the function. */
    ghost predicate OperandsInside(s: nat)
      requires Shapes(code, ops) && s < |code|
    {
      forall i, k :: 0 <= i < Lead(code[s]) && 0 <= k < |ops[s][i]| ==> ops[s][i][k].from < |code|
    }

    /** The copies of `all` are in place, and the phis of the blocks in `done` are gone. */
    ghost predicate Placed(all: seq<(nat, Copy)>, done: seq<nat>)
      requires Shaped()
      reads insns
    {
      forall b: nat :: b < |code| ==> PlacedIn(all, done, b)
    }

    ghost predicate PlacedIn(all: seq<(nat, Copy)>, done: seq<nat>, b: nat)
      requires Shaped() && b < |code|
      reads insns
    {
      Lead(code[b]) <= Body(code[b], branch[b]) && insns[b] == Layout(code[b], branch[b], GoingTo(all, b), b in done)
    }

    lemma PlacedAre(all: seq<(nat, Copy)>, done: seq<nat>, lists: seq<seq<Item>>)
      requires Shaped() && Placed(all, done) && lists == insns[..]
      ensures forall b: nat :: b < |code| ==>
        && Lead(code[b]) <= Body(code[b], branch[b])
        && lists[b] == Layout(code[b], branch[b], GoingTo(all, b), b in done)
    {
      forall b: nat | b < |code|
        ensures Lead(code[b]) <= Body(code[b], branch[b])
        ensures lists[b] == Layout(code[b], branch[b], GoingTo(all, b), b in done)
      {
        assert PlacedIn(all, done, b);
      }
    }

    /** `append_unwound_phi_insn`: before the branch that ends the block, or at its end. */
    method AppendUnwoundPhi(bb: nat, dest: Name, rs: Name, ghost all: seq<(nat, Copy)>, ghost done: seq<nat>)
      requires Shaped() && bb < |code| && Placed(all, done)
      modifies insns
      ensures Placed(all + [(bb, Copy(dest, rs))], done)
    {
      ghost var c, was := Copy(dest, rs), insns[..];
      PlacedAre(all, done, was);
      LayoutGrows(code[bb], branch[bb], GoingTo(all, bb), bb in done, c);
      if |insns[bb]| == 0 || !branch[bb] {
        insns[bb] := insns[bb] + [Do(Copy(dest, rs))];
      } else {
        var tail := insns[bb][|insns[bb]| - 1];
        insns[bb] := insns[bb][..|insns[bb]| - 1] + [Do(Copy(dest, rs))] + [tail];
      }
      forall b: nat | b < |code| ensures PlacedIn(all + [(bb, c)], done, b) {
        assert (all + [(bb, c)])[..|all|] == all;
        assert GoingTo(all + [(bb, c)], b) == if b == bb then GoingTo(all, b) + [c] else GoingTo(all, b);
        assert b != bb ==> insns[b] == was[b];
      }
    }

    /** The operand loop of `bb_unwind_phi` for phi `i` of block `s`. */
    method UnwindOne(s: nat, i: nat, ghost all: seq<(nat, Copy)>, ghost done: seq<nat>)
      requires Shaped() && s < |code| && i < Lead(code[s]) && Placed(all, done)
      modifies insns
      ensures Placed(all + PhiCopies(code[s][i].dest, ops[s][i]), done)
    {
      hide Placed;
      assert OperandsInside(s);
      var dest := code[s][i].dest;
      ghost var mine := PhiCopies(dest, ops[s][i]);
      assert all + mine[..0] == all;
      for k := 0 to |ops[s][i]|
        invariant Placed(all + mine[..k], done)
      {
        var op := ops[s][i][k];
        AppendUnwoundPhi(op.from, dest, Name(dest.base, op.sub), all + mine[..k], done);
        assert all + mine[..k] + [mine[k]] == all + mine[..k + 1];
      }
      assert mine[..|mine|] == mine;
    }

    /** `bb_unwind_phi` */
    method BbUnwindPhi(s: nat, ghost all: seq<(nat, Copy)>, ghost done: seq<nat>)
      requires Shaped() && s < |code| && s !in done && Placed(all, done)
      modifies insns
      ensures Placed(all + BlockCopies(code[s], ops[s], Lead(code[s])), done + [s])
    {
      hide Placed, Layout, BlockCopies;
      var i := 0;
      BlockCopiesNone(code[s], ops[s]);
      assert all + [] == all;
      PlacedAre(all, done, insns[..]);
      LayoutAt(code[s], branch[s], GoingTo(all, s), 0);
      while i < |insns[s]| && insns[s][i].Keep? && insns[s][i].insn.Phi?
        invariant i <= Lead(code[s]) && Placed(all + BlockCopies(code[s], ops[s], i), done)
        invariant i < Lead(code[s]) <==> i < |insns[s]| && insns[s][i].Keep? && insns[s][i].insn.Phi?
        decreases Lead(code[s]) - i
      {
        ghost var before := all + BlockCopies(code[s], ops[s], i);
        UnwindOne(s, i, before, done);
        BlockCopiesNext(code[s], ops[s], i);
        i := i + 1;
        ghost var now := all + BlockCopies(code[s], ops[s], i);
        assert before + PhiCopies(code[s][i - 1].dest, ops[s][i - 1]) == now;
        PlacedAre(now, done, insns[..]);
        LayoutAt(code[s], branch[s], GoingTo(now, s), i);
      }
      RemovePhis(s, i, all + BlockCopies(code[s], ops[s], i), done);
    }

    /** The end of `bb_unwind_phi`: the list starts behind the phis. */
    method RemovePhis(s: nat, i: nat, ghost all: seq<(nat, Copy)>, ghost done: seq<nat>)
      requires Shaped() && s < |code| && s !in done && i == Lead(code[s]) && Placed(all, done)
      modifies insns
      ensures Placed(all, done + [s])
    {
      ghost var was := insns[..];
      PlacedAre(all, done, was);
      LayoutDrops(code[s], branch[s], GoingTo(all, s));
      insns[s] := insns[s][i..];
      forall b: nat | b < |code| ensures PlacedIn(all, done + [s], b) {
        assert b != s ==> insns[b] == was[b];
      }
    }

    /** `unwind_phi` for one function, its blocks in any order without repetition. */
    method UnwindPhi(order: seq<nat>)
      requires Shaped() && (forall k :: 0 <= k < |order| ==> order[k] < |code|)
      requires forall i, j :: 0 <= i < j < |order| ==> order[i] != order[j]
      requires insns[..] == seq(|code|, b requires 0 <= b < |code| => Kept(code[b], 0, |code[b]|))
      modifies insns
      ensures Placed(AllCopies(code, ops, order), order)
      ensures Result(order).From(order) && Result(order).Lists(insns[..])
    {
      StartPlaced();
      for k := 0 to |order|
        invariant Placed(AllCopies(code, ops, order[..k]), order[..k])
      {
        assert order[..k + 1][..k] == order[..k];
        assert order[k] !in order[..k];
        BbUnwindPhi(order[k], AllCopies(code, ops, order[..k]), order[..k]);
        assert order[..k] + [order[k]] == order[..k + 1];
      }
      assert order[..|order|] == order;
      ResultStands(order);
    }

    /** What `unwind_phi` is to have made of the function. */
    ghost function Result(order: seq<nat>): Unwinding
      requires Shaped() && forall k :: 0 <= k < |order| ==> order[k] < |code|
    {
      var all := AllCopies(code, ops, order);
      Unwinding(code, ops, branch, seq(|code|, b requires 0 <= b < |code| => GoingTo(all, b)))
    }

    lemma ResultStands(order: seq<nat>)
      requires Shaped() && (forall k :: 0 <= k < |order| ==> order[k] < |code|)
      requires Placed(AllCopies(code, ops, order), order)
      ensures Result(order).From(order) && Result(order).Lists(insns[..])
    {
      hide Layout, GoingTo, AllCopies, BranchLast, Lead, Body, Placed, PlacedIn, OperandsInside;
      ResultFrom(order);
      forall b: nat | b < |code| ensures Result(order).ListOf(insns[..][b], b) {
        ListStands(order, b);
      }
    }

    lemma ResultFrom(order: seq<nat>)
      requires Shaped() && forall k :: 0 <= k < |order| ==> order[k] < |code|
      ensures Result(order).From(order)
    {
      hide GoingTo, AllCopies, BranchLast, Lead, OperandsInside;
    }

    lemma ListStands(order: seq<nat>, b: nat)
      requires Shaped() && (forall k :: 0 <= k < |order| ==> order[k] < |code|) && b < |code|
      requires Placed(AllCopies(code, ops, order), order) && Result(order).Ok()
      ensures Result(order).ListOf(insns[..][b], b)
    {
      hide Layout, GoingTo, AllCopies, BranchLast, Lead, Body, OperandsInside;
      assert PlacedIn(AllCopies(code, ops, order), order, b);
      assert Result(order).copies[b] == GoingTo(AllCopies(code, ops, order), b);
    }

    lemma StartPlaced()
      requires Shaped()
      requires insns[..] == seq(|code|, b requires 0 <= b < |code| => Kept(code[b], 0, |code[b]|))
      ensures Placed([], [])
    {
      forall b: nat | b < |code| ensures PlacedIn([], [], b) {
        LeadInBody(code[b], branch[b]);
        assert insns[..][b] == Kept(code[b], 0, |code[b]|);
        LayoutPlain(code[b], branch[b]);
      }
    }
  }

  lemma LayoutPlain(insns: seq<Insn>, branch: bool)
    requires Lead(insns) <= Body(insns, branch)
    ensures Layout(insns, branch, [], false) == Kept(insns, 0, |insns|)
  {
  }

  /** In a block whose phis are there, they are what it starts with. */
  lemma LayoutAt(insns: seq<Insn>, branch: bool, cs: seq<Copy>, i: nat)
    requires Lead(insns) <= Body(insns, branch) && i <= Lead(insns)
    ensures var l := Layout(insns, branch, cs, false);
            i < Lead(insns) <==> i < |l| && l[i].Keep? && l[i].insn.Phi?
  {
    LeadAt(insns, i);
  }

  lemma BlockCopiesNone(insns: seq<Insn>, ops: seq<seq<PhiOp>>)
    requires |insns| == |ops|
    ensures BlockCopies(insns, ops, 0) == []
  {
  }

  lemma BlockCopiesNext(insns: seq<Insn>, ops: seq<seq<PhiOp>>, i: nat)
    requires i < |insns| == |ops| && forall j :: 0 <= j <= i ==> insns[j].Phi?
    ensures BlockCopies(insns, ops, i + 1) == BlockCopies(insns, ops, i) + PhiCopies(insns[i].dest, ops[i])
  {
  }

  lemma {:induction false} LeadAt(insns: seq<Insn>, i: nat)
    requires i <= Lead(insns)
    ensures i < |insns| && insns[i].Phi? <==> i < Lead(insns)
  {
  }

  lemma LayoutGrows(insns: seq<Insn>, branch: bool, cs: seq<Copy>, removed: bool, c: Copy)
    requires Lead(insns) <= Body(insns, branch) && BranchLast(insns, branch)
    ensures var l, n := Layout(insns, branch, cs, removed), |Layout(insns, branch, cs, removed)|;
            Layout(insns, branch, cs + [c], removed)
            == if n == 0 || !branch then l + [Do(c)] else l[..n - 1] + [Do(c)] + [l[n - 1]]
  {
    assert Done(cs + [c]) == Done(cs) + [Do(c)];
    var m := Body(insns, branch);
    assert branch ==> Kept(insns, m, |insns|) == [Keep(m, insns[m])];
    assert !branch ==> Kept(insns, m, |insns|) == [];
  }

  lemma LayoutDrops(insns: seq<Insn>, branch: bool, cs: seq<Copy>)
    requires Lead(insns) <= Body(insns, branch)
    ensures |Layout(insns, branch, cs, false)| >= Lead(insns)
    ensures Layout(insns, branch, cs, false)[Lead(insns)..] == Layout(insns, branch, cs, true)
  {
    var m := Body(insns, branch);
    assert Kept(insns, 0, m)[Lead(insns)..] == Kept(insns, Lead(insns), m);
  }
}
