/** The operator-precedence stacks of `read_global_assignment`, src/parser.c:3603-3732. */
module InitStacks {
  import opened Options
  import opened InitEval
  import opened InitMeaning

  /** `op_stack` and `val_stack` with their indices. */
  class Stacks {
    const opStack: array<Op>
    const valStack: array<int>
    var opIndex: nat
    var valIndex: nat

    constructor ()
      ensures fresh(opStack) && fresh(valStack) && Valid() && opIndex == 0 && valIndex == 0
    {
      opStack, valStack := new Op[10](_ => Add), new int[10](_ => 0);
      opIndex, valIndex := 0, 0;
    }

    predicate Valid()
      reads this
    {
      opStack.Length == valStack.Length == 10 && opIndex <= 10 && valIndex <= 10
    }

    ghost function Ops(): seq<Op>
      requires Valid()
      reads this, opStack
    {
      opStack[..opIndex]
    }

    ghost function Vals(): seq<int>
      requires Valid()
      reads this, valStack
    {
      valStack[..valIndex]
    }

    method PushOp(op: Op)
      requires Valid() && opIndex < 10
      modifies `opIndex, opStack
      ensures Valid() && Ops() == old(Ops()) + [op]
    {
      opStack[opIndex] := op;
      opIndex := opIndex + 1;
    }

    method PushVal(x: int)
      requires Valid() && valIndex < 10
      modifies `valIndex, valStack
      ensures Valid() && Vals() == old(Vals()) + [x]
    {
      valStack[valIndex] := x;
      valIndex := valIndex + 1;
    }

    /** Apply the operator on top to the two values on top; false where that is undefined. */
    method Apply() returns (ok: bool)
      requires Valid() && opIndex > 0 && valIndex >= 2
      modifies this, valStack
      ensures var n, m := old(opIndex), old(valIndex);
              var r := EvalImm(old(opStack[n - 1]), old(valStack[m - 2]), old(valStack[m - 1]));
              && Valid() && (ok <==> r.Some?)
              && (ok ==> Ops() == old(Ops())[..n - 1] && Vals() == old(Vals())[..m - 2] + [r.value])
    {
      var operand1, operand2 := valStack[valIndex - 2], valStack[valIndex - 1];
      var r := EvalImm(opStack[opIndex - 1], operand1, operand2);
      match r {
        case None => return false;
        case Some(x) =>
          valIndex := valIndex - 2;
          PushVal(x);
          opIndex := opIndex - 1;
          return true;
      }
    }

    /** Apply everything that `op` does not outrank. */
    method Reduce(ghost moreOps: seq<Op>, ghost moreVals: seq<int>, op: Op, ghost whole: Option<int>) returns (ok: bool)
      requires |moreVals| == |moreOps| > 0 && op == moreOps[0] && Ready(moreOps, moreVals, whole)
      modifies this, valStack
      ensures if ok then Ready(moreOps, moreVals, whole) && (opIndex > 0 ==> Prio(opStack[opIndex - 1]) < Prio(op))
        else whole == None
    {
      hide Pending, EvalImm;
      while opIndex > 0 && Prio(opStack[opIndex - 1]) >= Prio(op)
        invariant Ready(moreOps, moreVals, whole)
        decreases opIndex
      {
        ApplyTop(Vals(), Ops(), moreVals, moreOps);
        ok := Apply();
        if !ok { return; }
      }
      ok := true;
    }

    /** One more operator and its right operand. */
    method Shift(ghost moreOps: seq<Op>, ghost moreVals: seq<int>, op: Op, x: int, ghost whole: Option<int>)
      returns (ok: bool)
      requires |moreVals| == |moreOps| > 0 && op == moreOps[0] && x == moreVals[0] && Supported(op)
      requires Ready(moreOps, moreVals, whole)
      modifies this, opStack, valStack
      ensures if ok then Ready(moreOps[1..], moreVals[1..], whole) else whole == None
    {
      hide Pending, EvalImm;
      ok := Reduce(moreOps, moreVals, op, whole);
      if ok {
        ShiftNext(Vals(), Ops(), moreVals, moreOps);
        StackIsShort(Ops() + [op]);
        PushVal(x);
        PushOp(op);
      }
    }

    /** Apply everything. */
    method Unwind(ghost whole: Option<int>) returns (ok: bool)
      requires Ready([], [], whole)
      modifies this, valStack
      ensures if ok then Ready([], [], whole) && opIndex == 0 else whole == None
    {
      hide Pending, EvalImm;
      while opIndex > 0
        invariant Ready([], [], whole)
        decreases opIndex
      {
        ApplyTop(Vals(), Ops(), [], []);
        ok := Apply();
        if !ok { return; }
      }
      ok := true;
    }

    /** The first operator and its two operands. */
    method Begin(first: int, ops: seq<Op>, operands: seq<int>, ghost whole: Option<int>)
      requires Valid() && opIndex == 0 && valIndex == 0 && |operands| == |ops| > 0 && Supported(ops[0])
      requires whole == Value(EVAL, Known([first] + operands), ops)
      modifies this, opStack, valStack
      ensures Ready(ops[1..], operands[1..], whole)
    {
      hide Value, EvalImm, Known, Pending, Supported, Prio;
      PushOp(ops[0]);
      PushVal(first);
      PushVal(operands[0]);
      assert Vals() == [first, operands[0]] && Ops() == [ops[0]];
      StartPending(first, ops, operands);
    }

    /** The two stacks at work: the value is that of the precedence tree, and seven operators and
        eight values are all they ever hold. */
    method Evaluate(first: int, ops: seq<Op>, operands: seq<int>) returns (r: Option<int>)
      requires Valid() && opIndex == 0 && valIndex == 0 && |operands| == |ops|
      requires forall k :: 0 <= k < |ops| ==> Supported(ops[k])
      modifies this, opStack, valStack
      ensures r == Value(EVAL, Known([first] + operands), ops)
    {
      hide Value, EvalImm, Known, Pending, Supported, Prio;
      NoOperator(first, operands);
      if |ops| == 0 {
        return Some(first);
      }
      if |ops| == 1 {
        ValueOfOne(EVAL, Known([first] + operands), ops);
        return EvalImm(ops[0], first, operands[0]);
      }
      ghost var whole := Value(EVAL, Known([first] + operands), ops);
      Begin(first, ops, operands, whole);
      var k := 1;
      while k < |ops|
        invariant 1 <= k <= |ops| && Ready(ops[k..], operands[k..], whole)
      {
        var ok := Shift(ops[k..], operands[k..], ops[k], operands[k], whole);
        if !ok { return None; }
        assert operands[k..][1..] == operands[k + 1..] && ops[k..][1..] == ops[k + 1..];
        k := k + 1;
      }
      var ok := Unwind(whole);
      if !ok { return None; }
      assert Vals() == [valStack[0]] && Ops() == [];
      NothingPending(valStack[0]);
      return Some(valStack[0]);
    }

    /** The value of a global initializer: the first operand, and the operators each with the operand
        after it. It is what the expression is worth in C, or nothing if C leaves that undefined. */
    method ReadGlobalAssignment(first: int, ops: seq<Op>, operands: seq<int>) returns (r: Option<int>)
      requires Valid() && opIndex == 0 && valIndex == 0 && |operands| == |ops|
      requires forall k :: 0 <= k < |ops| ==> ops[k] !in {BitOr, BitXor, BitAnd}
      requires Int32(first) && forall k :: 0 <= k < |operands| ==> Int32(operands[k])
      modifies this, opStack, valStack
      ensures r == Value(EVAL, Known([first] + operands), ops)
      ensures forall t: Expr<int>, v: int ::
        Derives(t, 0) && Leaves(t) == [first] + operands && Operators(t) == ops ==> (r == Some(v) <==> Worth(t, v))
    {
      hide Value, EvalImm, Known, Pending, Prio, Worth, Derives, Leaves, Operators, Int32;
      r := Evaluate(first, ops, operands);
      forall t: Expr<int>, v: int | Derives(t, 0) && Leaves(t) == [first] + operands && Operators(t) == ops
        ensures r == Some(v) <==> Worth(t, v)
      {
        InitializerIsWorth(t, [first] + operands, ops, v);
      }
    }

    /** The stacks are small and, with what is still to be read, stand for the whole. */
    ghost predicate Ready(moreOps: seq<Op>, moreVals: seq<int>, whole: Option<int>)
      requires |moreVals| == |moreOps|
      reads this, opStack, valStack
    {
      && Valid() && valIndex == opIndex + 1 && opIndex <= MAX_OPS && Rising(Ops())
      && (forall k :: 0 <= k < |Ops()| ==> Supported(Ops()[k]))
      && Pending(Vals(), Ops(), moreVals, moreOps) == whole
    }
  }
}
