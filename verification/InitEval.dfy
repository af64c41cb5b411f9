/** Constant expressions in global initializers: the precedence tree that `get_operator_prio` gives,
    and `eval_expression_imm` (src/parser.c:179-216, 3499-3560). */
module InitEval {
  import opened Options
  import opened Words

  datatype Op =
    | LogOr | LogAnd | BitOr | BitXor | BitAnd | Eq | Neq | Lt | Leq | Gt | Geq | Shl | Shr
    | Add | Sub | Mul | Div | Mod

  /** `get_operator_prio` */
  function Prio(op: Op): nat
  {
    match op
    case LogOr => 4
    case LogAnd => 5
    case BitOr => 6
    case BitXor => 7
    case BitAnd => 8
    case Eq => 9
    case Neq => 9
    case Lt => 10
    case Leq => 10
    case Gt => 10
    case Geq => 10
    case Shl => 11
    case Shr => 11
    case Add => 12
    case Sub => 12
    case Mul => 13
    case Div => 13
    case Mod => 13
  }

  // ---- the precedence tree -------------------------------------------------------------------------

  /** The operator applied last: the rightmost one of lowest priority. */
  function Root(ops: seq<Op>): (k: nat)
    requires ops != []
    ensures IsRoot(ops, k)
  {
    if |ops| == 1 then 0
    else
      var k := Root(ops[..|ops| - 1]);
      if Prio(ops[|ops| - 1]) <= Prio(ops[k]) then |ops| - 1 else k
  }

  predicate IsRoot(ops: seq<Op>, k: nat)
  {
    k < |ops| && forall j ::
      0 <= j < |ops| && j != k ==> Prio(ops[k]) <= Prio(ops[j]) && (j > k ==> Prio(ops[k]) < Prio(ops[j]))
  }

  lemma RootAgainst(ops: seq<Op>, k: nat, j: nat)
    requires IsRoot(ops, k) && j < |ops|
    ensures k < |ops| && Prio(ops[k]) <= Prio(ops[j]) && (j > k ==> Prio(ops[k]) < Prio(ops[j]))
  {
  }

  lemma RootUnique(ops: seq<Op>, k: nat, l: nat)
    requires IsRoot(ops, k) && IsRoot(ops, l) && k < |ops| && l < |ops|
    ensures k == l
  {
    hide IsRoot;
    RootAgainst(ops, k, l);
    RootAgainst(ops, l, k);
  }

  /** The value of the left-associative precedence tree over `vals` joined by `ops`. */
  function Value<T>(e: (Op, T, T) -> T, vals: seq<T>, ops: seq<Op>): T
    requires |vals| == |ops| + 1
    decreases |ops|
  {
    if ops == [] then vals[0]
    else
      var k := Root(ops);
      e(ops[k], Value(e, vals[..k + 1], ops[..k]), Value(e, vals[k + 1..], ops[k + 1..]))
  }

  /** Operator `i` binds its two operands: what stands before is weaker, what follows is no
      stronger. */
  predicate Ripe(ops: seq<Op>, i: nat)
  {
    && i < |ops| && (i > 0 ==> Prio(ops[i - 1]) < Prio(ops[i])) && (i + 1 < |ops| ==> Prio(ops[i + 1]) <= Prio(ops[i]))
  }

  function Without<T>(s: seq<T>, i: nat): (r: seq<T>)
    requires i < |s|
    ensures |r| == |s| - 1
  {
    s[..i] + s[i + 1..]
  }

  /** The operands of operator `i` replaced by its result. */
  function Applied<T>(e: (Op, T, T) -> T, vals: seq<T>, ops: seq<Op>, i: nat): (r: seq<T>)
    requires |vals| == |ops| + 1 && i < |ops|
    ensures |r| == |vals| - 1
  {
    vals[..i] + [e(ops[i], vals[i], vals[i + 1])] + vals[i + 2..]
  }

  lemma ValueAt<T>(e: (Op, T, T) -> T, vals: seq<T>, ops: seq<Op>, k: nat)
    requires |vals| == |ops| + 1 && IsRoot(ops, k)
    ensures Value(e, vals, ops) == e(ops[k], Value(e, vals[..k + 1], ops[..k]), Value(e, vals[k + 1..], ops[k + 1..]))
  {
    RootBelow(ops, k);
    RootUnique(ops, Root(ops), k);
  }

  lemma ValueOfOne<T>(e: (Op, T, T) -> T, vals: seq<T>, ops: seq<Op>)
    requires |vals| == 2 && |ops| == 1
    ensures Value(e, vals, ops) == e(ops[0], vals[0], vals[1]) == Value(e, Applied(e, vals, ops, 0), Without(ops, 0))
  {
    assert IsRoot(ops, 0);
    ValueAt(e, vals, ops, 0);
  }

  /** Applying a ripe operator first does not change the value. */
  lemma {:induction false} ApplyRipe<T>(e: (Op, T, T) -> T, vals: seq<T>, ops: seq<Op>, i: nat)
    requires |vals| == |ops| + 1 && Ripe(ops, i)
    ensures Value(e, Applied(e, vals, ops, i), Without(ops, i)) == Value(e, vals, ops)
    decreases |ops|
  {
    hide Value, Ripe, IsRoot, Applied, Without, Root;
    RipeBelow(ops, i);
    var k := Root(ops);
    RootBelow(ops, k);
    var vals2, ops2 := Applied(e, vals, ops, i), Without(ops, i);
    ValueAt(e, vals, ops, k);
    if k == i {
      RipeRoot(ops, i);
      ValueOfOne(e, vals, ops);
    } else if i < k {
      RipeLeft(ops, i, k);
      ApplyRipe(e, vals[..k + 1], ops[..k], i);
      RootAfterLeft(ops, i, k);
      ValueAt(e, vals2, ops2, k - 1);
      LeftPieces(e, vals, ops, i, k);
    } else {
      RipeRight(ops, i, k);
      ApplyRipe(e, vals[k + 1..], ops[k + 1..], i - k - 1);
      RootAfterRight(ops, i, k);
      ValueAt(e, vals2, ops2, k);
      RightPieces(e, vals, ops, i, k);
    }
  }

  lemma RipeBelow(ops: seq<Op>, i: nat)
    requires Ripe(ops, i)
    ensures i < |ops|
  {
  }

  lemma LeftPieces<T>(e: (Op, T, T) -> T, vals: seq<T>, ops: seq<Op>, i: nat, k: nat)
    requires |vals| == |ops| + 1 && i < k < |ops|
    ensures var vals2, ops2 := Applied(e, vals, ops, i), Without(ops, i);
            && |vals2| == |vals| - 1 && |ops2| == |ops| - 1
            && Applied(e, vals[..k + 1], ops[..k], i) == vals2[..k] && Without(ops[..k], i) == ops2[..k - 1]
            && vals2[k..] == vals[k + 1..] && ops2[k..] == ops[k + 1..] && ops2[k - 1] == ops[k]
  {
    assert vals[..k + 1][..i] == vals[..i] && vals[..k + 1][i + 2..] == vals[i + 2..k + 1];
    assert ops[..k][..i] == ops[..i] && ops[..k][i + 1..] == ops[i + 1..k];
  }

  lemma RightPieces<T>(e: (Op, T, T) -> T, vals: seq<T>, ops: seq<Op>, i: nat, k: nat)
    requires |vals| == |ops| + 1 && k < i < |ops|
    ensures var vals2, ops2, j := Applied(e, vals, ops, i), Without(ops, i), i - k - 1;
            && |vals2| == |vals| - 1 && |ops2| == |ops| - 1
            && Applied(e, vals[k + 1..], ops[k + 1..], j) == vals2[k + 1..] && Without(ops[k + 1..], j) == ops2[k + 1..]
            && vals2[..k + 1] == vals[..k + 1] && ops2[..k] == ops[..k] && ops2[k] == ops[k]
  {
    var j := i - k - 1;
    assert vals[k + 1..][..j] == vals[k + 1..i] && vals[k + 1..][j + 2..] == vals[i + 2..];
    assert ops[k + 1..][..j] == ops[k + 1..i] && ops[k + 1..][j + 1..] == ops[i + 1..];
  }

  lemma RootBelow(ops: seq<Op>, k: nat)
    requires IsRoot(ops, k)
    ensures k < |ops|
  {
  }

  /** An operator that is ripe and is applied last is the only one. */
  lemma RipeRoot(ops: seq<Op>, i: nat)
    requires Ripe(ops, i) && IsRoot(ops, i)
    ensures |ops| == 1 && i == 0
  {
    hide IsRoot;
    if i > 0 {
      RootAgainst(ops, i, i - 1);
    } else if i + 1 < |ops| {
      RootAgainst(ops, i, i + 1);
    }
  }

  lemma RipeLeft(ops: seq<Op>, i: nat, k: nat)
    requires Ripe(ops, i) && i < k < |ops|
    ensures Ripe(ops[..k], i)
  {
  }

  lemma RootAfterLeft(ops: seq<Op>, i: nat, k: nat)
    requires IsRoot(ops, k) && i < k
    ensures IsRoot(Without(ops, i), k - 1)
  {
    var ops2 := Without(ops, i);
    forall j | 0 <= j < |ops2| ensures ops2[j] == ops[if j < i then j else j + 1] {
    }
  }

  lemma RootAfterRight(ops: seq<Op>, i: nat, k: nat)
    requires IsRoot(ops, k) && k < i < |ops|
    ensures IsRoot(Without(ops, i), k)
  {
    var ops2 := Without(ops, i);
    forall j | 0 <= j < |ops2| ensures ops2[j] == ops[if j < i then j else j + 1] {
    }
  }

  lemma RipeRight(ops: seq<Op>, i: nat, k: nat)
    requires Ripe(ops, i) && k < i
    ensures Ripe(ops[k + 1..], i - k - 1)
  {
  }

  // ---- eval_expression_imm ----------------------------------------------------------------------------

  const INT_MIN := -0x8000_0000

  predicate Int32(x: int) { INT_MIN <= x < 0x8000_0000 }

  /** Does the bit pattern of `b` have one bit at most? `tmp &= (tmp - 1)` leaves 0. */
  predicate OneBit(b: int)
  {
    AndW(Word(b), Word(b - 1)) == 0
  }

  /** The immediate result; `None` for an unsupported operator and where C leaves the result
      undefined: a zero divisor, INT_MIN by -1, a shift amount out of range. */
  function EvalImm(op: Op, a: int, b: int): Option<int>
  {
    match op
    case Add => Some(Wrap(a + b))
    case Sub => Some(Wrap(a - b))
    case Mul => Some(Wrap(a * b))
    case Div => if b == 0 || (a == INT_MIN && b == -1) then None else Some(TruncDiv(a, b))
    case Mod =>
      if b != 0 && OneBit(b) then Some(Signed(AndW(Word(a), Word(b - 1))))
      else if b == 0 || (a == INT_MIN && b == -1) then None
      else Some(TruncMod(a, b))
    case Shl => if 0 <= b < 32 then Some(Wrap(a * Pow2(b))) else None
    case Shr => if 0 <= b < 32 then Some(a / Pow2(b)) else None
    case LogAnd => Some(Flag(a != 0 && b != 0))
    case LogOr => Some(Flag(a != 0 || b != 0))
    case Eq => Some(Flag(a == b))
    case Neq => Some(Flag(a != b))
    case Lt => Some(Flag(a < b))
    case Gt => Some(Flag(a > b))
    case Leq => Some(Flag(a <= b))
    case Geq => Some(Flag(a >= b))
    case BitOr => None
    case BitXor => None
    case BitAnd => None
  }

  predicate Supported(op: Op)
  {
    op != BitOr && op != BitXor && op != BitAnd
  }

  /** Undefined operands make an undefined result. */
  const EVAL: (Op, Option<int>, Option<int>) -> Option<int> :=
    (op: Op, a: Option<int>, b: Option<int>) => if a.Some? && b.Some? then EvalImm(op, a.value, b.value) else None

  // The remainder by a mask.

  /** A positive number and its predecessor share no bit exactly if it is a power of two. */
  lemma {:induction false} OneBitIsPower(x: nat, n: nat) returns (k: nat)
    requires 0 < x < Pow2(n)
    ensures Bitwise(AND_BIT, x, x - 1, n) == 0 ==> k < n && x == Pow2(k)
  {
    if x % 2 == 1 {
      k := 0;
      if x > 1 {
        ShareBit(x / 2, n - 1);
        assert (x - 1) / 2 == x / 2 && (x - 1) % 2 == 0;
      }
    } else {
      var j := OneBitIsPower(x / 2, n - 1);
      assert (x - 1) / 2 == x / 2 - 1 && (x - 1) % 2 == 1;
      k := j + 1;
    }
  }

  /** A positive number shares its bits with itself. */
  lemma {:induction false} ShareBit(x: nat, n: nat)
    requires 0 < x < Pow2(n)
    ensures Bitwise(AND_BIT, x, x, n) == x
  {
    if x / 2 > 0 {
      ShareBit(x / 2, n - 1);
    } else {
      AndZero(0, n - 1);
    }
  }

  lemma {:induction false} PowerHasOneBit(k: nat, n: nat)
    requires k < n
    ensures Pow2(k) < Pow2(n) && Bitwise(AND_BIT, Pow2(k), Pow2(k) - 1, n) == 0
  {
    if k == 0 {
      AndZero(0, n - 1);
      PowPositive(n - 1);
    } else {
      PowerHasOneBit(k - 1, n - 1);
      var p := Pow2(k - 1);
      assert Pow2(k) == 2 * p && (2 * p - 1) / 2 == p - 1;
    }
  }

  lemma WordOfInt(b: int)
    requires Int32(b) && b != 0
    ensures Word(b) == (if b < 0 then b + WORD else b) && Word(b - 1) == Word(b) - 1 && 0 < Word(b) < WORD
  {
  }

  /** A one-bit pattern is that of a power of two or of -2^31. */
  lemma OneBitMagnitude(b: int, k: nat)
    requires Int32(b) && b != 0 && k < 32 && Word(b) == Pow2(k)
    ensures Abs(b) == Pow2(k) && Pow2(k) <= HALF
  {
    hide Word;
    WordOfInt(b);
    Powers();
    PowerBelow(k, 31);
    PowerBelow(k, 30);
  }

  /** For a divisor with one bit the masked remainder is the one that is never negative. */
  lemma MaskedRemainder(a: int, b: int) returns (m: nat)
    requires Int32(a) && Int32(b) && b != 0 && OneBit(b)
    ensures m == Abs(b) && m > 0 && EvalImm(Mod, a, b) == Some(a % m)
  {
    hide Word, Pow2, Bitwise;
    Powers();
    WordOfInt(b);
    var k := OneBitIsPower(Word(b), 32);
    m := Pow2(k);
    OneBitMagnitude(b, k);
    MaskKeepsLow(Word(a), k, 32);
    WordModulo(a, k);
    assert a % m < m;
  }

  /** A power of two below 2^32 divides 2^32. */
  lemma WordModulo(a: int, k: nat)
    requires k < 32
    ensures Word(a) % Pow2(k) == a % Pow2(k)
  {
    var p, q := Pow2(k), Pow2(32 - k);
    PowerProduct(k, 32 - k);
    Powers();
    WordIs(a);
    LessMultiple(a, p, a / WORD * q);
    MultipleOf(a / WORD, p, q);
  }

  /** OP_mod is C's remainder exactly if the divisor does not have a single bit, or the dividend
      is not negative, or the division leaves nothing. */
  lemma ModExactly(a: int, b: int)
    requires Int32(a) && Int32(b) && b != 0 && !(a == INT_MIN && b == -1)
    ensures EvalImm(Mod, a, b) == Some(TruncMod(a, b)) <==> !OneBit(b) || a >= 0 || a % Abs(b) == 0
  {
    hide OneBit, EvalImm;
    if OneBit(b) {
      var m := MaskedRemainder(a, b);
      TruncAgainstMasked(a, b, m);
    } else {
      PlainMod(a, b);
    }
  }

  /** An input that fails: in C, -5 % 4 is -1. */
  lemma ModGoesWrong()
    ensures EvalImm(Mod, -5, 4) == Some(3) && TruncMod(-5, 4) == -1
  {
    hide OneBit, EvalImm;
    OneBitOfFour();
    var m := MaskedRemainder(-5, 4);
  }

  lemma OneBitOfFour()
    ensures OneBit(4)
  {
    PowerHasOneBit(2, 32);
    assert Pow2(2) == 4;
  }

  lemma PlainMod(a: int, b: int)
    requires b != 0 && !(a == INT_MIN && b == -1) && !OneBit(b)
    ensures EvalImm(Mod, a, b) == Some(TruncMod(a, b))
  {
  }

  /** The non-negative remainder, from the quotient and remainder of the magnitude. */
  lemma EuclideanIs(a: int, m: nat, q: nat, r: nat)
    requires m > 0 && r < m && (if a < 0 then -a else a) == q * m + r
    ensures a % m == if a >= 0 || r == 0 then r else m - r
  {
    if a >= 0 {
      Quotient(a, m, q, r);
    } else if r == 0 {
      assert (0 - q) * m == 0 - q * m;
      Quotient(a, m, 0 - q, 0);
    } else {
      assert (0 - q - 1) * m == 0 - q * m - m;
      Quotient(a, m, 0 - q - 1, m - r);
    }
  }

  /** The truncated remainder is the non-negative one unless the dividend is negative. */
  lemma TruncAgainstMasked(a: int, b: int, m: nat)
    requires b != 0 && m == Abs(b) && m > 0
    ensures a % m == TruncMod(a, b) <==> a >= 0 || a % m == 0
  {
    var n: int := Abs(a);
    var q, r := n / m, n % m;
    assert n == q * m + r;
    TruncModIs(a, b, q, r);
    hide *;
    EuclideanIs(a, m, q, r);
  }

  // ---- what two stacks stand for -----------------------------------------------------------------------------------

  function Known(vals: seq<int>): (r: seq<Option<int>>)
    ensures |r| == |vals| && forall k :: 0 <= k < |vals| ==> r[k] == Some(vals[k])
  {
    seq(|vals|, k requires 0 <= k < |vals| => Some(vals[k]))
  }

  predicate Rising(ops: seq<Op>)
  {
    forall i :: 0 < i < |ops| ==> Prio(ops[i - 1]) < Prio(ops[i])
  }

  function Rank(op: Op): nat
    requires Supported(op)
  {
    if Prio(op) <= 5 then Prio(op) - 4 else Prio(op) - 7
  }

  lemma {:induction false} RankGrows(ops: seq<Op>, i: nat)
    requires Rising(ops) && i < |ops| && forall k :: 0 <= k < |ops| ==> Supported(ops[k])
    ensures Rank(ops[i]) >= i
  {
    if i > 0 {
      RankGrows(ops, i - 1);
    }
  }

  const MAX_OPS := 7

  /** The stack of pending operators rises strictly in priority: seven at most. */
  lemma StackIsShort(ops: seq<Op>)
    requires Rising(ops) && forall k :: 0 <= k < |ops| ==> Supported(ops[k])
    ensures |ops| <= MAX_OPS
  {
    if |ops| > MAX_OPS {
      RankGrows(ops, MAX_OPS);
    }
  }

  /** An undefined operand makes the whole value undefined. */
  lemma {:induction false} UndefinedSpreads(vals: seq<Option<int>>, ops: seq<Op>, i: nat)
    requires |vals| == |ops| + 1 && i < |vals| && vals[i] == None
    ensures Value(EVAL, vals, ops) == None
    decreases |ops|
  {
    if ops != [] {
      var k := Root(ops);
      if i <= k {
        UndefinedSpreads(vals[..k + 1], ops[..k], i);
      } else {
        UndefinedSpreads(vals[k + 1..], ops[k + 1..], i - k - 1);
      }
    }
  }

  /** What the stacks and the unread input stand for together. */
  ghost function Pending(vals: seq<int>, ops: seq<Op>, moreVals: seq<int>, moreOps: seq<Op>): Option<int>
    requires |vals| == |ops| + 1 && |moreVals| == |moreOps|
  {
    Value(EVAL, Known(vals + moreVals), ops + moreOps)
  }

  /** Applying the operator on top of the stack, which the next one does not outrank. */
  lemma ApplyTop(vals: seq<int>, ops: seq<Op>, moreVals: seq<int>, moreOps: seq<Op>)
    requires |vals| == |ops| + 1 && |moreVals| == |moreOps| && ops != [] && Rising(ops)
    requires moreOps != [] ==> Prio(ops[|ops| - 1]) >= Prio(moreOps[0])
    ensures var n := |ops|;
            var r := EvalImm(ops[n - 1], vals[n - 1], vals[n]);
            if r == None then Pending(vals, ops, moreVals, moreOps) == None
            else Pending(vals[..n - 1] + [r.value], ops[..n - 1], moreVals, moreOps)
                 == Pending(vals, ops, moreVals, moreOps)
  {
    hide Value, EvalImm, Applied, Without, Known;
    var n := |ops|;
    var r := EvalImm(ops[n - 1], vals[n - 1], vals[n]);
    KnownAppend(vals, moreVals);
    RipeTop(ops, moreOps);
    ApplyRipe(EVAL, Known(vals) + Known(moreVals), ops + moreOps, n - 1);
    AppliedTop(EVAL, Known(vals), ops, Known(moreVals), moreOps);
    var next, nextOps := Known(vals)[..n - 1] + [r] + Known(moreVals), ops[..n - 1] + moreOps;
    if r == None {
      UndefinedSpreads(next, nextOps, n - 1);
    } else {
      KnownAppend(vals[..n - 1], [r.value]);
      KnownAppend(vals[..n - 1] + [r.value], moreVals);
      KnownPrefix(vals, n - 1, r.value);
    }
  }

  lemma KnownAppend(a: seq<int>, b: seq<int>)
    ensures Known(a + b) == Known(a) + Known(b)
  {
  }

  lemma KnownPrefix(a: seq<int>, n: nat, x: int)
    requires n <= |a|
    ensures Known(a[..n]) == Known(a)[..n] && Known([x]) == [Some(x)]
  {
  }

  lemma RipeTop(ops: seq<Op>, moreOps: seq<Op>)
    requires ops != [] && Rising(ops) && (moreOps != [] ==> Prio(ops[|ops| - 1]) >= Prio(moreOps[0]))
    ensures Ripe(ops + moreOps, |ops| - 1)
  {
  }

  lemma AppliedTop<T>(e: (Op, T, T) -> T, a: seq<T>, ops: seq<Op>, b: seq<T>, moreOps: seq<Op>)
    requires |a| == |ops| + 1 && |b| == |moreOps| && ops != []
    ensures var n := |ops|;
            && Applied(e, a + b, ops + moreOps, n - 1) == a[..n - 1] + [e(ops[n - 1], a[n - 1], a[n])] + b
            && Without(ops + moreOps, n - 1) == ops[..n - 1] + moreOps
  {
    var n := |ops|;
    assert (a + b)[..n - 1] == a[..n - 1] && (a + b)[n + 1..] == b;
    assert (ops + moreOps)[..n - 1] == ops[..n - 1] && (ops + moreOps)[n..] == moreOps;
  }

  lemma ShiftNext(vals: seq<int>, ops: seq<Op>, moreVals: seq<int>, moreOps: seq<Op>)
    requires |vals| == |ops| + 1 && |moreVals| == |moreOps| > 0
    ensures Pending(vals + [moreVals[0]], ops + [moreOps[0]], moreVals[1..], moreOps[1..])
            == Pending(vals, ops, moreVals, moreOps)
  {
    assert vals + [moreVals[0]] + moreVals[1..] == vals + moreVals;
    assert ops + [moreOps[0]] + moreOps[1..] == ops + moreOps;
  }

  lemma NothingPending(x: int)
    ensures Pending([x], [], [], []) == Some(x)
  {
  }

  lemma StartPending(first: int, ops: seq<Op>, operands: seq<int>)
    requires |operands| == |ops| > 0
    ensures Pending([first, operands[0]], [ops[0]], operands[1..], ops[1..])
            == Value(EVAL, Known([first] + operands), ops)
  {
    assert [first, operands[0]] + operands[1..] == [first] + operands && [ops[0]] + ops[1..] == ops;
  }

  lemma NoOperator(x: int, more: seq<int>)
    ensures Known([x] + more)[0] == Some(x) && Value(EVAL, Known([x]), []) == Some(x)
    ensures more == [] ==> [x] + more == [x]
    ensures |more| == 1 ==> Known([x] + more)[1] == Some(more[0])
  {
  }
}
