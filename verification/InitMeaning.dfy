/** What a global initializer is worth in C: the tree the grammar of C99, sections 6.5.5 to 6.5.14,
    gives it, and the result of every operator. The evaluator of src/parser.c:3499-3732 computes it. */
module InitMeaning {
  import opened Options
  import opened Words
  import opened InitEval

  // ---- the grammar -------------------------------------------------------------------------------

  datatype Expr<T> = Leaf(value: T) | Bin(op: Op, left: Expr<T>, right: Expr<T>)

  /** The operators of each level, from logical OR (section 6.5.14) to multiplication (6.5.5). */
  const LADDER: seq<set<Op>> := [
    {LogOr}, {LogAnd}, {BitOr}, {BitXor}, {BitAnd}, {Eq, Neq}, {Lt, Gt, Leq, Geq}, {Shl, Shr}, {Add, Sub},
    {Mul, Div, Mod}
  ]

  /** Expressions of a level: an operator of the level or a tighter one, with a left operand of its
      own level and a right operand of the next; or a constant. */
  predicate Derives<T>(t: Expr<T>, level: nat)
  {
    match t
    case Leaf(_) => true
    case Bin(op, left, right) =>
      exists n :: level <= n < |LADDER| && op in LADDER[n] && Derives(left, n) && Derives(right, n + 1)
  }

  function Leaves<T>(t: Expr<T>): (r: seq<T>)
    ensures |r| == |Operators(t)| + 1
  {
    match t case Leaf(v) => [v] case Bin(_, left, right) => Leaves(left) + Leaves(right)
  }

  function Operators<T>(t: Expr<T>): seq<Op>
  {
    match t case Leaf(_) => [] case Bin(op, left, right) => Operators(left) + [op] + Operators(right)
  }

  function Fold<T>(e: (Op, T, T) -> T, t: Expr<T>): T
  {
    match t case Leaf(v) => v case Bin(op, left, right) => e(op, Fold(e, left), Fold(e, right))
  }

  /** The levels of the grammar are the priorities of the source. */
  lemma LevelIsPriority(op: Op, n: nat)
    requires n < |LADDER|
    ensures op in LADDER[n] <==> Prio(op) == n + 4
  {
  }

  lemma {:induction false} LevelsBound<T>(t: Expr<T>, level: nat, j: nat)
    requires Derives(t, level) && j < |Operators(t)|
    ensures Prio(Operators(t)[j]) >= level + 4
  {
    if t.Bin? {
      var n :| level <= n < |LADDER| && t.op in LADDER[n] && Derives(t.left, n) && Derives(t.right, n + 1);
      LevelIsPriority(t.op, n);
      var k := |Operators(t.left)|;
      if j < k {
        LevelsBound(t.left, n, j);
      } else if j > k {
        LevelsBound(t.right, n + 1, j - k - 1);
      }
    }
  }

  /** The precedence tree is the one of the grammar: whatever tree derives the input, its value is
      that of the precedence tree. */
  lemma {:induction false} GrammarValue<T>(e: (Op, T, T) -> T, t: Expr<T>, level: nat)
    requires Derives(t, level)
    ensures Value(e, Leaves(t), Operators(t)) == Fold(e, t)
    decreases t
  {
    if t.Bin? {
      var n :| level <= n < |LADDER| && t.op in LADDER[n] && Derives(t.left, n) && Derives(t.right, n + 1);
      GrammarValue(e, t.left, n);
      GrammarValue(e, t.right, n + 1);
      var vals, ops, k := Leaves(t), Operators(t), |Operators(t.left)|;
      TopIsRoot(t, n);
      Halves(t);
      hide Derives, Leaves, Operators, IsRoot;
      ValueAt(e, vals, ops, k);
    }
  }

  lemma Halves<T>(t: Expr<T>)
    requires t.Bin?
    ensures var vals, ops, k := Leaves(t), Operators(t), |Operators(t.left)|;
            && k < |ops| && ops[k] == t.op && ops[..k] == Operators(t.left) && ops[k + 1..] == Operators(t.right)
            && vals[..k + 1] == Leaves(t.left) && vals[k + 1..] == Leaves(t.right)
  {
  }

  lemma TopIsRoot<T>(t: Expr<T>, n: nat)
    requires t.Bin? && n < |LADDER| && t.op in LADDER[n] && Derives(t.left, n) && Derives(t.right, n + 1)
    ensures IsRoot(Operators(t), |Operators(t.left)|)
  {
    hide Prio, Derives, Operators, Leaves;
    var ops, k := Operators(t), |Operators(t.left)|;
    Halves(t);
    LevelIsPriority(t.op, n);
    forall j | 0 <= j < |ops| && j != k
      ensures Prio(ops[k]) <= Prio(ops[j]) && (j > k ==> Prio(ops[k]) < Prio(ops[j]))
    {
      if j < k {
        assert ops[j] == ops[..k][j];
        LevelsBound(t.left, n, j);
      } else {
        assert ops[j] == ops[k + 1..][j - k - 1];
        LevelsBound(t.right, n + 1, j - k - 1);
      }
    }
  }

  /** The grammar derives every sequence of constants and operators. */
  lemma {:induction false} Parses<T>(vals: seq<T>, ops: seq<Op>, level: nat) returns (t: Expr<T>)
    requires |vals| == |ops| + 1 && forall j :: 0 <= j < |ops| ==> Prio(ops[j]) >= level + 4
    ensures Derives(t, level) && Leaves(t) == vals && Operators(t) == ops
    decreases |ops|
  {
    if ops == [] {
      t := Leaf(vals[0]);
    } else {
      hide Prio;
      var k := Root(ops);
      var n: nat := Prio(ops[k]) - 4;
      LevelIsPriority(ops[k], n);
      var left := Parses(vals[..k + 1], ops[..k], n);
      var right := Parses(vals[k + 1..], ops[k + 1..], n + 1);
      t := Bin(ops[k], left, right);
      assert ops == ops[..k] + [ops[k]] + ops[k + 1..] && vals == vals[..k + 1] + vals[k + 1..];
    }
  }

  // ---- the operators -----------------------------------------------------------------------------

  ghost predicate PowerOfTwo(w: nat)
  {
    exists k: nat :: k < 32 && w == Pow2(k)
  }

  /** Where the result is defined, with the operators the evaluator knows. */
  predicate Defined(op: Op, a: int, b: int)
  {
    match op
    case Div => b != 0 && !(a == INT_MIN && b == -1)
    case Mod => b != 0 && !(a == INT_MIN && b == -1)
    case Shl => 0 <= b < 32
    case Shr => 0 <= b < 32
    case BitOr => false
    case BitXor => false
    case BitAnd => false
    case _ => true
  }

  /** `r` is the int that `x` wraps around to. */
  predicate Wraps(x: int, r: int)
  {
    Int32(r) && (x - r) % WORD == 0
  }

  /** The truncated quotient: that of the magnitudes, negative only when the signs differ. */
  predicate IsQuotient(a: int, b: int, q: int)
  {
    && 0 <= Abs(a) - Abs(q) * Abs(b) < Abs(b)
    && (q > 0 ==> (a < 0) == (b < 0)) && (q < 0 ==> (a < 0) != (b < 0))
  }

  /** What truncated division leaves: the sign is that of the dividend. */
  ghost predicate IsRemainder(a: int, b: int, r: int)
  {
    && Abs(r) < Abs(b) && (exists q: nat :: Abs(a) == q * Abs(b) + Abs(r))
    && (r > 0 ==> a > 0) && (r < 0 ==> a < 0)
  }


  /** The result of an operator. Sums, differences, products and shifts wrap around; a negative number
      is shifted right with its sign. Where the divisor is a power of two and the dividend negative,
      the remainder is the one that is not negative; elsewhere it is C's. */
  ghost predicate Yields(op: Op, a: int, b: int, r: int)
    requires Defined(op, a, b)
  {
    match op
    case Add => Wraps(a + b, r)
    case Sub => Wraps(a - b, r)
    case Mul => Wraps(a * b, r)
    case Div => IsQuotient(a, b, r)
    case Mod =>
      if PowerOfTwo(Word(b)) && a < 0 then 0 <= r < Abs(b) && (a - r) % Abs(b) == 0 else IsRemainder(a, b, r)
    case Shl => Wraps(a * Pow2(b), r)
    case Shr => r * Pow2(b) <= a < (r + 1) * Pow2(b)
    case LogAnd => 0 <= r <= 1 && (r == 1 <==> a != 0 && b != 0)
    case LogOr => 0 <= r <= 1 && (r == 1 <==> a != 0 || b != 0)
    case Eq => 0 <= r <= 1 && (r == 1 <==> a == b)
    case Neq => 0 <= r <= 1 && (r == 1 <==> a != b)
    case Lt => 0 <= r <= 1 && (r == 1 <==> a < b)
    case Gt => 0 <= r <= 1 && (r == 1 <==> a > b)
    case Leq => 0 <= r <= 1 && (r == 1 <==> a <= b)
    case Geq => 0 <= r <= 1 && (r == 1 <==> a >= b)
    case _ => false
  }

  lemma WrapsExactly(x: int, r: int)
    ensures Wraps(x, r) <==> r == Wrap(x)
  {
    WordIs(x);
    if Wraps(x, r) {
      var k := (x - r) / WORD;
      assert x == r + k * WORD;
      WordShift(r, k);
    } else {
      if r == Wrap(x) {
        var w: int := Word(x);
        assert r == w || r == w - WORD;
        Quotient(x - r, WORD, if r == w then x / WORD else x / WORD + 1, 0);
      }
    }
  }

  lemma QuotientExactly(a: int, b: int, r: int)
    requires b != 0
    ensures IsQuotient(a, b, r) <==> r == TruncDiv(a, b)
  {
    var n: nat, d: nat := Abs(a), Abs(b);
    var q, m := n / d, n % d;
    assert n == q * d + m;
    if IsQuotient(a, b, r) {
      DivisionOf(n, d, Abs(r), n - Abs(r) * d);
    }
    assert r == TruncDiv(a, b) ==> Abs(r) == q;
  }

  lemma RemainderExactly(a: int, b: int, r: int)
    requires b != 0
    ensures IsRemainder(a, b, r) <==> r == TruncMod(a, b)
  {
    hide TruncMod, TruncDiv;
    if IsRemainder(a, b, r) {
      var q: nat :| Abs(a) == q * Abs(b) + Abs(r);
      TruncModIs(a, b, q, Abs(r));
    } else {
      TruncModIsRemainder(a, b);
    }
  }

  lemma TruncModIsRemainder(a: int, b: int)
    requires b != 0
    ensures IsRemainder(a, b, TruncMod(a, b))
  {
    hide TruncMod, TruncDiv;
    var q, m := Abs(a) / Abs(b), Abs(a) % Abs(b);
    assert Abs(a) == q * Abs(b) + m;
    TruncModIs(a, b, q, m);
    assert Abs(TruncMod(a, b)) == m;
  }

  lemma ShiftExactly(a: int, p: nat, r: int)
    requires p > 0
    ensures r * p <= a < (r + 1) * p <==> r == a / p
  {
    assert (r + 1) * p == r * p + p;
    if r * p <= a < (r + 1) * p {
      Quotient(a, p, r, a - r * p);
    }
    if r == a / p {
      assert a == r * p + a % p;
    }
  }

  lemma NonNegativeExactly(a: int, m: nat, r: int)
    requires m > 0
    ensures 0 <= r < m && (a - r) % m == 0 <==> r == a % m
  {
    if 0 <= r < m && (a - r) % m == 0 {
      var q := (a - r) / m;
      assert a == q * m + r;
      Quotient(a, m, q, r);
    }
    if r == a % m {
      assert a - r == a / m * m;
      Quotient(a - r, m, a / m, 0);
    }
  }

  /** `tmp &= (tmp - 1)` leaves nothing exactly for powers of two, -2^31 among them. */
  lemma OneBitExactly(b: int)
    requires Int32(b) && b != 0
    ensures OneBit(b) <==> PowerOfTwo(Word(b))
  {
    hide Word, Bitwise;
    WordOfInt(b);
    Powers();
    hide Pow2;
    if OneBit(b) {
      var k := OneBitIsPower(Word(b), 32);
    }
    if PowerOfTwo(Word(b)) {
      var k: nat :| k < 32 && Word(b) == Pow2(k);
      PowerHasOneBit(k, 32);
    }
  }

  lemma ModMeans(a: int, b: int, r: int)
    requires Int32(a) && Int32(b) && Defined(Mod, a, b)
    ensures EvalImm(Mod, a, b) == Some(r) <==> Yields(Mod, a, b, r)
  {
    hide Word, Bitwise, EvalImm, OneBit, IsRemainder, PowerOfTwo, TruncMod;
    OneBitExactly(b);
    RemainderExactly(a, b, r);
    if OneBit(b) {
      var m := MaskedRemainder(a, b);
      NonNegativeExactly(a, m, r);
      if a >= 0 {
        ModExactly(a, b);
      }
    } else {
      PlainMod(a, b);
    }
  }

  /** Every operator gives its result in C where that is defined, and only that. */
  lemma EvalMeans(op: Op, a: int, b: int, r: int)
    requires Int32(a) && Int32(b)
    ensures EvalImm(op, a, b) == Some(r) <==> Defined(op, a, b) && Yields(op, a, b, r)
  {
    hide Word, Bitwise, TruncDiv, IsQuotient, Pow2, Wrap, Wraps;
    match op {
      case Add => WrapsExactly(a + b, r);
      case Sub => WrapsExactly(a - b, r);
      case Mul => WrapsExactly(a * b, r);
      case Div => if b != 0 { QuotientExactly(a, b, r); }
      case Mod => if Defined(Mod, a, b) { ModMeans(a, b, r); } else { ModUndefined(a, b); }
      case Shl => if 0 <= b < 32 { WrapsExactly(a * Pow2(b), r); }
      case Shr => if 0 <= b < 32 { ShiftExactly(a, Pow2(b), r); }
      case _ =>
    }
  }

  lemma ModUndefined(a: int, b: int)
    requires Int32(a) && Int32(b) && !Defined(Mod, a, b)
    ensures EvalImm(Mod, a, b) == None
  {
    if b == -1 {
      hide Word, Bitwise;
      OneBitExactly(b);
      WordOfInt(b);
    }
  }

  lemma ResultInRange(op: Op, a: int, b: int)
    requires Int32(a) && Int32(b) && EvalImm(op, a, b).Some?
    ensures Int32(EvalImm(op, a, b).value)
  {
    hide Word, Bitwise, Pow2, Signed, TruncDiv, TruncMod;
    var r := EvalImm(op, a, b).value;
    EvalMeans(op, a, b, r);
    match op {
      case Div => QuotientInRange(a, b, r);
      case Mod => RemainderInRange(a, b, r);
      case Shr => HalvesInRange(a, Pow2(b), r);
      case _ =>
    }
  }

  lemma ProductGrows(x: nat, d: nat)
    ensures d >= 1 ==> x * d >= x
    ensures d >= 2 ==> x * d >= 2 * x
  {
    if d >= 2 {
      assert x * (d - 2) >= 0;
    }
  }

  lemma QuotientInRange(a: int, b: int, r: int)
    requires Int32(a) && Int32(b) && b != 0 && !(a == INT_MIN && b == -1) && IsQuotient(a, b, r)
    ensures Int32(r)
  {
    ProductGrows(Abs(r), Abs(b));
    QuotientBounds(a, b, r, Abs(r) * Abs(b));
  }

  lemma QuotientBounds(a: int, b: int, r: int, p: int)
    requires Int32(a) && b != 0 && !(a == INT_MIN && b == -1) && p <= Abs(a) && p >= Abs(r)
    requires Abs(b) >= 2 ==> p >= 2 * Abs(r)
    requires (r > 0 ==> (a < 0) == (b < 0)) && (r < 0 ==> (a < 0) != (b < 0))
    ensures Int32(r)
  {
  }

  lemma RemainderInRange(a: int, b: int, r: int)
    requires Int32(a) && Int32(b) && Defined(Mod, a, b) && Yields(Mod, a, b, r)
    ensures Int32(r)
  {
    hide Word, PowerOfTwo;
  }

  lemma HalvesInRange(a: int, p: nat, r: int)
    requires Int32(a) && p > 0 && r * p <= a < (r + 1) * p
    ensures Int32(r)
  {
    if r >= 0 {
      ProductGrows(r, p);
    } else {
      ProductGrows(-(r + 1), p);
      assert (r + 1) * p == -(-(r + 1) * p);
    }
  }

  // ---- whole initializers ------------------------------------------------------------------------

  /** `v` is what the expression is worth in C. */
  ghost predicate Worth(t: Expr<int>, v: int)
  {
    match t
    case Leaf(x) => v == x
    case Bin(op, left, right) =>
      exists a, b :: Worth(left, a) && Worth(right, b) && Defined(op, a, b) && Yields(op, a, b, v)
  }

  function Lifted(t: Expr<int>): Expr<Option<int>>
  {
    match t case Leaf(x) => Leaf(Some(x)) case Bin(op, left, right) => Bin(op, Lifted(left), Lifted(right))
  }

  lemma {:induction false} LiftedSame(t: Expr<int>, level: nat)
    requires Derives(t, level)
    ensures Derives(Lifted(t), level) && Leaves(Lifted(t)) == Known(Leaves(t)) && Operators(Lifted(t)) == Operators(t)
    decreases t
  {
    if t.Bin? {
      var n :| level <= n < |LADDER| && t.op in LADDER[n] && Derives(t.left, n) && Derives(t.right, n + 1);
      LiftedSame(t.left, n);
      LiftedSame(t.right, n + 1);
      KnownAppend(Leaves(t.left), Leaves(t.right));
    }
  }

  lemma {:induction false} FoldIsWorth(t: Expr<int>, v: int)
    requires forall j :: 0 <= j < |Leaves(t)| ==> Int32(Leaves(t)[j])
    ensures Fold(EVAL, Lifted(t)) == Some(v) <==> Worth(t, v)
    ensures Fold(EVAL, Lifted(t)) == Some(v) ==> Int32(v)
    decreases t
  {
    if t.Leaf? {
      assert Leaves(t)[0] == t.value;
    } else {
      hide EvalImm, Yields, Int32;
      forall j | 0 <= j < |Leaves(t.left)| ensures Int32(Leaves(t.left)[j]) {
        assert Leaves(t)[j] == Leaves(t.left)[j];
      }
      forall j | 0 <= j < |Leaves(t.right)| ensures Int32(Leaves(t.right)[j]) {
        assert Leaves(t)[|Leaves(t.left)| + j] == Leaves(t.right)[j];
      }
      forall a: int, b: int
        ensures Fold(EVAL, Lifted(t.left)) == Some(a) <==> Worth(t.left, a)
        ensures Fold(EVAL, Lifted(t.right)) == Some(b) <==> Worth(t.right, b)
        ensures Worth(t.left, a) && Worth(t.right, b) ==>
                  (EvalImm(t.op, a, b) == Some(v) <==> Defined(t.op, a, b) && Yields(t.op, a, b, v))
                  && (EvalImm(t.op, a, b) == Some(v) ==> Int32(v))
      {
        FoldIsWorth(t.left, a);
        FoldIsWorth(t.right, b);
        if Worth(t.left, a) && Worth(t.right, b) {
          EvalMeans(t.op, a, b, v);
          if EvalImm(t.op, a, b) == Some(v) {
            ResultInRange(t.op, a, b);
          }
        }
      }
    }
  }

  /** The value of an initializer is what the C grammar and the C operators make of it, and there is
      none if and only if they leave it undefined. */
  lemma InitializerIsWorth(t: Expr<int>, vals: seq<int>, ops: seq<Op>, v: int)
    requires Derives(t, 0) && Leaves(t) == vals && Operators(t) == ops
    requires forall j :: 0 <= j < |vals| ==> Int32(vals[j])
    ensures Value(EVAL, Known(vals), ops) == Some(v) <==> Worth(t, v)
  {
    LiftedSame(t, 0);
    GrammarValue(EVAL, Lifted(t), 0);
    FoldIsWorth(t, v);
  }
}
