/** Arithmetic on 32-bit words: wrapping, signs, shifts and bitwise operations, and the facts
    about division by shifting and subtracting that both back ends use. */
module Words {
  const WORD: nat := 0x1_0000_0000

  function Word(x: int): (w: nat)
    ensures w < WORD
  {
    x % WORD
  }

  function Pow2(n: nat): (p: nat)
    ensures p > 0
  {
    if n == 0 then 1 else 2 * Pow2(n - 1)
  }

  lemma Powers()
    ensures Pow2(0) == 1 && Pow2(1) == 2 && Pow2(3) == 8 && Pow2(4) == 16 && Pow2(5) == 32 && Pow2(6) == 64
    ensures Pow2(7) == 128
    ensures Pow2(8) == 256 && Pow2(10) == 1024 && Pow2(11) == 2048 && Pow2(12) == 4096 && Pow2(13) == 8192
    ensures Pow2(15) == 32768
    ensures Pow2(20) == 1048576 && Pow2(21) == 2097152 && Pow2(25) == 33554432 && Pow2(30) == 1073741824
    ensures Pow2(31) == 2147483648 && Pow2(32) == WORD
  {
  }

  lemma MultipleApart(d: int, p: nat)
    ensures d > 0 ==> d * p >= p
    ensures d < 0 ==> d * p + p <= 0
  {
    if d > 0 {
      assert (d - 1) * p >= 0;
    } else if d < 0 {
      assert (-d - 1) * p >= 0;
    }
  }

  lemma Quotient(x: int, p: int, q: int, r: int)
    requires p > 0 && 0 <= r < p && x == q * p + r
    ensures x / p == q && x % p == r
  {
    var d := x / p - q;
    assert d * p == r - x % p;
    MultipleApart(d, p);
  }

  lemma SmallWord(x: int)
    requires 0 <= x < WORD
    ensures Word(x) == x
  {
  }

  lemma WordShift(x: int, k: int)
    ensures Word(x + k * WORD) == Word(x)
  {
    Quotient(x + k * WORD, WORD, x / WORD + k, x % WORD);
  }

  const HALF: nat := 0x8000_0000

  function Signed(w: nat): int
  {
    if w >= HALF then w - WORD else w
  }

  /** What is left of a result in a 32-bit int. */
  function Wrap(x: int): (r: int)
    ensures -0x8000_0000 <= r < 0x8000_0000
  {
    Signed(Word(x))
  }

  /** A bitwise operation on the low `k` bits. */
  function Bitwise(f: (nat, nat) -> nat, a: nat, b: nat, k: nat): nat
  {
    if k == 0 then 0 else f(a % 2, b % 2) + 2 * Bitwise(f, a / 2, b / 2, k - 1)
  }

  const XOR_BIT: (nat, nat) -> nat := (a, b) => if a == b then 0 else 1

  const OR_BIT: (nat, nat) -> nat := (a, b) => if a == 0 && b == 0 then 0 else 1

  const AND_BIT: (nat, nat) -> nat := (a, b) => if a == 1 && b == 1 then 1 else 0

  function XorW(a: nat, b: nat): nat { Bitwise(XOR_BIT, a, b, 32) }

  function OrW(a: nat, b: nat): nat { Bitwise(OR_BIT, a, b, 32) }

  function AndW(a: nat, b: nat): nat { Bitwise(AND_BIT, a, b, 32) }

  function SllW(a: nat, n: nat): nat { Word(a * Pow2(n)) }

  function SrlW(a: nat, n: nat): nat { if n == 0 then a else SrlW(a / 2, n - 1) }

  function SraW(a: nat, n: nat): nat { Word(Signed(a) / Pow2(n)) }

  function Flag(b: bool): nat { if b then 1 else 0 }

  /** Division as C99 section 6.5.5 has it: the quotient is truncated toward zero. */
  function TruncDiv(a: int, b: int): int
    requires b != 0
  {
    var q := Abs(a) / Abs(b);
    if (a < 0) == (b < 0) then q else 0 - q
  }

  function Abs(a: int): nat { if a < 0 then -a else a }

  function TruncMod(a: int, b: int): int
    requires b != 0
  {
    a - TruncDiv(a, b) * b
  }

  lemma {:induction false} XorZero(a: nat, k: nat)
    requires a < Pow2(k)
    ensures Bitwise(XOR_BIT, a, 0, k) == a
  {
    if k > 0 {
      XorZero(a / 2, k - 1);
    }
  }

  lemma {:induction false} XorOnes(a: nat, k: nat)
    requires a < Pow2(k)
    ensures Bitwise(XOR_BIT, a, Pow2(k) - 1, k) == Pow2(k) - 1 - a
  {
    if k > 0 {
      XorOnes(a / 2, k - 1);
      assert (Pow2(k) - 1) / 2 == Pow2(k - 1) - 1 && (Pow2(k) - 1) % 2 == 1;
    }
  }

  lemma {:induction false} AndZero(a: nat, k: nat)
    ensures Bitwise(AND_BIT, a, 0, k) == 0
  {
    if k > 0 {
      AndZero(a / 2, k - 1);
    }
  }

  lemma AndOne(a: nat)
    ensures AndW(a, 1) == a % 2
  {
    AndZero(a / 2, 31);
  }

  /** Exclusive or with no bits or with all of them. */
  lemma XorMask(a: nat)
    requires a < WORD
    ensures XorW(a, 0) == a && XorW(a, WORD - 1) == WORD - 1 - a
  {
    Powers();
    XorZero(a, 32);
    XorOnes(a, 32);
  }

  lemma SignMask(a: nat)
    requires a < WORD
    ensures SraW(a, 31) == if a >= HALF then WORD - 1 else 0
  {
    hide Pow2;
    Powers();
  }

  lemma WordCongruent(a: int, b: int, c: int)
    ensures Word(Word(a) + Word(b) * c) == Word(a + b * c)
  {
    hide Word;
    var k, j := a / WORD, b / WORD;
    Quotient(a, WORD, k, a % WORD);
    assert Word(a) == a - k * WORD && Word(b) == b - j * WORD by {
      WordIs(a);
      WordIs(b);
    }
    assert Word(a) + Word(b) * c == a + b * c + (-(k + j * c)) * WORD;
    WordShift(a + b * c, -(k + j * c));
  }

  lemma WordIs(a: int)
    ensures Word(a) == a - a / WORD * WORD
  {
  }

  lemma ShiftByOne(a: nat, b: nat)
    ensures SllW(a, 1) == Word(a * 2) && SrlW(b, 1) == b / 2
  {
    Powers();
  }

  function MagnitudeW(w: nat): nat
  {
    Abs(Signed(w))
  }

  /** Adding the sign mask and flipping by it makes the magnitude. */
  lemma MagnitudeByMask(a: nat)
    requires a < WORD
    ensures var mask := SraW(a, 31); mask < WORD && XorW(Word(a + mask), mask) == MagnitudeW(a)
  {
    SignMask(a);
    XorMask(Word(a + SraW(a, 31)));
    if a >= HALF {
      WordShift(a - 1, 1);
      SmallWord(a - 1);
    } else {
      SmallWord(a);
    }
  }

  lemma MagnitudeIsWord(a: nat)
    requires a < WORD
    ensures MagnitudeW(a) <= HALF
  {
  }

  /** The sign masks of the operands decide the sign of the result. */
  lemma SignOfResult(mod: bool, a: nat, b: nat)
    requires a < WORD && b < WORD
    ensures var s := XorW(SraW(a, 31), if mod then 0 else SraW(b, 31));
            s < WORD && (s != 0 <==> if mod then a >= HALF else (a >= HALF) != (b >= HALF))
  {
    SignMask(a);
    SignMask(b);
    XorMask(0);
    XorMask(WORD - 1);
  }

  /** Both registers double without overflow while the dividend is larger. */
  lemma DoublingFits(dv: nat, k: nat, n: nat)
    requires 0 < dv && dv * Pow2(k) < n <= HALF
    ensures Word(dv * Pow2(k) * 2) == dv * Pow2(k + 1) && Word(Pow2(k) * 2) == Pow2(k + 1)
  {
    var p := Pow2(k);
    assert p <= dv * p by {
      assert (dv - 1) * p >= 0;
    }
    assert dv * p * 2 == dv * (2 * p);
  }

  lemma QuotientFits(q: nat, p: nat, r: nat, dv: nat, n: nat)
    requires n <= HALF && dv > 0 && n == q * dv + dv * p + r
    ensures q + p < WORD && n == (q + p) * dv + r
  {
    assert (q + p) * dv == q * dv + dv * p;
    assert (q + p) * (dv - 1) >= 0;
    assert (q + p) * dv == (q + p) * (dv - 1) + (q + p);
  }

  /** What the emitted code leaves: the truncated quotient or the remainder with the sign of
      the dividend, 0 or the dividend for a zero divisor, wrapping as 32-bit words do. */
  function SoftDiv(mod: bool, a: nat, b: nat): nat
    requires a < WORD && b < WORD
  {
    if b == 0 then (if mod then a else 0)
    else Word(if mod then TruncMod(Signed(a), Signed(b)) else TruncDiv(Signed(a), Signed(b)))
  }

  lemma DivisionOf(n: nat, dv: nat, q: nat, r: nat)
    requires dv > 0 && n == q * dv + r && r < dv
    ensures n / dv == q && n % dv == r
  {
    Quotient(n, dv, q, r);
  }

  /** Sign and magnitude make the truncated results. */
  lemma SignedResult(mod: bool, a: nat, b: nat, q: nat, r: nat)
    requires a < WORD && b < WORD
    requires var n, dv := MagnitudeW(a), MagnitudeW(b); if dv == 0 then q == 0 && r == n else n == q * dv + r && r < dv
    ensures var m: int := if mod then r else q;
            SoftDiv(mod, a, b) == if (if mod then a >= HALF else (a >= HALF) != (b >= HALF)) then Word(0 - m)
              else Word(m)
  {
    hide Word;
    var n: int, dv: int, sa, sb := MagnitudeW(a), MagnitudeW(b), Signed(a), Signed(b);
    assert n == Abs(sa) && dv == Abs(sb);
    if dv == 0 {
      WordShift(0 - n, 1);
      SmallWord(a);
      SmallWord(0);
    } else {
      DivisionOf(n, dv, q, r);
      assert TruncDiv(sa, sb) == if (sa < 0) == (sb < 0) then q else 0 - q;
      TruncModIs(sa, sb, q, r);
    }
  }

  lemma TruncModIs(a: int, b: int, q: nat, r: nat)
    requires b != 0 && Abs(a) == q * Abs(b) + r && r < Abs(b)
    ensures TruncMod(a, b) == if a < 0 then 0 - r else r
  {
    DivisionOf(Abs(a), Abs(b), q, r);
    assert q * (0 - b) == 0 - q * b == (0 - q) * b;
  }

  lemma WordSum(a: int, b: int)
    ensures Word(Word(a) + b) == Word(a + b)
  {
    WordIs(a);
    WordShift(a + b, -(a / WORD));
  }

  lemma {:induction false} PowerBelow(k: nat, n: nat)
    ensures k <= n ==> Pow2(k) <= Pow2(n)
    ensures k > n ==> Pow2(k) >= 2 * Pow2(n)
  {
    if k <= n {
      if k < n { PowerBelow(k, n - 1); }
    } else {
      if k > n + 1 { PowerBelow(k - 1, n); }
    }
  }

  lemma {:induction false} PowerProduct(a: nat, b: nat)
    ensures Pow2(a + b) == Pow2(a) * Pow2(b)
  {
    if a > 0 {
      PowerProduct(a - 1, b);
    }
  }

  lemma MultipleOf(c: int, p: int, q: int)
    ensures c * (p * q) == c * q * p
  {
  }

  lemma LessMultiple(a: int, p: nat, n: int)
    requires p > 0
    ensures (a - n * p) % p == a % p
  {
    var d := a / p;
    assert a == d * p + a % p;
    assert (d - n) * p == d * p - n * p;
    Quotient(a - n * p, p, d - n, a % p);
  }

  lemma PowPositive(n: nat)
    ensures Pow2(n) >= 1
  {
  }

  /** Masking with `2^k - 1` keeps the low `k` bits. */
  lemma {:induction false} MaskKeepsLow(x: nat, k: nat, n: nat)
    requires k <= n && x < Pow2(n)
    ensures Bitwise(AND_BIT, x, Pow2(k) - 1, n) == x % Pow2(k)
  {
    if k == 0 {
      AndZero(x, n);
    } else {
      MaskKeepsLow(x / 2, k - 1, n - 1);
      var p := Pow2(k - 1);
      assert Pow2(k) == 2 * p && (2 * p - 1) / 2 == p - 1 && (2 * p - 1) % 2 == 1;
      DoubleRemainder(x, p);
    }
  }

  lemma DoubleRemainder(x: nat, p: nat)
    requires p > 0
    ensures x % (2 * p) == x % 2 + 2 * (x / 2 % p)
  {
    var h := x / 2;
    var q, r := h / p, h % p;
    assert h == q * p + r;
    assert q * (2 * p) == 2 * (q * p);
    Quotient(x, 2 * p, q, x % 2 + 2 * r);
  }

  // ---- bits and shifts ---------------------------------------------------------------------------

  predicate Bit(a: nat, i: nat)
  {
    a / Pow2(i) % 2 == 1
  }

  /** A bitwise operation works on every bit by itself. */
  lemma {:induction false} BitwiseBit(f: (nat, nat) -> nat, a: nat, b: nat, k: nat, i: nat)
    requires i < k && forall x, y :: f(x, y) < 2
    ensures Bit(Bitwise(f, a, b, k), i) <==> f(if Bit(a, i) then 1 else 0, if Bit(b, i) then 1 else 0) == 1
  {
    var r := Bitwise(f, a, b, k);
    if i == 0 {
      Powers();
    } else {
      BitwiseBit(f, a / 2, b / 2, k - 1, i - 1);
      assert r / 2 == Bitwise(f, a / 2, b / 2, k - 1);
      HalfBit(r, i);
      HalfBit(a, i);
      HalfBit(b, i);
    }
  }

  lemma HalfBit(a: nat, i: nat)
    requires i > 0
    ensures Bit(a, i) <==> Bit(a / 2, i - 1)
  {
    HalveQuotient(a, Pow2(i - 1));
  }

  lemma HalveQuotient(a: nat, p: nat)
    requires p > 0
    ensures a / (2 * p) == a / 2 / p
  {
    var h := a / 2;
    var q, r := h / p, h % p;
    assert h == q * p + r;
    assert q * (2 * p) == 2 * (q * p);
    Quotient(a, 2 * p, q, 2 * r + a % 2);
  }

  /** The three operations, bit by bit. */
  lemma BitwiseMeans(a: nat, b: nat, i: nat)
    requires i < 32
    ensures Bit(AndW(a, b), i) <==> Bit(a, i) && Bit(b, i)
    ensures Bit(OrW(a, b), i) <==> Bit(a, i) || Bit(b, i)
    ensures Bit(XorW(a, b), i) <==> (Bit(a, i) <==> !Bit(b, i))
  {
    hide Bitwise, Bit;
    BitwiseBit(AND_BIT, a, b, 32, i);
    BitwiseBit(OR_BIT, a, b, 32, i);
    BitwiseBit(XOR_BIT, a, b, 32, i);
  }

  /** Shifting right by halving is division by a power of two. */
  lemma {:induction false} ShiftRight(a: nat, n: nat)
    ensures SrlW(a, n) == a / Pow2(n)
  {
    if n > 0 {
      ShiftRight(a / 2, n - 1);
      HalveQuotient(a, Pow2(n - 1));
    } else {
      Powers();
    }
  }

  /** The low `bits` bits of a word read as a signed number. */
  function LowSigned(a: nat, bits: nat): int
    requires bits > 0
  {
    var x := a % Pow2(bits);
    if x >= Pow2(bits - 1) then x - Pow2(bits) else x
  }

  lemma ProductBelow(x: nat, p: nat, q: nat)
    requires q > 0
    ensures x < p <==> x * q < p * q
  {
    MultipleApart(p - x, q);
    assert (p - x) * q == p * q - x * q;
  }

  lemma RemainderTimes(a: nat, p: nat, q: nat)
    requires p > 0 && q > 0
    ensures p * q > 0 && a * q % (p * q) == a % p * q
  {
    var d, r := a / p, a % p;
    ProductBelow(r, p, q);
    ProductBelow(0, p, q);
    assert a * q == d * (p * q) + r * q by {
      assert a == d * p + r;
      assert (d * p + r) * q == d * p * q + r * q;
      assert d * p * q == d * (p * q);
    }
    Quotient(a * q, p * q, d, r * q);
  }

  lemma ShiftedLeft(a: nat, n: nat)
    requires n <= 32
    ensures SllW(a, n) == a % Pow2(32 - n) * Pow2(n)
  {
    PowerProduct(32 - n, n);
    Powers();
    hide Pow2;
    RemainderTimes(a, Pow2(32 - n), Pow2(n));
  }

  /** Left and logically right again: the low bits. */
  lemma ShiftsClear(a: nat, n: nat)
    requires n <= 32
    ensures SrlW(SllW(a, n), n) == a % Pow2(32 - n)
  {
    hide Pow2, SllW, SrlW;
    ShiftedLeft(a, n);
    ShiftRight(SllW(a, n), n);
    Quotient(a % Pow2(32 - n) * Pow2(n), Pow2(n), a % Pow2(32 - n), 0);
  }

  lemma SignedShiftBack(x: nat, h: nat, q: nat)
    requires q > 0 && x < 2 * h && h * q == HALF
    ensures Signed(x * q) / q == if x >= h then x - 2 * h else x
  {
    ProductBelow(x, h, q);
    assert 2 * h * q == WORD;
    if x >= h {
      assert x * q - 2 * h * q == (x - 2 * h) * q;
      Quotient(x * q - WORD, q, x - 2 * h, 0);
    } else {
      Quotient(x * q, q, x, 0);
    }
  }

  /** Left and arithmetically right again: the low bits with their sign. */
  lemma ShiftsExtend(a: nat, n: nat)
    requires n < 32
    ensures SraW(SllW(a, n), n) == Word(LowSigned(a, 32 - n))
  {
    ShiftedLeft(a, n);
    PowerProduct(31 - n, n);
    PowerStep(31 - n);
    Powers();
    hide Pow2, SllW, Word, Signed;
    SignedShiftBack(a % Pow2(32 - n), Pow2(31 - n), Pow2(n));
  }

  lemma PowerStep(n: nat)
    ensures Pow2(n + 1) == 2 * Pow2(n)
  {
  }

  lemma FlipFlag(b: bool)
    ensures XorW(Flag(b), 1) == Flag(!b)
  {
    XorZero(0, 31);
    assert Bitwise(XOR_BIT, 0, 0, 31) == 0;
  }

  lemma DifferenceZero(a: nat, b: nat)
    requires a < WORD && b < WORD
    ensures Word(a - b) == 0 <==> a == b
  {
  }
}
