/** Numerals in bases 8, 10 and 16, and the three conversions of lib/c.c:179-248 that leave one at
    the end of a 16-byte buffer without dividing. */
module Numerals {
  import opened CString
  import opened Words

  type Int32 = v: int | -0x8000_0000 <= v < 0x8000_0000

  const INT_BUF_LEN := 16
  const ZERO: Byte := 48
  const MINUS: Byte := 45

  function DigitChar(d: nat): Byte
    requires d < 16
  {
    if d < 10 then ZERO + d else 97 + d - 10
  }

  /** The digits of `v` with no leading zero, hence none for 0. */
  function Digits(base: nat, v: nat): seq<Byte>
    requires 2 <= base <= 16
  {
    if v == 0 then [] else Digits(base, v / base) + [DigitChar(v % base)]
  }

  function DigitValue(c: Byte): int
  {
    if c < 58 then c - ZERO else c - 87
  }

  /** What a row of digits stands for. */
  function Denotes(base: nat, s: seq<Byte>): int
  {
    if s == [] then 0
    else base * Denotes(base, s[..|s| - 1]) + DigitValue(s[|s| - 1])
  }

  predicate IsDigit(base: nat, c: Byte)
  {
    0 <= DigitValue(c) < base <= 16 && c == DigitChar(DigitValue(c))
  }

  /** A number written with digits of the base and no superfluous zero. */
  predicate Canonical(base: nat, s: seq<Byte>)
  {
    && (forall i :: 0 <= i < |s| ==> IsDigit(base, s[i]))
    && s != [] && (s[0] == ZERO ==> |s| == 1)
  }

  function Canon(base: nat, v: nat): seq<Byte>
    requires 2 <= base <= 16
  {
    if v == 0 then [ZERO] else Digits(base, v)
  }

  lemma DenotesSnoc(base: nat, s: seq<Byte>, d: nat)
    requires d < 16
    ensures Denotes(base, s + [DigitChar(d)]) == base * Denotes(base, s) + d
  {
    var t := s + [DigitChar(d)];
    assert t[..|t| - 1] == s;
  }

  lemma DigitsStep(base: nat, v: nat, w: nat, d: nat)
    requires 2 <= base <= 16 && v > 0 && w == v / base && d == v % base
    ensures v == base * w + d && w < v && d < base && (w == 0 ==> d == v) && IsDigit(base, DigitChar(d))
    ensures Digits(base, v) == Digits(base, w) + [DigitChar(d)]
  {
    assert v == base * w + d && (base - 2) * w >= 0;
  }

  lemma {:induction false} DigitsDenote(base: nat, v: nat)
    requires 2 <= base <= 16
    ensures Denotes(base, Digits(base, v)) == v
  {
    if v == 0 {
      EmptyDenotes(base, Digits(base, v));
    } else {
      hide *;
      var w, d := v / base, v % base;
      DigitsStep(base, v, w, d);
      DigitsDenote(base, w);
      DenotesSnoc(base, Digits(base, w), d);
    }
  }

  /** The digits are digits of the base, and the first is not 0. */
  lemma {:induction false} DigitsAre(base: nat, v: nat)
    requires 2 <= base <= 16
    ensures v > 0 ==> Digits(base, v) != [] && Digits(base, v)[0] != ZERO
    ensures forall i :: 0 <= i < |Digits(base, v)| ==> IsDigit(base, Digits(base, v)[i])
  {
    if v > 0 {
      var w, d := v / base, v % base;
      DigitsStep(base, v, w, d);
      var t := Digits(base, w);
      SnocDigit(base, w, d);
      DigitsAre(base, w);
      hide *;
      assert forall i :: 0 <= i < |t| ==> (t + [DigitChar(d)])[i] == t[i];
    }
  }

  lemma SnocDigit(base: nat, w: nat, d: nat)
    requires 2 <= base <= 16 && d < base
    ensures w == 0 ==> Digits(base, w) == []
    ensures d > 0 ==> DigitChar(d) != ZERO
  {
  }

  /** `Canon` is the canonical numeral of `v`, and there is no other. */
  lemma CanonDenotes(base: nat, v: nat)
    requires 2 <= base <= 16
    ensures Canonical(base, Canon(base, v)) && Denotes(base, Canon(base, v)) == v
  {
    DigitsDenote(base, v);
    DigitsAre(base, v);
    if v == 0 {
      assert DigitChar(0) == ZERO && IsDigit(base, ZERO);
      assert [ZERO] == [] + [DigitChar(0)] && Denotes(base, []) == 0;
      DenotesSnoc(base, [], 0);
    }
  }

  lemma {:induction false} CanonUnique(base: nat, s: seq<Byte>)
    requires 2 <= base <= 16 && Canonical(base, s)
    ensures Denotes(base, s) >= 0 && s == Canon(base, Denotes(base, s))
    decreases |s|
  {
    var n := |s|;
    var t, c := s[..n - 1], s[n - 1];
    assert IsDigit(base, c);
    var d := DigitValue(c);
    assert t + [DigitChar(d)] == s;
    DenotesSnoc(base, t, d);
    hide Denotes;
    if n > 1 {
      assert Canonical(base, t) by {
        assert forall i :: 0 <= i < |t| ==> t[i] == s[i];
      }
      CanonUnique(base, t);
      var v := Denotes(base, t);
      assert t[0] == s[0];
      SnocDigits(base, v, d);
    } else {
      EmptyDenotes(base, t);
      SnocDigits(base, 0, d);
    }
  }

  lemma EmptyDenotes(base: nat, s: seq<Byte>)
    requires s == []
    ensures Denotes(base, s) == 0
  {
  }

  lemma SnocDigits(base: nat, v: nat, d: nat)
    requires 2 <= base <= 16 && d < base
    ensures base * v + d >= 0 && (v > 0 ==> base * v + d > 0)
    ensures base * v + d > 0 ==> Digits(base, base * v + d) == Digits(base, v) + [DigitChar(d)]
    ensures v == 0 ==> base * v + d == d
  {
    MultipleApart(v, base);
    Quotient(base * v + d, base, v, d);
  }

  function Zeros(n: nat): (s: seq<Byte>)
    ensures |s| == n && forall i :: 0 <= i < n ==> s[i] == ZERO
  {
    seq(n, i => ZERO)
  }

  /** The contents of the buffer with `t` at its end. */
  function Padded(t: seq<Byte>): seq<Byte>
    requires |t| <= INT_BUF_LEN
  {
    Zeros(INT_BUF_LEN - |t|) + t
  }

  function Pow(base: nat, k: nat): nat
  {
    if k == 0 then 1 else base * Pow(base, k - 1)
  }

  /** The last `k` digits of `w`, zeros included. */
  function Fixed(base: nat, k: nat, w: nat): (s: seq<Byte>)
    requires 2 <= base <= 16
    ensures |s| == k
  {
    if k == 0 then [] else Fixed(base, k - 1, w / base) + [DigitChar(w % base)]
  }

  lemma {:induction false} FixedIsPadded(base: nat, k: nat, w: nat)
    requires 2 <= base <= 16 && w < Pow(base, k)
    ensures |Digits(base, w)| <= k && Fixed(base, k, w) == Zeros(k - |Digits(base, w)|) + Digits(base, w)
  {
    if k == 0 {
      assert w == 0;
    } else {
      DivBelow(w, base, Pow(base, k - 1));
      FixedIsPadded(base, k - 1, w / base);
      if w == 0 {
        DivZero(base);
        assert Zeros(k - 1) + [ZERO] == Zeros(k);
      } else {
        DigitsStep(base, w, w / base, w % base);
      }
    }
  }

  lemma FixedStep(base: nat, k: nat, w: nat)
    requires 2 <= base <= 16 && k > 0
    ensures Fixed(base, k, w) == Fixed(base, k - 1, w / base) + [DigitChar(w % base)]
  {
  }

  lemma FixedNone(base: nat, w: nat)
    requires 2 <= base <= 16
    ensures Fixed(base, 0, w) == []
  {
  }

  lemma DivZero(base: nat)
    requires base > 0
    ensures 0 / base == 0 && 0 % base == 0
  {
    Quotient(0, base, 0, 0);
  }

  lemma DivBelow(w: nat, base: nat, p: nat)
    requires base > 0 && w < base * p
    ensures w / base < p
  {
    assert w == base * (w / base) + w % base;
    MultipleApart(w / base - p, base);
    assert base * (w / base) - base * p == (w / base - p) * base;
  }

  /** The text of a signed decimal number without a leading zero, hence empty for 0. */
  function DecimalDigits(val: int): seq<Byte>
  {
    (if val < 0 then [MINUS] else []) + Digits(10, Abs(val))
  }

  lemma WordNumerals(v: nat)
    requires v < WORD
    ensures |Digits(8, v)| <= 11 && Fixed(8, 11, v) == Zeros(11 - |Digits(8, v)|) + Digits(8, v)
    ensures |Digits(16, v)| <= 8 && Fixed(16, 8, v) == Zeros(8 - |Digits(16, v)|) + Digits(16, v)
    ensures |Digits(10, v)| <= 10
  {
    assert Pow(8, 11) == 8 * Pow(8, 10) && Pow(8, 10) == 0x4000_0000;
    assert Pow(16, 8) == 0x1_0000_0000 && Pow(10, 10) == 10_000_000_000;
    FixedIsPadded(8, 11, v);
    FixedIsPadded(10, 10, v);
    FixedIsPadded(16, 8, v);
  }

  /** The roundings of the four shifts cost less than two tens. */
  lemma EstimateBounds(v: nat, q0: nat, q1: nat, q2: nat, q3: nat, q: nat)
    requires v < HALF
    requires 3 * v - 5 <= 4 * q0 <= 3 * v
    requires 17 * q0 - 15 <= 16 * q1 <= 17 * q0
    requires 257 * q1 - 255 <= 256 * q2 <= 257 * q1
    requires 65537 * q2 - 65535 <= 65536 * q3 <= 65537 * q2
    requires q3 - 7 <= 8 * q <= q3
    ensures q3 <= v && 0 <= v - 10 * q < 20
  {
  }

  lemma Correction(v: nat, q: nat, r: int, t: int)
    requires r == v - 10 * q && 0 <= r < 20 && t == (r + 6) / 16
    ensures q + t == v / 10 && r - 10 * t == v % 10
  {
    assert t == if r >= 10 then 1 else 0;
  }

  /** The estimate by shifts is the quotient by ten or one less, so one test corrects it. */
  lemma TenthByShifts(v: nat, q0: nat, q1: nat, q2: nat, q3: nat, q: nat, r: int, t: int)
    requires v < HALF
    requires q0 == v / 2 + v / 4 && q1 == q0 + q0 / 16 && q2 == q1 + q1 / 256 && q3 == q2 + q2 / 65536 && q == q3 / 8
    requires r == v - (q * 4 + q) * 2 && t == (r + 6) / 16
    ensures q3 <= v && (q * 4 + q) * 2 <= v && 0 <= r < 20
    ensures q + t == v / 10 && r - (t * 4 + t) * 2 == v % 10
  {
    EstimateBounds(v, q0, q1, q2, q3, q);
    Correction(v, q, r, t);
  }

  method PrintLowest(pb: array<Byte>)
    requires pb.Length == INT_BUF_LEN && pb[..] == Zeros(INT_BUF_LEN)
    modifies pb
    ensures |DecimalDigits(-0x8000_0000)| == 11 && pb[..] == Padded(DecimalDigits(-0x8000_0000))
  {
    hide Digits, Abs;
    LowestDigits();
    var s: seq<Byte> := [45, 50, 49, 52, 55, 52, 56, 51, 54, 52, 56];
    ghost var blank := pb[..];
    StrNCpy(pb, INT_BUF_LEN - 11, s, 11);
    assert Copied(s, 11) == s && blank[..5] == Zeros(5);
  }

  /** `__str_base10`: for every int, the most negative one included. */
  method StrBase10(pb: array<Byte>, val: Int32)
    requires pb.Length == INT_BUF_LEN && pb[..] == Zeros(INT_BUF_LEN)
    modifies pb
    ensures |DecimalDigits(val)| <= INT_BUF_LEN && pb[..] == Padded(DecimalDigits(val))
  {
    hide Digits, Fixed, Denotes;
    WordNumerals(Abs(val));
    if val == -0x8000_0000 {
      PrintLowest(pb);
      return;
    }
    var neg, v := val < 0, val;
    if val < 0 {
      v := 0 - val;
    }
    var i := PrintTens(pb, v);
    if neg {
      pb[i] := MINUS;
      assert pb[..i] == Zeros(i) && pb[i..] == [MINUS] + Digits(10, Abs(val));
      assert pb[..] == pb[..i] + pb[i..];
    } else {
      assert pb[..] == Zeros(i + 1) + Digits(10, Abs(val));
    }
  }

  /** The digit loop of `__str_base10`; `i` is the place before the last digit written. */
  method PrintTens(pb: array<Byte>, val: nat) returns (i: int)
    requires pb.Length == INT_BUF_LEN && pb[..] == Zeros(INT_BUF_LEN)
    requires val < HALF && |Digits(10, val)| <= 10
    modifies pb
    ensures i == INT_BUF_LEN - 1 - |Digits(10, val)| && pb[..] == Zeros(i + 1) + Digits(10, val)
  {
    var v := val;
    i := INT_BUF_LEN - 1;
    EmptyDigits(10);
    while v != 0
      invariant 0 <= v < HALF && -1 <= i < INT_BUF_LEN
      invariant Digits(10, val) == Digits(10, v) + pb[i + 1..]
      invariant forall j :: 0 <= j <= i ==> pb[j] == ZERO
      decreases v
    {
      hide Digits;
      ghost var rest := pb[i + 1..];
      var q, r := DivideByTen(v);
      DigitsStep(10, v, q, r);
      pb[i] := pb[i] + r;
      assert pb[i..] == [DigitChar(r)] + rest;
      v := q;
      i := i - 1;
    }
    assert Digits(10, val) == pb[i + 1..];
  }

  /** The body of the digit loop: quotient and remainder by shifts and additions. */
  method DivideByTen(val: nat) returns (q: nat, r: nat)
    requires val < HALF
    ensures q == val / 10 && r == val % 10
  {
    var q0 := val / 2 + val / 4;
    var q1 := q0 + q0 / 16;
    var q2 := q1 + q1 / 256;
    var q3 := q2 + q2 / 65536;
    q := q3 / 8;
    var rest := val - (q * 4 + q) * 2;
    var t := (rest + 6) / 16;
    TenthByShifts(val, q0, q1, q2, q3, q, rest, t);
    q := q + t;
    r := rest - (t * 4 + t) * 2;
  }

  lemma EmptyDigits(base: nat)
    requires 2 <= base <= 16
    ensures Digits(base, 0) == []
  {
  }

  lemma LowestDigits()
    ensures DecimalDigits(-0x8000_0000) == [45, 50, 49, 52, 55, 52, 56, 51, 54, 52, 56]
  {
    assert Digits(10, 2147) == [50, 49, 52, 55];
    assert Digits(10, 2147483) == [50, 49, 52, 55, 52, 56, 51];
  }

  /** A signed value and the word that holds it agree in their low digits; `m` is what the sign
      bit weighs. */
  lemma LowDigit(base: nat, neg: bool, v: int, w: int, m: int)
    requires 0 <= w && (base == 8 || base == 16)
    requires v == (if neg then w - m else w) && w < m && m % base == 0
    ensures v % base == w % base && w / base < m / base
    ensures v / base == if neg then w / base - m / base else w / base
  {
    if base == 8 {
      Quotient(v, 8, if neg then w / 8 - m / 8 else w / 8, w % 8);
    } else {
      Quotient(v, 16, if neg then w / 16 - m / 16 else w / 16, w % 16);
    }
  }

  /** `__str_base8`: the value is printed as an unsigned word. */
  method StrBase8(pb: array<Byte>, val: Int32)
    requires pb.Length == INT_BUF_LEN && pb[..] == Zeros(INT_BUF_LEN)
    modifies pb
    ensures |Digits(8, Word(val))| <= INT_BUF_LEN && pb[..] == Padded(Digits(8, Word(val)))
  {
    hide Pow2, Fixed, Digits;
    var c, i := INT_BUF_LEN - 1, 0;
    var val': int := val;
    ghost var w: nat, m: int := Word(val), WORD;
    Powers();
    while i < 10
      invariant 0 <= i <= 10 && c == 15 - i && m == Pow2(32 - 3 * i) && w < m
      invariant val' == if val < 0 then w - m else w
      invariant Fixed(8, 11, Word(val)) == Fixed(8, 11 - i, w) + pb[c + 1..]
      invariant forall j :: 0 <= j <= c ==> pb[j] == ZERO
    {
      PowerStep(32 - 3 * i);
      FixedStep(8, 11 - i, w);
      LowDigit(8, val < 0, val', w, m);
      ghost var rest := pb[c + 1..];
      var v := val' % 8;
      pb[c] := ZERO + v;
      assert pb[c..] == [DigitChar(w % 8)] + rest;
      val' := val' / 8;
      c := c - 1;
      i := i + 1;
      w, m := w / 8, m / 8;
    }
    Powers();
    ghost var rest := pb[c + 1..];
    var v := val' % 4;
    pb[c] := ZERO + v;
    PowerStep(2);
    FixedStep(8, 1, w);
    FixedNone(8, w / 8);
    assert Fixed(8, 1, w) == [DigitChar(w)] && pb[c..] == [DigitChar(w)] + rest;
    WordNumerals(Word(val));
    assert pb[..] == Zeros(5) + Fixed(8, 11, Word(val));
  }

  /** `__str_base16` */
  method StrBase16(pb: array<Byte>, val: Int32)
    requires pb.Length == INT_BUF_LEN && pb[..] == Zeros(INT_BUF_LEN)
    modifies pb
    ensures |Digits(16, Word(val))| <= INT_BUF_LEN && pb[..] == Padded(Digits(16, Word(val)))
  {
    hide Pow2, Fixed, Digits;
    var c, i := INT_BUF_LEN - 1, 0;
    var val': int := val;
    ghost var w: nat, m: int := Word(val), WORD;
    Powers();
    while i < 8
      invariant 0 <= i <= 8 && c == 15 - i && m == Pow2(32 - 4 * i) && w < m
      invariant val' == if val < 0 then w - m else w
      invariant Fixed(16, 8, Word(val)) == Fixed(16, 8 - i, w) + pb[c + 1..]
      invariant forall j :: 0 <= j <= c ==> pb[j] == ZERO
    {
      PowerStep(32 - 4 * i);
      FixedStep(16, 8 - i, w);
      LowDigit(16, val < 0, val', w, m);
      ghost var rest := pb[c + 1..];
      var v := val' % 16;
      if v < 10 {
        pb[c] := ZERO + v;
      } else {
        pb[c] := 97 + v - 10;
      }
      assert pb[c..] == [DigitChar(w % 16)] + rest;
      val' := val' / 16;
      c := c - 1;
      i := i + 1;
      w, m := w / 16, m / 16;
    }
    FixedNone(16, w);
    WordNumerals(Word(val));
    assert pb[..] == Zeros(8) + Fixed(16, 8, Word(val));
  }

  lemma PowerStep(n: nat)
    ensures Pow2(2) == 4
    ensures n >= 3 ==> Pow2(n) == 8 * Pow2(n - 3)
    ensures n >= 4 ==> Pow2(n) == 16 * Pow2(n - 4)
  {
    if n >= 3 {
      assert Pow2(n) == 2 * Pow2(n - 1) == 4 * Pow2(n - 2);
    }
  }
}
