/** What a format prints, item by item: every well-formed format is a list of literal bytes and
    directives, and the output is the concatenation of their texts. */
module FormatMeaning {
  import opened CString
  import opened Numerals
  import opened Words
  import opened Format

  /** A byte of the format, or a directive: flags, width and conversion letter. */
  datatype Item = Literal(c: Byte) | Convert(alternate: bool, zeropad: bool, width: nat, letter: Byte)
  {
    /** Flags and digits are taken before the letter. */
    predicate Ok()
    {
      match this
      case Literal(c) => c != PERCENT
      case Convert(alternate, zeropad, width, letter) =>
        && (letter == HASH ==> alternate || zeropad || width > 0)
        && (IsDecimal(letter) ==> letter == ZERO && zeropad && width == 0)
    }

    function Digits(): seq<Byte>
    {
      if this.Convert? && width > 0 then Canon(10, width) else []
    }

    /** How the item is written. */
    function Spelled(): seq<Byte>
    {
      match this
      case Literal(c) => [c]
      case Convert(alternate, zeropad, width, letter) =>
        [PERCENT] + (if alternate then [HASH] else []) + (if zeropad then [ZERO] else []) + Digits() + [letter]
    }

    /** All directives but `%%` use an argument. */
    predicate TakesArgument()
    {
      Convert? && letter != PERCENT
    }

    /** `t` is what the item prints: `s` the string, `c` the byte, `d`, `o` and `x` the number in base
        10, 8 or 16, with a minus sign, or what the alternate form puts before numbers other than 0. */
    ghost predicate Prints(v: Int32, strings: int -> seq<Byte>, t: seq<Byte>)
    {
      match this
      case Literal(c) => t == [c]
      case Convert(alternate, zeropad, width, letter) =>
        if letter == 37 then t == [37]
        else if letter == 115 then t == strings(v)
        else if letter == 99 then |t| == 1 && (t[0] - v) % 256 == 0
        else if letter == 100 then
          IsNumber(t, if v < 0 then [45] else [], 10, if v < 0 then 0 - v else v, zeropad, width)
        else if letter == 111 then
          IsNumber(t, if alternate && v != 0 then [48] else [], 8, if v < 0 then v + WORD else v, zeropad, width)
        else if letter == 120 then
          IsNumber(t, if alternate && v != 0 then [48, 120] else [], 16, if v < 0 then v + WORD else v, zeropad, width)
        else t == []
    }
  }

  /** `t` is a prefix and the canonical numeral of `magnitude`, padded to the width if that is more:
      with zeros between the two, or with spaces in front. */
  ghost predicate IsNumber(t: seq<Byte>, prefix: seq<Byte>, base: nat, magnitude: int, zeropad: bool, width: nat)
  {
    exists digits: seq<Byte> :: IsPadded(t, prefix, digits, base, magnitude, zeropad, width)
  }

  predicate IsPadded(t: seq<Byte>, prefix: seq<Byte>, digits: seq<Byte>, base: nat, magnitude: int, zeropad: bool,
                     width: nat)
  {
    var need := |prefix| + |digits|;
    && Canonical(base, digits) && Denotes(base, digits) == magnitude
    && |t| == (if width > need then width else need) && t[|t| - |digits|..] == digits
    && if zeropad then
         t[..|prefix|] == prefix && forall i :: |prefix| <= i < |t| - |digits| ==> t[i] == 48
       else
         t[|t| - need..|t| - |digits|] == prefix && forall i :: 0 <= i < |t| - need ==> t[i] == 32
  }

  lemma ConvertedIsNumber(v: Int32, width: nat, zeropad: bool, base: nat, alternate: bool)
    requires base == 8 || base == 10 || base == 16
    ensures IsNumber(Converted(v, width, zeropad, base, alternate), Prefix(base, v, alternate), base,
                     if base == 10 then Abs(v) else Word(v), zeropad, width)
  {
    var t, prefix, body := Converted(v, width, zeropad, base, alternate), Prefix(base, v, alternate), Body(base, v);
    CanonDenotes(base, if base == 10 then Abs(v) else Word(v));
    hide Canonical, Denotes, Prefix, Word, Abs, Canon;
    assert IsPadded(t, prefix, body, base, if base == 10 then Abs(v) else Word(v), zeropad, width);
  }

  lemma WordOfSigned(v: Int32)
    ensures Word(v) == if v < 0 then v + WORD else v
  {
  }

  lemma ByteOf(v: Int32)
    ensures (Word(v) % 256 - v) % 256 == 0
  {
    WordOfSigned(v);
    var w: int := Word(v);
    assert w % 256 - w == 0 - w / 256 * 256;
    Quotient(w % 256 - v, 256, if v < 0 then 0x100_0000 - w / 256 else 0 - w / 256, 0);
  }

  /** The conversion switch prints what the letter stands for. */
  lemma ConversionPrints(i: Item, next: nat, v: Int32, strings: int -> seq<Byte>)
    requires i.TakesArgument()
    ensures i.Prints(v, strings, Conversion(Directive(i.alternate, i.zeropad, i.width, next), i.letter, v, strings))
  {
    hide Converted, IsNumber, Word;
    WordOfSigned(v);
    ByteOf(v);
    if i.letter == 111 {
      ConvertedIsNumber(v, i.width, i.zeropad, 8, i.alternate);
    } else if i.letter == 100 {
      ConvertedIsNumber(v, i.width, i.zeropad, 10, false);
    } else if i.letter == 120 {
      ConvertedIsNumber(v, i.width, i.zeropad, 16, i.alternate);
    }
  }

  /** An item prints one text only. */
  lemma PrintsOne(i: Item, v: Int32, strings: int -> seq<Byte>, t: seq<Byte>, t2: seq<Byte>)
    requires i.Prints(v, strings, t) && i.Prints(v, strings, t2)
    ensures t == t2
  {
    hide IsNumber;
    if i.Convert? && i.letter in {100, 111, 120} {
      var base := if i.letter == 100 then 10 else if i.letter == 111 then 8 else 16;
      var prefix := if i.letter == 100 then (if v < 0 then [45] else [])
        else if !i.alternate || v == 0 then [] else if i.letter == 111 then [48] else [48, 120];
      var magnitude := if v >= 0 then v else if i.letter == 100 then 0 - v else v + WORD;
      OneNumber(t, t2, prefix, base, magnitude, i.zeropad, i.width);
    } else if i.Convert? && i.letter == 99 {
      OneByte(t[0], t2[0], v);
    }
  }

  lemma OneByte(a: nat, b: nat, v: int)
    requires a < 256 && b < 256 && (a - v) % 256 == 0 && (b - v) % 256 == 0
    ensures a == b
  {
    var q, r := (a - v) / 256, (b - v) / 256;
    assert a - b == (q - r) * 256;
  }

  lemma OneNumber(t: seq<Byte>, t2: seq<Byte>, prefix: seq<Byte>, base: nat, magnitude: int, zeropad: bool, width: nat)
    requires IsNumber(t, prefix, base, magnitude, zeropad, width)
    requires IsNumber(t2, prefix, base, magnitude, zeropad, width)
    requires 2 <= base <= 16
    ensures t == t2
  {
    var d :| IsPadded(t, prefix, d, base, magnitude, zeropad, width);
    var d2 :| IsPadded(t2, prefix, d2, base, magnitude, zeropad, width);
    CanonUnique(base, d);
    CanonUnique(base, d2);
    hide Canonical, Denotes;
    SamePadded(t, t2, prefix, d, base, magnitude, zeropad, width);
  }

  lemma SamePadded(t: seq<Byte>, t2: seq<Byte>, prefix: seq<Byte>, d: seq<Byte>, base: nat, magnitude: int,
                   zeropad: bool, width: nat)
    requires IsPadded(t, prefix, d, base, magnitude, zeropad, width)
    requires IsPadded(t2, prefix, d, base, magnitude, zeropad, width)
    ensures t == t2
  {
    hide Canonical, Denotes;
    var gap, p := |t| - |prefix| - |d|, |prefix|;
    if zeropad {
      assert t == t[..p] + t[p..|t| - |d|] + t[|t| - |d|..] && t2 == t2[..p] + t2[p..|t| - |d|] + t2[|t| - |d|..];
      assert t[p..|t| - |d|] == t2[p..|t| - |d|];
    } else {
      assert t == t[..gap] + t[gap..|t| - |d|] + t[|t| - |d|..];
      assert t2 == t2[..gap] + t2[gap..|t| - |d|] + t2[|t| - |d|..];
      assert t[..gap] == t2[..gap];
    }
  }

  // ---- whole formats -----------------------------------------------------------------------------

  ghost predicate AllOk(items: seq<Item>)
  {
    forall k :: 0 <= k < |items| ==> items[k].Ok()
  }

  function SpelledAll(items: seq<Item>): seq<Byte>
  {
    if items == [] then [] else items[0].Spelled() + SpelledAll(items[1..])
  }

  function Concat(texts: seq<seq<Byte>>): seq<Byte>
  {
    if texts == [] then [] else texts[0] + Concat(texts[1..])
  }

  /** The place of the argument of item `k`: as many as the items before it use. */
  function ArgumentOf(items: seq<Item>, k: nat): nat
    requires k <= |items|
  {
    if k == 0 then 0 else (if items[0].TakesArgument() then 1 else 0) + ArgumentOf(items[1..], k - 1)
  }

  /** `s` stands at place `i`. */
  predicate StandsIn(f: seq<Byte>, i: nat, s: seq<Byte>)
  {
    i + |s| <= |f| && f[i..i + |s|] == s
  }

  lemma {:induction false} WidthRead(f: seq<Byte>, i: nat, s: seq<Byte>, j: nat)
    requires StandsIn(f, i, s) && j <= |s| && !IsDecimal(At(f, i + |s|))
    requires forall k :: 0 <= k < |s| ==> IsDecimal(s[k])
    requires Denotes(10, s[..j]) >= 0
    ensures ReadWidth(f, i + j, Denotes(10, s[..j])) == (Denotes(10, s), i + |s|)
    decreases |s| - j
  {
    if j < |s| {
      assert f[i + j] == s[j] && s[..j + 1][..j] == s[..j];
      WidthRead(f, i, s, j + 1);
    } else {
      assert s[..j] == s;
    }
  }

  lemma WidthDigits(w: nat)
    requires w > 0
    ensures var s := Canon(10, w);
            && s != [] && Denotes(10, s) == w && s[0] != ZERO && forall k :: 0 <= k < |s| ==> IsDecimal(s[k])
  {
    CanonDenotes(10, w);
    DigitsAre(10, w);
    var s := Canon(10, w);
    forall k | 0 <= k < |s| ensures IsDecimal(s[k]) {
      assert IsDigit(10, s[k]);
    }
  }

  lemma SpelledParts(f: seq<Byte>, i: nat, d: Item)
    requires d.Convert? && StandsIn(f, i, d.Spelled())
    ensures var a := i + 1 + (if d.alternate then 1 else 0);
            var b := a + (if d.zeropad then 1 else 0);
            var next := b + |d.Digits()|;
            && next == i + |d.Spelled()| - 1 && next < |f| && f[i] == PERCENT && f[next] == d.letter
            && (d.alternate ==> f[i + 1] == HASH) && (d.zeropad ==> f[a] == ZERO) && StandsIn(f, b, d.Digits())
  {
    hide Canon;
    var s := d.Spelled();
    assert forall k :: 0 <= k < |s| ==> f[i + k] == f[i..i + |s|][k] == s[k];
    var a := 1 + (if d.alternate then 1 else 0);
    var b := i + a + (if d.zeropad then 1 else 0);
    var digits := d.Digits();
    assert s[0] == PERCENT && (d.alternate ==> s[1] == HASH) && (d.zeropad ==> s[a] == ZERO);
    assert |s| == b - i + |digits| + 1 && s[|s| - 1] == d.letter;
    forall k | 0 <= k < |digits| ensures f[b..b + |digits|][k] == digits[k] {
      assert s[b - i + k] == digits[k];
    }
  }

  /** A directive that is spelled out is read back. */
  lemma DirectiveRead(f: seq<Byte>, i: nat, d: Item)
    requires d.Convert? && d.Ok() && StandsIn(f, i, d.Spelled())
    ensures ReadDirective(f, i + 1) == Directive(d.alternate, d.zeropad, d.width, i + |d.Spelled()| - 1)
    ensures f[i] == PERCENT && f[i + |d.Spelled()| - 1] == d.letter
  {
    hide Canon, Denotes, ReadWidth, Item.Spelled;
    SpelledParts(f, i, d);
    if d.width > 0 {
      var b := i + 1 + (if d.alternate then 1 else 0) + (if d.zeropad then 1 else 0);
      var digits := d.Digits();
      WidthDigits(d.width);
      assert f[b] == f[b..b + |digits|][0] == digits[0];
      EmptyDenotes(10, digits[..0]);
      WidthRead(f, b, digits, 0);
    }
  }

  lemma {:induction false} RestStands(f: seq<Byte>, i: nat, items: seq<Item>)
    requires i <= |f| && f[i..] == SpelledAll(items) && items != []
    ensures var s := items[0].Spelled();
            StandsIn(f, i, s) && f[i + |s|..] == SpelledAll(items[1..]) && s != []
  {
    var s, rest := items[0].Spelled(), SpelledAll(items[1..]);
    assert f[i..] == s + rest;
    assert f[i..i + |s|] == f[i..][..|s|] == s;
    assert f[i + |s|..] == f[i..][|s|..] == rest;
  }

  /** Each item prints its text, with the argument that is its turn. */
  ghost predicate AllPrint(items: seq<Item>, args: nat -> Int32, p: nat, strings: int -> seq<Byte>,
                           texts: seq<seq<Byte>>)
  {
    |texts| == |items| && forall k :: 0 <= k < |items| ==>
      items[k].Prints(args(p + ArgumentOf(items, k)), strings, texts[k])
  }

  lemma OneMorePrints(items: seq<Item>, args: nat -> Int32, p: nat, strings: int -> seq<Byte>, text: seq<Byte>,
                      more: seq<seq<Byte>>)
    requires items != [] && items[0].Prints(args(p), strings, text)
    requires AllPrint(items[1..], args, if items[0].TakesArgument() then p + 1 else p, strings, more)
    ensures AllPrint(items, args, p, strings, [text] + more) && Concat([text] + more) == text + Concat(more)
  {
    hide Item.Prints;
    var rest, q := items[1..], if items[0].TakesArgument() then p + 1 else p;
    forall k | 0 <= k < |items| ensures items[k].Prints(args(p + ArgumentOf(items, k)), strings, ([text] + more)[k]) {
      if k > 0 {
        assert rest[k - 1].Prints(args(q + ArgumentOf(rest, k - 1)), strings, more[k - 1]);
      }
    }
    assert ([text] + more)[1..] == more;
  }

  lemma OkRest(items: seq<Item>)
    requires items != [] && AllOk(items)
    ensures items[0].Ok() && AllOk(items[1..])
  {
    assert forall k :: 0 <= k < |items| - 1 ==> items[1..][k] == items[k + 1];
  }

  /** The output for the rest of a format from place `i` on: the texts of its items, one after the other,
      each directive but `%%` with the next argument. */
  lemma {:induction false} ItemsPrint(f: seq<Byte>, i: nat, items: seq<Item>, args: nat -> Int32, p: nat,
                                      strings: int -> seq<Byte>)
    returns (texts: seq<seq<Byte>>)
    requires i <= |f| && f[i..] == SpelledAll(items) && AllOk(items)
    ensures AllPrint(items, args, p, strings, texts) && Output(f, i, args, p, strings) == Concat(texts)
    decreases |items|
  {
    hide Item.Prints, Item.Spelled, Item.Ok, Output, AllOk, AllPrint, Concat, SpelledAll, ArgumentOf;
    texts := [];
    if items == [] {
      NothingPrints(f, i, items, args, p, strings);
    } else {
      RestStands(f, i, items);
      OkRest(items);
      var next, q := i + |items[0].Spelled()|, if items[0].TakesArgument() then p + 1 else p;
      var more := ItemsPrint(f, next, items[1..], args, q, strings);
      var text := HeadPrints(f, i, items[0], args, p, strings);
      OneMorePrints(items, args, p, strings, text, more);
      texts := [text] + more;
    }
  }

  lemma NothingPrints(f: seq<Byte>, i: nat, items: seq<Item>, args: nat -> Int32, p: nat, strings: int -> seq<Byte>)
    requires i <= |f| && f[i..] == SpelledAll(items) && items == []
    ensures AllPrint(items, args, p, strings, []) && Output(f, i, args, p, strings) == Concat([])
  {
  }

  lemma OutputUnfolds(f: seq<Byte>, i: nat, args: nat -> Int32, p: nat, strings: int -> seq<Byte>)
    requires i < |f|
    ensures f[i] != PERCENT ==> Output(f, i, args, p, strings) == [f[i]] + Output(f, i + 1, args, p, strings)
    ensures f[i] == PERCENT ==>
      var d := ReadDirective(f, i + 1);
      Output(f, i, args, p, strings)
      == if At(f, d.next) == PERCENT then [PERCENT] + Output(f, d.next + 1, args, p, strings)
         else Conversion(d, At(f, d.next), args(p), strings) + Output(f, d.next + 1, args, p + 1, strings)
  {
    hide ReadDirective, Conversion;
  }

  lemma HeadPrints(f: seq<Byte>, i: nat, head: Item, args: nat -> Int32, p: nat, strings: int -> seq<Byte>)
    returns (text: seq<Byte>)
    requires head.Ok() && StandsIn(f, i, head.Spelled())
    ensures head.Prints(args(p), strings, text)
    ensures var q := if head.TakesArgument() then p + 1 else p;
            Output(f, i, args, p, strings) == text + Output(f, i + |head.Spelled()|, args, q, strings)
  {
    hide ReadDirective, Conversion, IsNumber, Output;
    match head {
      case Literal(c) =>
        assert f[i..i + 1][0] == c;
        OutputUnfolds(f, i, args, p, strings);
        text := [c];
      case Convert(_, _, _, _) => text := DirectivePrints(f, i, head, args, p, strings);
    }
  }

  lemma DirectivePrints(f: seq<Byte>, i: nat, head: Item, args: nat -> Int32, p: nat, strings: int -> seq<Byte>)
    returns (text: seq<Byte>)
    requires head.Convert? && head.Ok() && StandsIn(f, i, head.Spelled())
    ensures head.Prints(args(p), strings, text)
    ensures var q := if head.TakesArgument() then p + 1 else p;
            Output(f, i, args, p, strings) == text + Output(f, i + |head.Spelled()|, args, q, strings)
  {
    hide ReadDirective, Conversion, IsNumber, Output, Item.Spelled, Item.Ok;
    DirectiveRead(f, i, head);
    OutputUnfolds(f, i, args, p, strings);
    if head.letter == PERCENT {
      text := [PERCENT];
    } else {
      hide Item.Prints;
      ConversionPrints(head, i + |head.Spelled()| - 1, args(p), strings);
      text := Conversion(ReadDirective(f, i + 1), head.letter, args(p), strings);
    }
  }

  lemma {:induction false} WidthSpelled(f: seq<Byte>, i: nat, w: nat)
    ensures var (width, next) := ReadWidth(f, i, w); next <= |f| || next == i
    ensures var (width, next) := ReadWidth(f, i, w);
            next <= |f| ==> !IsDecimal(At(f, next)) && forall k :: i <= k < next ==> IsDecimal(f[k])
    decreases if i < |f| then |f| - i else 0
  {
    if IsDecimal(At(f, i)) {
      WidthSpelled(f, i + 1, w * 10 + (At(f, i) - ZERO));
    }
  }

  /** The item that a complete directive spells. */
  lemma DirectiveSpelled(f: seq<Byte>, i: nat) returns (d: Item)
    requires i < |f| && f[i] == PERCENT && ReadDirective(f, i + 1).next < |f|
    ensures d.Ok() && d.Convert? && d.width == ReadDirective(f, i + 1).width
    ensures StandsIn(f, i, d.Spelled()) && i + |d.Spelled()| == ReadDirective(f, i + 1).next + 1
  {
    hide Denotes, Canon, Canonical, ReadWidth;
    var r := ReadDirective(f, i + 1);
    d := Convert(r.alternate, r.zeropad, r.width, f[r.next]);
    var a := i + 1 + (if r.alternate then 1 else 0);
    var b := a + (if r.zeropad then 1 else 0);
    if IsDecimal(At(f, b)) && At(f, b) != ZERO {
      WidthSpelled(f, b, 0);
      WidthIs(f, b, r.next, f[b..r.next]);
    }
    PiecesJoin(f, i, a, b, r.next, d);
  }

  lemma PiecesJoin(f: seq<Byte>, i: nat, a: nat, b: nat, next: nat, d: Item)
    requires i < a <= b <= next < |f| && f[i] == PERCENT && d.Convert? && d.letter == f[next]
    requires a == i + 1 + (if d.alternate then 1 else 0) && (d.alternate ==> f[i + 1] == HASH)
    requires b == a + (if d.zeropad then 1 else 0) && (d.zeropad ==> f[a] == ZERO) && f[b..next] == d.Digits()
    ensures d.Spelled() == f[i..next + 1]
  {
    hide Canon;
    assert f[i..next + 1] == f[i..i + 1] + f[i + 1..a] + f[a..b] + f[b..next] + f[next..next + 1];
    assert f[i..i + 1] == [PERCENT] && f[next..next + 1] == [d.letter];
    assert f[i + 1..a] == if d.alternate then [HASH] else [];
    assert f[a..b] == if d.zeropad then [ZERO] else [];
  }

  lemma WidthIs(f: seq<Byte>, k: nat, next: nat, digits: seq<Byte>)
    requires k < next <= |f| && digits == f[k..next] && f[k] != ZERO && !IsDecimal(At(f, next))
    requires forall l :: k <= l < next ==> IsDecimal(f[l])
    ensures ReadWidth(f, k, 0) == (Denotes(10, digits), next) && Denotes(10, digits) > 0
    ensures digits == Canon(10, Denotes(10, digits))
  {
    forall l | 0 <= l < |digits| ensures IsDecimal(digits[l]) && IsDigit(10, digits[l]) {
      assert digits[l] == f[k + l];
    }
    EmptyDenotes(10, digits[..0]);
    hide Denotes;
    WidthRead(f, k, digits, 0);
    CanonUnique(10, digits);
  }

  lemma HeadSpelled(f: seq<Byte>, i: nat) returns (head: Item)
    requires i < |f| && WellFormed(f, i)
    ensures head.Ok() && StandsIn(f, i, head.Spelled()) && 0 < |head.Spelled()| <= |f| - i
    ensures WellFormed(f, i + |head.Spelled()|)
  {
    hide ReadDirective;
    head := Literal(f[i]);
    if f[i] == PERCENT {
      head := DirectiveSpelled(f, i);
    }
  }

  lemma ItemsCons(head: Item, rest: seq<Item>)
    ensures SpelledAll([head] + rest) == head.Spelled() + SpelledAll(rest)
    ensures head.Ok() && AllOk(rest) ==> AllOk([head] + rest)
  {
    assert ([head] + rest)[1..] == rest;
  }

  lemma Cut(f: seq<Byte>, i: nat, s: seq<Byte>)
    requires StandsIn(f, i, s)
    ensures f[i..] == s + f[i + |s|..]
  {
  }

  /** Every well-formed format is a list of items. */
  lemma {:induction false} FormatSpelled(f: seq<Byte>, i: nat) returns (items: seq<Item>)
    requires i <= |f| && WellFormed(f, i)
    ensures AllOk(items) && f[i..] == SpelledAll(items)
    decreases |f| - i
  {
    items := [];
    if i < |f| {
      hide WellFormed, Item.Spelled, Item.Ok, ReadDirective, SpelledAll, AllOk, StandsIn;
      var head := HeadSpelled(f, i);
      var rest := FormatSpelled(f, i + |head.Spelled()|);
      items := [head] + rest;
      ItemsCons(head, rest);
      Cut(f, i, head.Spelled());
    }
  }

  /** What `snprintf` prints: any well-formed format is a list of items, and the output is the
      concatenation of their texts. */
  lemma FormatPrints(f: seq<Byte>, args: nat -> Int32, strings: int -> seq<Byte>)
    returns (items: seq<Item>, texts: seq<seq<Byte>>)
    requires WellFormed(f, 0)
    ensures AllOk(items) && f == SpelledAll(items) && |texts| == |items|
    ensures Output(f, 0, args, 0, strings) == Concat(texts)
    ensures forall k :: 0 <= k < |items| ==> items[k].Prints(args(ArgumentOf(items, k)), strings, texts[k])
  {
    items := FormatSpelled(f, 0);
    assert f[0..] == f;
    texts := ItemsPrint(f, 0, items, args, 0, strings);
    assert forall k :: 0 <= k < |items| ==> 0 + ArgumentOf(items, k) == ArgumentOf(items, k);
  }
}
