/** `__format`, the `fmtbuf_t` writers, `__format_to_buf` and `snprintf` of lib/c.c:250-491. */
module Format {
  import opened CString
  import opened Numerals
  import opened Words

  const PERCENT: Byte := 37
  const HASH: Byte := 35
  const SPACE: Byte := 32

  /** The number of characters of `l` that a buffer of size `n` keeps, its NUL aside. */
  function Kept(n: int, l: nat): (k: nat)
    ensures k <= l && (n >= 1 ==> k < n)
  {
    if n <= 1 then 0 else if l < n then l else n - 1
  }

  /** The number of a conversion without its prefix. */
  function Body(base: nat, val: Int32): seq<Byte>
    requires 2 <= base <= 16
  {
    Canon(base, if base == 10 then Abs(val) else Word(val))
  }

  /** The sign, or what the alternate form puts before a number other than 0. */
  function Prefix(base: nat, val: Int32, alternate: bool): seq<Byte>
  {
    if base == 10 then if val < 0 then [MINUS] else []
    else if !alternate || val == 0 then []
    else if base == 8 then [ZERO]
    else [ZERO, 120]
  }

  function Spaces(n: nat): (s: seq<Byte>)
    ensures |s| == n && forall i :: 0 <= i < n ==> s[i] == SPACE
  {
    seq(n, i => SPACE)
  }

  function Pad(zeropad: bool, n: nat): (s: seq<Byte>)
    ensures |s| == n
  {
    if zeropad then Zeros(n) else Spaces(n)
  }

  /** A converted number: zeros go between the prefix and the digits, spaces before both. */
  function Converted(val: Int32, width: nat, zeropad: bool, base: nat, alternate: bool): seq<Byte>
    requires 2 <= base <= 16
  {
    var prefix, body := Prefix(base, val, alternate), Body(base, val);
    var gap := if width > |prefix| + |body| then width - |prefix| - |body| else 0;
    if zeropad then prefix + Zeros(gap) + body else Spaces(gap) + prefix + body
  }

  /** A directive: what stands between its percent sign and the place `next` of its conversion
      character. */
  datatype Directive = Directive(alternate: bool, zeropad: bool, width: nat, next: nat)

  predicate IsDecimal(c: Byte) { ZERO <= c < ZERO + 10 }

  function ReadWidth(f: seq<Byte>, i: nat, w: nat): (r: (nat, nat))
    ensures r.0 >= w && r.1 >= i
    decreases if i < |f| then |f| - i else 0
  {
    if IsDecimal(At(f, i)) then ReadWidth(f, i + 1, w * 10 + (At(f, i) - ZERO)) else (w, i)
  }

  function ReadDirective(f: seq<Byte>, i: nat): (d: Directive)
    ensures d.next >= i
  {
    var alternate := At(f, i) == HASH;
    var j := if alternate then i + 1 else i;
    var zeropad := At(f, j) == ZERO;
    var k := if zeropad then j + 1 else j;
    var (width, next) := if IsDecimal(At(f, k)) && At(f, k) != ZERO then ReadWidth(f, k, 0) else (0, k);
    Directive(alternate, zeropad, width, next)
  }

  /** Every directive is complete, and its width an int. */
  ghost predicate WellFormed(f: seq<Byte>, i: nat)
    decreases if i < |f| then |f| - i else 0
  {
    i < |f| ==>
      if f[i] != PERCENT then WellFormed(f, i + 1)
      else
        var d := ReadDirective(f, i + 1);
        d.next < |f| && d.width < HALF && WellFormed(f, d.next + 1)
  }

  /** What a directive makes of its argument; `strings` gives the string at an address. */
  function Conversion(d: Directive, c: Byte, v: Int32, strings: int -> seq<Byte>): seq<Byte>
  {
    if c == 115 then strings(v)
    else if c == 99 then [Word(v) % 256]
    else if c == 111 then Converted(v, d.width, d.zeropad, 8, d.alternate)
    else if c == 100 then Converted(v, d.width, d.zeropad, 10, false)
    else if c == 120 then Converted(v, d.width, d.zeropad, 16, d.alternate)
    else []
  }

  /** The characters for the rest of the format from place `i` on; `args` are the words after the
      format on the stack, `p` counts those used. */
  function Output(f: seq<Byte>, i: nat, args: nat -> Int32, p: nat, strings: int -> seq<Byte>): seq<Byte>
    decreases if i < |f| then |f| - i else 0
  {
    if i >= |f| then []
    else if f[i] != PERCENT then [f[i]] + Output(f, i + 1, args, p, strings)
    else
      var d := ReadDirective(f, i + 1);
      var c := At(f, d.next);
      if c == PERCENT then [PERCENT] + Output(f, d.next + 1, args, p, strings)
      else Conversion(d, c, args(p), strings) + Output(f, d.next + 1, args, p + 1, strings)
  }

  /** A converted number is as wide as asked for, or as its characters need. */
  lemma ConvertedFits(val: Int32, width: nat, zeropad: bool, base: nat, alternate: bool)
    requires 2 <= base <= 16
    ensures var r := Converted(val, width, zeropad, base, alternate);
            var need := |Prefix(base, val, alternate)| + |Body(base, val)|;
            |r| == (if width > need then width else need)
  {
  }

  /** A number converted without a width is its canonical numeral: a decimal one denotes the
      value, the others the word that holds it. */
  lemma PlainIsCanonical(val: Int32, zeropad: bool, base: nat)
    requires base == 8 || base == 10 || base == 16
    ensures var r := Converted(val, 0, zeropad, base, false);
            var number := if base == 10 && val < 0 then r[1..] else r;
            && (base == 10 && val < 0 ==> r != [] && r[0] == MINUS)
            && Canonical(base, number)
            && Denotes(base, number) == (if base == 10 then Abs(val) else Word(val))
  {
    var v := if base == 10 then Abs(val) else Word(val);
    CanonDenotes(base, v);
    var r, prefix, body := Converted(val, 0, zeropad, base, false), Prefix(base, val, false), Body(base, val);
    assert Zeros(0) == [] && Spaces(0) == [];
    assert r == prefix + body && r[|prefix|..] == body;
  }

  /** `fmtbuf_t`. The ghost fields hold everything written so far, kept or not, the size the
      buffer was given with, and what it held then. */
  class FmtBuf {
    var buf: array<Byte>
    var at: nat // where `buf` of the source points
    var n: int
    var len: int
    ghost var out: seq<Byte>
    ghost const size: int
    ghost const before: seq<Byte>

    ghost predicate Valid()
      reads this, buf
    {
      && |before| == buf.Length && at == Kept(size, |out|) <= buf.Length
      && n == size - at && len == Wrap(|out|)
      && buf[..] == out[..at] + before[at..]
    }

    constructor (buf: array<Byte>, n: int)
      ensures Valid() && this.buf == buf && out == [] && size == n && before == buf[..]
    {
      this.buf, at, this.n, len := buf, 0, n, 0;
      out, size, before := [], n, buf[..];
    }

    /** There is room for what `l` more characters would leave in the buffer. */
    ghost predicate Room(l: nat)
      reads this, buf
    {
      Kept(size, |out| + l) <= buf.Length
    }

    method WriteChar(val: int)
      requires Valid() && Room(1)
      modifies this, buf
      ensures Valid() && buf == old(buf) && out == old(out) + [Word(val) % 256]
    {
      LenGrows(|out|, 1);
      len := Wrap(len + 1);
      ghost var was := out;
      out := out + [Word(val) % 256];
      if n <= 1 {
        return;
      }
      buf[at] := Word(val) % 256;
      at := at + 1;
      n := n - 1;
    }

    method WriteStr(str: seq<Byte>, l: nat)
      requires Valid() && l <= |str| && NoNul(str) && Room(l)
      modifies this, buf
      ensures Valid() && buf == old(buf) && out == old(out) + str[..l]
    {
      LenGrows(|out|, l);
      len := Wrap(len + l);
      out := out + str[..l];
      if n <= 1 {
        return;
      }
      var sz := n - 1;
      var l' := if l <= sz then l else sz;
      Appended(old(out), str[..l], before, l');
      StrNCpy(buf, at, str, l');
      at := at + l';
      n := n - l';
    }

    /** The part of `__format` from the conversion to the skipping of zeros. */
    static method Convert(val: Int32, base: nat) returns (pb: array<Byte>, pbi: nat)
      requires base == 8 || base == 10 || base == 16
      ensures fresh(pb) && pb.Length == INT_BUF_LEN && 4 <= pbi < INT_BUF_LEN
      ensures pb[pbi..] == Prefix(base, val, false) + Body(base, val)
    {
      hide Digits, Abs, Denotes, Prefix, Body;
      pb := new Byte[INT_BUF_LEN](i => ZERO);
      assert pb[..] == Zeros(INT_BUF_LEN);
      if base == 8 {
        StrBase8(pb, val);
      } else if base == 10 {
        StrBase10(pb, val);
      } else {
        StrBase16(pb, val);
      }
      ghost var t := Text(base, val);
      TextLeads(base, val);
      assert pb[..] == Padded(t);
      pbi := 0;
      while pb[pbi] == ZERO && pbi < INT_BUF_LEN - 1
        invariant pbi < INT_BUF_LEN && pbi <= INT_BUF_LEN - |t|
      {
        pbi := pbi + 1;
      }
    }

    /** What `__format` writes ahead of the padding, or puts before the digits in `pb`: in octal. */
    method LeadOctal(pb: array<Byte>, start: nat, val: Int32, width: nat, zeropad: bool, alternate: bool)
      returns (pbi: nat, w: int)
      requires Valid() && pb != buf && pb.Length == INT_BUF_LEN && 4 <= start < INT_BUF_LEN
      requires pb[start..] == Body(8, val) && Room(|Prefix(8, val, alternate)|)
      modifies this, buf, pb
      ensures Valid() && buf == old(buf) && pbi <= INT_BUF_LEN
      ensures Led(old(out), out, pb[pbi..], w, width, zeropad, Prefix(8, val, alternate), Body(8, val))
    {
      hide Valid, Body;
      BodyLeads(8, val);
      ghost var body := Body(8, val);
      assert body[0] == pb[start];
      pbi, w := start, width;
      if alternate {
        if width != 0 && zeropad && pb[pbi] != ZERO {
          WriteChar(ZERO);
          w := w - 1;
        } else if pb[pbi] != ZERO {
          pbi := pbi - 1;
          pb[pbi] := ZERO;
          assert pb[pbi..] == [ZERO] + body;
        }
      }
    }

    /** The same in decimal. */
    method LeadDecimal(pb: array<Byte>, start: nat, val: Int32, width: nat, zeropad: bool)
      returns (pbi: nat, w: int)
      requires Valid() && pb != buf && pb.Length == INT_BUF_LEN && 4 <= start < INT_BUF_LEN
      requires pb[start..] == Prefix(10, val, false) + Body(10, val) && Room(|Prefix(10, val, false)|)
      modifies this, buf
      ensures Valid() && buf == old(buf) && pbi <= INT_BUF_LEN
      ensures Led(old(out), out, pb[pbi..], w, width, zeropad, Prefix(10, val, false), Body(10, val))
    {
      hide Valid, Body;
      BodyLeads(10, val);
      ghost var body, all := Body(10, val), pb[start..];
      assert all[0] == pb[start] && (val >= 0 ==> all == body);
      pbi, w := start, width;
      if width != 0 && zeropad && pb[pbi] == MINUS {
        WriteChar(MINUS);
        pbi := pbi + 1;
        w := w - 1;
        assert all[1..] == body;
        assert pb[pbi..] == all[1..];
      }
    }

    /** The same in hexadecimal. */
    method LeadHex(pb: array<Byte>, start: nat, val: Int32, width: nat, zeropad: bool, alternate: bool)
      returns (pbi: nat, w: int)
      requires Valid() && pb != buf && pb.Length == INT_BUF_LEN && 4 <= start < INT_BUF_LEN
      requires pb[start..] == Body(16, val) && Room(|Prefix(16, val, alternate)|)
      modifies this, buf, pb
      ensures Valid() && buf == old(buf) && pbi <= INT_BUF_LEN
      ensures Led(old(out), out, pb[pbi..], w, width, zeropad, Prefix(16, val, alternate), Body(16, val))
    {
      hide Valid, Body;
      BodyLeads(16, val);
      ghost var body := Body(16, val);
      assert body[0] == pb[start];
      pbi, w := start, width;
      if alternate {
        if width != 0 && zeropad && pb[pbi] != ZERO {
          WriteChar(ZERO);
          WriteChar(120);
          w := w - 2;
        } else if pb[pbi] != ZERO {
          pbi := pbi - 1;
          pb[pbi] := 120;
          assert pb[pbi..] == [120] + body;
          pbi := pbi - 1;
          pb[pbi] := ZERO;
          assert pb[pbi..] == [ZERO, 120] + body;
        }
      }
    }

    /** The second switch of `__format`. */
    method Lead(pb: array<Byte>, start: nat, val: Int32, width: nat, zeropad: bool, base: nat, alternate: bool)
      returns (pbi: nat, w: int)
      requires Valid() && pb != buf && pb.Length == INT_BUF_LEN && 4 <= start < INT_BUF_LEN
      requires base == 8 || base == 10 || base == 16
      requires pb[start..] == Prefix(base, val, false) + Body(base, val)
      requires Room(|Prefix(base, val, alternate)|)
      modifies this, buf, pb
      ensures Valid() && buf == old(buf) && pbi <= INT_BUF_LEN
      ensures Led(old(out), out, pb[pbi..], w, width, zeropad, Prefix(base, val, alternate), Body(base, val))
    {
      hide Valid, Body, Led;
      if base == 8 {
        pbi, w := LeadOctal(pb, start, val, width, zeropad, alternate);
      } else if base == 10 {
        pbi, w := LeadDecimal(pb, start, val, width, zeropad);
      } else {
        pbi, w := LeadHex(pb, start, val, width, zeropad, alternate);
      }
    }

    method Fill(zeropad: bool, width: nat)
      requires Valid() && Room(width)
      modifies this, buf
      ensures Valid() && buf == old(buf) && out == old(out) + Pad(zeropad, width)
    {
      hide Valid;
      var ch: Byte := if zeropad then ZERO else SPACE;
      var w := width;
      while w != 0
        invariant 0 <= w <= width && Valid() && buf == old(buf)
        invariant out == old(out) + Pad(zeropad, width - w)
      {
        WriteChar(ch);
        w := w - 1;
      }
    }

    /** `__format`: a number in base 8, 10 or 16; the source aborts for any other base. */
    method Number(val: Int32, width: nat, zeropad: bool, base: nat, alternate: bool)
      requires Valid() && width < HALF && (base == 8 || base == 10 || base == 16)
      requires Room(|Converted(val, width, zeropad, base, alternate)|)
      modifies this, buf
      ensures Valid() && buf == old(buf)
      ensures out == old(out) + Converted(val, width, zeropad, base, alternate)
    {
      hide Valid, Body, Converted, Pad, Prefix;
      ConvertedFits(val, width, zeropad, base, alternate);
      BodyLeads(base, val);
      PrefixNoNul(base, val, alternate);
      ghost var was := out;
      var pb, start := Convert(val, base);
      var pbi, w := Lead(pb, start, val, width, zeropad, base, alternate);
      ghost var head, rest := out[|was|..], pb[pbi..];
      assert out == was + head;
      w := w - (INT_BUF_LEN - pbi);
      if w < 0 {
        w := 0;
      }
      Assembled(val, width, zeropad, base, alternate, head, rest, w);
      Fill(zeropad, w);
      WriteStr(pb[pbi..], INT_BUF_LEN - pbi);
      assert rest[..INT_BUF_LEN - pbi] == rest;
      Joined(was, head, Pad(zeropad, w), rest);
    }
  }

  /** Copying the first `n` bytes of `s` behind the output keeps that much more of it. */
  lemma Appended(o: seq<Byte>, s: seq<Byte>, before: seq<Byte>, n: nat)
    requires n <= |s| && |o| + n <= |before|
    ensures var was := o[..|o|] + before[|o|..];
            was[..|o|] + s[..n] + was[|o| + n..] == (o + s)[..|o| + n] + before[|o| + n..]
  {
  }

  lemma Joined(a: seq<Byte>, b: seq<Byte>, c: seq<Byte>, d: seq<Byte>)
    ensures a + b + c + d == a + (b + c + d)
  {
  }

  lemma PrefixNoNul(base: nat, val: Int32, alternate: bool)
    ensures NoNul(Prefix(base, val, alternate))
  {
  }

  /** Prefix, padding and digits, in the order in which `__format` writes them. */
  lemma Assembled(val: Int32, width: nat, zeropad: bool, base: nat, alternate: bool, head: seq<Byte>, rest: seq<Byte>,
                  gap: nat)
    requires 2 <= base <= 16
    requires
      var prefix, body := Prefix(base, val, alternate), Body(base, val);
      if width != 0 && zeropad then head == prefix && rest == body else head == [] && rest == prefix + body
    requires gap == if width > |head| + |rest| then width - |head| - |rest| else 0
    ensures Converted(val, width, zeropad, base, alternate) == head + Pad(zeropad, gap) + rest
  {
    hide Prefix, Body;
    if width == 0 {
      assert Zeros(0) == [] && Spaces(0) == [];
    }
  }

  /** The prefix has been written and counted off the width, or stands before the digits. */
  ghost predicate Led(before: seq<Byte>, out: seq<Byte>, rest: seq<Byte>, w: int, width: nat, zeropad: bool,
                      prefix: seq<Byte>, body: seq<Byte>)
  {
    if width != 0 && zeropad then out == before + prefix && rest == body && w == width - |prefix|
    else out == before && rest == prefix + body && w == width
  }

  /** What the conversions leave in the 16-byte buffer. */
  function Text(base: nat, val: Int32): seq<Byte>
    requires 2 <= base <= 16
  {
    if base == 10 then DecimalDigits(val) else Digits(base, Word(val))
  }

  lemma TextLeads(base: nat, val: Int32)
    requires base == 8 || base == 10 || base == 16
    ensures var t := Text(base, val);
            && |t| <= 11 && (t != [] ==> t[0] != ZERO)
            && Prefix(base, val, false) + Body(base, val) == if t == [] then [ZERO] else t
  {
    var v := if base == 10 then Abs(val) else Word(val);
    DigitsAre(base, v);
    WordNumerals(v);
    EmptyDigits(base);
  }

  lemma BodyLeads(base: nat, val: Int32)
    requires base == 8 || base == 10 || base == 16
    ensures NoNul(Body(base, val)) && Body(base, val) != []
    ensures Body(base, val)[0] != MINUS && (Body(base, val)[0] == ZERO <==> val == 0)
  {
    var v := if base == 10 then Abs(val) else Word(val);
    DigitsAre(base, v);
    assert v == 0 <==> val == 0;
    hide Digits, Word, Abs;
  }

  /** No string has a NUL before its end. */
  ghost predicate Strings(strings: int -> seq<Byte>)
  {
    forall a: int :: NoNul(strings(a))
  }

  /** `%s` and the rest of the conversion switch of `__format_to_buf`. */
  method WriteConversion(fb: FmtBuf, d: Directive, c: Byte, v: Int32, strings: int -> seq<Byte>)
    requires fb.Valid() && d.width < HALF && Strings(strings) && fb.Room(|Conversion(d, c, v, strings)|)
    modifies fb, fb.buf
    ensures fb.Valid() && fb.buf == old(fb.buf) && fb.out == old(fb.out) + Conversion(d, c, v, strings)
  {
    hide Converted;
    if c == 115 {
      var l := StrLen(strings(v));
      fb.WriteStr(strings(v), l);
      assert strings(v)[..l] == strings(v);
    } else if c == 99 {
      fb.WriteChar(Word(v) % 256);
    } else if c == 111 {
      fb.Number(v, d.width, d.zeropad, 8, d.alternate);
    } else if c == 100 {
      fb.Number(v, d.width, d.zeropad, 10, false);
    } else if c == 120 {
      fb.Number(v, d.width, d.zeropad, 16, d.alternate);
    }
  }

  /** The flags and the width of a directive. */
  method ScanDirective(f: seq<Byte>, i: nat) returns (d: Directive)
    requires ReadDirective(f, i).width < HALF
    ensures d == ReadDirective(f, i)
  {
    var si, w, zp, pp := i, 0, false, false;
    if At(f, si) == HASH {
      pp := true;
      si := si + 1;
    }
    if At(f, si) == ZERO {
      zp := true;
      si := si + 1;
    }
    if ZERO + 1 <= At(f, si) <= ZERO + 9 {
      ghost var start := si;
      w := At(f, si) - ZERO;
      si := si + 1;
      while ZERO <= At(f, si) <= ZERO + 9
        invariant 0 <= w < HALF && ReadWidth(f, si, w) == ReadWidth(f, start, 0)
        decreases if si < |f| then |f| - si else 0
      {
        w := w * 10;
        w := w + (At(f, si) - ZERO);
        si := si + 1;
      }
    }
    d := Directive(pp, zp, w, si);
  }

  /** `__format_to_buf`: the characters are those of `Output`, and a NUL follows them unless the
      buffer has size 0. */
  method FormatToBuf(fb: FmtBuf, f: seq<Byte>, args: nat -> Int32, strings: int -> seq<Byte>)
    requires fb.Valid() && fb.out == [] && Strings(strings) && NoNul(f) && WellFormed(f, 0)
    requires fb.size != 0 ==> Kept(fb.size, |Output(f, 0, args, 0, strings)|) < fb.buf.Length
    modifies fb, fb.buf
    ensures fb.buf == old(fb.buf)
    ensures var r := Output(f, 0, args, 0, strings);
            fb.len == Wrap(|r|) && fb.buf[..] == Written(fb.size, r, fb.before)
  {
    hide ReadDirective, Conversion, Converted, fb.Valid, fb.Room, Output, WellFormed;
    OutputEnds(f, |f|, args, 0, strings);
    var si, pi := 0, 0;
    ghost var all := Output(f, 0, args, 0, strings);
    while At(f, si) != 0
      invariant si <= |f| && fb.Valid() && fb.buf == old(fb.buf) && WellFormed(f, si)
      invariant all == fb.out + Output(f, si, args, pi, strings)
      decreases |f| - si
    {
      OutputStep(f, si, args, pi, strings);
      ghost var was := fb.out;
      if At(f, si) != PERCENT {
        ghost var rest := Output(f, si + 1, args, pi, strings);
        RoomFor(fb, all, [f[si]], rest);
        fb.WriteChar(At(f, si));
        si := si + 1;
      } else {
        var d := ScanDirective(f, si + 1);
        var c := At(f, d.next);
        if c == PERCENT {
          ghost var rest := Output(f, d.next + 1, args, pi, strings);
          RoomFor(fb, all, [PERCENT], rest);
          fb.WriteChar(PERCENT);
        } else {
          ghost var rest := Output(f, d.next + 1, args, pi + 1, strings);
          RoomFor(fb, all, Conversion(d, c, args(pi), strings), rest);
          WriteConversion(fb, d, c, args(pi), strings);
          pi := pi + 1;
        }
        si := d.next + 1;
      }
    }
    OutputEnds(f, si, args, pi, strings);
    Finish(fb, all);
  }

  lemma OutputEnds(f: seq<Byte>, i: nat, args: nat -> Int32, p: nat, strings: int -> seq<Byte>)
    requires i >= |f|
    ensures Output(f, i, args, p, strings) == []
  {
  }

  lemma OutputStep(f: seq<Byte>, i: nat, args: nat -> Int32, p: nat, strings: int -> seq<Byte>)
    requires WellFormed(f, i) && i < |f|
    ensures f[i] != PERCENT ==>
      WellFormed(f, i + 1) && Output(f, i, args, p, strings) == [f[i]] + Output(f, i + 1, args, p, strings)
    ensures f[i] == PERCENT ==>
      var d := ReadDirective(f, i + 1);
      && d.next < |f| && d.width < HALF && WellFormed(f, d.next + 1)
      && Output(f, i, args, p, strings) ==
         if f[d.next] == PERCENT then [PERCENT] + Output(f, d.next + 1, args, p, strings)
         else Conversion(d, f[d.next], args(p), strings) + Output(f, d.next + 1, args, p + 1, strings)
  {
  }

  /** The next piece fits where everything does. */
  lemma RoomFor(fb: FmtBuf, all: seq<Byte>, piece: seq<Byte>, rest: seq<Byte>)
    requires all == fb.out + (piece + rest) && (fb.size != 0 ==> Kept(fb.size, |all|) < fb.buf.Length)
    ensures fb.Room(|piece|) && all == fb.out + piece + rest
  {
  }

  /** What a buffer of size `n` holds once `r` is written to it. */
  function Written(n: int, r: seq<Byte>, before: seq<Byte>): seq<Byte>
    requires n != 0 ==> Kept(n, |r|) < |before|
  {
    if n == 0 then before else r[..Kept(n, |r|)] + [0] + before[Kept(n, |r|) + 1..]
  }

  /** The terminating NUL. */
  method Finish(fb: FmtBuf, ghost all: seq<Byte>)
    requires fb.Valid() && fb.out == all && (fb.size != 0 ==> Kept(fb.size, |all|) < fb.buf.Length)
    modifies fb.buf
    ensures fb.len == Wrap(|all|) && |fb.before| == fb.buf.Length && fb.buf[..] == Written(fb.size, all, fb.before)
  {
    if fb.n != 0 {
      fb.buf[fb.at] := 0;
    }
  }

  /** `snprintf`. The result does not depend on `n`; the buffer ends up with as many characters of
      the output as it has room for and a NUL, and with what it held if `n` is 0. A negative `n`,
      which the source's int admits, leaves room for the NUL alone. */
  method Snprintf(buffer: array<Byte>, n: int, f: seq<Byte>, args: nat -> Int32, strings: int -> seq<Byte>)
    returns (r: int)
    requires Strings(strings) && NoNul(f) && WellFormed(f, 0)
    requires n != 0 ==> Kept(n, |Output(f, 0, args, 0, strings)|) < buffer.Length
    modifies buffer
    ensures r == Wrap(|Output(f, 0, args, 0, strings)|)
    ensures buffer[..] == Written(n, Output(f, 0, args, 0, strings), old(buffer[..]))
  {
    var fb := new FmtBuf(buffer, n);
    FormatToBuf(fb, f, args, strings);
    r := fb.len;
  }

  /** For sizes from 1 up: at most `n` bytes change, a NUL ends the first `min(n - 1, length)`
      characters of the output, and the output as a whole is there if it is shorter than `n`. */
  lemma WrittenBounds(n: int, r: seq<Byte>, before: seq<Byte>)
    requires n >= 1 && Kept(n, |r|) < |before|
    ensures var w, k := Written(n, r, before), Kept(n, |r|);
            && k == (if |r| < n - 1 then |r| else n - 1)
            && |w| == |before| && w[..k] == r[..k] && w[k] == 0
            && (|before| >= n ==> w[n..] == before[n..])
            && (|r| < n ==> w[..|r|] == r)
  {
  }

  lemma LenGrows(a: nat, b: nat)
    ensures Wrap(Wrap(a) + b) == Wrap(a + b)
  {
    var k := if Word(a) >= HALF then -1 else 0;
    assert Wrap(a) == Word(a) + k * WORD;
    WordShift(Word(a) + b, k);
    WordSum(a, b);
  }
}
