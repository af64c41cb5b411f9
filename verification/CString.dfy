/** `strlen` and `strncpy` of lib/c.c:42-57 and 97-113. A string is the row of bytes before its
    terminating NUL. */
module CString {
  type Byte = b: int | 0 <= b < 256

  /** The byte at place `i` of a string in memory, its NUL included. */
  function At(s: seq<Byte>, i: nat): Byte
  {
    if i < |s| then s[i] else 0
  }

  ghost predicate NoNul(s: seq<Byte>)
  {
    forall i :: 0 <= i < |s| ==> s[i] != 0
  }

  function Nuls(n: nat): (s: seq<Byte>)
    ensures |s| == n
  {
    seq(n, i => 0)
  }

  /** What `strncpy` leaves in the first `len` bytes of its destination. */
  function Copied(s: seq<Byte>, len: nat): (t: seq<Byte>)
    ensures |t| == len
  {
    if len <= |s| then s[..len] else s + Nuls(len - |s|)
  }

  /** The loop looks at four bytes at a time. */
  method StrLen(s: seq<Byte>) returns (n: nat)
    requires NoNul(s)
    ensures n == |s|
  {
    n := 0;
    while true
      invariant n <= |s|
      decreases |s| - n
    {
      if At(s, n) == 0 { return; }
      if At(s, n + 1) == 0 { return n + 1; }
      if At(s, n + 2) == 0 { return n + 2; }
      if At(s, n + 3) == 0 { return n + 3; }
      n := n + 4;
    }
  }

  method StrNCpy(dest: array<Byte>, at: nat, src: seq<Byte>, len: nat)
    requires NoNul(src) && at + len <= dest.Length
    modifies dest
    ensures dest[..] == old(dest[..at]) + Copied(src, len) + old(dest[at + len..])
  {
    var i, beyond := 0, false;
    while i < len
      invariant 0 <= i <= len && (beyond <==> i > |src|)
      invariant dest[..at] == old(dest[..at]) && dest[at + len..] == old(dest[at + len..])
      invariant forall j :: 0 <= j < i ==> dest[at + j] == At(src, j)
    {
      if !beyond {
        dest[at + i] := At(src, i);
        if At(src, i) == 0 {
          beyond := true;
        }
      } else {
        dest[at + i] := 0;
      }
      i := i + 1;
    }
    forall j | 0 <= j < len ensures dest[at..at + len][j] == Copied(src, len)[j] {
      assert dest[at + j] == At(src, j);
    }
    assert dest[..] == dest[..at] + dest[at..at + len] + dest[at + len..];
  }
}
