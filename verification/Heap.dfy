/** `malloc` and `free` of lib/c.c:603-711 and 771-806: chunks on two doubly linked lists, reuse
    by best fit, the freed bit kept in the size. */
module Heap {
  import opened Words

  const MIN_ALIGNMENT := 8
  const PAGESIZE := 4096
  const HEADER := 12 // sizeof(chunk_t)

  /** `ALIGN_UP` on 32-bit integers */
  function AlignUp(x: int, align: nat): int
    requires align > 0
  {
    var y := Wrap(x + align - 1);
    y - y % align
  }

  const MAX_REQUEST := 0x7FFF_FFFF - 7 - HEADER - 4095 // no request up to this wraps around

  /** `r` is the least multiple of `align` that is not below `x`. */
  predicate LeastMultiple(r: int, x: int, align: nat)
    requires align > 0
  {
    r % align == 0 && x <= r < x + align
  }

  /** Below the end of the int range rounding gives the least multiple. */
  lemma AlignUpIsLeast(x: int, align: nat)
    requires 0 < align <= x + align < 0x8000_0000
    ensures LeastMultiple(AlignUp(x, align), x, align)
  {
    var y := x + align - 1;
    SmallWord(y);
    assert y - y % align == y / align * align;
    Quotient(y - y % align, align, y / align, 0);
  }

  /** A request of `size` bytes asks for `want`, and for `pages` if memory has to be mapped. */
  predicate Rounded(size: int, want: int, pages: int)
  {
    LeastMultiple(want, size, MIN_ALIGNMENT) && LeastMultiple(pages, HEADER + want, PAGESIZE)
  }

  lemma RequestFits(size: int)
    requires 0 < size <= MAX_REQUEST
    ensures var want := AlignUp(size, MIN_ALIGNMENT); Rounded(size, want, AlignUp(HEADER + want, PAGESIZE))
  {
    hide LeastMultiple, AlignUp;
    AlignUpIsLeast(size, MIN_ALIGNMENT);
    assert LeastMultiple(AlignUp(size, MIN_ALIGNMENT), size, MIN_ALIGNMENT);
    LeastMultipleBounds(AlignUp(size, MIN_ALIGNMENT), size, MIN_ALIGNMENT);
    AlignUpIsLeast(HEADER + AlignUp(size, MIN_ALIGNMENT), PAGESIZE);
  }

  lemma LeastMultipleBounds(r: int, x: int, align: nat)
    requires align > 0 && LeastMultiple(r, x, align)
    ensures x <= r < x + align && r % align == 0
  {
  }

  lemma RoundedUnique(size: int, want: int, pages: int, want2: int, pages2: int)
    requires Rounded(size, want, pages) && Rounded(size, want2, pages2)
    ensures want == want2 && pages == pages2
  {
    hide LeastMultiple;
    LeastMultipleUnique(want, want2, size, MIN_ALIGNMENT);
    LeastMultipleUnique(pages, pages2, HEADER + want, PAGESIZE);
  }

  lemma LeastMultipleUnique(r: int, r2: int, x: int, align: nat)
    requires align > 0 && LeastMultiple(r, x, align) && LeastMultiple(r2, x, align)
    ensures r == r2
  {
    var q, q2 := r / align, r2 / align;
    assert r == q * align && r2 == q2 * align;
    assert (q - q2) * align == r - r2;
    MultipleApart(q - q2, align);
  }

  /** `IS_CHUNK_GET_FREED`, `CHUNK_GET_SIZE` */
  predicate FreedBit(size: int) { size % 2 == 1 }
  function SizeOf(size: int): int { size - size % 2 }

  class Chunk {
    var next: Chunk?
    var prev: Chunk?
    var size: int

    constructor (size: int)
      ensures this.size == size && next == null && prev == null
    {
      this.size, next, prev := size, null, null;
    }
  }

  /** `s` is a doubly linked list. */
  ghost predicate Linked(s: seq<Chunk>)
    reads s
  {
    && (forall i {:trigger s[i].next} :: 0 <= i < |s| - 1 ==> s[i].next == s[i + 1])
    && (forall i {:trigger s[i].prev} :: 1 <= i < |s| ==> s[i].prev == s[i - 1])
    && (s != [] ==> s[0].prev == null && s[|s| - 1].next == null)
  }

  ghost predicate Distinct(s: seq<Chunk>)
  {
    forall i, j :: 0 <= i < j < |s| ==> s[i] != s[j]
  }

  ghost function Elements(s: seq<Chunk>): set<Chunk>
  {
    set c | c in s
  }

  function Without(s: seq<Chunk>, k: nat): seq<Chunk>
    requires k < |s|
  {
    s[..k] + s[k + 1..]
  }

  /** The lists share no chunk and together hold exactly the mapped ones: all but the head of
      the first and the sentinel at the end of the second. */
  ghost predicate Sets(allocs: seq<Chunk>, frees: seq<Chunk>, mapped: set<Chunk>)
  {
    && Distinct(allocs) && Distinct(frees) && (forall c :: c in allocs ==> c !in frees)
    && (allocs == [] <==> frees == []) && (allocs == [] ==> mapped == {})
    && (allocs != [] ==> mapped == Elements(allocs[1..]) + Elements(frees[..|frees| - 1]))
  }

  /** A chunk in use is a number of pages long, its freed bit not set. */
  predicate Pages(size: int)
  {
    size % PAGESIZE == 0
  }

  ghost predicate InUseBits(allocs: seq<Chunk>)
    reads allocs`size
  {
    forall i :: 1 <= i < |allocs| ==> Pages(allocs[i].size)
  }

  ghost predicate FreedBits(frees: seq<Chunk>)
    reads frees`size
  {
    forall i :: 0 <= i < |frees| ==> FreedBit(frees[i].size) && (i < |frees| - 1 ==> Pages(frees[i].size - 1))
  }

  lemma PagesAreEven(size: int)
    requires Pages(size)
    ensures !FreedBit(size) && SizeOf(size) == size && SizeOf(size + 1) == size && FreedBit(size + 1)
  {
    var q := size / PAGESIZE * 2048;
    assert size == q * 2;
    Quotient(size, 2, q, 0);
    Quotient(size + 1, 2, q, 1);
  }

  lemma AlignedPages(x: int)
    ensures Pages(AlignUp(x, PAGESIZE))
  {
    var y := Wrap(x + PAGESIZE - 1);
    assert y - y % PAGESIZE == y / PAGESIZE * PAGESIZE;
    Quotient(y - y % PAGESIZE, PAGESIZE, y / PAGESIZE, 0);
  }

  /** Bytes left in the last page of a request. */
  function Left(size: int): nat
  {
    (0 - size) % PAGESIZE
  }

  /** Whole pages that hold `size` bytes leave room for the header unless they are just enough for the
      bytes and less than a header is left in the last one. */
  lemma PagesHold(size: int, want: int, pages: int)
    requires LeastMultiple(want, size, MIN_ALIGNMENT) && Pages(pages)
    ensures want <= size + Left(size)
    ensures pages >= want ==> (pages < HEADER + size <==> Left(size) < HEADER && pages == size + Left(size))
  {
    var q, l := (0 - size) / PAGESIZE, Left(size);
    assert 0 - size == q * PAGESIZE + l;
    var up := size + l;
    assert up == (0 - q) * PAGESIZE;
    EightBelow(up, want, size, 0 - q);
    var p := pages / PAGESIZE;
    assert pages == p * PAGESIZE;
    assert pages - up == (p + q) * PAGESIZE;
    MultipleApart(p + q, PAGESIZE);
  }

  lemma EightBelow(up: int, want: int, size: int, k: int)
    requires up == k * PAGESIZE && up >= size && LeastMultiple(want, size, MIN_ALIGNMENT)
    ensures want <= up
  {
    var w := want / MIN_ALIGNMENT;
    assert want == w * MIN_ALIGNMENT;
    assert up - want == (k * 512 - w) * MIN_ALIGNMENT;
    MultipleApart(k * 512 - w, MIN_ALIGNMENT);
  }

  class Allocator {
    var allocHead: Chunk?
    var allocTail: Chunk?
    var freelistHead: Chunk?
    ghost var allocs: seq<Chunk> // a head that is no chunk, then the chunks in use
    ghost var frees: seq<Chunk>  // the freed chunks, then a sentinel
    ghost var mapped: set<Chunk> // every chunk ever mapped for a request

    ghost predicate Valid()
      reads this, allocs, frees
    {
      && Linked(allocs) && Linked(frees) && Sets(allocs, frees, mapped)
      && (if allocs == [] then allocHead == null else allocHead == allocs[0] && allocTail == allocs[|allocs| - 1])
      && (if frees == [] then freelistHead == null else freelistHead == frees[0])
      && InUseBits(allocs) && FreedBits(frees)
    }

    constructor ()
      ensures Valid() && allocs == [] && frees == [] && mapped == {}
    {
      allocHead, allocTail, freelistHead := null, null, null;
      allocs, frees, mapped := [], [], {};
    }

    /** Chunks a program holds. */
    ghost function InUse(): seq<Chunk>
      reads this
    {
      if allocs == [] then [] else allocs[1..]
    }

    /** The place of the first smallest chunk that fits; negative if none fits. */
    ghost predicate BestFit(s: seq<Chunk>, size: int, best: int)
      reads s
    {
      if best < 0 then forall i :: 0 <= i < |s| ==> SizeOf(s[i].size) < size
      else
        && best < |s| && SizeOf(s[best].size) >= size
        && (forall i :: 0 <= i < |s| && SizeOf(s[i].size) >= size ==> SizeOf(s[best].size) <= SizeOf(s[i].size))
        && (forall i :: 0 <= i < best && SizeOf(s[i].size) >= size ==> SizeOf(s[best].size) < SizeOf(s[i].size))
    }

    /** The two list heads, made on first use. */
    method Prepare()
      requires Valid()
      modifies this
      ensures Valid() && allocs != [] && frees != [] && mapped == old(mapped)
      ensures old(allocs) != [] ==> allocs == old(allocs) && frees == old(frees)
      ensures old(allocs) == [] ==> |allocs| == |frees| == 1 && fresh(allocs[0]) && fresh(frees[0])
    {
      if allocHead == null {
        var tmp := new Chunk(0);
        allocHead, allocTail := tmp, tmp;
        allocs := [tmp];
      }
      if freelistHead == null {
        var tmp := new Chunk(-1);
        freelistHead := tmp;
        frees := [tmp];
      }
    }

    /** The search of `malloc` through the free list. */
    method FindBestFit(size: int) returns (best: Chunk?, ghost k: int)
      requires Valid() && frees != []
      ensures -1 <= k < |Freed()| && BestFit(Freed(), size, k)
      ensures if k < 0 then best == null else best == Freed()[k]
      ensures best == null ==> forall c :: c in Freed() ==> SizeOf(c.size) < size
      ensures best != null ==> best in Freed() && SizeOf(best.size) >= size
      ensures best != null ==>
        forall c :: c in Freed() && SizeOf(c.size) >= size ==> SizeOf(best.size) <= SizeOf(c.size)
    {
      hide Sets, InUseBits, FreedBits, Distinct, SizeOf;
      best, k := null, -1;
      var bestSize := 0;
      var fh := freelistHead;
      ghost var n := 0;
      while fh.next != null
        invariant 0 <= n < |frees| && k >= -1 && fh == frees[n] && BestFit(frees[..n], size, k)
        invariant if k < 0 then best == null else best == frees[k] && bestSize == SizeOf(frees[k].size)
        decreases |frees| - n
      {
        var fhSize := SizeOf(fh.size);
        if fhSize >= size && (best == null || fhSize < bestSize) {
          best, bestSize, k := fh, fhSize, n;
        }
        fh := fh.next;
        n := n + 1;
      }
    }

    /** Take the chunk at place `k` off the free list. */
    method Unfree(c: Chunk, ghost k: nat)
      requires Linked(allocs) && Linked(frees) && Distinct(frees) && (forall x :: x in allocs ==> x !in frees)
      requires k < |frees| - 1 && c == frees[k] && freelistHead == frees[0] && InUseBits(allocs) && FreedBits(frees)
      modifies this, frees
      ensures frees == Without(old(frees), k) && allocs == old(allocs) && mapped == old(mapped)
      ensures allocHead == old(allocHead) && allocTail == old(allocTail)
      ensures Linked(frees) && Linked(allocs) && freelistHead == frees[0] && FreedBits(frees) && InUseBits(allocs)
      ensures forall x :: x in old(frees) ==> x.size == old(x.size)
    {
      hide Linked, InUseBits, FreedBits;
      ghost var was := frees;
      Neighbours(was);
      assert c.prev != null ==> c.prev in was && c.prev !in allocs;
      assert c.next != null ==> c.next in was && c.next !in allocs;
      if c.prev != null {
        c.prev.next := c.next;
      } else {
        freelistHead := c.next;
      }
      if c.next != null {
        c.next.prev := c.prev;
      }
      SplicedOut(was, k);
      BitsKept(was, k);
      frees := Without(was, k);
    }

    /** Chunks on the free list, the sentinel aside. */
    ghost function Freed(): seq<Chunk>
      reads this
    {
      if frees == [] then [] else frees[..|frees| - 1]
    }

    /** A chunk that is on neither list goes to the end of the allocation list. */
    method Append(c: Chunk)
      requires Linked(allocs) && Distinct(allocs) && allocs != [] && allocTail == allocs[|allocs| - 1]
      requires allocHead == allocs[0]
      requires Linked(frees) && c !in allocs && c !in frees && forall x :: x in allocs ==> x !in frees
      requires InUseBits(allocs) && FreedBits(frees) && Pages(SizeOf(c.size))
      modifies this, allocs, c
      ensures allocs == old(allocs) + [c] && frees == old(frees) && mapped == old(mapped)
      ensures Linked(allocs) && Linked(frees) && allocTail == c && allocHead == allocs[0]
      ensures freelistHead == old(freelistHead)
      ensures InUseBits(allocs) && FreedBits(frees)
      ensures c.size == SizeOf(old(c.size)) && forall x :: x in old(allocs) ==> x.size == old(x.size)
    {
      assert allocTail in allocs && allocTail !in frees;
      allocTail.next := c;
      c.prev := allocTail;
      allocTail := c;
      c.next := null;
      c.size := SizeOf(c.size);
      allocs := allocs + [c];
    }

    /** The chunk at place `k` of the free list goes to the end of the allocation list. */
    method Reuse(c: Chunk, ghost k: nat)
      requires Valid() && k + 1 < |frees| && c == frees[k]
      modifies this, allocs, frees
      ensures Valid() && mapped == old(mapped) && c in mapped
      ensures InUse() == old(InUse()) + [c] && Freed() == Without(old(Freed()), k) && old(Freed())[k] == c
      ensures c.size == SizeOf(old(c.size)) && forall x :: x in old(mapped) && x != c ==> x.size == old(x.size)
    {
      hide Linked, Distinct, Sets, InUseBits, FreedBits;
      ReuseSets(allocs, frees, k, mapped);
      SetsFacts(allocs, frees, mapped);
      FreedIsPages(frees, k);
      Unfree(c, k);
      Append(c);
    }

    /** A newly mapped chunk goes to the end of the allocation list. */
    method MapNew(size: int) returns (c: Chunk)
      requires Valid() && allocs != [] && Pages(size)
      modifies this, allocs
      ensures Valid() && fresh(c) && mapped == old(mapped) + {c} && c.size == size
      ensures InUse() == old(InUse()) + [c] && Freed() == old(Freed())
      ensures forall x :: x in old(mapped) ==> x.size == old(x.size)
    {
      hide Linked, Distinct, Sets, InUseBits, FreedBits;
      c := new Chunk(size);
      PagesAreEven(size);
      MapSets(allocs, frees, c, mapped);
      SetsFacts(allocs, frees, mapped);
      Append(c);
      mapped := mapped + {c};
    }

    /** A request that leaves less than a header in its last page, while a freed chunk has exactly its
        pages. */
    ghost predicate Cramped(size: int)
      reads this, frees
    {
      Left(size) < HEADER && exists c :: c in Freed() && SizeOf(c.size) == size + Left(size)
    }

    /** Whether the best fit has room for its header and the request. */
    lemma BestFitRoom(size: int, want: int, best: Chunk?)
      requires Valid() && frees != [] && LeastMultiple(want, size, MIN_ALIGNMENT)
      requires best == null ==> forall c :: c in Freed() ==> SizeOf(c.size) < want
      requires best != null ==> best in Freed() && SizeOf(best.size) >= want
      requires best != null ==>
        forall c :: c in Freed() && SizeOf(c.size) >= want ==> SizeOf(best.size) <= SizeOf(c.size)
      ensures if best == null then !Cramped(size) else SizeOf(best.size) < HEADER + size <==> Cramped(size)
    {
      hide Left, LeastMultiple, Linked, Sets, SizeOf, Pages, InUseBits;
      forall c | c in Freed()
        ensures want <= size + Left(size)
        ensures SizeOf(c.size) >= want ==>
          (SizeOf(c.size) < HEADER + size <==> Left(size) < HEADER && SizeOf(c.size) == size + Left(size))
      {
        var k :| 0 <= k < |frees| - 1 && frees[..|frees| - 1][k] == c;
        assert frees[k] == c;
        FreedIsPages(frees, k);
        PagesHold(size, want, SizeOf(c.size));
      }
    }

    /** `malloc`; the result is the chunk rather than the address behind its header. The request is
        rounded up to a multiple of 8; a freed chunk is used again if its recorded size is not below
        that, else whole pages are mapped that hold the header too. The chunk has room for the request
        behind its header unless the request is cramped. */
    method Malloc(size: int) returns (p: Chunk?)
      requires Valid()
      modifies this, allocs, frees
      ensures Valid()
      ensures size <= 0 ==> p == null && InUse() == old(InUse()) && Freed() == old(Freed()) && mapped == old(mapped)
      ensures size > 0 ==> p != null && InUse() == old(InUse()) + [p] && p in mapped
      ensures size > 0 ==>
        var want := AlignUp(size, MIN_ALIGNMENT); Chosen(p, want, AlignUp(HEADER + want, PAGESIZE))
      ensures forall want: int, pages: int :: (0 < size <= MAX_REQUEST && Rounded(size, want, pages)) ==>
        Chosen(p, want, pages)
      ensures 0 < size <= MAX_REQUEST ==> (p.size >= HEADER + size <==> !old(Cramped(size)))
      ensures forall c :: c in old(mapped) && c != p ==> c.size == old(c.size)
    {
      hide Linked, Distinct, Sets, InUseBits, FreedBits, BestFit, AlignUp, Without, Elements, LeastMultiple, Pages;
      hide Left, Cramped;
      if size <= 0 {
        return null;
      }
      var want := AlignUp(size, MIN_ALIGNMENT);
      var pages := AlignUp(HEADER + want, PAGESIZE);
      AlignedPages(HEADER + want);
      if size <= MAX_REQUEST {
        RequestFits(size);
        LeastMultipleBounds(want, size, MIN_ALIGNMENT);
        LeastMultipleBounds(pages, HEADER + want, PAGESIZE);
      }
      p := Take(want, pages, size);
      forall w: int, g: int | 0 < size <= MAX_REQUEST && Rounded(size, w, g) ensures w == want && g == pages {
        RoundedUnique(size, w, g, want, pages);
      }
    }

    /** The best fit, or memory newly mapped. */
    method Take(want: int, pages: int, ghost size: int) returns (p: Chunk)
      requires Valid() && Pages(pages)
      modifies this, allocs, frees
      ensures Valid() && InUse() == old(InUse()) + [p] && p in mapped && Chosen(p, want, pages)
      ensures LeastMultiple(want, size, MIN_ALIGNMENT) && pages >= HEADER + size ==>
        (p.size >= HEADER + size <==> !old(Cramped(size)))
      ensures forall c :: c in old(mapped) && c != p ==> c.size == old(c.size)
    {
      hide Linked, Distinct, Sets, InUseBits, FreedBits, BestFit, AlignUp, Without, Elements, LeastMultiple, Pages;
      hide Left;
      SetsFacts(allocs, frees, mapped);
      Prepare();
      assert Freed() == old(Freed());
      var best, k := FindBestFit(want);
      assert old(BestFit(Freed(), want, k));
      if LeastMultiple(want, size, MIN_ALIGNMENT) {
        BestFitRoom(size, want, best);
        assert Cramped(size) == old(Cramped(size));
      }
      if best != null {
        p := best;
        Reuse(best, k);
      } else {
        p := MapNew(pages);
      }
    }

    /** What `malloc` may hand out: the first smallest chunk of the free list whose recorded size is not
        below `want`, or, if there is none, a newly mapped one of `pages` bytes. */
    twostate predicate Chosen(new p: Chunk, want: int, pages: int)
      reads this, p
    {
      (exists k: nat :: k < |old(Freed())| && old(BestFit(Freed(), want, k)) && p == old(Freed())[k]
         && Freed() == Without(old(Freed()), k) && mapped == old(mapped) && p.size == SizeOf(old(p.size)))
      || (old(BestFit(Freed(), want, -1)) && p !in old(mapped) && Freed() == old(Freed())
          && mapped == old(mapped) + {p} && p.size == pages)
    }

    /** `free`: false where the source stops with "double free detected", which it does exactly
        for chunks that are free already. */
    method Free(p: Chunk?) returns (ok: bool, ghost k: nat)
      requires Valid() && (p != null ==> p in mapped)
      modifies this, allocs, frees
      ensures Valid() && mapped == old(mapped)
      ensures ok <==> p == null || p in old(InUse())
      ensures !ok || p == null ==> InUse() == old(InUse()) && Freed() == old(Freed())
      ensures ok && p != null ==>
        && k < |old(InUse())| && old(InUse())[k] == p && InUse() == Without(old(InUse()), k)
        && Freed() == [p] + old(Freed()) && p.size == old(p.size) + 1
      ensures forall c :: c in mapped && c != p ==> c.size == old(c.size)
    {
      hide Linked, Distinct, Sets, InUseBits, FreedBits, FreedBit, Without, Elements;
      k := 0;
      if p == null {
        return true, 0;
      }
      FreedBitTells(p);
      SetsFacts(allocs, frees, mapped);
      if FreedBit(p.size) {
        return false, 0;
      }
      k := PlaceInUse(allocs, frees, mapped, p);
      assert Pages(p.size) by { PagesOfFree(p); }
      FreeSets(allocs, frees, k, mapped);
      SetsFacts(Without(allocs, k), [p] + frees, mapped);
      Unlink(p, k);
      PushFree(p);
      k := k - 1;
      return true, k;
    }

    /** The freed bit says which list a chunk is on. */
    lemma FreedBitTells(c: Chunk)
      requires Valid() && c in mapped
      ensures c in InUse() <==> !FreedBit(c.size)
      ensures c in Freed() <==> FreedBit(c.size)
      ensures Pages(SizeOf(c.size))
    {
      if c in Elements(allocs[1..]) {
        var i :| 0 <= i < |allocs| - 1 && allocs[1..][i] == c;
        assert allocs[i + 1] == c;
        assert c !in frees;
        PagesAreEven(c.size);
      } else {
        assert c in Elements(frees[..|frees| - 1]);
        var i :| 0 <= i < |frees| - 1 && frees[..|frees| - 1][i] == c;
        assert frees[i] == c;
        PagesAreEven(c.size - 1);
      }
    }

    lemma PagesOfFree(c: Chunk)
      requires Valid() && c in mapped && !FreedBit(c.size)
      ensures Pages(c.size)
    {
      FreedBitTells(c);
    }

    /** A chunk on neither list goes to the front of the free list. */
    method PushFree(c: Chunk)
      requires Linked(allocs) && Linked(frees) && c !in allocs && c !in frees
      requires (forall x :: x in allocs ==> x !in frees)
      requires if frees == [] then freelistHead == null else freelistHead == frees[0]
      requires InUseBits(allocs) && FreedBits(frees) && Pages(c.size)
      modifies this, frees, c
      ensures allocs == old(allocs) && frees == [c] + old(frees) && mapped == old(mapped)
      ensures Linked(allocs) && Linked(frees) && freelistHead == c && InUseBits(allocs) && FreedBits(frees)
      ensures allocHead == old(allocHead) && allocTail == old(allocTail)
      ensures c.size == old(c.size) + 1 && forall x :: x in old(frees) ==> x.size == old(x.size)
    {
      assert freelistHead != null ==> freelistHead in frees;
      PagesAreEven(c.size);
      c.next := freelistHead;
      c.prev := null;
      c.size := c.size + 1;
      if freelistHead != null {
        freelistHead.prev := c;
      }
      freelistHead := c;
      frees := [c] + frees;
    }

    /** Take the chunk at place `k` off the allocation list. */
    method Unlink(c: Chunk, ghost k: nat)
      requires Linked(allocs) && Linked(frees) && Distinct(allocs) && (forall x :: x in allocs ==> x !in frees)
      requires k < |allocs| && c == allocs[k] && allocHead == allocs[0] && allocTail == allocs[|allocs| - 1]
      requires InUseBits(allocs) && FreedBits(frees)
      modifies this, allocs
      ensures allocs == Without(old(allocs), k) && frees == old(frees) && mapped == old(mapped)
      ensures Linked(allocs) && Linked(frees) && freelistHead == old(freelistHead) && InUseBits(allocs)
      ensures FreedBits(frees)
      ensures if allocs == [] then allocHead == null else allocHead == allocs[0] && allocTail == allocs[|allocs| - 1]
      ensures forall x :: x in old(allocs) ==> x.size == old(x.size)
    {
      hide Linked, InUseBits, FreedBits;
      ghost var was := allocs;
      Neighbours(was);
      assert c.prev != null ==> c.prev in was && c.prev !in frees;
      assert c.next != null ==> c.next in was && c.next !in frees;
      var prev: Chunk? := null;
      if c.prev != null {
        prev := c.prev;
        prev.next := c.next;
      } else {
        allocHead := c.next;
      }
      if c.next != null {
        c.next.prev := c.prev;
      } else if prev != null {
        prev.next := null;
        allocTail := prev;
      }
      SplicedOut(was, k);
      BitsKept(was, k);
      WithoutEnds(was, k);
      allocs := Without(was, k);
    }
  }

  /** The chunk after, and the one before, place `i` of a list. */
  function After(s: seq<Chunk>, i: nat): Chunk?
  {
    if i + 1 < |s| then s[i + 1] else null
  }

  function Ahead(s: seq<Chunk>, i: nat): Chunk?
    requires i < |s|
  {
    if i > 0 then s[i - 1] else null
  }

  lemma Neighbours(s: seq<Chunk>)
    requires Linked(s)
    ensures forall i {:trigger s[i].next} :: 0 <= i < |s| ==> s[i].next == After(s, i)
    ensures forall i {:trigger s[i].prev} :: 0 <= i < |s| ==> s[i].prev == Ahead(s, i)
  {
  }

  /** Joining the neighbours of the chunk at place `k` takes it out of the list. */
  lemma SplicedOut(s: seq<Chunk>, k: nat)
    requires k < |s|
    requires forall i {:trigger s[i].next} :: 0 <= i < |s| && i != k ==>
      s[i].next == After(s, if i + 1 == k then k else i)
    requires forall i {:trigger s[i].prev} :: 0 <= i < |s| && i != k ==>
      s[i].prev == Ahead(s, if i == k + 1 then k else i)
    ensures Linked(Without(s, k))
  {
    var left := Without(s, k);
    forall i | 0 <= i < |left|
      ensures left[i].next == if i < |left| - 1 then left[i + 1] else null
      ensures left[i].prev == if i > 0 then left[i - 1] else null
    {
      var j := if i < k then i else i + 1;
      assert left[i] == s[j];
    }
  }

  /** The first and the last chunk that are left. */
  lemma WithoutEnds(s: seq<Chunk>, k: nat)
    requires k < |s|
    ensures var left := Without(s, k);
            && |left| == |s| - 1
            && (left != [] ==> left[0] == s[if k == 0 then 1 else 0])
            && (left != [] ==> left[|left| - 1] == s[if k == |s| - 1 then k - 1 else |s| - 1])
  {
  }

  lemma FreedIsPages(s: seq<Chunk>, k: nat)
    requires FreedBits(s) && k < |s| - 1
    ensures Pages(SizeOf(s[k].size))
  {
    PagesAreEven(s[k].size - 1);
  }

  lemma BitsKept(s: seq<Chunk>, k: nat)
    requires k < |s|
    ensures InUseBits(s) ==> InUseBits(Without(s, k))
    ensures FreedBits(s) && k < |s| - 1 ==> FreedBits(Without(s, k))
  {
    var left := Without(s, k);
    assert forall i :: 0 <= i < |left| ==> left[i] == s[if i < k then i else i + 1];
  }

  lemma WithoutParts(s: seq<Chunk>, k: nat)
    requires k < |s| && Distinct(s)
    ensures var r := Without(s, k);
            Distinct(r) && s[k] !in r && Elements(s) == Elements(r) + {s[k]}
  {
    var r := Without(s, k);
    forall c | c in s && c != s[k] ensures c in r {
      var i :| 0 <= i < |s| && s[i] == c;
      assert r[if i < k then i else i - 1] == c;
    }
    forall c | c in r ensures c in s && c != s[k] {
      var i :| 0 <= i < |r| && r[i] == c;
      assert c == s[if i < k then i else i + 1];
    }
  }

  lemma SetsFacts(allocs: seq<Chunk>, frees: seq<Chunk>, mapped: set<Chunk>)
    requires Sets(allocs, frees, mapped)
    ensures Distinct(allocs) && Distinct(frees)
    ensures (forall c :: c in allocs ==> c !in frees) && (allocs == [] <==> frees == [])
    ensures forall c :: c in mapped ==> c in allocs || c in frees
  {
  }

  /** A freed chunk is used again. */
  lemma ReuseSets(allocs: seq<Chunk>, frees: seq<Chunk>, k: nat, mapped: set<Chunk>)
    requires Sets(allocs, frees, mapped) && k + 1 < |frees|
    ensures Sets(allocs + [frees[k]], Without(frees, k), mapped) && frees[k] !in allocs
    ensures frees[k] !in Without(frees, k)
    ensures (allocs + [frees[k]])[1..] == allocs[1..] + [frees[k]]
    ensures Without(frees, k)[..|frees| - 2] == Without(frees[..|frees| - 1], k) && frees[k] in mapped
    ensures forall c :: c in Without(frees, k) ==> c in frees
  {
    var c, f2, own := frees[k], Without(frees, k), frees[..|frees| - 1];
    WithoutParts(frees, k);
    WithoutParts(own, k);
    assert own[k] == c && f2[..|f2| - 1] == Without(own, k);
    assert forall x :: x in f2 ==> x in Elements(frees);
    assert (allocs + [c])[1..] == allocs[1..] + [c] && c in Elements(own);
    assert Elements(allocs[1..] + [c]) == Elements(allocs[1..]) + {c};
  }

  /** A chunk newly mapped. */
  lemma MapSets(allocs: seq<Chunk>, frees: seq<Chunk>, c: Chunk, mapped: set<Chunk>)
    requires Sets(allocs, frees, mapped) && allocs != [] && c !in allocs && c !in frees
    ensures Sets(allocs + [c], frees, mapped + {c}) && (allocs + [c])[1..] == allocs[1..] + [c]
  {
    assert (allocs + [c])[1..] == allocs[1..] + [c];
    assert Elements(allocs[1..] + [c]) == Elements(allocs[1..]) + {c};
  }

  /** A chunk in use goes to the front of the free list. */
  lemma FreeSets(allocs: seq<Chunk>, frees: seq<Chunk>, k: nat, mapped: set<Chunk>)
    requires Sets(allocs, frees, mapped) && 1 <= k < |allocs|
    ensures Sets(Without(allocs, k), [allocs[k]] + frees, mapped) && allocs[k] !in Without(allocs, k)
    ensures Without(allocs, k)[1..] == Without(allocs[1..], k - 1)
    ensures ([allocs[k]] + frees)[..|frees|] == [allocs[k]] + frees[..|frees| - 1]
    ensures forall c :: c in Without(allocs, k) ==> c in allocs
  {
    var c, a2 := allocs[k], Without(allocs, k);
    WithoutParts(allocs, k);
    WithoutParts(allocs[1..], k - 1);
    assert a2[1..] == Without(allocs[1..], k - 1);
    assert forall x :: x in a2 ==> x in Elements(allocs);
    assert ([c] + frees)[..|frees|] == [c] + frees[..|frees| - 1];
    assert Elements([c] + frees[..|frees| - 1]) == {c} + Elements(frees[..|frees| - 1]);
    assert allocs[1..][k - 1] == c && c in Elements(allocs[1..]);
  }

  /** A mapped chunk that is not free is in use. */
  lemma PlaceInUse(allocs: seq<Chunk>, frees: seq<Chunk>, mapped: set<Chunk>, c: Chunk) returns (k: nat)
    requires Sets(allocs, frees, mapped) && c in mapped && c !in frees
    ensures 1 <= k < |allocs| && allocs[k] == c && c in allocs[1..] && allocs[1..][k - 1] == c
  {
    assert c in Elements(allocs[1..]) by {
      if c in Elements(frees[..|frees| - 1]) {
        assert c in frees[..|frees| - 1];
      }
    }
    var i :| 0 <= i < |allocs| - 1 && allocs[1..][i] == c;
    k := i + 1;
  }

  /** With one freed chunk of one page, as `free(malloc(100))` leaves it, a request for 4096 bytes gets
      that chunk, which has 4084 bytes behind its header. */
  method CrampedRequest(heap: Allocator, c: Chunk) returns (p: Chunk)
    requires heap.Valid() && heap.Freed() == [c] && SizeOf(c.size) == 4096
    modifies heap, heap.allocs, heap.frees
    ensures p.size == 4096 && p.size - HEADER < 4096
  {
    hide Linked, Distinct, Sets, InUseBits, FreedBits, AlignUp, Elements;
    assert heap.Freed()[0] == c;
    assert heap.Cramped(4096);
    p := heap.Malloc(4096);
    assert Rounded(4096, 4096, 8192);
  }
}
