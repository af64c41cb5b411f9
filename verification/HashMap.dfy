/** The open-addressing hash map of src/globals.c:356-382 and 391-536: FNV-1a, linear probing,
    doubling at half load. It refines a finite map. */
module HashMap {
  import opened Options
  import opened Words

  /** A key string without its terminator: chars are signed. */
  type Key = seq<int>

  datatype Node = Node(key: Key, val: int, occupied: bool)

  const EMPTY := Node([], 0, false)

  // ---- hashing -----------------------------------------------------------------------------------

  /** The FNV-1a loop over the first `n` characters. */
  function Fnv(key: Key, n: nat): (h: nat)
    requires n <= |key|
    ensures h < WORD
  {
    if n == 0 then 0x811c9dc5 else Word(XorW(Fnv(key, n - 1), Word(key[n - 1])) * 0x01000193)
  }

  /** `hashmap_hash_index`: the magnitude of the hash, masked; -2^31 keeps its sign bit. */
  function HashIndex(size: nat, key: Key): nat
    requires size > 0
  {
    var hash := Fnv(key, |key|);
    AndW(if hash >= HALF then WORD - hash else hash, size - 1)
  }

  /** A capacity the map can have. */
  ghost predicate Capacity(cap: nat)
  {
    exists k: nat :: k <= 30 && cap == Pow2(k)
  }

  lemma CapacityFacts(cap: nat)
    requires Capacity(cap)
    ensures 0 < cap <= 0x4000_0000
    ensures cap < 0x4000_0000 ==> Capacity(2 * cap)
  {
    var k: nat :| k <= 30 && cap == Pow2(k);
    PowerBelow(k, 30);
    Powers();
    PowPositive(k);
    if k < 30 {
      assert Pow2(k + 1) == 2 * cap;
    }
  }

  /** Masking by a capacity less one is the remainder. */
  lemma MaskIsRemainder(x: nat, cap: nat)
    requires Capacity(cap) && x < WORD
    ensures AndW(x, cap - 1) == x % cap
  {
    var k: nat :| k <= 30 && cap == Pow2(k);
    Powers();
    MaskKeepsLow(x, k, 32);
  }

  lemma HashInside(size: nat, key: Key)
    requires Capacity(size)
    ensures HashIndex(size, key) < size
  {
    CapacityFacts(size);
    var hash := Fnv(key, |key|);
    MaskIsRemainder(if hash >= HALF then WORD - hash else hash, size);
  }

  // ---- rounding up to a power of two -----------------------------------------------------------------

  /** `round_up_pow2` on words. */
  function RoundUp(v: nat): nat
    requires 0 < v < WORD
  {
    var a := v - 1;
    var b := OrW(a, SrlW(a, 1));
    var c := OrW(b, SrlW(b, 2));
    var d := OrW(c, SrlW(c, 4));
    var e := OrW(d, SrlW(d, 8));
    OrW(e, SrlW(e, 16)) + 1
  }

  function Or(a: nat, b: nat, n: nat): nat { Bitwise(OR_BIT, a, b, n) }

  lemma {:induction false} OrBound(a: nat, b: nat, n: nat, k: nat)
    requires a < Pow2(k) && b < Pow2(k) && k <= n
    ensures Or(a, b, n) < Pow2(k)
    decreases n
  {
    if k > 0 {
      OrBound(a / 2, b / 2, n - 1, k - 1);
    } else {
      OrZero(n);
    }
  }

  lemma {:induction false} OrZero(n: nat)
    ensures Or(0, 0, n) == 0
  {
    if n > 0 {
      OrZero(n - 1);
    }
  }

  /** The bits from `j` on of a disjunction. */
  lemma {:induction false} OrHigh(a: nat, b: nat, n: nat, j: nat)
    requires j <= n
    ensures SrlW(Or(a, b, n), j) == Or(SrlW(a, j), SrlW(b, j), n - j)
  {
    if j > 0 {
      OrHigh(a / 2, b / 2, n - 1, j - 1);
      assert Or(a, b, n) / 2 == Or(a / 2, b / 2, n - 1);
    }
  }

  lemma {:induction false} OrWithZero(a: nat, n: nat)
    requires a < Pow2(n)
    ensures Or(a, 0, n) == a
  {
    if n > 0 {
      OrWithZero(a / 2, n - 1);
    }
  }

  /** Ones above bit `t`, or-ed with ones below it. */
  lemma {:induction false} OrFills(x: nat, t: nat, m: nat, n: nat)
    requires SrlW(x, t) == Pow2(m) - 1 && x < Pow2(n) && t <= n
    ensures Or(x, Pow2(t) - 1, n) == Pow2(m + t) - 1
  {
    if t == 0 {
      OrWithZero(x, n);
    } else {
      OrFills(x / 2, t - 1, m, n - 1);
      assert (Pow2(t) - 1) / 2 == Pow2(t - 1) - 1 && (Pow2(t) - 1) % 2 == 1;
    }
  }

  lemma {:induction false} ShiftAdds(x: nat, a: nat, b: nat)
    ensures SrlW(SrlW(x, a), b) == SrlW(x, a + b)
  {
    if a > 0 {
      ShiftAdds(x / 2, a - 1, b);
    }
  }

  lemma {:induction false} ShiftBelow(x: nat, k: nat, j: nat)
    requires x < Pow2(k)
    ensures SrlW(x, j) < Pow2(k) && (j <= k ==> SrlW(x, j) < Pow2(k - j)) && (j >= k ==> SrlW(x, j) == 0)
  {
    if j > 0 {
      if k == 0 {
        ShiftZero(j);
      } else {
        ShiftBelow(x / 2, k - 1, j - 1);
      }
    }
  }

  lemma {:induction false} OnesShift(m: nat, j: nat)
    requires j <= m
    ensures SrlW(Pow2(m) - 1, j) == Pow2(m - j) - 1
  {
    if j > 0 {
      assert (Pow2(m) - 1) / 2 == Pow2(m - 1) - 1;
      OnesShift(m - 1, j - 1);
    }
  }

  /** The top `m` of `k` bits are set. */
  predicate TopSet(x: nat, k: nat, m: nat)
  {
    m <= k && x < Pow2(k) && SrlW(x, k - m) == Pow2(m) - 1
  }

  /** One smearing step doubles the run of set bits at the top. */
  lemma Smear(x: nat, k: nat, m: nat)
    requires TopSet(x, k, m) && k <= 32 && m > 0
    ensures var y := OrW(x, SrlW(x, m)); TopSet(y, k, if 2 * m <= k then 2 * m else k)
  {
    hide Pow2, SrlW, Bitwise;
    var n := if 2 * m <= k then 2 * m else k;
    var j, s := k - n, SrlW(x, m);
    ShiftBelow(x, k, m);
    OrBound(x, s, 32, k);
    OrHigh(x, s, 32, j);
    // from bit j on: ones above bit n - m, or-ed with the ones moved down below it
    ShiftAdds(x, j, n - m);
    ShiftAdds(x, m, j);
    ShiftAdds(x, k - m, m + j - (k - m));
    OnesShift(m, m + j - (k - m));
    ShiftBelow(x, k, j);
    PowerBelow(n, 32 - j);
    OrFills(SrlW(x, j), n - m, m, 32 - j);
  }

  /** Every positive number has a highest bit. */
  lemma {:induction false} HighestBit(x: nat) returns (k: nat)
    requires x > 0
    ensures k > 0 && Pow2(k - 1) <= x < Pow2(k)
  {
    if x == 1 {
      k := 1;
    } else {
      k := HighestBit(x / 2);
      k := k + 1;
    }
  }

  lemma {:induction false} TopBit(x: nat, k: nat)
    requires k > 0 && Pow2(k - 1) <= x < Pow2(k)
    ensures TopSet(x, k, 1)
  {
    if k > 1 {
      TopBit(x / 2, k - 1);
    }
  }

  /** `round_up_pow2` gives the least power of two that is not below its argument. */
  lemma RoundUpIsLeast(v: nat)
    requires 0 < v <= 0x4000_0000
    ensures Capacity(RoundUp(v)) && v <= RoundUp(v) && forall j: nat :: v <= Pow2(j) ==> RoundUp(v) <= Pow2(j)
  {
    hide OrW, SrlW;
    Powers();
    if v == 1 {
      RoundUpOne();
      assert Capacity(1) by {
        assert Pow2(0) == 1;
      }
    } else {
      var a := v - 1;
      var k := HighestBit(a);
      if k > 30 {
        PowerBelow(30, k - 1);
      }
      TopBit(a, k);
      SmearAll(a, k);
      assert RoundUp(v) == Pow2(k);
      forall j: nat | v <= Pow2(j) ensures RoundUp(v) <= Pow2(j) {
        PowerBelow(j, k - 1);
        PowerBelow(k, j);
      }
    }
  }

  lemma RoundUpOne()
    ensures RoundUp(1) == 1
  {
    OrZero(32);
    ShiftZero(1);
    ShiftZero(2);
    ShiftZero(4);
    ShiftZero(8);
    ShiftZero(16);
  }

  lemma {:induction false} ShiftZero(m: nat)
    ensures SrlW(0, m) == 0
  {
    if m > 0 {
      ShiftZero(m - 1);
    }
  }

  lemma SmearAll(a: nat, k: nat)
    requires TopSet(a, k, 1) && 0 < k <= 30
    ensures var b := OrW(a, SrlW(a, 1));
            var c := OrW(b, SrlW(b, 2));
            var d := OrW(c, SrlW(c, 4));
            var e := OrW(d, SrlW(d, 8));
            OrW(e, SrlW(e, 16)) == Pow2(k) - 1
  {
    hide OrW, SrlW, Pow2, TopSet;
    var b := OrW(a, SrlW(a, 1));
    Smear(a, k, 1);
    var c := SmearMore(b, k, 2);
    var d := SmearMore(c, k, 4);
    var e := SmearMore(d, k, 8);
    var g := SmearMore(e, k, 16);
    AllSet(g, k);
  }

  lemma AllSet(x: nat, k: nat)
    requires TopSet(x, k, k)
    ensures x == Pow2(k) - 1
  {
  }

  /** A further step; once all bits are set nothing changes. */
  lemma SmearMore(x: nat, k: nat, m: nat) returns (y: nat)
    requires 0 < k <= 30 && m > 0 && TopSet(x, k, if m <= k then m else k)
    ensures y == OrW(x, SrlW(x, m)) && TopSet(y, k, if 2 * m <= k then 2 * m else k)
  {
    y := OrW(x, SrlW(x, m));
    if m <= k {
      Smear(x, k, m);
    } else {
      ShiftBelow(x, k, m);
      PowerBelow(k, 32);
      OrWithZero(x, 32);
    }
  }

  // ---- tables ------------------------------------------------------------------------------------------

  /** The slot `d` steps after the home of `key`. */
  function Probe(cap: nat, key: Key, d: nat): nat
    requires cap > 0
  {
    (HashIndex(cap, key) + d) % cap
  }

  function Occupied(t: seq<Node>): (n: nat)
    ensures n <= |t|
  {
    if t == [] then 0 else Occupied(t[..|t| - 1]) + (if t[|t| - 1].occupied then 1 else 0)
  }

  lemma {:induction false} OccupiedUpdate(t: seq<Node>, i: nat, x: Node)
    requires i < |t| && x.occupied
    ensures Occupied(t[i := x]) == Occupied(t) + if t[i].occupied then 0 else 1
  {
    var init := t[..|t| - 1];
    if i < |init| {
      OccupiedUpdate(init, i, x);
      assert t[i := x][..|t| - 1] == init[i := x];
    } else {
      assert t[i := x][..|t| - 1] == init;
    }
  }

  /** A table that is not full has a free slot. */
  lemma {:induction false} FreeSlot(t: seq<Node>) returns (i: nat)
    requires Occupied(t) < |t|
    ensures i < |t| && !t[i].occupied
  {
    i := |t| - 1;
    if t[i].occupied {
      i := FreeSlot(t[..|t| - 1]);
    }
  }

  /** No key in two slots. */
  ghost predicate Unique(t: seq<Node>)
  {
    forall i, j :: 0 <= i < j < |t| && t[i].occupied && t[j].occupied ==> t[i].key != t[j].key
  }

  /** From its home to a key's slot no slot is free. */
  ghost predicate NoGaps(t: seq<Node>)
  {
    forall i: nat :: i < |t| && t[i].occupied ==> Reached(t, i)
  }

  ghost predicate Reached(t: seq<Node>, i: nat)
    requires i < |t|
  {
    exists d: nat :: d < |t| && Probe(|t|, t[i].key, d) == i && RunTo(t, t[i].key, d)
  }

  ghost predicate RunTo(t: seq<Node>, key: Key, d: nat)
    requires |t| > 0
  {
    forall c: nat :: c < d ==> t[Probe(|t|, key, c)].occupied
  }

  ghost predicate Table(t: seq<Node>)
  {
    Capacity(|t|) && Unique(t) && NoGaps(t)
  }

  /** The map a table stands for. */
  ghost function Contents(t: seq<Node>): (m: map<Key, int>)
    ensures forall k: Key :: k in m <==> exists i :: 0 <= i < |t| && t[i].occupied && t[i].key == k
  {
    if t == [] then map[]
    else
      var last, m := t[|t| - 1], Contents(t[..|t| - 1]);
      if last.occupied then m[last.key := last.val] else m
  }

  lemma {:induction false} ContentsAt(t: seq<Node>, i: nat)
    requires Unique(t) && i < |t| && t[i].occupied
    ensures t[i].key in Contents(t) && Contents(t)[t[i].key] == t[i].val
  {
    if i < |t| - 1 {
      var init := t[..|t| - 1];
      assert init[i] == t[i];
      ContentsAt(init, i);
    }
  }

  /** A new or updated slot adds or replaces one entry. */
  lemma ContentsUpdate(t: seq<Node>, i: nat, key: Key, val: int)
    requires Unique(t) && i < |t| && Unique(t[i := Node(key, val, true)]) && (t[i].occupied ==> t[i].key == key)
    ensures Contents(t[i := Node(key, val, true)]) == Contents(t)[key := val]
  {
    var t2 := t[i := Node(key, val, true)];
    var m, m2 := Contents(t), Contents(t2);
    ContentsAt(t2, i);
    assert t2[i].key == key;
    forall k: Key | k in m2 ensures k in m[key := val] && m2[k] == m[key := val][k] {
      var j :| 0 <= j < |t2| && t2[j].occupied && t2[j].key == k;
      ContentsAt(t2, j);
      if j != i {
        ContentsAt(t, j);
      }
    }
    forall k: Key | k in m[key := val] ensures k in m2 {
      if k != key {
        var j :| 0 <= j < |t| && t[j].occupied && t[j].key == k;
        assert t2[j] == t[j];
      }
    }
  }

  /** The search for `key` is at its `d`-th slot and has met neither it nor a free slot. */
  ghost predicate Searching(t: seq<Node>, key: Key, d: nat)
    requires |t| > 0
  {
    RunTo(t, key, d) && forall c: nat :: c < d ==> t[Probe(|t|, key, c)].key != key
  }

  /** A search that ends at a free slot, or has been everywhere, shows that the key is absent. */
  lemma SearchMisses(t: seq<Node>, key: Key, d: nat)
    requires Table(t) && |t| > 0 && Searching(t, key, d) && (d < |t| ==> !t[Probe(|t|, key, d)].occupied)
    ensures key !in Contents(t)
  {
    hide Probe, HashIndex, Capacity, Unique;
    forall i: nat | i < |t| && t[i].occupied ensures t[i].key != key {
      assert Reached(t, i);
      var e: nat :| e < |t| && Probe(|t|, t[i].key, e) == i && RunTo(t, t[i].key, e);
    }
  }

  /** A key put in the free slot where its search ended keeps the table in order. */
  lemma InsertKeeps(t: seq<Node>, key: Key, val: int, d: nat)
    requires Table(t) && d < |t| && Searching(t, key, d) && !t[Probe(|t|, key, d)].occupied
    ensures var i := Probe(|t|, key, d); var t2 := t[i := Node(key, val, true)];
            Table(t2) && Contents(t2) == Contents(t)[key := val] && key !in Contents(t)
            && Occupied(t2) == Occupied(t) + 1
  {
    hide HashIndex;
    var i := Probe(|t|, key, d);
    var t2 := t[i := Node(key, val, true)];
    SearchMisses(t, key, d);
    forall j: nat | j < |t2| && t2[j].occupied ensures Reached(t2, j) {
      if j == i {
        assert RunTo(t2, key, d);
      } else {
        assert Reached(t, j);
        var e: nat :| e < |t| && Probe(|t|, t[j].key, e) == j && RunTo(t, t[j].key, e);
        assert RunTo(t2, t2[j].key, e);
      }
    }
    assert Unique(t2) by {
      forall a, b | 0 <= a < b < |t2| && t2[a].occupied && t2[b].occupied ensures t2[a].key != t2[b].key {
        if a == i {
          assert t2[b] == t[b];
        } else if b == i {
          assert t2[a] == t[a];
        }
      }
    }
    ContentsUpdate(t, i, key, val);
    OccupiedUpdate(t, i, Node(key, val, true));
  }

  /** Replacing the value of a key. */
  lemma ReplaceKeeps(t: seq<Node>, i: nat, val: int)
    requires Table(t) && i < |t| && t[i].occupied
    ensures var t2 := t[i := t[i].(val := val)];
            Table(t2) && Contents(t2) == Contents(t)[t[i].key := val] && Occupied(t2) == Occupied(t)
  {
    hide HashIndex;
    var t2 := t[i := t[i].(val := val)];
    forall j: nat | j < |t2| && t2[j].occupied ensures Reached(t2, j) {
      assert Reached(t, j);
      var e: nat :| e < |t| && Probe(|t|, t[j].key, e) == j && RunTo(t, t[j].key, e);
      assert RunTo(t2, t2[j].key, e);
    }
    ContentsUpdate(t, i, t[i].key, val);
    OccupiedUpdate(t, i, t2[i]);
  }

  /** While there is a free slot a search does not come back to its start. */
  lemma SearchEnds(t: seq<Node>, key: Key, d: nat)
    requires Table(t) && |t| > 0 && RunTo(t, key, d) && Occupied(t) < |t|
    ensures d < |t|
  {
    if d >= |t| {
      var i := FreeSlot(t);
      HashInside(|t|, key);
      var c := ProbeReaches(|t|, key, i);
    }
  }

  /** Every slot is within one round of any home. */
  lemma ProbeReaches(cap: nat, key: Key, i: nat) returns (c: nat)
    requires i < cap && HashIndex(cap, key) < cap
    ensures c < cap && Probe(cap, key, c) == i
  {
    var h := HashIndex(cap, key);
    c := if i >= h then i - h else i + cap - h;
    if i >= h {
      Quotient(h + c, cap, 0, i);
    } else {
      Quotient(h + c, cap, 1, i);
    }
  }

  /** The next slot: `(index + 1) & (cap - 1)`. */
  lemma ProbeNext(cap: nat, key: Key, d: nat)
    requires Capacity(cap)
    ensures Probe(cap, key, d) < cap && AndW(Probe(cap, key, d) + 1, cap - 1) == Probe(cap, key, d + 1)
    ensures d + 1 < cap ==> Probe(cap, key, d + 1) != Probe(cap, key, 0)
    ensures d + 1 == cap ==> Probe(cap, key, d + 1) == Probe(cap, key, 0)
    ensures Probe(cap, key, 0) == HashIndex(cap, key)
  {
    hide HashIndex, AndW;
    CapacityFacts(cap);
    HashInside(cap, key);
    NextModulo(HashIndex(cap, key), d, cap);
    MaskIsRemainder(Probe(cap, key, d) + 1, cap);
  }

  lemma NextModulo(h: nat, d: nat, cap: nat)
    requires h < cap
    ensures 0 <= (h + d) % cap < cap && ((h + d) % cap + 1) % cap == (h + (d + 1)) % cap
    ensures d + 1 < cap ==> (h + (d + 1)) % cap != h % cap
    ensures d + 1 == cap ==> (h + (d + 1)) % cap == h % cap
    ensures (h + 0) % cap == h
  {
    var p, q := (h + d) % cap, (h + d) / cap;
    assert h + d == q * cap + p;
    assert (q + 1) * cap == q * cap + cap;
    if p + 1 == cap {
      Quotient(h + d + 1, cap, q + 1, 0);
      Quotient(p + 1, cap, 1, 0);
    } else {
      Quotient(h + d + 1, cap, q, p + 1);
      Quotient(p + 1, cap, 0, p + 1);
    }
    Quotient(h, cap, 0, h);
    if d + 1 < cap {
      if h + d + 1 < cap {
        Quotient(h + d + 1, cap, 0, h + d + 1);
      } else {
        Quotient(h + d + 1, cap, 1, h + d + 1 - cap);
      }
    } else if d + 1 == cap {
      Quotient(h + d + 1, cap, 1, h);
    }
  }

  // ---- the map -------------------------------------------------------------------------------------------

  datatype Outcome = Found(index: nat) | Free(index: nat) | Full

  class Hashmap {
    var size: nat
    var cap: nat
    var table: array<Node>

    /** `hashmap_create`, the allocation having succeeded */
    constructor (wanted: nat)
      requires 0 < wanted <= 0x4000_0000
      ensures Valid() && fresh(table) && Map() == map[] && size == 0 && cap == RoundUp(wanted)
    {
      RoundUpIsLeast(wanted);
      size := 0;
      cap := RoundUp(wanted);
      table := new Node[RoundUp(wanted)](_ => EMPTY);
      new;
      AllFree(table[..]);
    }

    ghost predicate Valid()
      reads this, table
    {
      table.Length == cap && Table(table[..]) && size == Occupied(table[..])
    }

    ghost function Map(): map<Key, int>
      reads this, table
    {
      Contents(table[..])
    }

    /** The probe loop of `hashmap_put` and `hashmap_get_node`: the slot of the key, or the free
        slot where the search ended, or, back at the start, neither. */
    method Search(key: Key) returns (r: Outcome, ghost d: nat)
      requires Valid()
      ensures r.Found? ==> r.index < table.Length && table[r.index].occupied && table[r.index].key == key
      ensures r.Free? ==>
        && d < table.Length && r.index == Probe(table.Length, key, d)
        && Searching(table[..], key, d) && r.index < table.Length
        && !table[r.index].occupied
      ensures r.Full? ==> Searching(table[..], key, cap) && key !in Map() && Occupied(table[..]) == cap
    {
      hide AndW, HashIndex, Probe;
      HashInside(cap, key);
      CapacityFacts(cap);
      ProbeNext(cap, key, 0);
      var index := HashIndex(cap, key);
      var start := index;
      d := 0;
      while table[index].occupied
        invariant 0 <= d < cap && index == Probe(cap, key, d) && index < cap && Searching(table[..], key, d)
        decreases cap - d
      {
        if table[index].key == key {
          return Found(index), d;
        }
        ProbeNext(cap, key, d);
        ProbeNext(cap, key, d + 1);
        index := AndW(index + 1, cap - 1);
        d := d + 1;
        if index == start {
          SearchMisses(table[..], key, d);
          if Occupied(table[..]) < cap {
            SearchEnds(table[..], key, d);
          }
          return Full, d;
        }
      }
      return Free(index), d;
    }

    /** `hashmap_get_node`: the slot of a key, if the map has it. */
    method GetNode(key: Key) returns (node: Option<nat>)
      requires Valid()
      ensures node.Some? <==> key in Map()
      ensures node.Some? ==> node.value < table.Length && table[node.value].key == key
      ensures node.Some? ==> Map()[key] == table[node.value].val
    {
      hide HashIndex, Probe;
      var r, d := Search(key);
      match r {
        case Found(index) =>
          ContentsAt(table[..], index);
          return Some(index);
        case Free(index) =>
          SearchMisses(table[..], key, d);
          return None;
        case Full => return None;
      }
    }

    /** `hashmap_get` */
    method Get(key: Key) returns (val: Option<int>)
      requires Valid()
      ensures val == if key in Map() then Some(Map()[key]) else None
    {
      var node := GetNode(key);
      match node {
        case None => return None;
        case Some(i) => return Some(table[i].val);
      }
    }

    /** `hashmap_contains` */
    method Contains(key: Key) returns (found: bool)
      requires Valid()
      ensures found <==> key in Map()
    {
      var node := GetNode(key);
      return node.Some?;
    }

    /** The probe loop of `hashmap_rehash`: a free slot for a key the table does not have; the
        "full" exit is not reached. */
    static method FindFree(t: array<Node>, key: Key) returns (index: nat, ghost d: nat)
      requires Table(t[..]) && Occupied(t[..]) < t.Length && key !in Contents(t[..])
      ensures d < t.Length && index == Probe(t.Length, key, d) && index < t.Length && Searching(t[..], key, d)
      ensures !t[index].occupied
    {
      hide AndW, HashIndex, Probe;
      HashInside(t.Length, key);
      CapacityFacts(t.Length);
      ProbeNext(t.Length, key, 0);
      index := HashIndex(t.Length, key);
      var start := index;
      d := 0;
      while t[index].occupied
        invariant 0 <= d < t.Length && index == Probe(t.Length, key, d) && index < t.Length && Searching(t[..], key, d)
        decreases t.Length - d
      {
        KeyElsewhere(t[..], key, index);
        ProbeNext(t.Length, key, d);
        ProbeNext(t.Length, key, d + 1);
        index := AndW(index + 1, t.Length - 1);
        d := d + 1;
        SearchEnds(t[..], key, d);
        assert index != start;
      }
    }

    /** `hashmap_rehash`: twice the capacity, the same map. `alloc` says whether memory was found. */
    method Rehash(alloc: bool)
      requires Valid() && cap < 0x4000_0000
      modifies this
      ensures Valid() && Map() == old(Map()) && size == old(size)
      ensures if alloc then cap == 2 * old(cap) && fresh(table) else cap == old(cap) && table == old(table)
    {
      if !alloc {
        return;
      }
      hide HashIndex, Capacity, Probe;
      CapacityFacts(cap);
      var oldCap, oldTable := cap, table;
      ghost var all := oldTable[..];
      var newTable := new Node[2 * oldCap](_ => EMPTY);
      AllFree(newTable[..]);
      var n := 0;
      for i := 0 to oldCap
        invariant oldTable[..] == all && fresh(newTable) && newTable.Length == 2 * oldCap
        invariant Table(newTable[..]) && n == Occupied(newTable[..]) == Occupied(all[..i])
        invariant Contents(newTable[..]) == Contents(all[..i])
      {
        assert all[..i + 1][..i] == all[..i];
        if oldTable[i].occupied {
          NewKey(all, i);
          var key := oldTable[i].key;
          var index, d := FindFree(newTable, key);
          InsertKeeps(newTable[..], key, oldTable[i].val, d);
          ghost var before := newTable[..];
          newTable[index] := Node(key, oldTable[i].val, true);
          assert newTable[..] == before[index := Node(key, oldTable[i].val, true)];
          n := n + 1;
        }
      }
      assert all[..oldCap] == all;
      cap, table, size := 2 * oldCap, newTable, n;
    }

    /** `hashmap_put`: false where the source stops with "Hashmap is full". */
    method Put(key: Key, val: int, alloc: bool) returns (ok: bool)
      requires Valid() && cap < 0x4000_0000
      modifies this, table
      ensures Valid() && Map() == if ok then old(Map())[key := val] else old(Map())
      ensures cap <= 2 * old(cap) && (table == old(table) || fresh(table))
      ensures !ok ==> !alloc && old(size) == old(cap) && key !in old(Map())
      ensures alloc && old(size) <= old(cap) / 2 ==> ok && size <= cap / 2
      ensures key in old(Map()) ==> size == old(size)
    {
      hide HashIndex, Probe, Contents, Occupied, Searching;
      if cap / 2 <= size {
        Rehash(alloc);
      }
      var r, d := Search(key);
      ghost var before := table[..];
      match r {
        case Found(index) =>
          ReplaceKeeps(before, index, val);
          ContentsAt(before, index);
          table[index] := table[index].(val := val);
          assert table[..] == before[index := before[index].(val := val)];
          return true;
        case Free(index) =>
          InsertKeeps(before, key, val, d);
          table[index] := Node(key, val, true);
          assert table[..] == before[index := Node(key, val, true)];
          size := size + 1;
          return true;
        case Full => return false;
      }
    }
  }

  lemma KeyElsewhere(t: seq<Node>, key: Key, i: nat)
    requires key !in Contents(t) && i < |t| && t[i].occupied
    ensures t[i].key != key
  {
  }

  /** A fresh table: every slot free. */
  lemma AllFree(t: seq<Node>)
    requires Capacity(|t|) && forall i :: 0 <= i < |t| ==> t[i] == EMPTY
    ensures Table(t) && Occupied(t) == 0 && Contents(t) == map[]
  {
    NoneOccupied(t);
    assert forall k: Key :: k !in Contents(t);
  }

  lemma {:induction false} NoneOccupied(t: seq<Node>)
    requires forall i :: 0 <= i < |t| ==> t[i] == EMPTY
    ensures Occupied(t) == 0
  {
    if t != [] {
      NoneOccupied(t[..|t| - 1]);
    }
  }

  /** The key of a slot is not among those of the slots before it. */
  lemma NewKey(t: seq<Node>, i: nat)
    requires Unique(t) && i < |t| && t[i].occupied
    ensures t[i].key !in Contents(t[..i]) && Unique(t[..i]) && Occupied(t[..i]) < |t|
    ensures Contents(t[..i + 1]) == Contents(t[..i])[t[i].key := t[i].val]
    ensures Occupied(t[..i + 1]) == Occupied(t[..i]) + 1
  {
    assert t[..i + 1][..i] == t[..i];
  }
}
