/** Slotted pages of libdbm (dbm.c): a count and offsets growing up from the bottom of a 512-byte block,
    item bytes growing down from its top. */
module DbmPage {
  import opened Wrappers

  const PBLKSIZ: int := 512

  type Datum = seq<int>

  // ---------------------------------------------------------------- the bytes

  /** The short at index k of the block: low byte first. */
  function Short(buf: seq<int>, k: nat): int
    requires 2 * k + 1 < |buf|
  {
    buf[2 * k] + 256 * buf[2 * k + 1]
  }

  function PutShort(buf: seq<int>, k: nat, v: int): (r: seq<int>)
    requires 2 * k + 1 < |buf|
    ensures |r| == |buf| && Short(r, k) == v
    ensures forall p | 0 <= p < |buf| && p != 2 * k && p != 2 * k + 1 :: r[p] == buf[p]
  {
    buf[2 * k := v % 256][2 * k + 1 := v / 256]
  }

  lemma {:induction false} OtherShort(buf: seq<int>, k: nat, v: int, j: nat)
    requires 2 * k + 1 < |buf| && 2 * j + 1 < |buf| && j != k
    ensures Short(PutShort(buf, k, v), j) == Short(buf, j)
  {
  }

  // ---------------------------------------------------------------- items

  function Count(buf: seq<int>): int
    requires |buf| == PBLKSIZ
  {
    Short(buf, 0)
  }

  /** Where item i - 1 begins and item i ends. */
  function Edge(buf: seq<int>, i: nat): int
    requires |buf| == PBLKSIZ && 2 * i + 1 < PBLKSIZ
  {
    if i == 0 then PBLKSIZ else Short(buf, i)
  }

  ghost predicate Ordered(buf: seq<int>, i: nat)
    requires |buf| == PBLKSIZ && 2 * i + 3 < PBLKSIZ
  {
    Edge(buf, i + 1) <= Edge(buf, i)
  }

  /** Offsets in order, and the lowest item clear of the offsets. */
  ghost predicate ValidPage(buf: seq<int>) {
    && |buf| == PBLKSIZ && 0 <= Count(buf) < 255
    && 2 * (Count(buf) + 1) < Edge(buf, Count(buf))
    && forall i | 0 <= i < Count(buf) :: Ordered(buf, i)
  }

  lemma {:induction false} EdgeBetween(buf: seq<int>, i: nat, j: nat)
    requires ValidPage(buf) && i <= j <= Count(buf)
    ensures Edge(buf, j) <= Edge(buf, i) <= PBLKSIZ
    decreases j
  {
    if i < j {
      assert Ordered(buf, j - 1);
      EdgeBetween(buf, i, j - 1);
    } else if i > 0 {
      assert Ordered(buf, i - 1);
      EdgeBetween(buf, i - 1, i - 1);
    }
  }

  lemma {:induction false} EdgeRange(buf: seq<int>, i: nat)
    requires ValidPage(buf) && i < Count(buf)
    ensures 0 <= Edge(buf, i + 1) <= Edge(buf, i) <= PBLKSIZ
  {
    EdgeBetween(buf, i + 1, Count(buf));
    EdgeBetween(buf, i, i + 1);
  }

  function Item(buf: seq<int>, i: nat): Datum
    requires |buf| == PBLKSIZ && 2 * i + 3 < PBLKSIZ && 0 <= Edge(buf, i + 1) <= Edge(buf, i) <= PBLKSIZ
  {
    buf[Edge(buf, i + 1)..Edge(buf, i)]
  }

  ghost predicate IsItem(buf: seq<int>, i: nat, d: Datum)
    requires |buf| == PBLKSIZ
  {
    2 * i + 3 < PBLKSIZ && 0 <= Edge(buf, i + 1) <= Edge(buf, i) <= PBLKSIZ && Item(buf, i) == d
  }

  /** The page holds exactly these items, in this order. */
  ghost predicate Page(buf: seq<int>, items: seq<Datum>) {
    && ValidPage(buf) && |items| == Count(buf)
    && forall i | 0 <= i < |items| :: IsItem(buf, i, items[i])
  }

  method MakDatum(buf: seq<int>, n: int, ghost items: seq<Datum>) returns (item: Option<Datum>)
    requires Page(buf, items)
    ensures item == if 0 <= n < |items| then Some(items[n]) else None
  {
    if n < 0 || n >= Count(buf) {
      return None;
    }
    assert IsItem(buf, n, items[n]);
    var t := PBLKSIZ;
    if n > 0 {
      t := Short(buf, n);
    }
    return Some(buf[Short(buf, n + 1)..t]);
  }

  /** An item is its edges and the bytes between them. */
  lemma {:induction false} SameItem(buf: seq<int>, buf': seq<int>, i: nat, d: Datum)
    requires |buf| == |buf'| == PBLKSIZ && IsItem(buf, i, d)
    requires Edge(buf', i + 1) == Edge(buf, i + 1) && Edge(buf', i) == Edge(buf, i)
    requires forall p | Edge(buf, i + 1) <= p < Edge(buf, i) :: buf'[p] == buf[p]
    ensures IsItem(buf', i, d)
  {
  }

  // ---------------------------------------------------------------- adding

  /** Room for one more item of n bytes: the new lowest byte must lie above the grown list of offsets. */
  predicate HasRoom(buf: seq<int>, n: nat)
    requires |buf| == PBLKSIZ && 0 <= Count(buf) < 255
  {
    Edge(buf, Count(buf)) - n > 2 * (Count(buf) + 2)
  }

  /** The item's bytes copied to the block from i1 on. */
  method CopyIn(buf: seq<int>, i1: nat, item: Datum) returns (r: seq<int>)
    requires |buf| == PBLKSIZ && i1 + |item| <= PBLKSIZ
    ensures |r| == PBLKSIZ && r[i1..i1 + |item|] == item
    ensures forall p | 0 <= p < PBLKSIZ && !(i1 <= p < i1 + |item|) :: r[p] == buf[p]
  {
    r := buf;
    var i2 := 0;
    while i2 < |item|
      invariant 0 <= i2 <= |item| && |r| == PBLKSIZ
      invariant forall k | 0 <= k < i2 :: r[i1 + k] == item[k]
      invariant forall p | 0 <= p < PBLKSIZ && !(i1 <= p < i1 + i2) :: r[p] == buf[p]
    {
      r := r[i1 + i2 := item[i2]];
      i2 := i2 + 1;
    }
  }

  /** `additem`: the items are the old ones and the new one, or the page is full and unchanged. */
  method AddItem(buf0: seq<int>, item: Datum, ghost items: seq<Datum>) returns (buf: seq<int>, r: int)
    requires Page(buf0, items)
    ensures if HasRoom(buf0, |item|) then r == |items| && Page(buf, items + [item]) else r == -1 && buf == buf0
  {
    var n := Count(buf0);
    var i1 := PBLKSIZ;
    if n > 0 {
      i1 := Short(buf0, n);
    }
    i1 := i1 - |item|;
    var i2 := (n + 2) * 2;
    if i1 <= i2 {
      return buf0, -1;
    }
    EdgeBetween(buf0, 0, n);
    var buf1 := PutShort(buf0, n + 1, i1);
    var buf2 := CopyIn(buf1, i1, item);
    buf := PutShort(buf2, 0, n + 1);
    Added(buf0, buf, items, item, i1);
    return buf, n;
  }

  /** The offsets and items that are there stay where they are. */
  ghost predicate Beneath(buf0: seq<int>, buf: seq<int>, n: nat, i1: int, len: nat)
    requires |buf| == |buf0| == PBLKSIZ
  {
    forall p | 0 <= p < PBLKSIZ && (2 <= p < 2 * n + 2 || i1 + len <= p) :: buf[p] == buf0[p]
  }

  lemma {:induction false} AddedKept(buf0: seq<int>, buf: seq<int>, items: seq<Datum>, i1: int, len: nat, i: nat)
    requires Page(buf0, items) && |buf| == PBLKSIZ && Beneath(buf0, buf, |items|, i1, len) && i < |items|
    requires i1 + len == Edge(buf0, |items|)
    ensures Edge(buf, i) == Edge(buf0, i) && Edge(buf, i + 1) == Edge(buf0, i + 1)
    ensures Ordered(buf, i) && IsItem(buf, i, items[i])
  {
    assert Ordered(buf0, i) && IsItem(buf0, i, items[i]);
    EdgeBetween(buf0, i + 1, |items|);
    SameItem(buf0, buf, i, items[i]);
  }

  lemma {:induction false} Added(buf0: seq<int>, buf: seq<int>, items: seq<Datum>, item: Datum, i1: int)
    requires Page(buf0, items) && |buf| == PBLKSIZ && i1 == Edge(buf0, Count(buf0)) - |item| > 2 * (Count(buf0) + 2)
    requires Short(buf, 0) == |items| + 1 && Short(buf, |items| + 1) == i1
    requires i1 + |item| <= PBLKSIZ && buf[i1..i1 + |item|] == item && Beneath(buf0, buf, |items|, i1, |item|)
    ensures Page(buf, items + [item])
  {
    var n := |items|;
    forall i | 0 <= i < n ensures Ordered(buf, i) && IsItem(buf, i, items[i]) {
      AddedKept(buf0, buf, items, i1, |item|, i);
    }
    assert Edge(buf, n) == Edge(buf0, n);
    assert Ordered(buf, n) && IsItem(buf, n, item);
  }

  // ---------------------------------------------------------------- deleting

  /** The bytes from lo up to hi stand gap places higher. */
  ghost predicate Raised(buf: seq<int>, r: seq<int>, lo: int, hi: int, gap: int)
    requires |buf| == |r| == PBLKSIZ
  {
    forall p, q | lo <= p < hi && q == p + gap :: 0 <= p < PBLKSIZ && 0 <= q < PBLKSIZ && r[q] == buf[p]
  }

  /** The bytes from i3 up to i1 moved up to end at i2, zeros left behind: downwards, one at a time. */
  method MoveUp(buf: seq<int>, i1: nat, i2: nat, i3: nat) returns (r: seq<int>, gap: int)
    requires |buf| == PBLKSIZ && i3 <= i1 <= i2 <= PBLKSIZ
    ensures |r| == PBLKSIZ && gap == i2 - i1
    ensures (forall p | 0 <= p < i3 :: r[p] == buf[p]) && Unmoved(buf, r, i2)
    ensures Raised(buf, r, i3, i1, gap)
  {
    r := buf;
    var j1, j2 := i1, i2;
    if j2 > j1 {
      while j1 > i3
        invariant i3 <= j1 <= i1 && j2 - j1 == i2 - i1 && |r| == PBLKSIZ
        invariant forall p | 0 <= p < j1 || i2 <= p < PBLKSIZ :: r[p] == buf[p]
        invariant forall p, q | j1 <= p < i1 && q == p + (i2 - i1) :: r[q] == buf[p]
      {
        j1, j2 := j1 - 1, j2 - 1;
        r := r[j2 := r[j1]];
        r := r[j1 := 0];
      }
    }
    gap := j2 - j1;
  }

  /** The offsets above slot n moved down one slot, each raised by the gap. */
  method MoveOffsets(buf: seq<int>, n: nat, count: nat, gap: int) returns (r: seq<int>)
    requires |buf| == PBLKSIZ && n < count < 255
    ensures |r| == PBLKSIZ
    ensures forall j | 0 <= j <= n :: Short(r, j) == Short(buf, j)
    ensures forall j, j' | n < j < count && j' == j + 1 :: Short(r, j) == Short(buf, j') + gap
    ensures forall p | 2 * count <= p < PBLKSIZ :: r[p] == buf[p]
  {
    r := buf;
    var i1 := n + 1;
    while i1 < count
      invariant n < i1 <= count && |r| == PBLKSIZ
      invariant forall j | 0 <= j <= n || i1 <= j < 256 :: Short(r, j) == Short(buf, j)
      invariant forall j, j' | n < j < i1 && j' == j + 1 :: Short(r, j) == Short(buf, j') + gap
      invariant forall p | 2 * count <= p < PBLKSIZ :: r[p] == buf[p]
    {
      ghost var was := r;
      r := PutShort(r, i1, Short(r, i1 + 1) + gap);
      forall j: nat | j < 256 && j != i1 ensures Short(r, j) == Short(was, j) {
        OtherShort(was, i1, Short(was, i1 + 1) + gap, j);
      }
      i1 := i1 + 1;
    }
  }

  ghost predicate Kept(items: seq<Datum>, n: nat, rest: seq<Datum>, i: nat)
    requires i < |rest| == |items| - 1
  {
    rest[i] == if i < n then items[i] else items[i + 1]
  }

  function Without(items: seq<Datum>, n: nat): (r: seq<Datum>)
    requires n < |items|
    ensures |r| == |items| - 1 && forall i | 0 <= i < |r| :: Kept(items, n, r, i)
  {
    items[..n] + items[n + 1..]
  }

  /** `delitem`: item n goes, the others keep their order. */
  method DelItem(buf0: seq<int>, n: nat, ghost items: seq<Datum>) returns (buf: seq<int>)
    requires Page(buf0, items) && n < |items|
    ensures Page(buf, Without(items, n))
  {
    var gap;
    buf, gap := CloseGap(buf0, n);
    Deleted(buf0, buf, n, items, Without(items, n), gap);
  }

  method CloseGap(buf0: seq<int>, n: nat) returns (buf: seq<int>, gap: int)
    requires ValidPage(buf0) && n < Count(buf0)
    ensures |buf| == PBLKSIZ && Count(buf) == Count(buf0) - 1 && gap == Edge(buf0, n) - Edge(buf0, n + 1)
    ensures AllMoved(buf0, buf, n, gap, Count(buf0)) && Unmoved(buf0, buf, Edge(buf0, n))
    ensures Raised(buf0, buf, Edge(buf0, Count(buf0)), Edge(buf0, n + 1), gap)
  {
    var count := Count(buf0);
    EdgeRange(buf0, n);
    EdgeBetween(buf0, n + 1, count);
    var i1 := Short(buf0, n + 1);
    var i2 := PBLKSIZ;
    if n > 0 {
      i2 := Short(buf0, n);
    }
    var i3 := Short(buf0, count);
    var buf1;
    buf1, gap := MoveUp(buf0, i1, i2, i3);
    forall j: nat | j <= count ensures Short(buf1, j) == Short(buf0, j) {
    }
    var buf2 := MoveOffsets(buf1, n, count, gap);
    buf := DropSlot(buf2, count);
    MovedEdges(buf0, buf1, buf2, buf, n, count, gap);
  }

  lemma {:induction false} MovedEdges(buf0: seq<int>, buf1: seq<int>, buf2: seq<int>, buf: seq<int>, n: nat, count: nat,
                                      gap: int)
    requires |buf0| == |buf1| == |buf2| == |buf| == PBLKSIZ && n < count < 255
    requires forall j | 0 <= j <= count :: Short(buf1, j) == Short(buf0, j)
    requires forall j | 0 <= j <= n :: Short(buf2, j) == Short(buf1, j)
    requires forall j, j' | n < j < count && j' == j + 1 :: Short(buf2, j) == Short(buf1, j') + gap
    requires forall j | 0 < j < count :: Short(buf, j) == Short(buf2, j)
    ensures AllMoved(buf0, buf, n, gap, count)
  {
    forall i | 0 <= i < count ensures EdgeMoved(buf0, buf, n, gap, i) {
      if i > n {
        var i' := i + 1;
        assert Short(buf2, i) == Short(buf1, i') + gap;
      }
    }
  }

  /** One item less, and its old slot cleared. */
  method DropSlot(buf0: seq<int>, count: nat) returns (buf: seq<int>)
    requires |buf0| == PBLKSIZ && 0 < count < 255
    ensures |buf| == PBLKSIZ && Count(buf) == count - 1
    ensures forall j | 0 < j < count :: Short(buf, j) == Short(buf0, j)
    ensures forall p | 2 * count + 2 <= p < PBLKSIZ :: buf[p] == buf0[p]
  {
    var buf1 := PutShort(buf0, 0, count - 1);
    buf := PutShort(buf1, count, 0);
    forall j: nat | 0 < j < count ensures Short(buf, j) == Short(buf0, j) {
      OtherShort(buf0, 0, count - 1, j);
      OtherShort(buf1, count, 0, j);
    }
    OtherShort(buf1, count, 0, 0);
  }

  /** What a deletion does to the offsets: those past slot n move down a slot and up by the gap. */
  ghost predicate EdgeMoved(buf0: seq<int>, buf: seq<int>, n: nat, gap: int, i: nat)
    requires |buf0| == |buf| == PBLKSIZ && 2 * i + 3 < PBLKSIZ
  {
    Edge(buf, i) == if i <= n then Edge(buf0, i) else Edge(buf0, i + 1) + gap
  }

  ghost predicate AllMoved(buf0: seq<int>, buf: seq<int>, n: nat, gap: int, count: nat)
    requires |buf0| == |buf| == PBLKSIZ && count < 255
  {
    forall i | 0 <= i < count :: EdgeMoved(buf0, buf, n, gap, i)
  }

  /** The bytes from lo up are as they were. */
  ghost predicate Unmoved(buf0: seq<int>, buf: seq<int>, lo: int)
    requires |buf0| == |buf| == PBLKSIZ
  {
    forall p | lo <= p < PBLKSIZ :: 0 <= p && buf[p] == buf0[p]
  }

  lemma {:induction false} Deleted(buf0: seq<int>, buf: seq<int>, n: nat, items: seq<Datum>, rest: seq<Datum>, gap: int)
    requires Page(buf0, items) && n < |items| && |buf| == PBLKSIZ && Count(buf) == |items| - 1
    requires gap == Edge(buf0, n) - Edge(buf0, n + 1)
    requires AllMoved(buf0, buf, n, gap, |items|)
    requires Unmoved(buf0, buf, Edge(buf0, n))
    requires Raised(buf0, buf, Edge(buf0, |items|), Edge(buf0, n + 1), gap)
    requires |rest| == |items| - 1 && forall i | 0 <= i < |rest| :: Kept(items, n, rest, i)
    ensures Page(buf, rest)
  {
    DeletedTop(buf0, buf, n, gap);
    forall i | 0 <= i < |rest| ensures Ordered(buf, i) && IsItem(buf, i, rest[i]) {
      DeletedItem(buf0, buf, n, items, gap, i);
      assert Kept(items, n, rest, i);
    }
  }

  lemma {:induction false} DeletedTop(buf0: seq<int>, buf: seq<int>, n: nat, gap: int)
    requires ValidPage(buf0) && n < Count(buf0) && |buf| == PBLKSIZ
    requires gap == Edge(buf0, n) - Edge(buf0, n + 1)
    requires EdgeMoved(buf0, buf, n, gap, Count(buf0) - 1)
    ensures Edge(buf, Count(buf0) - 1) >= Edge(buf0, Count(buf0)) && gap >= 0
  {
    EdgeRange(buf0, n);
    EdgeBetween(buf0, n, Count(buf0) - 1);
    EdgeBetween(buf0, Count(buf0) - 1, Count(buf0));
  }

  lemma {:induction false} DeletedItem(buf0: seq<int>, buf: seq<int>, n: nat, items: seq<Datum>, gap: int, i: nat)
    requires Page(buf0, items) && n < |items| && i < |items| - 1 && |buf| == PBLKSIZ
    requires gap == Edge(buf0, n) - Edge(buf0, n + 1) >= 0
    requires AllMoved(buf0, buf, n, gap, |items|)
    requires Unmoved(buf0, buf, Edge(buf0, n))
    requires Raised(buf0, buf, Edge(buf0, |items|), Edge(buf0, n + 1), gap)
    ensures Ordered(buf, i) && IsItem(buf, i, if i < n then items[i] else items[i + 1])
  {
    assert EdgeMoved(buf0, buf, n, gap, i);
    assert EdgeMoved(buf0, buf, n, gap, i + 1);
    if i < n {
      KeptItem(buf0, buf, n, items, i);
    } else {
      ShiftedItem(buf0, buf, n, items, gap, i);
    }
  }

  lemma {:induction false} KeptItem(buf0: seq<int>, buf: seq<int>, n: nat, items: seq<Datum>, i: nat)
    requires Page(buf0, items) && i < n < |items| && |buf| == PBLKSIZ
    requires Edge(buf, i) == Edge(buf0, i) && Edge(buf, i + 1) == Edge(buf0, i + 1)
    requires Unmoved(buf0, buf, Edge(buf0, n))
    ensures Ordered(buf, i) && IsItem(buf, i, items[i])
  {
    EdgeRange(buf0, i);
    EdgeBetween(buf0, i + 1, n);
    assert IsItem(buf0, i, items[i]);
    SameItem(buf0, buf, i, items[i]);
  }

  lemma {:induction false} ShiftedItem(buf0: seq<int>, buf: seq<int>, n: nat, items: seq<Datum>, gap: int, i: nat)
    requires Page(buf0, items) && n <= i < |items| - 1 && |buf| == PBLKSIZ
    requires gap == Edge(buf0, n) - Edge(buf0, n + 1) >= 0
    requires Edge(buf, i + 1) == Edge(buf0, i + 2) + gap && Edge(buf, i) == Edge(buf0, i + 1) + gap
    requires Raised(buf0, buf, Edge(buf0, |items|), Edge(buf0, n + 1), gap)
    ensures Ordered(buf, i) && IsItem(buf, i, items[i + 1])
  {
    var k := i + 1;
    EdgesInOrder(buf0, n, k, |items|);
    assert IsItem(buf0, k, items[k]);
    ShiftedSlice(buf0, buf, Edge(buf0, |items|), Edge(buf0, n + 1), gap, i, k, items[k]);
  }

  lemma {:induction false} EdgesInOrder(buf: seq<int>, n: nat, k: nat, count: nat)
    requires ValidPage(buf) && n < k < count == Count(buf)
    ensures 0 <= Edge(buf, count) <= Edge(buf, k + 1) <= Edge(buf, k) <= Edge(buf, n + 1) <= Edge(buf, n) <= PBLKSIZ
  {
    EdgeRange(buf, k);
    EdgeBetween(buf, k + 1, count);
    EdgeBetween(buf, n + 1, k);
    EdgeBetween(buf, n, n + 1);
  }

  lemma {:induction false} ShiftedSlice(buf0: seq<int>, buf: seq<int>, low: int, high: int, gap: int, i: nat, k: nat,
                                        d: Datum)
    requires |buf| == |buf0| == PBLKSIZ && Raised(buf0, buf, low, high, gap) && k == i + 1 && IsItem(buf0, k, d)
    requires 0 <= gap && 0 <= low <= Edge(buf0, k + 1) && Edge(buf0, k) <= high && high + gap <= PBLKSIZ
    requires Edge(buf, k) == Edge(buf0, k + 1) + gap && Edge(buf, i) == Edge(buf0, k) + gap
    ensures Ordered(buf, i) && IsItem(buf, i, d)
  {
    RaisedSlice(buf0, buf, low, high, gap, Edge(buf0, k + 1), Edge(buf0, k));
  }

  lemma {:induction false} RaisedSlice(buf0: seq<int>, buf: seq<int>, low: int, high: int, gap: int, lo: int, hi: int)
    requires |buf| == |buf0| == PBLKSIZ && Raised(buf0, buf, low, high, gap)
    requires 0 <= gap && 0 <= low <= lo <= hi <= high && high + gap <= PBLKSIZ
    ensures buf[lo + gap..hi + gap] == buf0[lo..hi]
  {
    var d, e := buf[lo + gap..hi + gap], buf0[lo..hi];
    forall j | 0 <= j < hi - lo ensures d[j] == e[j] {
      var p, q := lo + j, lo + j + gap;
      assert buf[q] == buf0[p];
    }
  }
}
