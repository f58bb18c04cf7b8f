/** Key and value pairs on the pages of libdbm (dbm.c): searching, adding, deleting and dividing a page. */
module DbmPairs {
  import opened Wrappers
  import opened Arithmetic
  import opened DbmPage

  datatype Pair = Pair(key: Datum, val: Datum)

  // ---------------------------------------------------------------- comparing

  function CmpFrom(d1: Datum, d2: Datum, i: nat): int
    requires i <= |d1| == |d2|
    decreases |d1| - i
  {
    if i == |d1| then 0 else if d1[i] != d2[i] then d1[i] - d2[i] else CmpFrom(d1, d2, i + 1)
  }

  function Cmp(d1: Datum, d2: Datum): int {
    if |d1| != |d2| then |d1| - |d2| else CmpFrom(d1, d2, 0)
  }

  /** The shorter datum is less, and of two as long the one with the lesser byte where they first differ. */
  ghost predicate Less(d1: Datum, d2: Datum) {
    |d1| < |d2| || (|d1| == |d2| && exists p :: DiffersAt(d1, d2, p) && d1[p] < d2[p])
  }

  ghost predicate DiffersAt(d1: Datum, d2: Datum, p: int) {
    0 <= p < |d1| == |d2| && d1[p] != d2[p] && forall k | 0 <= k < p :: d1[k] == d2[k]
  }

  lemma {:induction false} CmpFromSign(d1: Datum, d2: Datum, i: nat)
    requires i <= |d1| == |d2| && forall k | 0 <= k < i :: d1[k] == d2[k]
    ensures CmpFrom(d1, d2, i) < 0 <==> Less(d1, d2)
    ensures CmpFrom(d1, d2, i) > 0 <==> Less(d2, d1)
    decreases |d1| - i
  {
    if i < |d1| {
      if d1[i] == d2[i] {
        CmpFromSign(d1, d2, i + 1);
      } else {
        assert DiffersAt(d1, d2, i) && DiffersAt(d2, d1, i);
        assert forall p | DiffersAt(d1, d2, p) || DiffersAt(d2, d1, p) :: p == i;
      }
    }
  }

  /** The sign of the comparison. */
  lemma {:induction false} CmpSign(d1: Datum, d2: Datum)
    ensures Cmp(d1, d2) < 0 <==> Less(d1, d2)
    ensures Cmp(d1, d2) > 0 <==> Less(d2, d1)
  {
    if |d1| == |d2| {
      CmpFromSign(d1, d2, 0);
    }
  }

  method CmpDatum(d1: Datum, d2: Datum) returns (r: int)
    ensures r == Cmp(d1, d2) && (r < 0 <==> Less(d1, d2)) && (r > 0 <==> Less(d2, d1))
  {
    CmpSign(d1, d2);
    var n := |d1|;
    if n != |d2| {
      return n - |d2|;
    }
    var p := 0;
    while p < n
      invariant 0 <= p <= n && Cmp(d1, d2) == CmpFrom(d1, d2, p)
    {
      if d1[p] != d2[p] {
        return d1[p] - d2[p];
      }
      p := p + 1;
    }
    return 0;
  }

  lemma {:induction false} CmpFromEqual(d1: Datum, d2: Datum, i: nat)
    requires i <= |d1| == |d2|
    ensures CmpFrom(d1, d2, i) == 0 <==> forall k | i <= k < |d1| :: d1[k] == d2[k]
    decreases |d1| - i
  {
    if i < |d1| {
      CmpFromEqual(d1, d2, i + 1);
    }
  }

  /** Only equal data compare as equal. */
  lemma {:induction false} CmpEqual(d1: Datum, d2: Datum)
    ensures Cmp(d1, d2) == 0 <==> d1 == d2
  {
    if |d1| == |d2| {
      CmpFromEqual(d1, d2, 0);
    }
  }

  lemma {:induction false} CmpFromOrder(d1: Datum, d2: Datum, d3: Datum, i: nat)
    requires i <= |d1| == |d2| == |d3|
    ensures CmpFrom(d2, d1, i) == -CmpFrom(d1, d2, i)
    ensures CmpFrom(d1, d2, i) < 0 && CmpFrom(d2, d3, i) < 0 ==> CmpFrom(d1, d3, i) < 0
    decreases |d1| - i
  {
    if i < |d1| {
      CmpFromOrder(d1, d2, d3, i + 1);
    }
  }

  /** The comparison is a total order. */
  lemma {:induction false} CmpOrder(d1: Datum, d2: Datum, d3: Datum)
    ensures Cmp(d2, d1) == -Cmp(d1, d2)
    ensures Cmp(d1, d2) < 0 && Cmp(d2, d3) < 0 ==> Cmp(d1, d3) < 0
  {
    if |d1| == |d2| == |d3| {
      CmpFromOrder(d1, d2, d3, 0);
    } else if |d1| == |d2| {
      CmpFromOrder(d1, d2, d2, 0);
    }
  }

  // ---------------------------------------------------------------- items in pairs

  ghost function Flat(pairs: seq<Pair>): (items: seq<Datum>)
    ensures |items| == 2 * |pairs|
  {
    if |pairs| == 0 then [] else Flat(pairs[..|pairs| - 1]) + [pairs[|pairs| - 1].key, pairs[|pairs| - 1].val]
  }

  lemma {:induction false} FlatAt(pairs: seq<Pair>, j: nat)
    requires j < |pairs|
    ensures Flat(pairs)[2 * j] == pairs[j].key && Flat(pairs)[2 * j + 1] == pairs[j].val
  {
    if j < |pairs| - 1 {
      FlatAt(pairs[..|pairs| - 1], j);
    }
  }

  lemma {:induction false} FlatPut(pairs: seq<Pair>, p: Pair)
    ensures Flat(pairs + [p]) == Flat(pairs) + [p.key] + [p.val]
  {
    assert (pairs + [p])[..|pairs|] == pairs;
  }

  function DropPair(pairs: seq<Pair>, j: nat): (r: seq<Pair>)
    requires j < |pairs|
    ensures |r| == |pairs| - 1
    ensures forall k | 0 <= k < |r| :: r[k] == if k < j then pairs[k] else pairs[k + 1]
  {
    pairs[..j] + pairs[j + 1..]
  }

  lemma {:induction false} FlatDrop(pairs: seq<Pair>, j: nat)
    requires j < |pairs|
    ensures Without(Without(Flat(pairs), 2 * j), 2 * j) == Flat(DropPair(pairs, j))
  {
    var all, rest := Flat(pairs), DropPair(pairs, j);
    var one := Without(all, 2 * j);
    var two := Without(one, 2 * j);
    forall i | 0 <= i < |two| ensures two[i] == Flat(rest)[i] {
      assert Kept(one, 2 * j, two, i);
      var k := i / 2;
      FlatAt(rest, k);
      if i < 2 * j {
        assert Kept(all, 2 * j, one, i);
        FlatAt(pairs, k);
      } else {
        assert Kept(all, 2 * j, one, i + 1);
        FlatAt(pairs, k + 1);
      }
    }
  }

  /** The page holds exactly these pairs, in this order. */
  ghost predicate PairPage(buf: seq<int>, pairs: seq<Pair>) {
    Page(buf, Flat(pairs))
  }

  lemma {:induction false} EmptyPage(buf: seq<int>)
    requires |buf| == PBLKSIZ && forall p | 0 <= p < PBLKSIZ :: buf[p] == 0
    ensures PairPage(buf, [])
  {
  }

  // ---------------------------------------------------------------- room

  /** The bytes of the first n items. */
  ghost function Total(items: seq<Datum>, n: nat): (t: nat)
    requires n <= |items|
  {
    if n == 0 then 0 else Total(items, n - 1) + |items[n - 1]|
  }

  lemma {:induction false} EdgeTotal(buf: seq<int>, items: seq<Datum>, n: nat)
    requires Page(buf, items) && n <= |items|
    ensures Edge(buf, n) == PBLKSIZ - Total(items, n)
  {
    if n > 0 {
      EdgeTotal(buf, items, n - 1);
      assert IsItem(buf, n - 1, items[n - 1]);
    }
  }

  lemma {:induction false} TotalSame(items: seq<Datum>, items': seq<Datum>, n: nat)
    requires n <= |items| && n <= |items'| && forall k | 0 <= k < n :: items[k] == items'[k]
    ensures Total(items, n) == Total(items', n)
  {
    if n > 0 {
      TotalSame(items, items', n - 1);
    }
  }

  ghost function Bytes(pairs: seq<Pair>): (t: nat) {
    if |pairs| == 0 then 0
    else Bytes(pairs[..|pairs| - 1]) + |pairs[|pairs| - 1].key| + |pairs[|pairs| - 1].val|
  }

  lemma {:induction false} BytesTotal(pairs: seq<Pair>)
    ensures Bytes(pairs) == Total(Flat(pairs), 2 * |pairs|)
  {
    if |pairs| > 0 {
      var rest := pairs[..|pairs| - 1];
      BytesTotal(rest);
      TotalSame(Flat(rest), Flat(pairs), 2 * |rest|);
      FlatAt(pairs, |rest|);
    }
  }

  lemma {:induction false} BytesPut(pairs: seq<Pair>, p: Pair)
    ensures Bytes(pairs + [p]) == Bytes(pairs) + |p.key| + |p.val|
  {
    assert (pairs + [p])[..|pairs|] == pairs;
  }

  lemma {:induction false} BytesDrop(pairs: seq<Pair>, j: nat)
    requires j < |pairs|
    ensures Bytes(DropPair(pairs, j)) == Bytes(pairs) - |pairs[j].key| - |pairs[j].val|
  {
    var rest := pairs[..|pairs| - 1];
    if j == |pairs| - 1 {
      assert DropPair(pairs, j) == rest;
    } else {
      BytesDrop(rest, j);
      assert DropPair(pairs, j)[..|pairs| - 2] == DropPair(rest, j);
    }
  }

  /** What a page must leave free: a count, and an offset for each item. */
  ghost predicate Fits(bytes: nat, pairs: nat) {
    PBLKSIZ - bytes > 2 * (2 * pairs + 1)
  }

  lemma {:induction false} PageFits(buf: seq<int>, pairs: seq<Pair>)
    requires PairPage(buf, pairs)
    ensures Fits(Bytes(pairs), |pairs|) && Edge(buf, Count(buf)) == PBLKSIZ - Bytes(pairs)
  {
    EdgeTotal(buf, Flat(pairs), 2 * |pairs|);
    BytesTotal(pairs);
  }

  // ---------------------------------------------------------------- operations on a page

  /** i is the item number of the key, or -1 if it is not there. */
  ghost predicate Found(pairs: seq<Pair>, key: Datum, i: int) {
    if i == -1 then forall j | 0 <= j < |pairs| :: pairs[j].key != key
    else 0 <= i < 2 * |pairs| && i % 2 == 0 && pairs[i / 2].key == key
  }

  /** The loop of `fetch`, `delete` and `store`: the item number of the key, or -1. */
  method FindKey(buf: seq<int>, key: Datum, ghost pairs: seq<Pair>) returns (i: int)
    requires PairPage(buf, pairs)
    ensures Found(pairs, key, i)
  {
    i := 0;
    ghost var n: nat := 0;
    while true
      invariant i == 2 * n && n <= |pairs|
      invariant forall j | 0 <= j < n :: pairs[j].key != key
      decreases |pairs| - n
    {
      var item := MakDatum(buf, i, Flat(pairs));
      if item.None? {
        return -1;
      }
      FlatAt(pairs, n);
      CmpEqual(key, item.value);
      var c := CmpDatum(key, item.value);
      if c == 0 {
        return;
      }
      i := i + 2;
      n := n + 1;
    }
  }

  /** The item after a key is its value. */
  method ValueAt(buf: seq<int>, i: nat, ghost pairs: seq<Pair>) returns (item: Option<Datum>)
    requires PairPage(buf, pairs) && i % 2 == 0 && i < 2 * |pairs|
    ensures item == Some(pairs[i / 2].val)
  {
    FlatAt(pairs, i / 2);
    item := MakDatum(buf, i + 1, Flat(pairs));
  }

  method DelPair(buf0: seq<int>, i: nat, ghost pairs: seq<Pair>) returns (buf: seq<int>)
    requires PairPage(buf0, pairs) && i % 2 == 0 && i < 2 * |pairs|
    ensures PairPage(buf, DropPair(pairs, i / 2))
  {
    buf := DelItem(buf0, i, Flat(pairs));
    buf := DelItem(buf, i, Without(Flat(pairs), i));
    FlatDrop(pairs, i / 2);
  }

  /** Key and value added, or, when one of them does not fit, the pairs left as they were. */
  method AddPair(buf0: seq<int>, key: Datum, dat: Datum, ghost pairs: seq<Pair>) returns (buf: seq<int>, ok: bool)
    requires PairPage(buf0, pairs)
    ensures ok <==> Fits(Bytes(pairs) + |key| + |dat|, |pairs| + 1)
    ensures PairPage(buf, if ok then pairs + [Pair(key, dat)] else pairs)
  {
    PageFits(buf0, pairs);
    var i;
    buf, i := AddItem(buf0, key, Flat(pairs));
    if i < 0 {
      return buf, false;
    }
    buf, ok := AddValue(buf, key, dat, i, pairs);
    FlatPut(pairs, Pair(key, dat));
  }

  /** A page that ends in a key. */
  lemma {:induction false} AfterKey(buf: seq<int>, pairs: seq<Pair>, key: Datum)
    requires Page(buf, Flat(pairs) + [key])
    ensures Count(buf) == 2 * |pairs| + 1 && Edge(buf, Count(buf)) == PBLKSIZ - Bytes(pairs) - |key|
  {
    var items := Flat(pairs);
    var more := items + [key];
    EdgeTotal(buf, more, |more|);
    TotalSame(items, more, |items|);
    BytesTotal(pairs);
  }

  /** The value after its key; without room for it the key is taken off again. */
  method AddValue(buf0: seq<int>, key: Datum, dat: Datum, i: nat, ghost pairs: seq<Pair>)
    returns (buf: seq<int>, ok: bool)
    requires Page(buf0, Flat(pairs) + [key]) && i == |Flat(pairs)|
    ensures ok <==> Fits(Bytes(pairs) + |key| + |dat|, |pairs| + 1)
    ensures Page(buf, if ok then Flat(pairs) + [key] + [dat] else Flat(pairs))
  {
    ghost var items := Flat(pairs);
    ghost var more := items + [key];
    AfterKey(buf0, pairs, key);
    var r;
    buf, r := AddItem(buf0, dat, more);
    if r < 0 {
      buf := DelItem(buf, i, more);
      assert Without(more, i) == items;
    }
    ok := r >= 0;
  }

  // ---------------------------------------------------------------- dividing a page

  /** Bit d of h. */
  predicate BitSet(h: nat, bit: int)
    requires bit > 0
  {
    h / bit % 2 == 1
  }

  /** Those of the first n pairs whose hash has the bit as told, in order. */
  ghost function Side(pairs: seq<Pair>, n: nat, hash: Datum -> nat, bit: int, b: bool): (r: seq<Pair>)
    requires n <= |pairs| && bit > 0
  {
    if n == 0 then []
    else if BitSet(hash(pairs[n - 1].key), bit) == b then Side(pairs, n - 1, hash, bit, b) + [pairs[n - 1]]
    else Side(pairs, n - 1, hash, bit, b)
  }

  lemma {:induction false} RoomForKey(ovf: seq<int>, high: seq<Pair>, n: nat)
    requires PairPage(ovf, high) && Fits(Bytes(high) + n, |high| + 1)
    ensures HasRoom(ovf, n)
  {
    PageFits(ovf, high);
  }

  lemma {:induction false} RoomForValue(ovf: seq<int>, high: seq<Pair>, key: Datum, n: nat)
    requires Page(ovf, Flat(high) + [key]) && Fits(Bytes(high) + |key| + n, |high| + 1)
    ensures HasRoom(ovf, n)
  {
    AfterKey(ovf, high, key);
  }

  /** One pair moved from item i of the page to the end of the overflow page, item by item. */
  method MovePair(buf0: seq<int>, ovf0: seq<int>, i: nat, ghost j: nat, ghost pairs: seq<Pair>, ghost high: seq<Pair>)
    returns (buf: seq<int>, ovf: seq<int>)
    requires PairPage(buf0, pairs) && PairPage(ovf0, high) && i == 2 * j && j < |pairs|
    requires Fits(Bytes(pairs) + Bytes(high), |pairs| + |high|)
    ensures PairPage(buf, DropPair(pairs, j)) && PairPage(ovf, high + [pairs[j]])
  {
    ghost var p := pairs[j];
    BytesDrop(pairs, j);
    RoomForKey(ovf0, high, |p.key|);
    ovf, buf := MoveItem(buf0, ovf0, i, Flat(pairs), Flat(high), p.key) by {
      FlatAt(pairs, j);
    }
    ghost var rest := Without(Flat(pairs), i);
    assert rest[i] == p.val by {
      assert Kept(Flat(pairs), i, rest, i);
      FlatAt(pairs, j);
    }
    RoomForValue(ovf, high, p.key, |p.val|);
    ovf, buf := MoveItem(buf, ovf, i, rest, Flat(high) + [p.key], p.val);
    FlatDrop(pairs, j);
    FlatPut(high, p);
  }

  method MoveItem(buf0: seq<int>, ovf0: seq<int>, i: nat, ghost items: seq<Datum>, ghost high: seq<Datum>,
                  ghost d: Datum)
    returns (ovf: seq<int>, buf: seq<int>)
    requires Page(buf0, items) && Page(ovf0, high) && i < |items| && items[i] == d && HasRoom(ovf0, |d|)
    ensures Page(buf, Without(items, i)) && Page(ovf, high + [d])
  {
    var item := MakDatum(buf0, i, items);
    var r;
    ovf, r := AddItem(ovf0, item.value, high);
    buf := DelItem(buf0, i, items);
  }

  /** First the pairs that stay, then those from p on. */
  ghost predicate Pending(low: seq<Pair>, pairs: seq<Pair>, p: nat, cur: seq<Pair>, k: nat)
    requires p <= |pairs| && k < |cur| == |low| + |pairs| - p
  {
    cur[k] == if k < |low| then low[k] else pairs[k - |low| + p]
  }

  /** The first p pairs are divided; the page holds its share of them and all the others. */
  ghost predicate Dividing(pairs: seq<Pair>, p: nat, hash: Datum -> nat, bit: int,
                           low: seq<Pair>, high: seq<Pair>, cur: seq<Pair>)
  {
    && bit > 0 && p <= |pairs|
    && low == Side(pairs, p, hash, bit, false) && high == Side(pairs, p, hash, bit, true)
    && |cur| == |low| + |pairs| - p && (forall k | 0 <= k < |cur| :: Pending(low, pairs, p, cur, k))
    && Bytes(cur) + Bytes(high) == Bytes(pairs) && |cur| + |high| == |pairs|
  }

  lemma {:induction false} DivideKeep(pairs: seq<Pair>, p: nat, hash: Datum -> nat, bit: int,
                                      low: seq<Pair>, high: seq<Pair>, cur: seq<Pair>)
    requires Dividing(pairs, p, hash, bit, low, high, cur) && p < |pairs|
    requires !BitSet(hash(pairs[p].key), bit)
    ensures Dividing(pairs, p + 1, hash, bit, low + [pairs[p]], high, cur)
  {
    var more, q := low + [pairs[p]], p + 1;
    forall k | 0 <= k < |cur| ensures Pending(more, pairs, q, cur, k) {
      assert Pending(low, pairs, p, cur, k);
    }
  }

  lemma {:induction false} DivideMove(pairs: seq<Pair>, p: nat, hash: Datum -> nat, bit: int,
                                      low: seq<Pair>, high: seq<Pair>, cur: seq<Pair>)
    requires Dividing(pairs, p, hash, bit, low, high, cur) && p < |pairs|
    requires BitSet(hash(pairs[p].key), bit)
    ensures |low| < |cur| && cur[|low|] == pairs[p]
    ensures Dividing(pairs, p + 1, hash, bit, low, high + [pairs[p]], DropPair(cur, |low|))
  {
    var rest, q := DropPair(cur, |low|), p + 1;
    assert Pending(low, pairs, p, cur, |low|);
    forall k | 0 <= k < |rest| ensures Pending(low, pairs, q, rest, k) {
      assert Pending(low, pairs, p, cur, if k < |low| then k else k + 1);
    }
    BytesDrop(cur, |low|);
    BytesPut(high, pairs[p]);
  }

  lemma {:induction false} DivideStart(pairs: seq<Pair>, hash: Datum -> nat, bit: int)
    requires bit > 0
    ensures Dividing(pairs, 0, hash, bit, [], [], pairs)
  {
    forall k | 0 <= k < |pairs| ensures Pending([], pairs, 0, pairs, k) {
    }
  }

  /** `clrbuf`: a page of zeros holds nothing. */
  method ClrBuf() returns (buf: seq<int>)
    ensures PairPage(buf, []) && forall p | 0 <= p < PBLKSIZ :: buf[p] == 0
  {
    buf := seq(PBLKSIZ, _ => 0);
    EmptyPage(buf);
  }

  ghost predicate DivideState(buf: seq<int>, ovf: seq<int>, i: int, pairs: seq<Pair>, p: nat, hash: Datum -> nat,
                              bit: int, low: seq<Pair>, high: seq<Pair>, cur: seq<Pair>)
  {
    && Dividing(pairs, p, hash, bit, low, high, cur) && i == 2 * |low|
    && PairPage(buf, cur) && PairPage(ovf, high)
  }

  /** One round: the next pair moved, or passed over. */
  method DivideNext(buf0: seq<int>, ovf0: seq<int>, i0: nat, item: Datum, ghost pairs: seq<Pair>, ghost p: nat,
                    hash: Datum -> nat, bit: int, ghost low0: seq<Pair>, ghost high0: seq<Pair>, ghost cur0: seq<Pair>)
    returns (buf: seq<int>, ovf: seq<int>, i: nat, ghost low: seq<Pair>, ghost high: seq<Pair>, ghost cur: seq<Pair>)
    requires DivideState(buf0, ovf0, i0, pairs, p, hash, bit, low0, high0, cur0) && p < |pairs|
    requires item == pairs[p].key && Fits(Bytes(pairs), |pairs|)
    ensures DivideState(buf, ovf, i, pairs, p + 1, hash, bit, low, high, cur)
  {
    buf, ovf, i, low, high, cur := buf0, ovf0, i0, low0, high0, cur0;
    if BitSet(hash(item), bit) {
      DivideMove(pairs, p, hash, bit, low, high, cur);
      buf, ovf := MovePair(buf, ovf, i, |low|, cur, high);
      high, cur := high + [pairs[p]], DropPair(cur, |low|);
    } else {
      DivideKeep(pairs, p, hash, bit, low, high, cur);
      low := low + [pairs[p]];
      i := i + 2;
    }
  }

  lemma {:induction false} DivideItem(pairs: seq<Pair>, p: nat, hash: Datum -> nat, bit: int,
                                      low: seq<Pair>, high: seq<Pair>, cur: seq<Pair>)
    requires Dividing(pairs, p, hash, bit, low, high, cur)
    ensures 2 * |low| >= 2 * |cur| ==> p == |pairs| && cur == low
    ensures 2 * |low| < 2 * |cur| ==> p < |pairs| && Flat(cur)[2 * |low|] == pairs[p].key
  {
    if |low| < |cur| {
      assert Pending(low, pairs, p, cur, |low|);
      FlatAt(cur, |low|);
    } else {
      forall k | 0 <= k < |cur| ensures cur[k] == low[k] {
        assert Pending(low, pairs, p, cur, k);
      }
    }
  }

  /** The loop of the split in `store`: pairs whose hash has the next bit go to the overflow page. */
  method DividePage(buf0: seq<int>, hash: Datum -> nat, bit: int, ghost pairs: seq<Pair>)
    returns (buf: seq<int>, ovf: seq<int>)
    requires PairPage(buf0, pairs) && bit > 0
    ensures PairPage(buf, Side(pairs, |pairs|, hash, bit, false))
    ensures PairPage(ovf, Side(pairs, |pairs|, hash, bit, true))
  {
    buf := buf0;
    ovf := ClrBuf();
    PageFits(buf0, pairs);
    var i := 0;
    ghost var p, low, high, cur := 0, [], [], pairs;
    DivideStart(pairs, hash, bit);
    while true
      invariant 0 <= p <= |pairs| && DivideState(buf, ovf, i, pairs, p, hash, bit, low, high, cur)
      decreases |pairs| - p
    {
      var item := MakDatum(buf, i, Flat(cur));
      DivideItem(pairs, p, hash, bit, low, high, cur);
      if item.None? {
        return;
      }
      buf, ovf, i, low, high, cur := DivideNext(buf, ovf, i, item.value, pairs, p, hash, bit, low, high, cur);
      p := p + 1;
    }
  }
}
