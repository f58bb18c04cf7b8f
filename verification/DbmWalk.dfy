/** `firstkey` and `nextkey` of libdbm (dbm.c): pages in the order of the bit-reversed hash,
    keys in descending order within a page. */
module DbmWalk {
  import opened Wrappers
  import opened Arithmetic
  import opened DbmPage
  import opened DbmPairs
  import opened DbmTrie
  import opened Dbm

  // ---------------------------------------------------------------- reversed bits

  /** The low d bits of h read backwards: bit 0 weighs most. */
  ghost function Rev(h: nat, d: nat): (r: nat)
    ensures r < Two(d)
  {
    if d == 0 then 0 else 2 * Rev(h, d - 1) + (if BitSet(h, Two(d - 1)) then 1 else 0)
  }

  lemma {:induction false} RevSame(h: nat, g: nat, d: nat)
    ensures h % Two(d) == g % Two(d) <==> Rev(h, d) == Rev(g, d)
  {
    if d == 0 {
      LowBits(h, 0);
      LowBits(g, 0);
    } else {
      RevSame(h, g, d - 1);
      LowBits(h, d - 1);
      LowBits(g, d - 1);
    }
  }

  /** The first d bits decide which interval of the longer reversals h falls in. */
  lemma {:induction false} RevPrefix(h: nat, d: nat, w: nat)
    requires d <= w
    ensures Rev(h, d) * Two(w - d) <= Rev(h, w) < (Rev(h, d) + 1) * Two(w - d)
    decreases w
  {
    if d < w {
      RevPrefix(h, d, w - 1);
      assert w - d == w - 1 - d + 1;
      Doubled(Rev(h, d), Two(w - 1 - d));
    }
  }

  lemma {:induction false} Doubled(x: int, t: int)
    ensures x * (2 * t) == 2 * (x * t) && (x + 1) * (2 * t) == 2 * ((x + 1) * t)
  {
  }

  /** A number below 2 to the d has no bits from d on. */
  lemma {:induction false} RevSmall(h: nat, d: nat, w: nat)
    requires d <= w && h < Two(d)
    ensures Rev(h, w) == Rev(h, d) * Two(w - d)
    decreases w
  {
    if d < w {
      RevSmall(h, d, w - 1);
      TwoMonotone(d, w - 1);
      QuotientIs(h, Two(w - 1), 0, h);
      assert w - d == w - 1 - d + 1;
      Doubled(Rev(h, d), Two(w - 1 - d));
    }
  }

  /** The intervals of the same prefix length are disjoint. */
  lemma {:induction false} InInterval(h: nat, g: nat, d: nat, w: nat)
    requires d <= w
    ensures h % Two(d) == g % Two(d) <==> Rev(h, d) * Two(w - d) <= Rev(g, w) < (Rev(h, d) + 1) * Two(w - d)
  {
    RevPrefix(g, d, w);
    RevSame(h, g, d);
    Interval(Rev(h, d), Rev(g, d), Two(w - d), Rev(g, w));
  }

  lemma {:induction false} Interval(x: int, y: int, t: int, v: int)
    requires t > 0 && y * t <= v < (y + 1) * t
    ensures x == y <==> x * t <= v < (x + 1) * t
  {
    assert x < y ==> (x + 1) * t <= y * t;
    assert y < x ==> (y + 1) * t <= x * t;
  }

  // ---------------------------------------------------------------- hashinc

  /** r comes right after hash in reversed order, and its last one stands where the two first differ. */
  ghost predicate Incremented(hash: nat, d: nat, r: nat) {
    && Rev(r, d) == Rev(hash, d) + 1
    && exists b: nat :: b < d && r < Two(b + 1) && r % Two(b) == hash % Two(b)
  }

  /** `hashinc`: one added to the reversed low bits; 0 when they were all ones. */
  method HashInc(hash: nat, hmask: int, ghost d: nat) returns (r: nat)
    requires hmask == Two(d) - 1
    ensures if r == 0 then Rev(hash, d) == Two(d) - 1 else Incremented(hash, d, r)
  {
    var h: int := hash % (hmask + 1);
    LowBits(hash, d);
    RevMod(hash, d);
    var bit := hmask + 1;
    ghost var j: nat := d;
    while true
      invariant bit == Two(j) && 0 <= h && Stripped(hash, d, h, j)
      decreases j
    {
      bit := HalfTwo(bit, j);
      if bit == 0 {
        return 0;
      }
      if !BitSet(h, bit) {
        SetTop(hash, d, h, j);
        return h + bit;
      }
      ClearTop(hash, d, h, j);
      h := h - bit;
      j := j - 1;
    }
  }

  method HalfTwo(bit: int, ghost j: nat) returns (r: int)
    requires bit == Two(j)
    ensures r == if j == 0 then 0 else Two(j - 1)
  {
    r := bit / 2;
  }

  lemma {:induction false} RevMod(h: nat, d: nat)
    ensures h % Two(d) >= 0 && Rev(h % Two(d), d) == Rev(h, d)
  {
    LowBits(h, d);
    QuotientIs(h % Two(d), Two(d), 0, h % Two(d));
    RevSame(h % Two(d), h, d);
  }

  /** The bits from j on were ones and are gone. */
  ghost predicate Stripped(hash: nat, d: nat, h: int, j: nat) {
    && 0 <= h == hash % Two(j) && h < Two(j) && j <= d
    && Rev(hash, d) + 1 == (Rev(h, j) + 1) * Two(d - j)
  }

  lemma {:induction false} TopBit(h: nat, j: nat)
    requires 1 <= j && h < Two(j)
    ensures h == h % Two(j - 1) + (if BitSet(h, Two(j - 1)) then Two(j - 1) else 0)
    ensures 0 <= h % Two(j - 1) < Two(j - 1)
    ensures Rev(h, j) == 2 * Rev(h % Two(j - 1), j - 1) + (if BitSet(h, Two(j - 1)) then 1 else 0)
  {
    LowBits(h, j - 1);
    QuotientIs(h, Two(j), 0, h);
    RevMod(h, j - 1);
  }

  lemma {:induction false} SetTop(hash: nat, d: nat, h: nat, j: nat)
    requires Stripped(hash, d, h, j) && 1 <= j && !BitSet(h, Two(j - 1))
    ensures Incremented(hash, d, h + Two(j - 1))
  {
    var t := Two(j - 1);
    var r := h + t;
    TopBit(h, j);
    QuotientIs(r, t, 1, h);
    QuotientIs(h, t, 0, h);
    TopBit(r, j);
    ModMod(hash, j - 1, j);
    TwoMonotone(j, d);
    RevSmall(r, j, d);
  }

  lemma {:induction false} ClearTop(hash: nat, d: nat, h: nat, j: nat)
    requires Stripped(hash, d, h, j) && 1 <= j && BitSet(h, Two(j - 1))
    ensures Stripped(hash, d, h - Two(j - 1), j - 1)
  {
    var h', i := h - Two(j - 1), j - 1;
    TopBit(h, j);
    ModMod(hash, i, j);
    assert h' == hash % Two(i);
    assert d - i == d - j + 1;
    Carried(Rev(hash, d), Rev(h, j), Rev(h', i), Two(d - j));
  }

  lemma {:induction false} Carried(s: int, r: int, r': int, t: int)
    requires s + 1 == (r + 1) * t && r == 2 * r' + 1
    ensures s + 1 == (r' + 1) * (2 * t)
  {
    assert (r' + 1) * (2 * t) == (2 * r' + 2) * t;
  }

  // ---------------------------------------------------------------- the order of the walk

  /** Every set bit is below w, so no leaf is deeper than w. */
  ghost predicate Bounded(bits: set<nat>, w: nat) {
    forall n | n in bits :: n < w
  }

  lemma {:induction false} LeafBound(bits: set<nat>, w: nat, h: nat, d: nat)
    requires Bounded(bits, w) && IsLeaf(bits, h, d)
    ensures d <= w
  {
    if d > 0 {
      assert Inner(bits, h, d - 1);
      TwoMonotone(d - 1, d - 1);
    }
  }

  lemma {:induction false} LeafExists(bits: set<nat>, w: nat, h: nat, d: nat)
    requires Bounded(bits, w) && d <= w && forall e: nat | e < d :: Inner(bits, h, e)
    ensures exists c: nat :: IsLeaf(bits, h, c)
    decreases w - d
  {
    if Inner(bits, h, d) {
      TwoMonotone(d, d);
      LeafExists(bits, w, h, d + 1);
    } else {
      assert IsLeaf(bits, h, d);
    }
  }

  /** The depth of the leaf of h. */
  ghost function Depth(bits: set<nat>, h: nat): nat {
    if d: nat :| IsLeaf(bits, h, d) then d else 0
  }

  lemma {:induction false} DepthIs(bits: set<nat>, w: nat, h: nat, d: nat)
    requires Bounded(bits, w) && IsLeaf(bits, h, d)
    ensures Depth(bits, h) == d <= w
  {
    LeafBound(bits, w, h, d);
    LeafUnique(bits, h, d, Depth(bits, h));
  }

  lemma {:induction false} DepthLeaf(bits: set<nat>, w: nat, h: nat)
    requires Bounded(bits, w)
    ensures IsLeaf(bits, h, Depth(bits, h)) && Depth(bits, h) <= w
  {
    LeafExists(bits, w, h, 0);
    LeafBound(bits, w, h, Depth(bits, h));
  }

  /** Where the leaf of h begins among the reversed hashes of w bits. */
  ghost function Start(bits: set<nat>, h: nat, w: nat): int {
    var d := Depth(bits, h);
    if d <= w then Rev(h, d) * Two(w - d) else 0
  }

  ghost function End(bits: set<nat>, h: nat, w: nat): int {
    var d := Depth(bits, h);
    if d <= w then (Rev(h, d) + 1) * Two(w - d) else 0
  }

  /** Two hashes are on one leaf, or their leaves come one after the other. */
  lemma {:induction false} LeafOrder(bits: set<nat>, w: nat, h: nat, g: nat)
    requires Bounded(bits, w)
    ensures Start(bits, h, w) <= Rev(h, w) < End(bits, h, w)
    ensures h % Two(Depth(bits, h)) == g % Two(Depth(bits, h)) ==> Start(bits, g, w) == Start(bits, h, w)
    ensures h % Two(Depth(bits, h)) != g % Two(Depth(bits, h)) && Rev(h, w) <= Rev(g, w)
            ==> End(bits, h, w) <= Rev(g, w) && Rev(h, w) < Start(bits, g, w)
  {
    DepthLeaf(bits, w, h);
    DepthLeaf(bits, w, g);
    var d, e := Depth(bits, h), Depth(bits, g);
    RevPrefix(h, d, w);
    RevPrefix(g, e, w);
    InInterval(h, g, d, w);
    InInterval(g, h, e, w);
    if h % Two(d) == g % Two(d) {
      SameLeaf(bits, h, g, d);
      DepthIs(bits, w, g, d);
      RevSame(h, g, d);
    } else if g % Two(e) == h % Two(e) {
      SameLeaf(bits, g, h, e);
      DepthIs(bits, w, h, e);
    }
  }

  lemma {:induction false} SameStart(bits: set<nat>, w: nat, h: nat, g: nat)
    requires Bounded(bits, w)
    ensures h % Two(Depth(bits, h)) == g % Two(Depth(bits, h)) <==> Start(bits, g, w) == Start(bits, h, w)
    ensures Start(bits, h, w) < Start(bits, g, w) ==> End(bits, h, w) <= Rev(g, w)
  {
    LeafOrder(bits, w, h, g);
    LeafOrder(bits, w, g, h);
    var d, e := Depth(bits, h), Depth(bits, g);
    DepthLeaf(bits, w, h);
    DepthLeaf(bits, w, g);
    if h % Two(d) != g % Two(d) && g % Two(e) == h % Two(e) {
      SameLeaf(bits, g, h, e);
      DepthIs(bits, w, h, e);
    }
  }

  /** h is the first hash of its leaf. */
  ghost predicate Boundary(bits: set<nat>, w: nat, h: nat) {
    Start(bits, h, w) == Rev(h, w)
  }

  /** Below an inner node shared with h there is a deeper leaf. */
  lemma {:induction false} SiblingDeeper(bits: set<nat>, w: nat, h: nat, d: nat, b: nat, r: nat)
    requires Bounded(bits, w) && IsLeaf(bits, h, d) && b < d && r % Two(b) == h % Two(b)
    ensures b < Depth(bits, r) <= w && IsLeaf(bits, r, Depth(bits, r))
  {
    DepthLeaf(bits, w, r);
    var e := Depth(bits, r);
    SameNode(h, r, b, b);
    assert Inner(bits, h, b);
    if e < b {
      assert Inner(bits, h, e);
      SameNode(h, r, b, e);
    }
  }

  /** `hashinc` goes from any hash of a leaf to the first hash of the next leaf. */
  lemma {:induction false} NextLeaf(bits: set<nat>, w: nat, h: nat, d: nat, r: nat)
    requires Bounded(bits, w) && IsLeaf(bits, h, d) && Incremented(h, d, r)
    ensures Boundary(bits, w, r) && Rev(r, w) == End(bits, h, w)
  {
    DepthIs(bits, w, h, d);
    var b: nat :| b < d && r < Two(b + 1) && r % Two(b) == h % Two(b);
    SiblingDeeper(bits, w, h, d, b, r);
    var e := Depth(bits, r);
    TwoMonotone(b + 1, e);
    TwoMonotone(b + 1, d);
    RevSmall(r, e, w);
    RevSmall(r, d, w);
  }

  // ---------------------------------------------------------------- within a page

  lemma {:induction false} CmpAbove(a: Datum, b: Datum, c: Datum)
    requires Cmp(b, a) >= 0 && Cmp(b, c) < 0
    ensures Cmp(c, a) >= 0
  {
    CmpOrder(a, b, c);
    CmpOrder(b, a, c);
    CmpOrder(a, c, b);
    CmpEqual(b, a);
  }

  ghost predicate OnList(pairs: seq<Pair>, k: Datum) {
    exists j :: 0 <= j < |pairs| && pairs[j].key == k
  }

  ghost predicate NotAbove(m: Datum, k: Datum) {
    Cmp(m, k) >= 0
  }

  /** m is a key of the page, and none of its first n keys is above it. */
  ghost predicate TopOf(pairs: seq<Pair>, n: nat, m: Datum) {
    OnList(pairs, m) && n <= |pairs| && forall j | 0 <= j < n :: NotAbove(m, pairs[j].key)
  }

  /** The key at item i, while there is one. */
  method KeyAt(buf: seq<int>, i: nat, ghost n: nat, ghost pairs: seq<Pair>) returns (item: Option<Datum>)
    requires PairPage(buf, pairs) && i == 2 * n
    ensures item == if n < |pairs| then Some(pairs[n].key) else None
  {
    item := MakDatum(buf, i, Flat(pairs));
    if n < |pairs| {
      FlatAt(pairs, n);
    }
  }

  /** The greater of the greatest so far and the next key. */
  method Raise(bitem: Datum, item: Datum, ghost n: nat, ghost pairs: seq<Pair>) returns (r: Datum)
    requires TopOf(pairs, n, bitem) && n < |pairs| && pairs[n].key == item
    ensures TopOf(pairs, n + 1, r)
  {
    var c := CmpDatum(bitem, item);
    CmpEqual(item, item);
    if c < 0 {
      forall j | 0 <= j < n ensures NotAbove(item, pairs[j].key) {
        assert NotAbove(bitem, pairs[j].key);
        CmpAbove(pairs[j].key, bitem, item);
      }
      return item;
    }
    return bitem;
  }

  /** The search of `firsthash`: the greatest key of the page. */
  method Greatest(buf: seq<int>, ghost pairs: seq<Pair>) returns (bitem: Option<Datum>)
    requires PairPage(buf, pairs)
    ensures if |pairs| == 0 then bitem.None? else bitem.Some? && TopOf(pairs, |pairs|, bitem.value)
  {
    bitem := KeyAt(buf, 0, 0, pairs);
    if |pairs| > 0 {
      CmpEqual(pairs[0].key, pairs[0].key);
    }
    var i := 2;
    ghost var n := 1;
    while true
      invariant i == 2 * n && n >= 1
      invariant if |pairs| == 0 then bitem.None? && n == 1 else bitem.Some? && TopOf(pairs, n, bitem.value)
      decreases |pairs| - n
    {
      var item := KeyAt(buf, i, n, pairs);
      if item.None? {
        return;
      }
      var top := Raise(bitem.value, item.value, n, pairs);
      bitem := Some(top);
      i, n := i + 2, n + 1;
    }
  }

  /** Of the first n keys of the page, none is both below the key and above the best. */
  ghost predicate BestOf(pairs: seq<Pair>, n: nat, key: Datum, best: Option<Datum>) {
    && n <= |pairs|
    && (best.Some? ==> OnList(pairs, best.value) && Cmp(key, best.value) > 0)
    && forall j | 0 <= j < n :: NotAbove(pairs[j].key, key) || (best.Some? && NotAbove(best.value, pairs[j].key))
  }

  method Better(best: Option<Datum>, item: Datum, key: Datum, ghost n: nat, ghost pairs: seq<Pair>)
    returns (r: Option<Datum>)
    requires BestOf(pairs, n, key, best) && n < |pairs| && pairs[n].key == item
    ensures BestOf(pairs, n + 1, key, r)
  {
    var c := CmpDatum(key, item);
    CmpOrder(key, item, key);
    CmpEqual(item, item);
    if c <= 0 {
      return best;
    }
    if best.Some? {
      c := CmpDatum(best.value, item);
      if c >= 0 {
        return best;
      }
    }
    forall j | 0 <= j < n ensures NotAbove(pairs[j].key, key) || NotAbove(item, pairs[j].key) {
      if !NotAbove(pairs[j].key, key) {
        CmpAbove(pairs[j].key, best.value, item);
      }
    }
    return Some(item);
  }

  /** The search of `nextkey`: the greatest key of the page below the given one. */
  method GreatestBelow(buf: seq<int>, key: Datum, ghost pairs: seq<Pair>) returns (bitem: Option<Datum>)
    requires PairPage(buf, pairs)
    ensures BestOf(pairs, |pairs|, key, bitem)
  {
    bitem := None;
    var i := 0;
    ghost var n := 0;
    while true
      invariant i == 2 * n && n >= 0 && BestOf(pairs, n, key, bitem)
      decreases |pairs| - n
    {
      var item := KeyAt(buf, i, n, pairs);
      if item.None? {
        return;
      }
      bitem := Better(bitem, item.value, key, n, pairs);
      i, n := i + 2, n + 1;
    }
  }

  // ---------------------------------------------------------------- the whole walk

  /** Leaf by leaf, and down within a leaf. */
  ghost predicate Before(hash: Datum -> nat, bits: set<nat>, w: nat, k: Datum, l: Datum) {
    || Start(bits, hash(k), w) < Start(bits, hash(l), w)
    || (Start(bits, hash(k), w) == Start(bits, hash(l), w) && Cmp(k, l) > 0)
  }

  /** The walk has a place for every key, and one only. */
  lemma {:induction false} BeforeOrder(hash: Datum -> nat, bits: set<nat>, w: nat, k: Datum, l: Datum, m: Datum)
    ensures !Before(hash, bits, w, k, k)
    ensures k != l ==> Before(hash, bits, w, k, l) || Before(hash, bits, w, l, k)
    ensures Before(hash, bits, w, k, l) && Before(hash, bits, w, l, m) ==> Before(hash, bits, w, k, m)
  {
    CmpEqual(k, k);
    CmpEqual(k, l);
    CmpOrder(k, l, m);
    CmpOrder(m, l, k);
    CmpOrder(k, m, l);
  }

  /** r is the first of the keys from position p on. */
  ghost predicate FirstFrom(hash: Datum -> nat, bits: set<nat>, w: nat, content: map<Datum, Datum>, p: int, r: Datum) {
    && r in content && p <= Start(bits, hash(r), w)
    && forall k | k in content :: p <= Start(bits, hash(k), w) ==> k == r || Before(hash, bits, w, r, k)
  }

  ghost predicate NoneFrom(hash: Datum -> nat, bits: set<nat>, w: nat, content: map<Datum, Datum>, p: int) {
    forall k | k in content :: Start(bits, hash(k), w) < p
  }

  /** The keys on the page of a hash are the keys whose leaf begins where its leaf begins. */
  lemma {:induction false} LeafKeys(hash: Datum -> nat, bits: set<nat>, view: map<nat, seq<Pair>>,
                                    content: map<Datum, Datum>, w: nat, h: nat, d: nat, x: nat, k: Datum)
    requires Refines(hash, bits, view, content) && Bounded(bits, w) && IsLeaf(bits, h, d) && x == h % Two(d)
    ensures OnList(PairsOf(view, x), k) <==> k in content && Start(bits, hash(k), w) == Start(bits, h, w)
  {
    DepthIs(bits, w, h, d);
    SameStart(bits, w, h, hash(k));
    if Start(bits, hash(k), w) == Start(bits, h, w) {
      SameLeaf(bits, h, hash(k), d);
      FoundAtHome(hash, bits, view, content, k, x);
      assert OnPage(view, x, k) <==> OnList(PairsOf(view, x), k);
    } else if OnList(PairsOf(view, x), k) {
      assert PageGood(hash, bits, view, x, content);
      var j :| 0 <= j < |PairsOf(view, x)| && PairsOf(view, x)[j].key == k;
      assert Good(hash, bits, x, PairsOf(view, x)[j], content);
      var e: nat :| IsLeaf(bits, hash(k), e) && hash(k) % Two(e) == x;
      SameBlock(bits, h, d, hash(k), e);
    }
  }

  lemma {:induction false} TwoSplit(d: nat, w: nat)
    requires d <= w
    ensures Two(d) * Two(w - d) == Two(w)
    decreases w
  {
    if d < w {
      TwoSplit(d, w - 1);
      assert w - d == w - 1 - d + 1;
    }
  }

  /** Past a leaf, every other key begins at the next leaf or later. */
  lemma {:induction false} PastLeaf(bits: set<nat>, w: nat, h: nat, d: nat, r: nat, g: nat)
    requires Bounded(bits, w) && IsLeaf(bits, h, d) && Start(bits, h, w) < Start(bits, g, w)
    requires if r == 0 then Rev(h, d) == Two(d) - 1 else Incremented(h, d, r)
    ensures r != 0 && Rev(r, w) <= Start(bits, g, w)
  {
    SameStart(bits, w, h, g);
    DepthIs(bits, w, h, d);
    if r == 0 {
      TwoSplit(d, w);
      assert false;
    }
    NextLeaf(bits, w, h, d, r);
    LeafOrder(bits, w, r, g);
  }

  /** What `firsthash` finds on a page. */
  lemma {:induction false} FoundOnLeaf(hash: Datum -> nat, bits: set<nat>, view: map<nat, seq<Pair>>,
                                       content: map<Datum, Datum>, w: nat, h: nat, d: nat, x: nat, m: Datum)
    requires Refines(hash, bits, view, content) && Bounded(bits, w) && IsLeaf(bits, h, d) && x == h % Two(d)
    requires TopOf(PairsOf(view, x), |PairsOf(view, x)|, m)
    ensures FirstFrom(hash, bits, w, content, Start(bits, h, w), m)
  {
    LeafKeys(hash, bits, view, content, w, h, d, x, m);
    forall k | k in content && Start(bits, h, w) <= Start(bits, hash(k), w)
      ensures k == m || Before(hash, bits, w, m, k)
    {
      if Start(bits, hash(k), w) == Start(bits, h, w) {
        LeafKeys(hash, bits, view, content, w, h, d, x, k);
        var j :| 0 <= j < |PairsOf(view, x)| && PairsOf(view, x)[j].key == k;
        assert NotAbove(m, PairsOf(view, x)[j].key);
        CmpEqual(m, k);
      }
    }
  }

  /** Nothing on the page: the keys that are left begin at the next leaf or later. */
  lemma {:induction false} NothingOnLeaf(hash: Datum -> nat, bits: set<nat>, view: map<nat, seq<Pair>>,
                                         content: map<Datum, Datum>, w: nat, h: nat, d: nat, x: nat, r: nat, k: Datum)
    requires Refines(hash, bits, view, content) && Bounded(bits, w) && IsLeaf(bits, h, d) && x == h % Two(d)
    requires |PairsOf(view, x)| == 0 && k in content && Start(bits, h, w) <= Start(bits, hash(k), w)
    requires if r == 0 then Rev(h, d) == Two(d) - 1 else Incremented(h, d, r)
    ensures r != 0 && Rev(r, w) <= Start(bits, hash(k), w)
  {
    LeafKeys(hash, bits, view, content, w, h, d, x, k);
    PastLeaf(bits, w, h, d, r, hash(k));
  }

  /** `firsthash`: the first key at or after the leaf that begins at the hash, or none. */
  method FirstHash(db: Database, hash0: nat, ghost w: nat) returns (item: Option<Datum>)
    requires db.Valid() && Bounded(db.bits, w) && Boundary(db.bits, w, hash0)
    modifies db`hmask, db`blkno, db`bitno, db`dirbuf, db`oldd, db`pagbuf, db`oldb
    ensures db.Valid()
    ensures if item.Some? then FirstFrom(db.hash, db.bits, w, db.content, Rev(hash0, w), item.value)
            else NoneFrom(db.hash, db.bits, w, db.content, Rev(hash0, w))
  {
    var hash := hash0;
    while true
      invariant db.Valid() && hash >= 0 && Boundary(db.bits, w, hash)
      invariant NoneBetween(db.hash, db.bits, w, db.content, Rev(hash0, w), Rev(hash, w))
      decreases Two(w) - Rev(hash, w)
    {
      ghost var d := db.Access(hash);
      ghost var pairs := PairsOf(db.view, db.blkno);
      item := Greatest(db.pagbuf, pairs);
      if item.Some? {
        FoundOnLeaf(db.hash, db.bits, db.view, db.content, w, hash, d, db.blkno, item.value);
        FirstBetween(db.hash, db.bits, w, db.content, Rev(hash0, w), Rev(hash, w), item.value);
        return;
      }
      var next := HashInc(hash, db.hmask, d);
      SkipLeaf(db.hash, db.bits, db.view, db.content, w, Rev(hash0, w), hash, d, db.blkno, next);
      if next == 0 {
        return;
      }
      hash := next;
    }
  }

  /** From p on there is no key that begins before q. */
  ghost predicate NoneBetween(hash: Datum -> nat, bits: set<nat>, w: nat, content: map<Datum, Datum>, p: int, q: int) {
    p <= q && forall k | k in content :: p <= Start(bits, hash(k), w) ==> q <= Start(bits, hash(k), w)
  }

  lemma {:induction false} FirstBetween(hash: Datum -> nat, bits: set<nat>, w: nat, content: map<Datum, Datum>, p: int,
                                        q: int, r: Datum)
    requires NoneBetween(hash, bits, w, content, p, q) && FirstFrom(hash, bits, w, content, q, r)
    ensures FirstFrom(hash, bits, w, content, p, r)
  {
  }

  /** An empty leaf is passed over: the walk ends there, or goes on at the leaf that follows. */
  lemma {:induction false} SkipLeaf(hash: Datum -> nat, bits: set<nat>, view: map<nat, seq<Pair>>,
                                    content: map<Datum, Datum>, w: nat, p: int, h: nat, d: nat, x: nat, r: nat)
    requires Refines(hash, bits, view, content) && Bounded(bits, w) && IsLeaf(bits, h, d) && x == h % Two(d)
    requires Boundary(bits, w, h) && NoneBetween(hash, bits, w, content, p, Rev(h, w)) && |PairsOf(view, x)| == 0
    requires if r == 0 then Rev(h, d) == Two(d) - 1 else Incremented(h, d, r)
    ensures r == 0 ==> NoneFrom(hash, bits, w, content, p)
    ensures r != 0 ==> Boundary(bits, w, r) && NoneBetween(hash, bits, w, content, p, Rev(r, w))
                       && Rev(h, w) < Rev(r, w) < Two(w)
  {
    forall k | k in content && Rev(h, w) <= Start(bits, hash(k), w)
      ensures r != 0 && Rev(r, w) <= Start(bits, hash(k), w)
    {
      NothingOnLeaf(hash, bits, view, content, w, h, d, x, r, k);
    }
    if r != 0 {
      NextLeaf(bits, w, h, d, r);
      LeafOrder(bits, w, h, h);
    }
  }

  lemma {:induction false} ZeroBoundary(bits: set<nat>, w: nat)
    requires Bounded(bits, w)
    ensures Boundary(bits, w, 0) && Rev(0, w) == 0
  {
    DepthLeaf(bits, w, 0);
    RevZero(w);
    RevZero(Depth(bits, 0));
  }

  lemma {:induction false} RevZero(d: nat)
    ensures Rev(0, d) == 0
  {
    if d > 0 {
      RevZero(d - 1);
      QuotientIs(0, Two(d - 1), 0, 0);
    }
  }

  method FirstKey(db: Database, ghost w: nat) returns (item: Option<Datum>)
    requires db.Valid() && Bounded(db.bits, w)
    modifies db`hmask, db`blkno, db`bitno, db`dirbuf, db`oldd, db`pagbuf, db`oldb
    ensures db.Valid()
    ensures if item.Some? then FirstFrom(db.hash, db.bits, w, db.content, 0, item.value)
            else NoneFrom(db.hash, db.bits, w, db.content, 0)
  {
    ZeroBoundary(db.bits, w);
    item := FirstHash(db, 0, w);
  }

  /** item is the next key after this one in the order of the walk, or there is none. */
  ghost predicate Follows(hash: Datum -> nat, bits: set<nat>, w: nat, content: map<Datum, Datum>, key: Datum,
                          item: Option<Datum>)
  {
    && (item.Some? ==> item.value in content && Before(hash, bits, w, key, item.value))
    && forall k | k in content && Before(hash, bits, w, key, k) ::
         item.Some? && (k == item.value || Before(hash, bits, w, item.value, k))
  }

  /** The best key of its own page is next. */
  lemma {:induction false} NextOnLeaf(hash: Datum -> nat, bits: set<nat>, view: map<nat, seq<Pair>>,
                                      content: map<Datum, Datum>, w: nat, key: Datum, d: nat, x: nat, m: Datum)
    requires Refines(hash, bits, view, content) && Bounded(bits, w) && IsLeaf(bits, hash(key), d)
    requires x == hash(key) % Two(d) && BestOf(PairsOf(view, x), |PairsOf(view, x)|, key, Some(m))
    ensures Follows(hash, bits, w, content, key, Some(m))
  {
    var pairs := PairsOf(view, x);
    LeafKeys(hash, bits, view, content, w, hash(key), d, x, m);
    forall k | k in content && Before(hash, bits, w, key, k) ensures k == m || Before(hash, bits, w, m, k) {
      if Start(bits, hash(k), w) == Start(bits, hash(key), w) {
        LeafKeys(hash, bits, view, content, w, hash(key), d, x, k);
        var j :| 0 <= j < |pairs| && pairs[j].key == k;
        assert NotAbove(pairs[j].key, key) || NotAbove(m, pairs[j].key);
        CmpOrder(key, k, m);
        CmpEqual(m, k);
      }
    }
  }

  /** With none left on its page, the next key is the first one from the next leaf on. */
  lemma {:induction false} NextPastLeaf(hash: Datum -> nat, bits: set<nat>, view: map<nat, seq<Pair>>,
                                        content: map<Datum, Datum>, w: nat, key: Datum, d: nat, x: nat, r: nat,
                                            k: Datum)
    requires Refines(hash, bits, view, content) && Bounded(bits, w) && IsLeaf(bits, hash(key), d)
    requires x == hash(key) % Two(d) && BestOf(PairsOf(view, x), |PairsOf(view, x)|, key, None)
    requires if r == 0 then Rev(hash(key), d) == Two(d) - 1 else Incremented(hash(key), d, r)
    requires k in content && Before(hash, bits, w, key, k)
    ensures r != 0 && Rev(r, w) <= Start(bits, hash(k), w)
  {
    var pairs := PairsOf(view, x);
    if Start(bits, hash(k), w) == Start(bits, hash(key), w) {
      LeafKeys(hash, bits, view, content, w, hash(key), d, x, k);
      var j :| 0 <= j < |pairs| && pairs[j].key == k;
      assert NotAbove(pairs[j].key, key);
      CmpOrder(key, k, key);
    } else {
      PastLeaf(bits, w, hash(key), d, r, hash(k));
    }
  }

  /** `nextkey`, for any key, stored or not. */
  method NextKey(db: Database, key: Datum, ghost w: nat) returns (item: Option<Datum>)
    requires db.Valid() && Bounded(db.bits, w)
    modifies db`hmask, db`blkno, db`bitno, db`dirbuf, db`oldd, db`pagbuf, db`oldb
    ensures db.Valid() && Follows(db.hash, db.bits, w, db.content, key, item)
  {
    var hash := db.hash(key);
    ghost var d := db.Access(hash);
    ghost var x := db.blkno;
    item := GreatestBelow(db.pagbuf, key, PairsOf(db.view, x));
    if item.Some? {
      NextOnLeaf(db.hash, db.bits, db.view, db.content, w, key, d, x, item.value);
      return;
    }
    var next := HashInc(hash, db.hmask, d);
    forall k | k in db.content && Before(db.hash, db.bits, w, key, k)
      ensures next != 0 && Rev(next, w) <= Start(db.bits, db.hash(k), w)
    {
      NextPastLeaf(db.hash, db.bits, db.view, db.content, w, key, d, x, next, k);
    }
    if next == 0 {
      return;
    }
    NextLeaf(db.bits, w, hash, d, next);
    LeafOrder(db.bits, w, hash, hash);
    item := FirstHash(db, next, w);
  }

  /** What is visited, and what is left from the item on. */
  ghost predicate Walking(hash: Datum -> nat, bits: set<nat>, w: nat, content: map<Datum, Datum>, keys: seq<Datum>,
                          item: Option<Datum>, left: set<Datum>)
  {
    && (forall i, j | 0 <= i < j < |keys| :: Before(hash, bits, w, keys[i], keys[j]))
    && (forall k :: k in content <==> k in keys || k in left)
    && (forall i, k | 0 <= i < |keys| && k in left :: Before(hash, bits, w, keys[i], k))
    && (item.None? ==> left == {})
    && (item.Some? ==> item.value in left)
    && (forall k | k in left :: item.Some? && (k == item.value || Before(hash, bits, w, item.value, k)))
  }

  lemma {:induction false} WalkStep(hash: Datum -> nat, bits: set<nat>, w: nat, content: map<Datum, Datum>,
                                    keys: seq<Datum>, item: Option<Datum>, left: set<Datum>, next: Option<Datum>)
    requires Walking(hash, bits, w, content, keys, item, left) && item.Some?
    requires Follows(hash, bits, w, content, item.value, next)
    ensures Walking(hash, bits, w, content, keys + [item.value], next, left - {item.value})
  {
    BeforeOrder(hash, bits, w, item.value, item.value, item.value);
    if next.Some? {
      BeforeOrder(hash, bits, w, item.value, next.value, item.value);
      forall i | 0 <= i < |keys| ensures keys[i] != next.value {
        BeforeOrder(hash, bits, w, keys[i], item.value, keys[i]);
      }
    }
  }

  lemma {:induction false} WalkStart(hash: Datum -> nat, bits: set<nat>, w: nat, content: map<Datum, Datum>,
                                     item: Option<Datum>)
    requires if item.Some? then FirstFrom(hash, bits, w, content, 0, item.value)
             else NoneFrom(hash, bits, w, content, 0)
    ensures Walking(hash, bits, w, content, [], item, content.Keys)
  {
    forall k | k in content ensures Start(bits, hash(k), w) >= 0 {
    }
  }

  lemma {:induction false} WalkEnd(hash: Datum -> nat, bits: set<nat>, w: nat, content: map<Datum, Datum>,
                                   keys: seq<Datum>, left: set<Datum>)
    requires Walking(hash, bits, w, content, keys, None, left)
    ensures forall k :: k in keys <==> k in content
    ensures forall i, j | 0 <= i < j < |keys| :: keys[i] != keys[j] && Before(hash, bits, w, keys[i], keys[j])
  {
    forall i, j | 0 <= i < j < |keys| ensures keys[i] != keys[j] {
      BeforeOrder(hash, bits, w, keys[i], keys[j], keys[i]);
    }
  }

  /** `firstkey` and then `nextkey` to the end: every key of the map, each once. */
  method Walk(db: Database) returns (keys: seq<Datum>, ghost w: nat)
    requires db.Valid()
    modifies db`hmask, db`blkno, db`bitno, db`dirbuf, db`oldd, db`pagbuf, db`oldb
    ensures db.Valid() && (forall k :: k in keys <==> k in db.content)
    ensures forall i, j | 0 <= i < j < |keys| :: keys[i] != keys[j] && Before(db.hash, db.bits, w, keys[i], keys[j])
  {
    w := if db.maxbno < 0 then 0 else db.maxbno + 1;
    keys := [];
    var item := FirstKey(db, w);
    ghost var left := db.content.Keys;
    WalkStart(db.hash, db.bits, w, db.content, item);
    while item.Some?
      invariant db.Valid() && Bounded(db.bits, w) && Walking(db.hash, db.bits, w, db.content, keys, item, left)
      decreases left
    {
      var next := NextKey(db, item.value, w);
      WalkStep(db.hash, db.bits, w, db.content, keys, item, left, next);
      keys, left := keys + [item.value], left - {item.value};
      item := next;
    }
    WalkEnd(db.hash, db.bits, w, db.content, keys, left);
  }
}
