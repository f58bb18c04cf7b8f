/** The directory of libdbm (dbm.c): a bit for every node of a trie over the low bits of the hash,
    and what the pages mean as a map. */
module DbmTrie {
  import opened Arithmetic
  import opened DbmPage
  import opened DbmPairs

  // ---------------------------------------------------------------- nodes

  /** The bit number of the node for the low d bits of h: hash & hmask, plus hmask. */
  ghost function Node(h: nat, d: nat): (n: nat)
  {
    h % Two(d) + Two(d) - 1
  }

  /** Splitting h at bit d. */
  lemma {:induction false} LowBits(h: nat, d: nat)
    ensures h % Two(d + 1) == h % Two(d) + (if BitSet(h, Two(d)) then Two(d) else 0)
    ensures 0 <= h % Two(d) < Two(d)
  {
    var t := Two(d);
    var q, r := h / t, h % t;
    HalfQuotient(h, t, q, r);
  }

  lemma {:induction false} HalfQuotient(h: nat, t: int, q: int, r: int)
    requires t > 0 && h == q * t + r && 0 <= r < t
    ensures h % (2 * t) == r + (if q % 2 == 1 then t else 0)
  {
    var s := r + (if q % 2 == 1 then t else 0);
    assert h == q / 2 * (2 * t) + s by {
      assert q == q / 2 * 2 + q % 2;
      assert q * t == (q / 2 * 2 + q % 2) * t;
      assert (q / 2 * 2) * t == q / 2 * (2 * t);
      assert q % 2 == 0 || q % 2 == 1;
    }
    QuotientIs(h, 2 * t, q / 2, s);
  }

  lemma {:induction false} ModMod(h: nat, d: nat, e: nat)
    requires d <= e
    ensures h % Two(e) % Two(d) == h % Two(d)
    decreases e
  {
    LowBits(h, d);
    if d < e {
      ModMod(h, d, e - 1);
      LowBits(h, e - 1);
      var low := h % Two(e - 1);
      if BitSet(h, Two(e - 1)) {
        TwoMultiple(e - 1, d);
        var k: int :| Two(e - 1) == k * Two(d);
        ModPlus(low, k, Two(d));
      }
    } else {
      QuotientIs(h % Two(d), Two(d), 0, h % Two(d));
    }
  }

  lemma {:induction false} TwoMultiple(e: nat, d: nat)
    requires d <= e
    ensures exists k: int :: Two(e) == k * Two(d)
    decreases e
  {
    if d == e {
      assert Two(e) == 1 * Two(d);
    } else {
      TwoMultiple(e - 1, d);
      var k: int :| Two(e - 1) == k * Two(d);
      assert Two(e) == (2 * k) * Two(d);
    }
  }

  lemma {:induction false} ModPlus(x: int, k: int, t: int)
    requires t > 0
    ensures (x + k * t) % t == x % t
  {
    assert x + k * t == (x / t + k) * t + x % t by {
      assert (x / t + k) * t == x / t * t + k * t;
    }
    QuotientIs(x + k * t, t, x / t + k, x % t);
  }

  lemma {:induction false} TwoMonotone(d: nat, e: nat)
    requires d <= e
    ensures Two(d) <= Two(e) && d < Two(d)
    decreases e
  {
    if d < e {
      TwoMonotone(d, e - 1);
    } else if d > 0 {
      TwoMonotone(d - 1, d - 1);
    }
  }

  /** Nodes of different depth, or with different low bits, have different bits. */
  lemma {:induction false} NodeInjective(h: nat, d: nat, g: nat, e: nat)
    requires Node(h, d) == Node(g, e)
    ensures d == e && h % Two(d) == g % Two(e)
  {
    LowBits(h, d);
    LowBits(g, e);
    if d < e {
      TwoMonotone(d + 1, e);
    } else if e < d {
      TwoMonotone(e + 1, d);
    }
  }

  // ---------------------------------------------------------------- leaves

  ghost predicate Inner(bits: set<nat>, h: nat, d: nat) {
    Node(h, d) in bits
  }

  /** Every node with its bit set hangs below nodes with theirs set. */
  ghost predicate Closed(bits: set<nat>) {
    forall h: nat, d: nat, e: nat | Inner(bits, h, d) && e <= d :: Inner(bits, h, e)
  }

  /** The walk down for h ends at depth d. */
  ghost predicate IsLeaf(bits: set<nat>, h: nat, d: nat) {
    !Inner(bits, h, d) && forall e: nat | e < d :: Inner(bits, h, e)
  }

  lemma {:induction false} LeafUnique(bits: set<nat>, h: nat, d: nat, e: nat)
    requires IsLeaf(bits, h, d) && IsLeaf(bits, h, e)
    ensures d == e
  {
    assert d < e ==> Inner(bits, h, d);
    assert e < d ==> Inner(bits, h, e);
  }

  /** Hashes with the same low bits share their nodes down to that depth. */
  lemma {:induction false} SameNode(h: nat, g: nat, d: nat, e: nat)
    requires h % Two(d) == g % Two(d) && e <= d
    ensures Node(h, e) == Node(g, e) && h % Two(e) == g % Two(e)
  {
    ModMod(h, e, d);
    ModMod(g, e, d);
  }

  lemma {:induction false} SameLeaf(bits: set<nat>, h: nat, g: nat, d: nat)
    requires IsLeaf(bits, h, d) && h % Two(d) == g % Two(d)
    ensures IsLeaf(bits, g, d)
  {
    SameNode(h, g, d, d);
    forall e: nat | e < d ensures Inner(bits, g, e) {
      assert Inner(bits, h, e);
      SameNode(h, g, d, e);
    }
  }

  /** Setting the bit of a leaf puts two leaves under it and leaves the others alone. */
  lemma {:induction false} GrowLeaf(bits: set<nat>, h: nat, d: nat, g: nat, e: nat)
    requires Closed(bits) && IsLeaf(bits, h, d) && IsLeaf(bits, g, e)
    ensures IsLeaf(bits + {Node(h, d)}, g, if g % Two(d) == h % Two(d) then d + 1 else e)
    ensures g % Two(d) == h % Two(d) ==> e == d
  {
    var more := bits + {Node(h, d)};
    if g % Two(d) == h % Two(d) {
      SameLeaf(bits, h, g, d);
      LeafUnique(bits, g, d, e);
      SameNode(h, g, d, d);
      forall c: nat | c < d + 1 ensures Inner(more, g, c) {
        if c < d {
          assert Inner(bits, g, c);
        }
      }
      if Node(g, d + 1) == Node(h, d) {
        NodeInjective(g, d + 1, h, d);
      }
      assert Inner(bits, g, d + 1) ==> Inner(bits, g, d);
    } else {
      if Inner(more, g, e) && !Inner(bits, g, e) {
        NodeInjective(g, e, h, d);
      }
      forall c: nat | c < e ensures Inner(more, g, c) {
        assert Inner(bits, g, c);
      }
    }
  }

  lemma {:induction false} GrowClosed(bits: set<nat>, h: nat, d: nat)
    requires Closed(bits) && IsLeaf(bits, h, d)
    ensures Closed(bits + {Node(h, d)})
  {
    var more := bits + {Node(h, d)};
    forall g: nat, c: nat, e: nat | Inner(more, g, c) && e <= c ensures Inner(more, g, e) {
      if Inner(bits, g, c) {
        assert Inner(bits, g, e);
      } else {
        NodeInjective(g, c, h, d);
        SameNode(g, h, d, e);
        if e < d {
          assert Inner(bits, h, e);
        }
      }
    }
  }

  // ---------------------------------------------------------------- pages as a map

  ghost function PairsOf(view: map<nat, seq<Pair>>, x: nat): seq<Pair> {
    if x in view then view[x] else []
  }

  /** Block x is the page of hash h. */
  ghost predicate Home(bits: set<nat>, h: nat, x: nat) {
    exists d: nat :: IsLeaf(bits, h, d) && h % Two(d) == x
  }

  lemma {:induction false} HomeUnique(bits: set<nat>, h: nat, x: nat, y: nat)
    requires Home(bits, h, x) && Home(bits, h, y)
    ensures x == y
  {
    var d: nat :| IsLeaf(bits, h, d) && h % Two(d) == x;
    var e: nat :| IsLeaf(bits, h, e) && h % Two(e) == y;
    LeafUnique(bits, h, d, e);
  }

  ghost predicate Placed(hash: Datum -> nat, bits: set<nat>, x: nat, p: Pair) {
    Home(bits, hash(p.key), x)
  }

  /** A pair on page x that belongs there and has the value of the map. */
  ghost predicate Good(hash: Datum -> nat, bits: set<nat>, x: nat, p: Pair, content: map<Datum, Datum>) {
    Placed(hash, bits, x, p) && p.key in content && content[p.key] == p.val
  }

  ghost predicate Apart(pairs: seq<Pair>, i: nat, j: nat)
    requires i < |pairs| && j < |pairs|
  {
    pairs[i].key != pairs[j].key
  }

  /** No key twice. */
  ghost predicate Distinct(pairs: seq<Pair>) {
    forall i, j | 0 <= i < j < |pairs| :: Apart(pairs, i, j)
  }

  ghost predicate GoodPage(hash: Datum -> nat, bits: set<nat>, x: nat, pairs: seq<Pair>, content: map<Datum, Datum>) {
    Distinct(pairs) && forall j | 0 <= j < |pairs| :: Good(hash, bits, x, pairs[j], content)
  }

  ghost predicate PageGood(hash: Datum -> nat, bits: set<nat>, view: map<nat, seq<Pair>>, x: nat,
                           content: map<Datum, Datum>)
  {
    GoodPage(hash, bits, x, PairsOf(view, x), content)
  }

  ghost predicate OnPage(view: map<nat, seq<Pair>>, x: nat, k: Datum) {
    exists j :: 0 <= j < |PairsOf(view, x)| && PairsOf(view, x)[j].key == k
  }

  ghost predicate Stored(view: map<nat, seq<Pair>>, k: Datum) {
    exists x: nat :: OnPage(view, x, k)
  }

  /** The pages are the map: each pair in the one page of its hash. */
  ghost predicate Refines(hash: Datum -> nat, bits: set<nat>, view: map<nat, seq<Pair>>, content: map<Datum, Datum>) {
    && Closed(bits)
    && (forall x: nat :: PageGood(hash, bits, view, x, content))
    && (forall k | k in content :: Stored(view, k))
  }

  /** A key is in the map exactly if its home page has it. */
  lemma {:induction false} FoundAtHome(hash: Datum -> nat, bits: set<nat>, view: map<nat, seq<Pair>>,
                                       content: map<Datum, Datum>, k: Datum, x: nat)
    requires Refines(hash, bits, view, content) && Home(bits, hash(k), x)
    ensures k in content <==> OnPage(view, x, k)
  {
    if OnPage(view, x, k) {
      var j :| 0 <= j < |PairsOf(view, x)| && PairsOf(view, x)[j].key == k;
      assert PageGood(hash, bits, view, x, content);
      assert Good(hash, bits, x, PairsOf(view, x)[j], content);
    }
    if k in content {
      assert Stored(view, k);
      var y: nat :| OnPage(view, y, k);
      var j :| 0 <= j < |PairsOf(view, y)| && PairsOf(view, y)[j].key == k;
      assert PageGood(hash, bits, view, y, content);
      assert Good(hash, bits, y, PairsOf(view, y)[j], content);
      HomeUnique(bits, hash(k), x, y);
    }
  }

  lemma {:induction false} StoredAt(view: map<nat, seq<Pair>>, x: nat, i: nat, k: Datum)
    requires i < |PairsOf(view, x)| && PairsOf(view, x)[i].key == k
    ensures Stored(view, k)
  {
    assert OnPage(view, x, k);
  }

  lemma {:induction false} WhereStored(view: map<nat, seq<Pair>>, k: Datum) returns (x: nat, i: nat)
    requires Stored(view, k)
    ensures i < |PairsOf(view, x)| && PairsOf(view, x)[i].key == k && x in view
  {
    x :| OnPage(view, x, k);
    i :| 0 <= i < |PairsOf(view, x)| && PairsOf(view, x)[i].key == k;
  }

  /** A pair of another page keeps its value when a key of this page changes. */
  lemma {:induction false} OtherKey(hash: Datum -> nat, bits: set<nat>, x: nat, p: Pair, y: nat, q: Pair,
                                    content: map<Datum, Datum>)
    requires Placed(hash, bits, x, p) && Good(hash, bits, y, q, content) && x != y
    ensures q.key != p.key
  {
    if q.key == p.key {
      HomeUnique(bits, hash(p.key), x, y);
    }
  }

  lemma {:induction false} DropDistinct(pairs: seq<Pair>, j: nat)
    requires Distinct(pairs) && j < |pairs|
    ensures Distinct(DropPair(pairs, j))
  {
    var rest := DropPair(pairs, j);
    forall a, b | 0 <= a < b < |rest| ensures Apart(rest, a, b) {
      assert Apart(pairs, if a < j then a else a + 1, if b < j then b else b + 1);
    }
  }

  lemma {:induction false} RemoveOnPage(hash: Datum -> nat, bits: set<nat>, x: nat, pairs: seq<Pair>, j: nat,
                                        content: map<Datum, Datum>)
    requires GoodPage(hash, bits, x, pairs, content) && j < |pairs|
    ensures GoodPage(hash, bits, x, DropPair(pairs, j), content - {pairs[j].key})
  {
    var rest := DropPair(pairs, j);
    DropDistinct(pairs, j);
    forall i | 0 <= i < |rest| ensures Good(hash, bits, x, rest[i], content - {pairs[j].key}) {
      var k := if i < j then i else i + 1;
      assert Good(hash, bits, x, pairs[k], content);
      assert Apart(pairs, if k < j then k else j, if k < j then j else k);
    }
  }

  lemma {:induction false} RemoveElsewhere(hash: Datum -> nat, bits: set<nat>, x: nat, p: Pair, y: nat,
                                           pairs: seq<Pair>, content: map<Datum, Datum>)
    requires Placed(hash, bits, x, p) && GoodPage(hash, bits, y, pairs, content) && x != y
    ensures GoodPage(hash, bits, y, pairs, content - {p.key})
  {
    forall i | 0 <= i < |pairs| ensures Good(hash, bits, y, pairs[i], content - {p.key}) {
      OtherKey(hash, bits, x, p, y, pairs[i], content);
    }
  }

  lemma {:induction false} RemoveStored(view: map<nat, seq<Pair>>, x: nat, j: nat, k: Datum)
    requires j < |PairsOf(view, x)| && Stored(view, k) && k != PairsOf(view, x)[j].key
    ensures Stored(view[x := DropPair(PairsOf(view, x), j)], k)
  {
    var y, i := WhereStored(view, k);
    StoredAt(view[x := DropPair(PairsOf(view, x), j)], y, if y == x && i > j then i - 1 else i, k);
  }

  lemma {:induction false} RemoveGood(hash: Datum -> nat, bits: set<nat>, view: map<nat, seq<Pair>>,
                                      content: map<Datum, Datum>, x: nat, j: nat, y: nat)
    requires PageGood(hash, bits, view, x, content) && PageGood(hash, bits, view, y, content)
    requires j < |PairsOf(view, x)|
    ensures PageGood(hash, bits, view[x := DropPair(PairsOf(view, x), j)], y, content - {PairsOf(view, x)[j].key})
  {
    var p := PairsOf(view, x)[j];
    assert Good(hash, bits, x, p, content);
    if y == x {
      RemoveOnPage(hash, bits, x, PairsOf(view, x), j, content);
    } else {
      RemoveElsewhere(hash, bits, x, p, y, PairsOf(view, y), content);
    }
  }

  /** A pair removed from its page is a key removed from the map. */
  lemma {:induction false} RemoveKeeps(hash: Datum -> nat, bits: set<nat>, view: map<nat, seq<Pair>>,
                                       content: map<Datum, Datum>, x: nat, j: nat)
    requires Refines(hash, bits, view, content) && j < |PairsOf(view, x)|
    ensures Refines(hash, bits, view[x := DropPair(PairsOf(view, x), j)], content - {PairsOf(view, x)[j].key})
  {
    var view', content' := view[x := DropPair(PairsOf(view, x), j)], content - {PairsOf(view, x)[j].key};
    forall y: nat ensures PageGood(hash, bits, view', y, content') {
      RemoveGood(hash, bits, view, content, x, j, y);
    }
    forall k | k in content' ensures Stored(view', k) {
      RemoveStored(view, x, j, k);
    }
  }

  lemma {:induction false} InsertOnPage(hash: Datum -> nat, bits: set<nat>, x: nat, pairs: seq<Pair>, p: Pair,
                                        content: map<Datum, Datum>)
    requires GoodPage(hash, bits, x, pairs, content) && p.key !in content
    ensures GoodPage(hash, bits, x, pairs, content[p.key := p.val])
    ensures Placed(hash, bits, x, p) ==> GoodPage(hash, bits, x, pairs + [p], content[p.key := p.val])
  {
    var more, content' := pairs + [p], content[p.key := p.val];
    forall i | 0 <= i < |pairs| ensures Good(hash, bits, x, pairs[i], content') {
      assert Good(hash, bits, x, pairs[i], content);
    }
    forall a, b | 0 <= a < b < |more| ensures Apart(more, a, b) {
      assert Good(hash, bits, x, pairs[a], content);
      if b < |pairs| {
        assert Apart(pairs, a, b);
      }
    }
  }

  lemma {:induction false} InsertGood(hash: Datum -> nat, bits: set<nat>, view: map<nat, seq<Pair>>,
                                      content: map<Datum, Datum>, x: nat, p: Pair, y: nat)
    requires PageGood(hash, bits, view, y, content) && Placed(hash, bits, x, p) && p.key !in content
    ensures PageGood(hash, bits, view[x := PairsOf(view, x) + [p]], y, content[p.key := p.val])
  {
    InsertOnPage(hash, bits, y, PairsOf(view, y), p, content);
  }

  lemma {:induction false} InsertStored(view: map<nat, seq<Pair>>, x: nat, p: Pair, k: Datum)
    requires k == p.key || Stored(view, k)
    ensures Stored(view[x := PairsOf(view, x) + [p]], k)
  {
    var view' := view[x := PairsOf(view, x) + [p]];
    if k == p.key {
      StoredAt(view', x, |PairsOf(view, x)|, k);
    } else {
      var y, i := WhereStored(view, k);
      StoredAt(view', y, i, k);
    }
  }

  /** A pair added to its home page, where its key was not, is a pair added to the map. */
  lemma {:induction false} InsertKeeps(hash: Datum -> nat, bits: set<nat>, view: map<nat, seq<Pair>>,
                                       content: map<Datum, Datum>, x: nat, p: Pair)
    requires Refines(hash, bits, view, content) && Home(bits, hash(p.key), x) && p.key !in content
    ensures Refines(hash, bits, view[x := PairsOf(view, x) + [p]], content[p.key := p.val])
  {
    var view', content' := view[x := PairsOf(view, x) + [p]], content[p.key := p.val];
    forall y: nat ensures PageGood(hash, bits, view', y, content') {
      InsertGood(hash, bits, view, content, x, p, y);
    }
    forall k | k in content' ensures Stored(view', k) {
      InsertStored(view, x, p, k);
    }
  }

  // ---------------------------------------------------------------- splitting

  lemma {:induction false} SideIn(pairs: seq<Pair>, n: nat, hash: Datum -> nat, bit: int, b: bool, i: nat)
    requires n <= |pairs| && bit > 0 && i < |Side(pairs, n, hash, bit, b)|
    ensures BitSet(hash(Side(pairs, n, hash, bit, b)[i].key), bit) == b
    ensures exists j :: 0 <= j < n && pairs[j] == Side(pairs, n, hash, bit, b)[i]
  {
    var less := Side(pairs, n - 1, hash, bit, b);
    if i < |less| {
      SideIn(pairs, n - 1, hash, bit, b, i);
    } else {
      assert pairs[n - 1] == Side(pairs, n, hash, bit, b)[i];
    }
  }

  lemma {:induction false} SideHas(pairs: seq<Pair>, n: nat, hash: Datum -> nat, bit: int, j: nat) returns (i: nat)
    requires j < n <= |pairs| && bit > 0
    ensures var side := Side(pairs, n, hash, bit, BitSet(hash(pairs[j].key), bit)); i < |side| && side[i] == pairs[j]
  {
    if j < n - 1 {
      i := SideHas(pairs, n - 1, hash, bit, j);
    } else {
      i := |Side(pairs, n - 1, hash, bit, BitSet(hash(pairs[j].key), bit))|;
    }
  }

  lemma {:induction false} SideDistinct(pairs: seq<Pair>, n: nat, hash: Datum -> nat, bit: int, b: bool)
    requires n <= |pairs| && bit > 0 && Distinct(pairs)
    ensures Distinct(Side(pairs, n, hash, bit, b))
  {
    if n > 0 {
      SideDistinct(pairs, n - 1, hash, bit, b);
      var less, side := Side(pairs, n - 1, hash, bit, b), Side(pairs, n, hash, bit, b);
      forall i, j | 0 <= i < j < |side| ensures Apart(side, i, j) {
        if j < |less| {
          assert Apart(less, i, j);
        } else {
          SideIn(pairs, n - 1, hash, bit, b, i);
          var k :| 0 <= k < n - 1 && pairs[k] == less[i];
          assert Apart(pairs, k, n - 1);
        }
      }
    }
  }

  /** Where a hash of the split page goes. */
  lemma {:induction false} NewHome(bits: set<nat>, h: nat, d: nat, g: nat, x: nat)
    requires Closed(bits) && IsLeaf(bits, h, d) && Home(bits, g, x)
    ensures var y := h % Two(d); Home(bits + {Node(h, d)}, g,
              if x == y then (if BitSet(g, Two(d)) then y + Two(d) else y) else x)
  {
    var y := h % Two(d);
    var e: nat :| IsLeaf(bits, g, e) && g % Two(e) == x;
    GrowLeaf(bits, h, d, g, e);
    LowBits(g, d);
    if g % Two(d) != y && x == y {
      SameBlock(bits, h, d, g, e);
    }
  }

  /** Two leaves with the same block number are the same leaf. */
  lemma {:induction false} SameBlock(bits: set<nat>, h: nat, d: nat, g: nat, e: nat)
    requires Closed(bits) && IsLeaf(bits, h, d) && IsLeaf(bits, g, e) && h % Two(d) == g % Two(e)
    ensures d == e
  {
    var x := h % Two(d);
    LowBits(h, d);
    LowBits(g, e);
    QuotientIs(x, Two(d), 0, x);
    QuotientIs(x, Two(e), 0, x);
    SameLeaf(bits, h, x, d);
    SameLeaf(bits, g, x, e);
    LeafUnique(bits, x, d, e);
  }

  /** Before the split, nothing can be on the page that the split will write. */
  lemma {:induction false} UpperEmpty(hash: Datum -> nat, bits: set<nat>, h: nat, d: nat, p: Pair)
    requires Closed(bits) && IsLeaf(bits, h, d)
    ensures !Placed(hash, bits, h % Two(d) + Two(d), p)
  {
    var g, y := hash(p.key), h % Two(d) + Two(d);
    if Placed(hash, bits, y, p) {
      var e: nat :| IsLeaf(bits, g, e) && g % Two(e) == y;
      LowBits(g, e);
      LowBits(h, d);
      if e <= d {
        TwoMonotone(e, d);
      } else {
        assert Inner(bits, g, d);
        ModMod(g, d, e);
        QuotientIs(y, Two(d), 1, h % Two(d));
        SameNode(g, h, d, d);
      }
    }
  }

  ghost function SplitView(view: map<nat, seq<Pair>>, x: nat, bit: int, hash: Datum -> nat): map<nat, seq<Pair>>
    requires bit > 0
  {
    var pairs := PairsOf(view, x);
    view[x := Side(pairs, |pairs|, hash, bit, false)][x + bit := Side(pairs, |pairs|, hash, bit, true)]
  }

  lemma {:induction false} SplitPage(hash: Datum -> nat, bits: set<nat>, h: nat, d: nat, pairs: seq<Pair>, b: bool,
                                     content: map<Datum, Datum>)
    requires Closed(bits) && IsLeaf(bits, h, d) && GoodPage(hash, bits, h % Two(d), pairs, content)
    ensures GoodPage(hash, bits + {Node(h, d)}, h % Two(d) + (if b then Two(d) else 0),
                     Side(pairs, |pairs|, hash, Two(d), b), content)
  {
    var side, y := Side(pairs, |pairs|, hash, Two(d), b), h % Two(d);
    var more := bits + {Node(h, d)};
    SideDistinct(pairs, |pairs|, hash, Two(d), b);
    forall i | 0 <= i < |side| ensures Good(hash, more, y + (if b then Two(d) else 0), side[i], content) {
      SideIn(pairs, |pairs|, hash, Two(d), b, i);
      var j :| 0 <= j < |pairs| && pairs[j] == side[i];
      assert Good(hash, bits, y, pairs[j], content);
      NewHome(bits, h, d, hash(pairs[j].key), y);
    }
  }

  lemma {:induction false} OtherPage(hash: Datum -> nat, bits: set<nat>, h: nat, d: nat, x: nat, pairs: seq<Pair>,
                                     content: map<Datum, Datum>)
    requires Closed(bits) && IsLeaf(bits, h, d) && GoodPage(hash, bits, x, pairs, content) && x != h % Two(d)
    ensures GoodPage(hash, bits + {Node(h, d)}, x, pairs, content)
  {
    forall j | 0 <= j < |pairs| ensures Good(hash, bits + {Node(h, d)}, x, pairs[j], content) {
      assert Good(hash, bits, x, pairs[j], content);
      NewHome(bits, h, d, hash(pairs[j].key), x);
    }
  }

  lemma {:induction false} SplitStored(view: map<nat, seq<Pair>>, x: nat, bit: int, hash: Datum -> nat, k: Datum)
    requires bit > 0 && Stored(view, k) && !OnPage(view, x + bit, k)
    ensures Stored(SplitView(view, x, bit, hash), k)
  {
    var pairs, view' := PairsOf(view, x), SplitView(view, x, bit, hash);
    var y, i := WhereStored(view, k);
    if y == x {
      var i' := SideHas(pairs, |pairs|, hash, bit, i);
      if BitSet(hash(k), bit) {
        assert PairsOf(view', x + bit) == Side(pairs, |pairs|, hash, bit, true);
        StoredAt(view', x + bit, i', k);
      } else {
        assert PairsOf(view', x) == Side(pairs, |pairs|, hash, bit, false);
        StoredAt(view', x, i', k);
      }
    } else {
      assert OnPage(view, y, k);
      assert PairsOf(view', y) == PairsOf(view, y);
      StoredAt(view', y, i, k);
    }
  }

  lemma {:induction false} SplitGood(hash: Datum -> nat, bits: set<nat>, view: map<nat, seq<Pair>>,
                                     content: map<Datum, Datum>, h: nat, d: nat, y: nat)
    requires Closed(bits) && IsLeaf(bits, h, d)
    requires PageGood(hash, bits, view, h % Two(d), content) && PageGood(hash, bits, view, y, content)
    ensures PageGood(hash, bits + {Node(h, d)}, SplitView(view, h % Two(d), Two(d), hash), y, content)
  {
    var x, pairs := h % Two(d), PairsOf(view, h % Two(d));
    if y == x {
      SplitPage(hash, bits, h, d, pairs, false, content);
    } else if y == x + Two(d) {
      SplitPage(hash, bits, h, d, pairs, true, content);
    } else {
      OtherPage(hash, bits, h, d, y, PairsOf(view, y), content);
    }
  }

  lemma {:induction false} NotOnUpper(hash: Datum -> nat, bits: set<nat>, view: map<nat, seq<Pair>>,
                                      content: map<Datum, Datum>, h: nat, d: nat, k: Datum)
    requires Closed(bits) && IsLeaf(bits, h, d) && PageGood(hash, bits, view, h % Two(d) + Two(d), content)
    ensures !OnPage(view, h % Two(d) + Two(d), k)
  {
    var y := h % Two(d) + Two(d);
    if OnPage(view, y, k) {
      var j :| 0 <= j < |PairsOf(view, y)| && PairsOf(view, y)[j].key == k;
      var p := PairsOf(view, y)[j];
      assert Good(hash, bits, y, p, content);
      UpperEmpty(hash, bits, h, d, p);
    }
  }

  /** A split moves pairs but changes nothing in the map. */
  lemma {:induction false} SplitKeeps(hash: Datum -> nat, bits: set<nat>, view: map<nat, seq<Pair>>,
                                      content: map<Datum, Datum>, h: nat, d: nat)
    requires Refines(hash, bits, view, content) && IsLeaf(bits, h, d)
    ensures Refines(hash, bits + {Node(h, d)}, SplitView(view, h % Two(d), Two(d), hash), content)
  {
    var x, more := h % Two(d), bits + {Node(h, d)};
    var view' := SplitView(view, x, Two(d), hash);
    GrowClosed(bits, h, d);
    forall y: nat ensures PageGood(hash, more, view', y, content) {
      SplitGood(hash, bits, view, content, h, d, y);
    }
    SplitAllStored(hash, bits, view, content, h, d);
  }

  lemma {:induction false} SplitAllStored(hash: Datum -> nat, bits: set<nat>, view: map<nat, seq<Pair>>,
                                          content: map<Datum, Datum>, h: nat, d: nat)
    requires Closed(bits) && IsLeaf(bits, h, d) && PageGood(hash, bits, view, h % Two(d) + Two(d), content)
    requires forall k | k in content :: Stored(view, k)
    ensures forall k | k in content :: Stored(SplitView(view, h % Two(d), Two(d), hash), k)
  {
    forall k | k in content ensures Stored(SplitView(view, h % Two(d), Two(d), hash), k) {
      NotOnUpper(hash, bits, view, content, h, d, k);
      SplitStored(view, h % Two(d), Two(d), hash, k);
    }
  }
}
