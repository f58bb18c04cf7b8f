/** The data base of libdbm (dbm.c): `getbit`, `setbit`, `dbm_access`, `fetch`, `delete` and `store`
    over the two files and their one-block caches. */
module Dbm {
  import opened Wrappers
  import opened Arithmetic
  import opened DbmPage
  import opened DbmPairs
  import opened DbmTrie

  /** The bits in a block of the directory. */
  const DIRBITS: int := 8192 * 8

  function Block(pag: map<nat, seq<int>>, x: nat): seq<int> {
    if x in pag then pag[x] else seq(PBLKSIZ, _ => 0)
  }

  function DirBlock(dir: map<nat, seq<bool>>, b: nat): seq<bool> {
    if b in dir then dir[b] else seq(DIRBITS, _ => false)
  }

  ghost predicate DirBit(dir: map<nat, seq<bool>>, n: nat) {
    |DirBlock(dir, n / DIRBITS)| == DIRBITS && DirBlock(dir, n / DIRBITS)[n % DIRBITS]
  }

  ghost predicate BlockGood(dir: map<nat, seq<bool>>, b: nat) {
    |DirBlock(dir, b)| == DIRBITS
  }

  ghost predicate BitGood(dir: map<nat, seq<bool>>, bits: set<nat>, n: nat) {
    DirBit(dir, n) <==> n in bits
  }

  /** The directory file has these bits set, none of them above maxbno. */
  ghost predicate DirGood(dir: map<nat, seq<bool>>, bits: set<nat>, maxbno: int) {
    && (forall b: nat :: BlockGood(dir, b))
    && (forall n: nat :: BitGood(dir, bits, n))
    && (forall n | n in bits :: n <= maxbno)
  }

  ghost predicate OnDisk(pag: map<nat, seq<int>>, view: map<nat, seq<Pair>>, x: nat) {
    PairPage(Block(pag, x), PairsOf(view, x))
  }

  ghost predicate PagGood(pag: map<nat, seq<int>>, view: map<nat, seq<Pair>>) {
    forall x: nat :: OnDisk(pag, view, x)
  }

  /** The cached page holds the pairs of its block. */
  ghost predicate PageCached(pagbuf: seq<int>, oldb: int, view: map<nat, seq<Pair>>) {
    oldb >= 0 ==> PairPage(pagbuf, PairsOf(view, oldb))
  }

  ghost predicate DirCached(dirbuf: seq<bool>, oldd: int, dir: map<nat, seq<bool>>) {
    |dirbuf| == DIRBITS && (oldd >= 0 ==> dirbuf == DirBlock(dir, oldd))
  }

  lemma {:induction false} PutBit(dir: map<nat, seq<bool>>, bits: set<nat>, maxbno: int, n: nat, block: seq<bool>)
    requires DirGood(dir, bits, maxbno) && n <= maxbno
    requires block == DirBlock(dir, n / DIRBITS) && |block| == DIRBITS
    ensures DirGood(dir[n / DIRBITS := block[n % DIRBITS := true]], bits + {n}, maxbno)
  {
    var dir', bits' := dir[n / DIRBITS := block[n % DIRBITS := true]], bits + {n};
    forall b: nat ensures BlockGood(dir', b) {
      assert BlockGood(dir, b);
    }
    forall m: nat ensures BitGood(dir', bits', m) {
      assert BitGood(dir, bits, m);
      assert m == m / DIRBITS * DIRBITS + m % DIRBITS && n == n / DIRBITS * DIRBITS + n % DIRBITS;
    }
  }

  lemma {:induction false} PutPage(pag: map<nat, seq<int>>, view: map<nat, seq<Pair>>, x: nat, buf: seq<int>,
                                   pairs: seq<Pair>)
    requires PagGood(pag, view) && PairPage(buf, pairs)
    ensures PagGood(pag[x := buf], view[x := pairs])
  {
    var pag', view' := pag[x := buf], view[x := pairs];
    forall y: nat ensures OnDisk(pag', view', y) {
      assert OnDisk(pag, view, y);
    }
  }

  /** What finding a key, or not, on its home page says about the map. */
  lemma {:induction false} FetchedAt(hash: Datum -> nat, bits: set<nat>, view: map<nat, seq<Pair>>,
                                     content: map<Datum, Datum>, key: Datum, x: nat, i: int)
    requires Refines(hash, bits, view, content) && Home(bits, hash(key), x)
    requires Found(PairsOf(view, x), key, i)
    ensures key in content <==> i != -1
    ensures i != -1 ==> content[key] == PairsOf(view, x)[i / 2].val
  {
    FoundAtHome(hash, bits, view, content, key, x);
    if i != -1 {
      assert OnPage(view, x, key);
      assert PageGood(hash, bits, view, x, content);
      assert Good(hash, bits, x, PairsOf(view, x)[i / 2], content);
    }
  }

  /** The pairs of a page but the one found at item i. */
  ghost function RestOf(pairs: seq<Pair>, key: Datum, i: int): seq<Pair>
    requires Found(pairs, key, i)
  {
    if i == -1 then pairs else DropPair(pairs, i / 2)
  }

  lemma {:induction false} RestKeeps(hash: Datum -> nat, bits: set<nat>, view: map<nat, seq<Pair>>,
                                     content: map<Datum, Datum>, x: nat, key: Datum, i: int)
    requires Refines(hash, bits, view, content) && Home(bits, hash(key), x) && Found(PairsOf(view, x), key, i)
    ensures Refines(hash, bits, view[x := RestOf(PairsOf(view, x), key, i)], content - {key})
  {
    if i == -1 {
      FetchedAt(hash, bits, view, content, key, x, i);
      assert content - {key} == content;
      SameView(hash, bits, view, content, x);
    } else {
      RemoveKeeps(hash, bits, view, content, x, i / 2);
    }
  }

  lemma {:induction false} SameView(hash: Datum -> nat, bits: set<nat>, view: map<nat, seq<Pair>>,
                                    content: map<Datum, Datum>, x: nat)
    requires Refines(hash, bits, view, content)
    ensures Refines(hash, bits, view[x := PairsOf(view, x)], content)
  {
    var view' := view[x := PairsOf(view, x)];
    forall y: nat ensures PageGood(hash, bits, view', y, content) {
      assert PageGood(hash, bits, view, y, content);
    }
    forall k | k in content ensures Stored(view', k) {
      var y, j := WhereStored(view, k);
      StoredAt(view', y, j, k);
    }
  }

  lemma {:induction false} StoreKeeps(hash: Datum -> nat, bits: set<nat>, view: map<nat, seq<Pair>>,
                                      content: map<Datum, Datum>, x: nat, key: Datum, dat: Datum, i: int)
    requires Refines(hash, bits, view, content) && Home(bits, hash(key), x) && Found(PairsOf(view, x), key, i)
    ensures Refines(hash, bits, view[x := RestOf(PairsOf(view, x), key, i) + [Pair(key, dat)]], content[key := dat])
  {
    var rest := RestOf(PairsOf(view, x), key, i);
    var view', content' := view[x := rest], content - {key};
    RestKeeps(hash, bits, view, content, x, key, i);
    InsertKeeps(hash, bits, view', content', x, Pair(key, dat));
    assert view'[x := rest + [Pair(key, dat)]] == view[x := rest + [Pair(key, dat)]];
    assert content'[key := dat] == content[key := dat];
  }

  // ---------------------------------------------------------------- why store comes to an end

  /** Distinct pairs that all occur in another list take no more room than it. */
  lemma {:induction false} SubBytes(a: seq<Pair>, b: seq<Pair>)
    requires Distinct(a) && forall i | 0 <= i < |a| :: a[i] in b
    ensures |a| <= |b| && Bytes(a) <= Bytes(b)
    decreases |a|
  {
    if |a| > 0 {
      var less, p := a[..|a| - 1], a[|a| - 1];
      var j :| 0 <= j < |b| && b[j] == p;
      var b' := DropPair(b, j);
      forall i | 0 <= i < |less| ensures less[i] in b' {
        assert Apart(a, i, |a| - 1);
        assert a[i] in b;
        var k :| 0 <= k < |b| && b[k] == a[i];
        assert b'[if k < j then k else k - 1] == a[i];
      }
      forall i, k | 0 <= i < k < |less| ensures Apart(less, i, k) {
        assert Apart(a, i, k);
      }
      SubBytes(less, b');
      BytesDrop(b, j);
    }
  }

  /** Every other key that agrees with this one in the low bits is in the crowd. */
  ghost predicate InCrowd(hash: Datum -> nat, content: map<Datum, Datum>, key: Datum, depth: nat, crowd: seq<Pair>,
                          k: Datum)
  {
    k in content && k != key && hash(k) % Two(depth) == hash(key) % Two(depth) ==> Pair(k, content[k]) in crowd
  }

  /** At some depth, the entry fits on a page with all the others that would share it. */
  ghost predicate Settles(hash: Datum -> nat, content: map<Datum, Datum>, key: Datum, dat: Datum, depth: nat,
                          crowd: seq<Pair>)
  {
    && (forall k :: InCrowd(hash, content, key, depth, crowd, k))
    && Fits(Bytes(crowd) + |key| + |dat|, |crowd| + 1)
  }

  /** No page takes more than 505 bytes, though the size test lets 506 and 507 pass. */
  lemma {:induction false} LargestEntry(pairs: seq<Pair>, key: Datum, dat: Datum)
    ensures Fits(Bytes(pairs) + |key| + |dat|, |pairs| + 1) ==> |key| + |dat| <= 505
    ensures Fits(|key| + |dat|, 1) <==> |key| + |dat| <= 505
  {
  }

  lemma {:induction false} SettledPair(hash: Datum -> nat, bits: set<nat>, x: nat, p: Pair, content: map<Datum, Datum>,
                                       key: Datum, d: nat, depth: nat, crowd: seq<Pair>)
    requires Closed(bits) && IsLeaf(bits, hash(key), d) && x == hash(key) % Two(d) && depth <= d
    requires Good(hash, bits, x, p, content) && p.key != key && InCrowd(hash, content, key, depth, crowd, p.key)
    ensures p in crowd
  {
    var h, g := hash(key), hash(p.key);
    var e: nat :| IsLeaf(bits, g, e) && g % Two(e) == x;
    SameBlock(bits, h, d, g, e);
    SameNode(h, g, d, depth);
  }

  /** From that depth on, there is room on the page. */
  lemma {:induction false} Settled(hash: Datum -> nat, bits: set<nat>, pairs: seq<Pair>, x: nat,
                                   content: map<Datum, Datum>, key: Datum, dat: Datum, i: int, d: nat, depth: nat,
                                       crowd: seq<Pair>)
    requires Closed(bits) && IsLeaf(bits, hash(key), d) && x == hash(key) % Two(d) && depth <= d
    requires GoodPage(hash, bits, x, pairs, content) && Found(pairs, key, i)
    requires Settles(hash, content, key, dat, depth, crowd)
    ensures var rest := RestOf(pairs, key, i); Fits(Bytes(rest) + |key| + |dat|, |rest| + 1)
  {
    var rest := RestOf(pairs, key, i);
    if i != -1 {
      DropDistinct(pairs, i / 2);
    }
    forall j | 0 <= j < |rest| ensures rest[j] in crowd {
      var k := if i == -1 || j < i / 2 then j else j + 1;
      assert Good(hash, bits, x, pairs[k], content);
      if i != -1 {
        assert Apart(pairs, if k < i / 2 then k else i / 2, if k < i / 2 then i / 2 else k);
      }
      assert InCrowd(hash, content, key, depth, crowd, pairs[k].key);
      SettledPair(hash, bits, x, pairs[k], content, key, d, depth, crowd);
    }
    SubBytes(rest, crowd);
  }

  /** Fewer keys settle no later. */
  lemma {:induction false} StillSettles(hash: Datum -> nat, content: map<Datum, Datum>, key: Datum, dat: Datum,
                                        depth: nat, crowd: seq<Pair>)
    requires Settles(hash, content, key, dat, depth, crowd)
    ensures Settles(hash, content - {key}, key, dat, depth, crowd)
  {
    var less := content - {key};
    forall k ensures InCrowd(hash, less, key, depth, crowd, k) {
      assert InCrowd(hash, content, key, depth, crowd, k);
    }
  }

  /** Where the entry is stored it settles, with the other pairs of the page for its crowd. */
  lemma {:induction false} SettlesHere(hash: Datum -> nat, bits: set<nat>, view: map<nat, seq<Pair>>,
                                       content: map<Datum, Datum>, key: Datum, dat: Datum, i: int, d: nat, x: nat,
                                       rest: seq<Pair>)
    requires Refines(hash, bits, view, content) && IsLeaf(bits, hash(key), d) && x == hash(key) % Two(d)
    requires Found(PairsOf(view, x), key, i) && rest == RestOf(PairsOf(view, x), key, i)
    requires Fits(Bytes(rest) + |key| + |dat|, |rest| + 1)
    ensures Settles(hash, content, key, dat, d, rest)
  {
    forall k ensures InCrowd(hash, content, key, d, rest, k) {
      if k in content && k != key && hash(k) % Two(d) == hash(key) % Two(d) {
        SameLeaf(bits, hash(key), hash(k), d);
        FoundAtHome(hash, bits, view, content, k, x);
        var j := OnPageAt(hash, bits, view, content, k, x);
        RestHas(PairsOf(view, x), key, i, j);
      }
    }
  }

  lemma {:induction false} OnPageAt(hash: Datum -> nat, bits: set<nat>, view: map<nat, seq<Pair>>,
                                    content: map<Datum, Datum>, k: Datum, x: nat) returns (j: nat)
    requires Refines(hash, bits, view, content) && OnPage(view, x, k) && k in content
    ensures j < |PairsOf(view, x)| && PairsOf(view, x)[j] == Pair(k, content[k])
  {
    j :| 0 <= j < |PairsOf(view, x)| && PairsOf(view, x)[j].key == k;
    assert PageGood(hash, bits, view, x, content);
    assert Good(hash, bits, x, PairsOf(view, x)[j], content);
  }

  lemma {:induction false} RestHas(pairs: seq<Pair>, key: Datum, i: int, j: nat)
    requires Found(pairs, key, i) && j < |pairs| && pairs[j].key != key
    ensures pairs[j] in RestOf(pairs, key, i)
  {
    var rest := RestOf(pairs, key, i);
    assert rest[if i == -1 || j < i / 2 then j else j - 1] == pairs[j];
  }

  /** Every other entry with the very hash of this key is among the twins. */
  ghost predicate InTwins(hash: Datum -> nat, content: map<Datum, Datum>, key: Datum, twins: seq<Pair>, k: Datum) {
    k in content && k != key && hash(k) == hash(key) ==> Pair(k, content[k]) in twins
  }

  ghost predicate FitsTwins(hash: Datum -> nat, content: map<Datum, Datum>, key: Datum, dat: Datum, twins: seq<Pair>) {
    && (forall k :: InTwins(hash, content, key, twins, k))
    && Fits(Bytes(twins) + |key| + |dat|, |twins| + 1)
  }

  /** The entry fits on one page with all the others that have its hash: what a caller of `store` has to see to. */
  ghost predicate Fitting(hash: Datum -> nat, content: map<Datum, Datum>, key: Datum, dat: Datum) {
    exists twins :: FitsTwins(hash, content, key, dat, twins)
  }

  /** Deep enough, only equal hashes agree. */
  lemma {:induction false} DeepEnough(hash: Datum -> nat, keys: set<Datum>) returns (w: nat)
    ensures forall k | k in keys :: hash(k) < Two(w)
  {
    w := 0;
    if keys != {} {
      var x :| x in keys;
      var v := DeepEnough(hash, keys - {x});
      w := if v >= hash(x) then v else hash(x);
      TwoMonotone(hash(x), w);
      TwoMonotone(v, w);
    }
  }

  /** An entry settles at some depth exactly if it fits. */
  lemma {:induction false} SettlesIfFitting(hash: Datum -> nat, content: map<Datum, Datum>, key: Datum, dat: Datum)
    returns (depth: nat, crowd: seq<Pair>)
    requires Fitting(hash, content, key, dat)
    ensures Settles(hash, content, key, dat, depth, crowd)
  {
    crowd :| FitsTwins(hash, content, key, dat, crowd);
    depth := DeepEnough(hash, content.Keys + {key});
    forall k ensures InCrowd(hash, content, key, depth, crowd, k) {
      assert InTwins(hash, content, key, crowd, k);
      if k in content {
        QuotientIs(hash(k), Two(depth), 0, hash(k));
        QuotientIs(hash(key), Two(depth), 0, hash(key));
      }
    }
  }

  lemma {:induction false} FittingIfSettles(hash: Datum -> nat, content: map<Datum, Datum>, key: Datum, dat: Datum,
                                            depth: nat, crowd: seq<Pair>)
    requires Settles(hash, content, key, dat, depth, crowd)
    ensures Fitting(hash, content, key, dat) && |key| + |dat| <= 505
  {
    forall k ensures InTwins(hash, content, key, crowd, k) {
      assert InCrowd(hash, content, key, depth, crowd, k);
    }
    assert FitsTwins(hash, content, key, dat, crowd);
    LargestEntry(crowd, key, dat);
  }

  /** Entries of 506 and 507 bytes pass the size test and fit nowhere, whatever is stored. */
  lemma {:induction false} NeverFits(hash: Datum -> nat, content: map<Datum, Datum>, key: Datum, dat: Datum)
    requires 506 <= |key| + |dat| <= 507
    ensures |key| + |dat| + 4 < PBLKSIZ && !Fitting(hash, content, key, dat)
  {
    forall twins ensures !FitsTwins(hash, content, key, dat, twins) {
      LargestEntry(twins, key, dat);
    }
  }

  /** Two entries of the same hash share a page at every depth, so together they may have 501 bytes. */
  lemma {:induction false} TwinTooBig(hash: Datum -> nat, content: map<Datum, Datum>, key: Datum, dat: Datum, k: Datum)
    requires k in content && k != key && hash(k) == hash(key)
    requires |k| + |content[k]| + |key| + |dat| > 501
    ensures !Fitting(hash, content, key, dat)
  {
    forall twins ensures !FitsTwins(hash, content, key, dat, twins) {
      if FitsTwins(hash, content, key, dat, twins) {
        assert InTwins(hash, content, key, twins, k);
        var p := Pair(k, content[k]);
        var j :| 0 <= j < |twins| && twins[j] == p;
        BytesDrop(twins, j);
      }
    }
  }

  lemma {:induction false} FittingSame(hash: Datum -> nat, content: map<Datum, Datum>, key: Datum, dat: Datum)
    requires Fitting(hash, content - {key}, key, dat)
    ensures Fitting(hash, content, key, dat)
  {
    var twins :| FitsTwins(hash, content - {key}, key, dat, twins);
    forall k ensures InTwins(hash, content, key, twins, k) {
      assert InTwins(hash, content - {key}, key, twins, k);
    }
    assert FitsTwins(hash, content, key, dat, twins);
  }

  lemma {:induction false} PutAgain(content: map<Datum, Datum>, key: Datum, dat: Datum)
    ensures (content - {key})[key := dat] == content[key := dat]
    ensures content - {key} - {key} == content - {key}
  {
  }

  lemma {:induction false} Deeper(h: nat, bits: set<nat>, d: nat, level: nat)
    requires IsLeaf(bits, h, d) && forall e: nat | e < level :: Inner(bits, h, e)
    ensures level <= d && forall e: nat | e < d + 1 :: Inner(bits + {Node(h, d)}, h, e)
  {
    assert d < level ==> Inner(bits, h, d);
    var more := bits + {Node(h, d)};
    forall e: nat | e < d + 1 ensures Inner(more, h, e) {
      assert e < d ==> Inner(bits, h, e);
    }
  }

  datatype Outcome = Done | TooBig | Divided

  class Database {
    const hash: Datum -> nat
    var pag: map<nat, seq<int>>
    var dir: map<nat, seq<bool>>
    var maxbno: int
    var pagbuf: seq<int>
    var oldb: int
    var dirbuf: seq<bool>
    var oldd: int
    var hmask: int
    var blkno: nat
    var bitno: nat
    ghost var bits: set<nat>
    ghost var view: map<nat, seq<Pair>>
    ghost var content: map<Datum, Datum>

    ghost predicate DirValid()
      reads this
    {
      DirGood(dir, bits, maxbno) && DirCached(dirbuf, oldd, dir)
    }

    /** The files are the map. */
    ghost predicate DiskValid()
      reads this
    {
      Refines(hash, bits, view, content) && PagGood(pag, view) && DirValid()
    }

    /** The files are the map, and the cached blocks agree with them. */
    ghost predicate Valid()
      reads this
    {
      DiskValid() && PageCached(pagbuf, oldb, view)
    }

    /** The globals after `dbm_access` for a key at depth d. */
    ghost predicate AtLeaf(key: Datum, d: nat)
      reads this
    {
      && IsLeaf(bits, hash(key), d) && Home(bits, hash(key), blkno)
      && hmask == Two(d) - 1 && blkno == hash(key) % Two(d) && bitno == Node(hash(key), d)
      && oldb == blkno && (bitno <= maxbno ==> oldd == bitno / DIRBITS)
    }

    /** Two empty files. */
    constructor (hash: Datum -> nat)
      ensures Valid() && content == map[] && this.hash == hash
    {
      this.hash := hash;
      pag, dir, maxbno := map[], map[], -1;
      pagbuf, oldb, dirbuf, oldd := [], -1, seq(DIRBITS, _ => false), -1;
      hmask, blkno, bitno := 0, 0, 0;
      bits, view, content := {}, map[], map[];
      new;
      EmptyPage(seq(PBLKSIZ, _ => 0));
    }

    method GetBit() returns (b: bool)
      requires DirValid()
      modifies `dirbuf, `oldd
      ensures DirValid() && (b <==> bitno in bits)
      ensures bitno <= maxbno ==> oldd == bitno / DIRBITS
    {
      if bitno > maxbno {
        return false;
      }
      var i, blk := bitno % DIRBITS, bitno / DIRBITS;
      if blk != oldd {
        assert BlockGood(dir, blk);
        dirbuf := DirBlock(dir, blk);
        oldd := blk;
      }
      assert BitGood(dir, bits, bitno);
      return dirbuf[i];
    }

    method SetBit()
      requires DirValid() && (bitno <= maxbno ==> oldd == bitno / DIRBITS)
      modifies `maxbno, `dir, `dirbuf, `oldd, `bits
      ensures DirValid() && bits == old(bits) + {bitno}
    {
      if bitno > maxbno {
        maxbno := bitno;
        var b := GetBit();
      }
      var i, blk := bitno % DIRBITS, bitno / DIRBITS;
      PutBit(dir, bits, maxbno, bitno, dirbuf);
      dirbuf := dirbuf[i := true];
      dir := dir[blk := dirbuf];
      bits := bits + {bitno};
    }

    /** The loop of `dbm_access`: down the trie to the leaf of the hash. */
    method Descend(h: nat) returns (ghost d: nat)
      requires DirValid()
      modifies `hmask, `blkno, `bitno, `dirbuf, `oldd
      ensures DirValid() && IsLeaf(bits, h, d)
      ensures hmask == Two(d) - 1 && blkno == h % Two(d) && bitno == Node(h, d)
      ensures bitno <= maxbno ==> oldd == bitno / DIRBITS
    {
      hmask := 0;
      d := 0;
      while true
        invariant DirValid() && hmask == Two(d) - 1 && forall e: nat | e < d :: Inner(bits, h, e)
        decreases maxbno - d
      {
        blkno := h % (hmask + 1);
        bitno := blkno + hmask;
        var b := GetBit();
        assert b <==> Inner(bits, h, d);
        if !b {
          return;
        }
        TwoMonotone(d, d);
        assert d <= Node(h, d) <= maxbno;
        hmask := hmask * 2 + 1;
        d := d + 1;
      }
    }

    /** `dbm_access`: the page of the hash into the cache. */
    method Access(h: nat) returns (ghost d: nat)
      requires Valid()
      modifies `hmask, `blkno, `bitno, `dirbuf, `oldd, `pagbuf, `oldb
      ensures Valid() && IsLeaf(bits, h, d) && Home(bits, h, blkno)
      ensures hmask == Two(d) - 1 && blkno == h % Two(d) && bitno == Node(h, d)
      ensures oldb == blkno && PairPage(pagbuf, PairsOf(view, blkno))
      ensures bitno <= maxbno ==> oldd == bitno / DIRBITS
    {
      d := Descend(h);
      if blkno != oldb {
        assert OnDisk(pag, view, blkno);
        pagbuf := Block(pag, blkno);
        oldb := blkno;
      }
    }

    /** The page of a key in the cache, and the item number of the key there, or -1. */
    method Locate(key: Datum) returns (i: int, ghost d: nat)
      requires Valid()
      modifies `hmask, `blkno, `bitno, `dirbuf, `oldd, `pagbuf, `oldb
      ensures Valid() && AtLeaf(key, d) && PairPage(pagbuf, PairsOf(view, blkno))
      ensures Found(PairsOf(view, blkno), key, i)
      ensures key in content <==> i != -1
      ensures i != -1 ==> content[key] == PairsOf(view, blkno)[i / 2].val
    {
      d := Access(hash(key));
      i := FindKey(pagbuf, key, PairsOf(view, blkno));
      FetchedAt(hash, bits, view, content, key, blkno, i);
    }

    method Fetch(key: Datum) returns (item: Option<Datum>)
      requires Valid()
      modifies `hmask, `blkno, `bitno, `dirbuf, `oldd, `pagbuf, `oldb
      ensures Valid() && item == if key in content then Some(content[key]) else None
    {
      var i;
      ghost var d;
      i, d := Locate(key);
      if i == -1 {
        return None;
      }
      item := ValueAt(pagbuf, i, PairsOf(view, blkno));
    }

    method WritePage(ghost pairs: seq<Pair>)
      requires PagGood(pag, view) && PairPage(pagbuf, pairs) && oldb == blkno
      modifies `pag, `view
      ensures PagGood(pag, view) && view == old(view)[blkno := pairs] && PageCached(pagbuf, oldb, view)
    {
      PutPage(pag, view, blkno, pagbuf, pairs);
      pag := pag[blkno := pagbuf];
      view := view[blkno := pairs];
    }

    method DeleteAt(key: Datum, i: nat)
      requires Valid() && oldb == blkno && PairPage(pagbuf, PairsOf(view, blkno))
      requires Found(PairsOf(view, blkno), key, i)
      modifies `pagbuf, `pag, `view, `content
      ensures Valid() && content == old(content) - {key}
    {
      ghost var pairs := PairsOf(view, blkno);
      RemoveKeeps(hash, bits, view, content, blkno, i / 2);
      pagbuf := DelPair(pagbuf, i, pairs);
      WritePage(DropPair(pairs, i / 2));
      content := content - {key};
    }

    method Delete(key: Datum) returns (r: int)
      requires Valid()
      modifies this
      ensures Valid() && content == old(content) - {key} && r == if key in old(content) then 0 else -1
    {
      var i;
      ghost var d;
      i, d := Locate(key);
      if i == -1 {
        assert content - {key} == content;
        return -1;
      }
      DeleteAt(key, i);
      return 0;
    }

    /** One trip from `loop` on: the pair is stored, or too big, or the page is split. */
    method StorePass(key: Datum, dat: Datum) returns (out: Outcome, ghost d: nat, ghost i: int, ghost rest: seq<Pair>)
      requires Valid()
      modifies this
      ensures IsLeaf(old(bits), hash(key), d) && Found(PairsOf(old(view), hash(key) % Two(d)), key, i)
      ensures rest == RestOf(PairsOf(old(view), hash(key) % Two(d)), key, i)
      ensures out == Done <==> Fits(Bytes(rest) + |key| + |dat|, |rest| + 1)
      ensures out == Done ==> Valid() && content == old(content)[key := dat]
      ensures out == Done ==> Settles(hash, old(content), key, dat, d, rest)
      ensures out == Divided ==> Valid() && content == old(content) - {key}
      ensures out == Divided ==> bits == old(bits) + {Node(hash(key), d)} && |key| + |dat| + 4 < PBLKSIZ
      ensures out == TooBig ==> |key| + |dat| + 4 >= PBLKSIZ
      ensures out == TooBig ==> pag == old(pag) && dir == old(dir) && content == old(content)
      ensures out == TooBig ==> (Valid() <==> key !in content)
    {
      var ok;
      ok, d, i, rest := Prepare(key, dat);
      if ok {
        SettlesHere(hash, bits, view, content, key, dat, i, d, blkno, rest);
        StoreHere(key, dat, i);
        out := Done;
      } else if |key| + |dat| + 4 >= PBLKSIZ {
        TooBigState(key, i);
        out := TooBig;
      } else {
        SplitHere(key, i, d);
        out := Divided;
      }
    }

    /** `store` puts the pair in the map, provided that it fits with the others of its hash; an entry that is too big is
        refused, and then an old pair of its key is gone from the cached page but not from the file. */
    method Store(key: Datum, dat: Datum) returns (ok: bool)
      requires Valid()
      requires |key| + |dat| + 4 < PBLKSIZ ==> Fitting(hash, content, key, dat)
      modifies this
      ensures ok <==> |key| + |dat| + 4 < PBLKSIZ
      ensures ok ==> Valid() && content == old(content)[key := dat]
      ensures !ok ==> Refused(key, dat, old(pag), old(dir), old(content))
    {
      ghost var level: nat, depth: nat, crowd := 0, 0, [];
      if |key| + |dat| + 4 < PBLKSIZ {
        depth, crowd := SettlesIfFitting(hash, content, key, dat);
      }
      var out;
      out, level := StoreRound(key, dat, level, depth, crowd);
      while out == Divided
        invariant out == TooBig ==> Refused(key, dat, old(pag), old(dir), old(content))
        invariant out == Done ==> Valid() && content == old(content)[key := dat] && |key| + |dat| + 4 < PBLKSIZ
        invariant out == Divided ==> Trying(key, dat, level) && content == old(content) - {key}
        invariant out == Divided ==> level <= depth && Settles(hash, content, key, dat, depth, crowd)
        decreases depth - level, out == Divided
      {
        PutAgain(old(content), key, dat);
        out, level := StoreRound(key, dat, level, depth, crowd);
      }
      ok := out == Done;
    }

    /** At most so many rounds of `store`. When the entry fits nowhere every one of them is a split, however many are
        allowed: there `store` does not end. When it settles, it has ended before so many rounds as the depth has
        levels. */
    method StoreWithin(key: Datum, dat: Datum, limit: nat, ghost depth: nat, ghost crowd: seq<Pair>)
      returns (out: Outcome)
      requires Valid() && limit > 0
      modifies this
      ensures out == TooBig <==> |key| + |dat| + 4 >= PBLKSIZ
      ensures out == TooBig ==> Refused(key, dat, old(pag), old(dir), old(content))
      ensures out == Done ==> Valid() && content == old(content)[key := dat] && Fitting(hash, old(content), key, dat)
      ensures out == Divided ==> Valid() && content == old(content) - {key}
      ensures |key| + |dat| + 4 < PBLKSIZ && !Fitting(hash, old(content), key, dat) ==> out == Divided
      ensures Settles(hash, old(content), key, dat, depth, crowd) && depth < limit ==> out != Divided
    {
      ghost var level: nat;
      out, level := StoreRound(key, dat, 0, depth, crowd);
      var n: nat := 1;
      while out == Divided && n < limit
        invariant 1 <= n <= limit && (out == TooBig <==> |key| + |dat| + 4 >= PBLKSIZ)
        invariant out == TooBig ==> Refused(key, dat, old(pag), old(dir), old(content))
        invariant out == Done ==> Valid() && content == old(content)[key := dat]
                                  && Fitting(hash, old(content), key, dat)
        invariant out == Divided ==> Trying(key, dat, level) && content == old(content) - {key} && n <= level
        invariant out == Divided && Settles(hash, old(content), key, dat, depth, crowd) ==>
                    level <= depth && Settles(hash, content, key, dat, depth, crowd)
        decreases limit - n
      {
        PutAgain(old(content), key, dat);
        ghost var before := content;
        out, level := StoreRound(key, dat, level, depth, crowd);
        if Fitting(hash, before, key, dat) {
          FittingSame(hash, old(content), key, dat);
        }
        n := n + 1;
      }
    }

    /** Nothing is stored, and the cached page is wrong exactly if it had an old pair of the key. */
    ghost predicate Refused(key: Datum, dat: Datum, pag0: map<nat, seq<int>>, dir0: map<nat, seq<bool>>,
                            content0: map<Datum, Datum>)
      reads this
    {
      |key| + |dat| + 4 >= PBLKSIZ && pag == pag0 && dir == dir0 && content == content0
          && (Valid() <==> key !in content)
    }

    /** Between two rounds: the hash of the key is at least this deep. */
    ghost predicate Trying(key: Datum, dat: Datum, level: nat)
      reads this
    {
      Valid() && (forall e: nat | e < level :: Inner(bits, hash(key), e)) && |key| + |dat| + 4 < PBLKSIZ
    }

    method StoreRound(key: Datum, dat: Datum, ghost level0: nat, ghost depth: nat, ghost crowd: seq<Pair>)
      returns (out: Outcome, ghost level: nat)
      requires Valid() && forall e: nat | e < level0 :: Inner(bits, hash(key), e)
      modifies this
      ensures out == TooBig <==> |key| + |dat| + 4 >= PBLKSIZ
      ensures out == TooBig ==> Refused(key, dat, old(pag), old(dir), old(content))
      ensures out == Done ==> Valid() && content == old(content)[key := dat] && Fitting(hash, old(content), key, dat)
      ensures out == Divided ==> Trying(key, dat, level) && content == old(content) - {key}
      ensures out == Divided && Settles(hash, old(content), key, dat, depth, crowd) ==>
                level <= depth && Settles(hash, content, key, dat, depth, crowd)
      ensures if out == Divided then level0 < level else level == level0
    {
      ghost var d, i, rest;
      ghost var bits0, view0, content0 := bits, view, content;
      out, d, i, rest := StorePass(key, dat);
      level := level0;
      LargestEntry(rest, key, dat);
      if out == Done {
        FittingIfSettles(hash, content0, key, dat, d, rest);
      }
      if out == Divided {
        level := d + 1;
        Deeper(hash(key), bits0, d, level0);
        if Settles(hash, content0, key, dat, depth, crowd) {
          assert PageGood(hash, bits0, view0, hash(key) % Two(d), content0);
          if depth <= d {
            Settled(hash, bits0, PairsOf(view0, hash(key) % Two(d)), hash(key) % Two(d), content0, key, dat, i, d,
                    depth, crowd);
          }
          StillSettles(hash, content0, key, dat, depth, crowd);
        }
      }
    }

    /** The old pair, if any, deleted and the new one added, in the cached page only. */
    method Prepare(key: Datum, dat: Datum) returns (ok: bool, ghost d: nat, ghost i: int, ghost rest: seq<Pair>)
      requires Valid()
      modifies `hmask, `blkno, `bitno, `dirbuf, `oldd, `pagbuf, `oldb
      ensures DiskValid() && AtLeaf(key, d) && Found(PairsOf(view, blkno), key, i) && (key in content <==> i != -1)
      ensures rest == RestOf(PairsOf(view, blkno), key, i) && (ok <==> Fits(Bytes(rest) + |key| + |dat|, |rest| + 1))
      ensures PairPage(pagbuf, if ok then rest + [Pair(key, dat)] else rest)
    {
      var at;
      at, d := Locate(key);
      i := at;
      ghost var pairs := PairsOf(view, blkno);
      if at != -1 {
        pagbuf := DelPair(pagbuf, at, pairs);
      }
      rest := RestOf(pairs, key, i);
      pagbuf, ok := AddPair(pagbuf, key, dat, rest);
    }

    lemma {:induction false} TooBigState(key: Datum, i: int)
      requires DiskValid() && oldb == blkno && Found(PairsOf(view, blkno), key, i) && (key in content <==> i != -1)
      requires PairPage(pagbuf, RestOf(PairsOf(view, blkno), key, i))
      ensures Valid() <==> key !in content
    {
      if i != -1 {
        NotBoth(pagbuf, PairsOf(view, blkno), RestOf(PairsOf(view, blkno), key, i));
      }
    }

    /** The page with the new pair goes to disk. */
    method StoreHere(key: Datum, dat: Datum, ghost i: int)
      requires DiskValid() && oldb == blkno && Home(bits, hash(key), blkno) && Found(PairsOf(view, blkno), key, i)
      requires PairPage(pagbuf, RestOf(PairsOf(view, blkno), key, i) + [Pair(key, dat)])
      modifies `pag, `view, `content
      ensures Valid() && content == old(content)[key := dat]
    {
      ghost var pairs := RestOf(PairsOf(view, blkno), key, i) + [Pair(key, dat)];
      ghost var after := view[blkno := pairs];
      assert Refines(hash, bits, after, content[key := dat]) by {
        StoreKeeps(hash, bits, view, content, blkno, key, dat, i);
      }
      WritePage(pairs);
      assert view == after;
      content := content[key := dat];
    }

    /** `split`: half of the page goes to a new page, and the directory gets a bit. */
    method SplitHere(key: Datum, ghost i: int, ghost d: nat)
      requires DiskValid() && AtLeaf(key, d)
      requires Found(PairsOf(view, blkno), key, i) && PairPage(pagbuf, RestOf(PairsOf(view, blkno), key, i))
      modifies this
      ensures Valid() && content == old(content) - {key} && bits == old(bits) + {Node(hash(key), d)}
    {
      SplitFiles(key, i, d);
      SetBit();
    }

    method SplitFiles(key: Datum, ghost i: int, ghost d: nat)
      requires Refines(hash, bits, view, content) && PagGood(pag, view) && IsLeaf(bits, hash(key), d)
      requires hmask == Two(d) - 1 && blkno == hash(key) % Two(d) && oldb == blkno
      requires Found(PairsOf(view, blkno), key, i) && PairPage(pagbuf, RestOf(PairsOf(view, blkno), key, i))
      modifies `pagbuf, `pag, `view, `content
      ensures Refines(hash, bits + {Node(hash(key), d)}, view, content) && PagGood(pag, view)
      ensures PageCached(pagbuf, oldb, view) && content == old(content) - {key}
    {
      ghost var rest := RestOf(PairsOf(view, blkno), key, i);
      var upper := blkno + hmask + 1;
      SplitRest(hash, bits, view, content, key, i, d, blkno, upper, rest);
      var ovfbuf;
      pagbuf, ovfbuf := DividePage(pagbuf, hash, hmask + 1, rest);
      WriteBoth(upper, ovfbuf, Side(rest, |rest|, hash, Two(d), false), Side(rest, |rest|, hash, Two(d), true));
      content := content - {key};
    }

    method WriteBoth(upper: nat, ovfbuf: seq<int>, ghost low: seq<Pair>, ghost high: seq<Pair>)
      requires PagGood(pag, view) && PairPage(pagbuf, low) && PairPage(ovfbuf, high) && oldb == blkno && upper > blkno
      modifies `pag, `view
      ensures PagGood(pag, view) && view == old(view)[blkno := low][upper := high]
      ensures PageCached(pagbuf, oldb, view)
    {
      PutPage(pag, view, blkno, pagbuf, low);
      pag := pag[blkno := pagbuf];
      view := view[blkno := low];
      PutPage(pag, view, upper, ovfbuf, high);
      pag := pag[upper := ovfbuf];
      view := view[upper := high];
    }
  }

  /** A page is in one state only. */
  lemma {:induction false} NotBoth(buf: seq<int>, pairs: seq<Pair>, rest: seq<Pair>)
    requires PairPage(buf, rest) && |rest| != |pairs|
    ensures !PairPage(buf, pairs)
  {
  }

  lemma {:induction false} SplitRest(hash: Datum -> nat, bits: set<nat>, view: map<nat, seq<Pair>>,
                                     content: map<Datum, Datum>, key: Datum, i: int, d: nat, x: nat,
                                     upper: nat, rest: seq<Pair>)
    requires Refines(hash, bits, view, content) && IsLeaf(bits, hash(key), d) && x == hash(key) % Two(d)
    requires Found(PairsOf(view, x), key, i) && rest == RestOf(PairsOf(view, x), key, i) && upper == x + Two(d)
    ensures Refines(hash, bits + {Node(hash(key), d)},
              view[x := Side(rest, |rest|, hash, Two(d), false)][upper := Side(rest, |rest|, hash, Two(d), true)],
              content - {key})
  {
    RestKeeps(hash, bits, view, content, x, key, i);
    SplitKeeps(hash, bits, view[x := rest], content - {key}, hash(key), d);
    SplitTwice(view, x, rest, Two(d), hash);
  }

  lemma {:induction false} SplitTwice(view: map<nat, seq<Pair>>, x: nat, rest: seq<Pair>, bit: int, hash: Datum -> nat)
    requires bit > 0
    ensures SplitView(view[x := rest], x, bit, hash)
         == view[x := Side(rest, |rest|, hash, bit, false)][x + bit := Side(rest, |rest|, hash, bit, true)]
  {
  }
  /** A key of 506 bytes stored in an empty data base: however many rounds are allowed, all are splits. */
  method StoreEndless(hash: Datum -> nat, limit: nat) returns (db: Database, out: Outcome)
    requires limit > 0
    ensures fresh(db) && out == Divided
  {
    db := new Database(hash);
    var key := seq(506, _ => 0);
    NeverFits(hash, db.content, key, []);
    out := db.StoreWithin(key, [], limit, 0, []);
  }

  /** A key stored, and then an entry of 508 bytes refused for it: the pair is gone from the page in memory and not from
      the one in the file. */
  method StoreRefused(hash: Datum -> nat) returns (db: Database, first: bool, second: bool)
    ensures fresh(db) && first && !second && db.content == map[[1] := []] && !db.Valid()
  {
    db := new Database(hash);
    assert FitsTwins(hash, db.content, [1], [], []);
    first := db.Store([1], []);
    var dat := seq(507, _ => 0);
    second := db.Store([1], dat);
  }
}
