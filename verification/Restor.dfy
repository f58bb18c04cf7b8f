/** `restor r` (restor.c) on a file system: the three-block cache, the free chain, `bmap`, and truncation. */
module Restor {
  import opened RestorFree
  import opened RestorTree
  import opened RestorKeep

  const NCACHE: int := 3

  datatype Slot = Slot(bno: int, time: int, block: Block)

  /** A slot of the cache is unused or agrees with the disk. */
  ghost predicate SlotGood(disk: map<int, Block>, s: Slot) {
    |s.block| == WORDS && (s.bno == 0 || s.block == At(disk, s.bno))
  }

  /** Every slot agrees with the disk, and no block is cached twice. */
  ghost predicate CacheGood(disk: map<int, Block>, cache: seq<Slot>) {
    && |cache| == NCACHE
    && SlotGood(disk, cache[0]) && SlotGood(disk, cache[1]) && SlotGood(disk, cache[2])
    && (cache[0].bno == 0 || (cache[0].bno != cache[1].bno && cache[0].bno != cache[2].bno))
    && (cache[1].bno == 0 || cache[1].bno != cache[2].bno)
  }

  ghost predicate BlockSized(disk: map<int, Block>, b: int) {
    |At(disk, b)| == WORDS
  }

  ghost predicate Sized(disk: map<int, Block>) {
    forall b :: BlockSized(disk, b)
  }

  /** The same blocks in the same slots; only the times may differ. */
  ghost predicate SameSlots(cache: seq<Slot>, cache': seq<Slot>) {
    && |cache| == |cache'| == NCACHE
    && forall k | 0 <= k < NCACHE :: cache'[k].bno == cache[k].bno && cache'[k].block == cache[k].block
  }

  /** The loop of `dwrite`: the copy of the block, if there is one, is brought up to date. */
  method UpdateCache(cache0: seq<Slot>, ghost disk: map<int, Block>, bno: int, b: Block) returns (cache: seq<Slot>)
    requires CacheGood(disk, cache0) && |b| == WORDS
    ensures CacheGood(disk[bno := b], cache)
  {
    cache := cache0;
    var i := 0;
    while i < NCACHE
      invariant 0 <= i <= NCACHE && SameSlots(cache0, cache)
      invariant forall k | 0 <= k < i :: cache[k].bno != bno
    {
      if cache[i].bno == bno {
        ghost var was := cache;
        cache := cache[i := Slot(bno, 0, b)];
        Updated(disk, was, bno, b, i);
        return;
      }
      cache := cache[i := cache[i].(time := cache[i].time + 1)];
      i := i + 1;
    }
    assert cache[0].bno != bno && cache[1].bno != bno && cache[2].bno != bno;
  }

  lemma {:induction false} Updated(disk: map<int, Block>, cache: seq<Slot>, bno: int, b: Block, i: nat)
    requires CacheGood(disk, cache) && i < NCACHE && cache[i].bno == bno && |b| == WORDS
    ensures CacheGood(disk[bno := b], cache[i := Slot(bno, 0, b)])
  {
    assert i == 0 || i == 1 || i == 2;
  }

  /** The loop of `dread`: the slot that holds the block, or the slot unused longest. */
  method SearchCache(cache0: seq<Slot>, cur0: int, bno: int) returns (cache: seq<Slot>, cur: int, hit: bool, j: int)
    requires |cache0| == NCACHE && 0 <= cur0 < NCACHE
    ensures SameSlots(cache0, cache) && 0 <= cur < NCACHE && 0 <= j < NCACHE
    ensures hit ==> cache[cur].bno == bno
    ensures !hit ==> forall k | 0 <= k < NCACHE :: cache[k].bno != bno && cache[k].time <= cache[j].time
  {
    cache, cur, j := cache0, cur0, 0;
    var i := 0;
    while i < NCACHE
      invariant 0 <= i <= NCACHE && 0 <= j < NCACHE && 0 <= cur < NCACHE && SameSlots(cache0, cache)
      invariant cur == (cur0 + i) % NCACHE
      invariant forall k | 0 <= k < NCACHE ::
        (k + 2 * NCACHE - cur0 - 1) % NCACHE < i ==> cache[k].bno != bno && cache[k].time <= cache[j].time
    {
      cur := cur + 1;
      if cur >= NCACHE {
        cur := 0;
      }
      if cache[cur].bno == bno {
        cache := cache[cur := cache[cur].(time := 0)];
        hit := true;
        return;
      }
      cache := cache[cur := cache[cur].(time := cache[cur].time + 1)];
      if cache[j].time < cache[cur].time {
        j := cur;
      }
      i := i + 1;
    }
    hit := false;
  }

  lemma {:induction false} Loaded(disk: map<int, Block>, cache: seq<Slot>, bno: int, j: nat)
    requires CacheGood(disk, cache) && j < NCACHE && |At(disk, bno)| == WORDS
    requires forall k | 0 <= k < NCACHE :: cache[k].bno != bno
    ensures CacheGood(disk, cache[j := Slot(bno, 0, At(disk, bno))])
  {
    assert cache[0].bno != bno && cache[1].bno != bno && cache[2].bno != bno;
    assert j == 0 || j == 1 || j == 2;
  }

  class Volume {
    var disk: map<int, Block>
    var cache: seq<Slot>
    var curcache: int
    var nfree: int
    var sfree: seq<int>
    ghost var links: Links

    ghost predicate DiskValid()
      reads this
    {
      Sized(disk) && CacheGood(disk, cache) && 0 <= curcache < NCACHE
    }

    ghost predicate Valid()
      reads this
    {
      DiskValid() && ChainGood(disk, nfree, sfree, links)
    }

    ghost function Free(): set<int>
      reads this
    {
      ChainSet(disk, nfree, sfree, links)
    }

    /** The free blocks in the order in which they come off. */
    ghost function Order(): seq<int>
      reads this
    {
      ChainOrder(disk, nfree, sfree, links)
    }

    /** Nothing free yet: the list holds only the 0 that ends it, and no slot of the cache is used. */
    constructor (disk: map<int, Block>)
      requires Sized(disk)
      ensures Valid() && Free() == {} && Order() == [] && this.disk == disk
    {
      this.disk := disk;
      cache := seq(NCACHE, _ => Slot(0, 0, seq(WORDS, _ => 0)));
      curcache, nfree, sfree, links := 0, 1, seq(NICFREE, _ => 0), End;
    }

    // -------------------------------------------------------------- the cache

    /** `dwrite`: to the disk, and into the cache if the block is there. */
    method DWrite(bno: int, b: Block)
      requires DiskValid() && |b| == WORDS
      modifies `disk, `cache
      ensures DiskValid() && disk == old(disk)[bno := b]
    {
      cache := UpdateCache(cache, disk, bno, b);
      WriteSized(disk, bno, b);
      disk := disk[bno := b];
    }

    /** `dread`: from the cache if the block is there; otherwise from the disk into the slot unused longest. */
    method DRead(bno: int) returns (buf: Block)
      requires DiskValid()
      modifies `cache, `curcache
      ensures DiskValid() && |buf| == WORDS && (bno != 0 ==> buf == At(disk, bno))
    {
      var hit, j;
      ghost var was := cache;
      cache, curcache, hit, j := SearchCache(cache, curcache, bno);
      assert CacheGood(disk, cache) by {
        assert forall k | 0 <= k < NCACHE :: cache[k].bno == was[k].bno && cache[k].block == was[k].block;
      }
      if hit {
        assert SlotGood(disk, cache[curcache]) by {
          assert curcache == 0 || curcache == 1 || curcache == 2;
        }
        return cache[curcache].block;
      }
      assert BlockSized(disk, bno);
      Loaded(disk, cache, bno, j);
      cache := cache[j := Slot(bno, 0, At(disk, bno))];
      return cache[j].block;
    }

    // -------------------------------------------------------------- the free chain

    /** `bfree`: the block is free again; a full list goes into it first. */
    method BFree(bn: int)
      requires Valid() && bn > 0 && bn !in Free()
      modifies this
      ensures Valid() && Free() == old(Free()) + {bn} && OnlyAt(old(disk), disk, bn)
      ensures Order() == [bn] + old(Order())
    {
      ghost var was := disk;
      if nfree >= NICFREE {
        var fbuf := FreeBlock(nfree, sfree);
        DWrite(bn, fbuf);
        WriteSized(was, bn, fbuf);
        PushLink(was, disk, sfree, sfree[0 := bn], links, bn);
        OrderPushLink(was, disk, sfree, sfree[0 := bn], links, bn);
        nfree := 0;
        links := Link(bn, links);
      } else {
        Push(disk, nfree, sfree, sfree[nfree := bn], links, bn);
        OrderPush(disk, nfree, nfree + 1, sfree, sfree[nfree := bn], links, bn);
      }
      sfree := sfree[nfree := bn];
      nfree := nfree + 1;
    }

    /** `balloc`: a block of zeros off the free list, as long as there is one. */
    method BAlloc() returns (bno: int, ok: bool)
      requires Valid()
      modifies this
      ensures ok <==> old(Free()) != {}
      ensures ok ==> Valid() && bno in old(Free()) && Free() == old(Free()) - {bno}
      ensures ok ==> bno > 0 && ZeroAt(disk, bno) && OnlyAt(old(disk), disk, bno)
      ensures ok ==> old(Order()) == [bno] + Order()
    {
      ChainPositive(disk, nfree, sfree, links);
      bno := 0;
      if nfree != 0 {
        nfree := nfree - 1;
        bno := sfree[nfree];
      }
      if bno == 0 {
        return 0, false;
      }
      if nfree == 0 {
        PopLink(disk, sfree, links);
        OrderPopLink(disk, sfree, links);
        var fbuf := DRead(bno);
        nfree, sfree, links := Count(fbuf), List(fbuf), links.rest;
      } else {
        Pop(disk, nfree + 1, sfree, links);
        OrderPush(disk, nfree, nfree + 1, sfree, sfree, links, bno);
      }
      ghost var was := disk;
      var zeroes := seq(WORDS, _ => 0);
      DWrite(bno, zeroes);
      WriteSized(was, bno, zeroes);
      KeptChain(was, disk, nfree, sfree, links, bno);
      return bno, true;
    }

    // -------------------------------------------------------------- mapping

    ghost function View(iaddr: seq<int>): State
      reads this
    {
      State(disk, Free(), iaddr)
    }

    /** One level of the loop in `bmap`: the next block on the way, made if it is missing. */
    method MapStep(ghost iaddr: seq<int>, ghost bn: nat, nb: int, ghost k: nat, ghost next: nat, i: nat)
      returns (nnb: int, ok: bool)
      requires k == next + 1 && OnWay(iaddr, bn, k, nb) && i == Index(PlaceOf(bn).off, next)
      modifies this
      ensures ok ==> OnWay(iaddr, bn, next, nnb) && Kept(old(View(iaddr)), View(iaddr), bn)
      ensures if ok then |old(Free())| <= |Free()| + 1 else old(Free()) == {}
    {
      FileWalkIn(disk, iaddr, bn, k);
      WalkNext(disk, iaddr, bn, k, next, nb);
      var indir := DRead(nb);
      nnb, ok := indir[i], true;
      if nnb == 0 {
        nnb, ok := MapLink(iaddr, bn, nb, k, next, i, indir);
      } else {
        KeptSelf(View(iaddr), bn);
      }
    }

    method MapLink(ghost iaddr: seq<int>, ghost bn: nat, nb: int, ghost k: nat, ghost next: nat, i: nat, indir: Block)
      returns (nnb: int, ok: bool)
      requires k == next + 1 && OnWay(iaddr, bn, k, nb) && i == Index(PlaceOf(bn).off, next) && nb !in Free()
      requires indir == At(disk, nb) && |indir| == WORDS && i < WORDS && indir[i] == 0
      modifies this
      ensures ok ==> OnWay(iaddr, bn, next, nnb) && Kept(old(View(iaddr)), View(iaddr), bn)
      ensures if ok then |old(Free())| <= |Free()| + 1 else old(Free()) == {}
    {
      ghost var s := View(iaddr);
      nnb, ok := LinkNew(nb, i, indir);
      if ok {
        LinkKeepsFrom(s, View(iaddr), bn, k, next, nb, nnb);
      }
    }

    /** A new block of zeros, and its address written into an indirect block. */
    method LinkNew(nb: int, i: nat, indir: Block) returns (nnb: int, ok: bool)
      requires Valid() && nb !in Free() && indir == At(disk, nb) && |indir| == WORDS && i < WORDS && indir[i] == 0
      modifies this
      ensures if ok then |old(Free())| <= |Free()| + 1 else old(Free()) == {}
      ensures ok ==> Valid() && nnb in old(Free()) && nnb > 0 && Free() == old(Free()) - {nnb}
      ensures ok ==> LinkedAt(old(disk), disk, nb, i, nnb)
    {
      nnb, ok := BAlloc();
      if !ok {
        return;
      }
      ghost var was := disk;
      assert Same(old(disk), was, nb);
      DWrite(nb, indir[i := nnb]);
      WriteSized(was, nb, indir[i := nnb]);
      AfterLink(old(disk), was, disk, nb, i, nnb);
      KeptChain(was, disk, nfree, sfree, links, nb);
    }

    /** An empty address of the inode gets a new block of zeros. */
    method PlantNew(iaddr0: seq<int>, slot: nat, ghost bn: nat) returns (iaddr: seq<int>, nb: int, ok: bool)
      requires Valid() && Sound(View(iaddr0)) && PlaceOf(bn).Place? && slot == PlaceOf(bn).slot && iaddr0[slot] == 0
      modifies this
      ensures if ok then |old(Free())| <= |Free()| + 1 else old(Free()) == {}
      ensures ok ==> Valid() && Kept(old(View(iaddr0)), View(iaddr), bn)
      ensures ok ==> FileWalk(disk, iaddr, bn, PlaceOf(bn).level) == nb != 0
    {
      ghost var s := View(iaddr0);
      iaddr := iaddr0;
      nb, ok := BAlloc();
      if ok {
        iaddr := iaddr0[slot := nb];
        assert Planted(s, View(iaddr), PlaceOf(bn), nb);
        PlantKeeps(s, View(iaddr), bn, nb);
      }
    }

    /** On the way to bn, at level k. */
    ghost predicate OnWay(iaddr: seq<int>, bn: nat, k: nat, nb: int)
      reads this
    {
      && Valid() && Sound(View(iaddr)) && PlaceOf(bn).Place? && k <= PlaceOf(bn).level
      && FileWalk(disk, iaddr, bn, k) == nb && nb != 0
    }

    /** The address in the inode, or a new block put there. */
    method MapRoot(iaddr0: seq<int>, slot: nat, ghost bn: nat) returns (iaddr: seq<int>, nb: int, ok: bool)
      requires Valid() && Sound(View(iaddr0)) && PlaceOf(bn).Place? && slot == PlaceOf(bn).slot
      modifies this
      ensures if ok then |old(Free())| <= |Free()| + 1 else old(Free()) == {}
      ensures ok ==> OnWay(iaddr, bn, PlaceOf(bn).level, nb) && Kept(old(View(iaddr0)), View(iaddr), bn)
    {
      iaddr := iaddr0;
      nb := iaddr[slot];
      if nb != 0 {
        KeptSelf(View(iaddr), bn);
        return iaddr, nb, true;
      }
      iaddr, nb, ok := PlantNew(iaddr, slot, bn);
    }

    /** The loop of `bmap`: through the indirect blocks down to the data. */
    method MapDown(ghost iaddr: seq<int>, ghost bn: nat, j0: nat, b: nat, n0: int, nb0: int) returns (nb: int, ok: bool)
      requires 1 <= j0 <= 3 && PlaceOf(bn) == Place(NADDR - j0, 4 - j0, b) && n0 == Power(4 - j0)
      requires OnWay(iaddr, bn, 4 - j0, nb0)
      modifies this
      ensures if ok then |old(Free())| <= |Free()| + (4 - j0) else |old(Free())| < 4 - j0
      ensures ok ==> OnWay(iaddr, bn, 0, nb) && Kept(old(View(iaddr)), View(iaddr), bn)
    {
      ghost var s, k: nat := View(iaddr), 4 - j0;
      var j: nat, n := j0, n0;
      nb := nb0;
      KeptSelf(s, bn);
      while j <= 3
        invariant j0 <= j <= 4 && k == 4 - j && n == Power(k)
        invariant OnWay(iaddr, bn, k, nb) && Kept(s, View(iaddr), bn)
        invariant |s.free| <= |Free()| + (j - j0)
        decreases 4 - j
      {
        ghost var next: nat := k - 1;
        n, nb, ok := MapRound(iaddr, bn, nb, k, next, n, b, s);
        if !ok {
          return;
        }
        j, k := j + 1, next;
      }
      ok := true;
    }

    method MapRound(ghost iaddr: seq<int>, ghost bn: nat, nb0: int, ghost k: nat, ghost next: nat, n0: int, b: nat,
                    ghost s: State)
      returns (n: int, nb: int, ok: bool)
      requires k == next + 1 && OnWay(iaddr, bn, k, nb0) && Kept(s, View(iaddr), bn) && n0 == Power(k)
               && b == PlaceOf(bn).off
      modifies this
      ensures n == Power(next) && if ok then |old(Free())| <= |Free()| + 1 else old(Free()) == {}
      ensures ok ==> OnWay(iaddr, bn, next, nb) && Kept(s, View(iaddr), bn)
    {
      ghost var t := View(iaddr);
      var i: nat;
      n, i := Down(n0, k, next, b);
      nb, ok := MapStep(iaddr, bn, nb0, k, next, i);
      if ok {
        KeptTrans(s, t, View(iaddr), bn);
      }
    }

    /** `bmap`: the block of logical block bn, made with all the indirect blocks on the way; 0 if bn is too big. */
    method BMap(iaddr0: seq<int>, bn: nat) returns (iaddr: seq<int>, nb: int, ok: bool)
      requires |iaddr0| == NADDR && Valid() && Sound(View(Cleared(iaddr0, bn)))
      modifies this
      ensures ok ==> Valid() && Kept(old(View(Cleared(iaddr0, bn))), View(iaddr), bn) && nb == Find(View(iaddr), bn)
      ensures ok ==> (nb == 0 <==> PlaceOf(bn).TooFar?)
      ensures if ok then |old(Free())| <= |Free()| + 4 else PlaceOf(bn).Place? && |old(Free())| <= PlaceOf(bn).level
    {
      if bn < NADDR - 3 {
        iaddr, nb, ok := PlantNew(Cleared(iaddr0, bn), bn, bn);
        return;
      }
      iaddr := iaddr0;
      var j, b, n := FindLevel(bn);
      if j == 0 {
        KeptSelf(View(iaddr), bn);
        return iaddr, 0, true;
      }
      ghost var s := View(iaddr0);
      iaddr, nb, ok := MapRoot(iaddr0, NADDR - j, bn);
      if ok {
        ghost var t := View(iaddr);
        nb, ok := MapDown(iaddr, bn, j, b, n, nb);
        if ok {
          KeptTrans(s, t, View(iaddr), bn);
        }
      }
    }

    method Down(n: int, ghost k: nat, ghost next: nat, b: nat) returns (m: int, i: nat)
      requires k == next + 1 && n == Power(k)
      ensures m == Power(next) && i == Index(b, next)
    {
      m := n / NINDIR;
      i := b / m % NINDIR;
    }

    // -------------------------------------------------------------- truncating

    /** What an address leads to is freed, whatever its level. */
    method FreeKid(nb: int, k: nat)
      requires Valid() && KidGood(disk, nb, k, k) && k <= 3 && Kid(disk, nb, k, k) !! Free()
      modifies this
      ensures Valid() && Free() == old(Free()) + Kid(old(disk), nb, k, k)
      ensures OnlyIn(old(disk), disk, Kid(old(disk), nb, k, k))
      decreases k, 1
    {
      if nb != 0 {
        if k > 0 {
          TLoop(nb, k);
        } else {
          BFree(nb);
        }
      }
    }

    method FreeNext(a: seq<int>, i: nat, kind: Kind)
      requires Valid() && i < |a| && Rank(kind) <= 3 && KidsGood(disk, a, i + 1, kind)
               && Kids(disk, a, i + 1, kind) !! Free()
      modifies this
      ensures Valid() && KidsGood(disk, a, i, kind) && Kids(disk, a, i, kind) == Kids(old(disk), a, i, kind)
      ensures Kids(old(disk), a, i, kind) <= Kids(old(disk), a, i + 1, kind)
      ensures Free() == old(Free()) + (Kids(old(disk), a, i + 1, kind) - Kids(old(disk), a, i, kind))
      ensures OnlyIn(old(disk), disk, Kids(old(disk), a, i + 1, kind))
      decreases Rank(kind), 2
    {
      ghost var was := disk;
      KidOwnRank(disk, a[i], Level(kind, i), Rank(kind));
      KidSplit(disk, a, i, kind);
      FreeKid(a[i], Level(kind, i));
      KidFreed(was, disk, a, i, kind);
    }

    /** The loop of `itrunc` and `tloop` over a list of addresses, from the last to the first. */
    method FreeKids(a: seq<int>, n: nat, kind: Kind)
      requires Valid() && n <= |a| && Rank(kind) <= 3 && KidsGood(disk, a, n, kind) && Kids(disk, a, n, kind) !! Free()
      modifies this
      ensures Valid() && Free() == old(Free()) + Kids(old(disk), a, n, kind)
      ensures OnlyIn(old(disk), disk, Kids(old(disk), a, n, kind))
      decreases Rank(kind), 4
    {
      ghost var free, all := Free(), Kids(disk, a, n, kind);
      var i: nat := n;
      while i > 0
        invariant i <= n && Freeing(old(disk), free, all, a, i, kind)
      {
        ghost var next := i;
        i := i - 1;
        FreeOne(a, i, kind, next, old(disk), free, all);
      }
    }

    /** The first i addresses are still to be freed. */
    ghost predicate Freeing(disk0: map<int, Block>, free: set<int>, all: set<int>, a: seq<int>, i: nat, kind: Kind)
      reads this
    {
      && i <= |a| && Valid() && KidsGood(disk, a, i, kind) && Kids(disk, a, i, kind) <= all && all !! free
      && Free() == free + (all - Kids(disk, a, i, kind)) && OnlyIn(disk0, disk, all)
    }

    method FreeOne(a: seq<int>, i: nat, kind: Kind, ghost next: nat, ghost disk0: map<int, Block>, ghost free: set<int>,
                   ghost all: set<int>)
      requires next == i + 1 && Rank(kind) <= 3 && Freeing(disk0, free, all, a, next, kind)
      modifies this
      ensures Freeing(disk0, free, all, a, i, kind)
      decreases Rank(kind), 3
    {
      ghost var was := disk;
      FreeNext(a, i, kind);
      OnlyInTrans(disk0, was, disk, all);
    }

    /** `tloop`: frees all that hangs under an indirect block of level k, and the block itself. */
    method TLoop(bn: int, k: nat)
      requires Valid() && 0 < k <= 3 && TreeGood(disk, bn, k) && Blocks(disk, bn, k) !! Free()
      modifies this
      ensures Valid() && Free() == old(Free()) + Blocks(old(disk), bn, k)
      ensures OnlyIn(old(disk), disk, Blocks(old(disk), bn, k))
      decreases k, 0
    {
      var ibuf := DRead(bn);
      FreeKids(ibuf, NINDIR, Above(k - 1));
      ghost var was := disk;
      BFree(bn);
      OnlyInTrans(old(disk), was, disk, Blocks(old(disk), bn, k));
    }

    /** `itrunc`: every block of a file or directory is free again, once. */
    method ITrunc(mode: nat, iaddr: seq<int>) returns (size: Truncated)
      requires Valid() && Sound(View(iaddr))
      modifies this
      ensures Valid() && size == if IsFile(mode) then Zero else Unchanged
      ensures IsFile(mode) ==> Free() == old(Owned(View(iaddr)))
                               && OnlyIn(old(disk), disk, FileBlocks(old(disk), iaddr))
      ensures !IsFile(mode) ==> disk == old(disk) && Free() == old(Free())
    {
      if mode == 0 || !IsFile(mode) {
        return Unchanged;
      }
      FreeKids(iaddr, NADDR, Inode);
      return Zero;
    }

    // -------------------------------------------------------------- restoring a file

    /** `rstrfile`: one block from tape becomes logical block bn. */
    method RstrFile(taddr0: seq<int>, bn: nat, b: Block) returns (taddr: seq<int>, ok: bool)
      requires |taddr0| == NADDR && Valid() && Sound(View(Cleared(taddr0, bn))) && |b| == WORDS
      requires PlaceOf(bn).Place? && Find(View(Cleared(taddr0, bn)), bn) == 0
      modifies this
      ensures ok ==> Valid() && Stepped(old(View(Cleared(taddr0, bn))), View(taddr), bn, b)
      ensures |old(Free())| < if ok then |Free()| + 5 else 4
    {
      ghost var s := View(Cleared(taddr0, bn));
      var d;
      taddr, d, ok := BMap(taddr0, bn);
      if !ok {
        return;
      }
      WriteData(s, taddr, bn, d, b);
    }

    method WriteData(ghost s: State, ghost taddr: seq<int>, ghost bn: nat, d: int, b: Block)
      requires Valid() && Sound(s) && Find(s, bn) == 0 && Kept(s, View(taddr), bn) && d == Find(View(taddr), bn) != 0
      requires PlaceOf(bn).Place? && |b| == WORDS
      modifies this
      ensures Valid() && Stepped(s, View(taddr), bn, b) && Free() == old(Free())
    {
      ghost var t := View(taddr);
      FileWalkIn(disk, taddr, bn, 0);
      DWrite(d, b);
      WriteSized(t.disk, d, b);
      KeptChain(t.disk, disk, nfree, sfree, links, d);
      DataWritten(s, t, View(taddr), bn, d, b);
    }

    /** One round of the loop of `getfile`: `rstrfile` for a block on tape, `rstrskip` for a hole. */
    method RestoreNext(taddr0: seq<int>, curbno: nat, tape: seq<TapeBlock>, ghost s: State)
      returns (taddr: seq<int>, ok: bool)
      requires |taddr0| == NADDR && Valid() && Restoring(s, View(Cleared(taddr0, curbno)), tape, curbno)
      requires curbno < |tape| && PlaceOf(curbno).Place? && (tape[curbno].Data? ==> |tape[curbno].block| == WORDS)
      requires tape[curbno].Hole? ==> Cleared(taddr0, curbno) == taddr0
      modifies this
      ensures ok ==> Valid() && Restoring(s, View(taddr), tape, curbno + 1)
      ensures |old(Free())| < if ok then |Free()| + 5 else 4
    {
      ghost var t := View(Cleared(taddr0, curbno));
      match tape[curbno]
      case Data(b) =>
        assert Restored(tape, curbno, t, curbno);
        taddr, ok := RstrFile(taddr0, curbno, b);
        if ok {
          RestoreStep(s, t, View(taddr), tape, curbno);
        }
      case Hole =>
        RestoreSkip(s, t, tape, curbno);
        return taddr0, true;
    }

    /** The first blocks of the tape are restored; the address of the next is 0 or about to be cleared. */
    ghost predicate Underway(s: State, tape: seq<TapeBlock>, taddr: seq<int>, n: nat)
      reads this
    {
      && |taddr| == NADDR && Valid() && Restoring(s, View(Cleared(taddr, n)), tape, n)
      && (n < |tape| && tape[n].Hole? ==> Cleared(taddr, n) == taddr)
    }

    /** So many blocks have come off the free list, at most four for each block of the tape. */
    ghost predicate Room(room: nat, n: nat)
      reads this
    {
      room <= |Free()| + 4 * n
    }

    method RestoreRound(taddr0: seq<int>, curbno: nat, tape: seq<TapeBlock>, ghost s: State, ghost room: nat,
                        ghost next: nat)
      returns (taddr: seq<int>, ok: bool)
      requires Underway(s, tape, taddr0, curbno) && curbno < |tape| && WholeBlocks(tape) && next == curbno + 1
      requires |tape| <= NADDR - 3 + Power(1) + Power(2) + Power(3) && Room(room, curbno)
      modifies this
      ensures ok ==> Underway(s, tape, taddr, next) && Restoring(s, View(taddr), tape, next) && Room(room, next)
      ensures !ok ==> room < 4 * next
    {
      WithinReach(curbno);
      taddr, ok := RestoreNext(taddr0, curbno, tape, s);
      if ok {
        NextClear(s, View(taddr), tape, next);
      }
    }

    /** The loop of `getfile`. */
    method RestoreAll(tape: seq<TapeBlock>, taddr0: seq<int>, ghost s: State) returns (taddr: seq<int>, ok: bool)
      requires WholeBlocks(tape) && |tape| <= NADDR - 3 + Power(1) + Power(2) + Power(3) && Underway(s, tape, taddr0, 0)
      requires tape == [] ==> Restoring(s, View(taddr0), tape, 0)
      modifies this
      ensures ok ==> |taddr| == NADDR && Valid() && Restoring(s, View(taddr), tape, |tape|)
      ensures |old(Free())| >= 4 * |tape| ==> ok
    {
      var curbno: nat := 0;
      ghost var room := |Free()|;
      taddr, ok := taddr0, true;
      while curbno < |tape|
        invariant curbno <= |tape| && Underway(s, tape, taddr, curbno)
        invariant curbno > 0 || tape == [] ==> Restoring(s, View(taddr), tape, curbno)
        invariant Room(room, curbno)
        decreases |tape| - curbno
      {
        ghost var next := curbno + 1;
        taddr, ok := RestoreRound(taddr, curbno, tape, s, room, next);
        if !ok {
          return;
        }
        curbno := curbno + 1;
      }
    }

    /** A whole file from tape: its blocks read back as on tape, its holes are holes, and what it uses it has
        taken from the free list. */
    method RestoreFile(tape: seq<TapeBlock>, first: int) returns (taddr: seq<int>, ok: bool)
      requires Valid() && WholeBlocks(tape)
      requires |tape| <= NADDR - 3 + Power(1) + Power(2) + Power(3)
      requires first != 0 ==> |tape| > 0 && tape[0].Data?
      modifies this
      ensures ok ==> Valid() && Sound(View(taddr)) && Owned(View(taddr)) == old(Free())
      ensures ok ==> forall m: nat :: Restored(tape, |tape|, View(taddr), m)
      ensures ok ==> OnlyIn(old(disk), disk, old(Free()))
      ensures |old(Free())| >= 4 * |tape| ==> ok
    {
      taddr := seq(NADDR, i => if i == 0 then first else 0);
      ChainPositive(disk, nfree, sfree, links);
      ghost var s := View(Cleared(taddr, 0));
      RestoreStart(s, tape);
      assert tape == [] ==> Cleared(taddr, 0) == taddr;
      taddr, ok := RestoreAll(tape, taddr, s);
    }

    /** Restoring a file and truncating it gives every block back. */
    method RestoreAndTruncate(tape: seq<TapeBlock>, first: int, mode: nat) returns (ok: bool)
      requires Valid() && WholeBlocks(tape)
      requires |tape| <= NADDR - 3 + Power(1) + Power(2) + Power(3)
      requires (first != 0 ==> |tape| > 0 && tape[0].Data?) && IsFile(mode)
      modifies this
      ensures ok ==> Valid() && Free() == old(Free())
      ensures |old(Free())| >= 4 * |tape| ==> ok
    {
      var taddr, size;
      taddr, ok := RestoreFile(tape, first);
      if ok {
        size := ITrunc(mode, taddr);
      }
    }
  }

  lemma {:induction false} OnlyInTrans(d: map<int, Block>, e: map<int, Block>, f: map<int, Block>, s: set<int>)
    requires OnlyIn(d, e, s) && forall c | c !in s :: Same(e, f, c)
    ensures OnlyIn(d, f, s)
  {
    forall c | c !in s ensures Same(d, f, c) {
      assert Same(d, e, c) && Same(e, f, c);
    }
  }

  lemma {:induction false} KidSplit(disk: map<int, Block>, a: seq<int>, i: nat, kind: Kind)
    requires i < |a| && KidsGood(disk, a, i + 1, kind)
    ensures KidGood(disk, a[i], Level(kind, i), Rank(kind))
    ensures Kids(disk, a, i + 1, kind) == Kids(disk, a, i, kind) + Kid(disk, a[i], Level(kind, i), Rank(kind))
    ensures Kids(disk, a, i, kind) !! Kid(disk, a[i], Level(kind, i), Rank(kind))
  {
  }

  datatype Truncated = Zero | Unchanged

  datatype TapeBlock = Hole | Data(block: Block)

  /** The type bits of the mode say directory or ordinary file. */
  predicate IsFile(mode: nat) {
    mode / 4096 % 16 == 4 || mode / 4096 % 16 == 8
  }

  lemma {:induction false} KidFreed(was: map<int, Block>, disk: map<int, Block>, a: seq<int>, i: nat, kind: Kind)
    requires i < |a| && KidsGood(was, a, i + 1, kind)
    requires OnlyIn(was, disk, Kid(was, a[i], Level(kind, i), Rank(kind)))
    ensures KidsGood(disk, a, i, kind) && Kids(disk, a, i, kind) == Kids(was, a, i, kind)
    ensures Kids(was, a, i + 1, kind) == Kids(was, a, i, kind) + Kid(was, a[i], Level(kind, i), Rank(kind))
    ensures Kids(was, a, i, kind) !! Kid(was, a[i], Level(kind, i), Rank(kind))
  {
    KidsFrame(was, disk, a, i, kind);
  }

  /** The rank plays no part in what hangs under an address. */
  lemma {:induction false} KidOwnRank(disk: map<int, Block>, b: int, k: nat, rank: nat)
    requires KidGood(disk, b, k, rank)
    ensures KidGood(disk, b, k, k) && Kid(disk, b, k, k) == Kid(disk, b, k, rank)
  {
  }

  // ---------------------------------------------------------------- what restoring keeps

  /** Block b has become logical block bn; all others are where they were, with what they held. */
  ghost predicate Stepped(s: State, t: State, bn: nat, b: Block) {
    && Sound(t) && t.free <= s.free && Owned(t) == Owned(s)
    && (forall m: nat | m != bn :: Undisturbed(s, t, m) && StillHole(s, t, m))
    && Find(t, bn) != 0 && At(t.disk, Find(t, bn)) == b
    && (forall c :: Outside(s, t, c))
  }

  lemma {:induction false} DataWritten(s: State, t: State, u: State, bn: nat, d: int, b: Block)
    requires Sound(s) && Find(s, bn) == 0 && Kept(s, t, bn) && d == Find(t, bn) != 0
    requires u.free == t.free && u.iaddr == t.iaddr && OnlyAt(t.disk, u.disk, d) && At(u.disk, d) == b
    ensures Stepped(s, u, bn, b)
  {
    LeafFile(t.disk, u.disk, t.iaddr, bn, d);
    FileWalkIn(t.disk, t.iaddr, bn, 0);
    forall m: nat | m != bn ensures Undisturbed(s, u, m) && StillHole(s, u, m) {
      assert Undisturbed(s, t, m) && StillHole(s, t, m);
      if Find(s, m) != 0 {
        LookupApart(t.disk, t.iaddr, m, bn, 0);
        assert Same(t.disk, u.disk, Find(t, m));
      }
    }
    forall c ensures Outside(s, u, c) {
      assert Outside(s, t, c);
      assert c != d ==> Same(t.disk, u.disk, c);
    }
  }

  /** Of the first n blocks of the tape, block m is on the disk; all other logical blocks are holes. */
  ghost predicate Restored(tape: seq<TapeBlock>, n: nat, t: State, m: nat)
    requires n <= |tape|
  {
    if m < n && tape[m].Data? then Find(t, m) != 0 && At(t.disk, Find(t, m)) == tape[m].block else Find(t, m) == 0
  }

  ghost predicate Restoring(s: State, t: State, tape: seq<TapeBlock>, n: nat) {
    && n <= |tape| && Sound(t) && Owned(t) == s.free && OnlyIn(s.disk, t.disk, s.free)
    && forall m: nat :: Restored(tape, n, t, m)
  }

  lemma {:induction false} RestoreStart(s: State, tape: seq<TapeBlock>)
    requires |s.iaddr| == NADDR && (forall j | 0 <= j < NADDR :: s.iaddr[j] == 0) && forall b | b in s.free :: b > 0
    ensures Restoring(s, s, tape, 0)
  {
    NoKids(s.disk, s.iaddr, NADDR, Inode);
  }

  lemma {:induction false} RestoreStep(s: State, t: State, u: State, tape: seq<TapeBlock>, n: nat)
    requires Restoring(s, t, tape, n) && n < |tape| && tape[n].Data? && Stepped(t, u, n, tape[n].block)
    ensures Restoring(s, u, tape, n + 1)
  {
    var next := n + 1;
    forall m: nat ensures Restored(tape, next, u, m) {
      assert Restored(tape, n, t, m);
      if m != n {
        assert Undisturbed(t, u, m) && StillHole(t, u, m);
      }
    }
    forall c | c !in s.free ensures Same(s.disk, u.disk, c) {
      assert Outside(t, u, c);
      assert Same(s.disk, t.disk, c);
    }
  }

  lemma {:induction false} RestoreSkip(s: State, t: State, tape: seq<TapeBlock>, n: nat)
    requires Restoring(s, t, tape, n) && n < |tape| && tape[n].Hole?
    ensures Restoring(s, t, tape, n + 1)
  {
    var next := n + 1;
    forall m: nat ensures Restored(tape, next, t, m) {
      assert Restored(tape, n, t, m);
    }
  }

  /** The address of the next block is still 0. */
  lemma {:induction false} NextClear(s: State, t: State, tape: seq<TapeBlock>, n: nat)
    requires Restoring(s, t, tape, n)
    ensures Cleared(t.iaddr, n) == t.iaddr
  {
    assert Restored(tape, n, t, n);
  }

  lemma {:induction false} AfterLink(disk: map<int, Block>, was: map<int, Block>, disk': map<int, Block>, nb: int,
                                     i: nat, z: int)
    requires OnlyAt(disk, was, z) && ZeroAt(was, z) && nb != z && |At(disk, nb)| == NINDIR && i < NINDIR
    requires At(disk, nb)[i] == 0 && disk' == was[nb := At(disk, nb)[i := z]]
    ensures LinkedAt(disk, disk', nb, i, z)
  {
    forall b | b != z && b != nb ensures Same(disk, disk', b) {
      assert Same(disk, was, b);
    }
  }

  lemma {:induction false} KeptChain(disk: map<int, Block>, disk': map<int, Block>, n: int, fr: seq<int>, links: Links,
                                     b: int)
    requires ChainGood(disk, n, fr, links) && b !in ChainSet(disk, n, fr, links) && OnlyAt(disk, disk', b)
    ensures ChainGood(disk', n, fr, links) && ChainSet(disk', n, fr, links) == ChainSet(disk, n, fr, links)
    ensures ChainOrder(disk', n, fr, links) == ChainOrder(disk, n, fr, links)
  {
    forall c | c in ChainSet(disk, n, fr, links) ensures Same(disk, disk', c) {
    }
    ChainFrame(disk, disk', n, fr, links);
    OrderFrame(disk, disk', n, fr, links);
  }

  lemma {:induction false} WalkNext(disk: map<int, Block>, iaddr: seq<int>, bn: nat, k: nat, to: nat, nb: int)
    requires FileGood(disk, iaddr) && PlaceOf(bn).Place? && k == to + 1 && k <= PlaceOf(bn).level
    requires FileWalk(disk, iaddr, bn, k) == nb != 0
    ensures |At(disk, nb)| == NINDIR && FileWalk(disk, iaddr, bn, to) == At(disk, nb)[Index(PlaceOf(bn).off, to)]
  {
    var p := PlaceOf(bn);
    KidIn(disk, iaddr, NADDR, Inode, p.slot);
    TreeNext(disk, iaddr[p.slot], p.level, p.off, to, nb);
  }

  lemma {:induction false} TreeNext(disk: map<int, Block>, b: int, k: nat, off: nat, to: nat, nb: int)
    requires to < k && TreeGood(disk, b, k) && Walk(disk, b, k, off, to + 1) == nb != 0
    ensures |At(disk, nb)| == NINDIR && Walk(disk, b, k, off, to) == At(disk, nb)[Index(off, to)]
    decreases k
  {
    if k > to + 1 {
      KidIn(disk, At(disk, b), NINDIR, Above(k - 1), Index(off, k - 1));
      TreeNext(disk, At(disk, b)[Index(off, k - 1)], k - 1, off, to, nb);
    }
  }

  /** The addresses, without regard to a direct address that is about to be overwritten. */
  function Cleared(iaddr: seq<int>, bn: nat): (a: seq<int>)
    requires |iaddr| == NADDR
    ensures |a| == NADDR
  {
    if bn < NADDR - 3 then iaddr[bn := 0] else iaddr
  }

  ghost predicate WholeBlocks(tape: seq<TapeBlock>) {
    forall m | 0 <= m < |tape| :: tape[m].Data? ==> |tape[m].block| == WORDS
  }

  lemma {:induction false} WithinReach(bn: nat)
    requires bn < NADDR - 3 + Power(1) + Power(2) + Power(3)
    ensures PlaceOf(bn).Place?
  {
  }

  /** The levels tried in turn: j is the distance of the slot from the end, b the number within it. */
  method FindLevel(bn: nat) returns (j: nat, b: nat, n: int)
    requires bn >= NADDR - 3
    ensures if j == 0 then PlaceOf(bn).TooFar?
            else j <= 3 && PlaceOf(bn) == Place(NADDR - j, 4 - j, b) && n == Power(4 - j)
  {
    j, b, n := 3, bn - (NADDR - 3), 1;
    assert Power(0) == 1 && Power(1) == NINDIR && Power(2) == NINDIR * Power(1) && Power(3) == NINDIR * Power(2);
    while j > 0
      invariant j <= 3 && n == Power(3 - j)
      invariant bn == b + (NADDR - 3) + (if j < 3 then Power(1) else 0) + (if j < 2 then Power(2) else 0)
                      + (if j < 1 then Power(3) else 0)
      decreases j
    {
      n := n * NINDIR;
      if b < n {
        return;
      }
      b := b - n;
      j := j - 1;
    }
  }

  /** A list of free blocks as it is written out; the rest of the buffer is whatever it was. */
  method FreeBlock(nfree: int, sfree: seq<int>) returns (fbuf: Block)
    requires |sfree| == NICFREE
    ensures |fbuf| == WORDS && Count(fbuf) == nfree && List(fbuf) == sfree
  {
    assert |seq<int>(WORDS, _ => 0)| == WORDS;
    fbuf :| |fbuf| == WORDS;
    fbuf := fbuf[0 := nfree];
    var i := 0;
    while i < NICFREE
      invariant 0 <= i <= NICFREE && |fbuf| == WORDS && fbuf[0] == nfree
      invariant forall k | 0 <= k < i :: fbuf[1 + k] == sfree[k]
    {
      fbuf := fbuf[1 + i := sfree[i]];
      i := i + 1;
    }
  }

  lemma {:induction false} WriteSized(disk: map<int, Block>, bno: int, b: Block)
    requires Sized(disk) && |b| == WORDS
    ensures Sized(disk[bno := b]) && OnlyAt(disk, disk[bno := b], bno)
  {
    var disk' := disk[bno := b];
    forall c ensures BlockSized(disk', c) {
      assert BlockSized(disk, c);
    }
  }
}
