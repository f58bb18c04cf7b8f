/** What allocating a block for a file keeps: no block lost or used twice, and no earlier mapping disturbed. */
module RestorKeep {
  import opened RestorFree
  import opened RestorTree

  /** A disk, its free blocks, and the addresses of one file. */
  datatype State = State(disk: map<int, Block>, free: set<int>, iaddr: seq<int>)

  /** The file is good, and none of its blocks is free. */
  ghost predicate Sound(s: State) {
    && FileGood(s.disk, s.iaddr) && s.free !! FileBlocks(s.disk, s.iaddr)
    && forall b | b in s.free :: b > 0
  }

  ghost function Owned(s: State): set<int> {
    s.free + FileBlocks(s.disk, s.iaddr)
  }

  ghost function Find(s: State, bn: nat): int {
    Lookup(s.disk, s.iaddr, bn)
  }

  /** Logical block m is where it was, with what it held. */
  ghost predicate Undisturbed(s: State, t: State, m: nat) {
    Find(s, m) != 0 ==> Find(t, m) == Find(s, m) && Same(s.disk, t.disk, Find(s, m))
  }

  ghost predicate StillHole(s: State, t: State, m: nat) {
    Find(s, m) == 0 ==> Find(t, m) == 0
  }

  ghost predicate Outside(s: State, t: State, b: int) {
    b !in Owned(s) ==> Same(s.disk, t.disk, b)
  }

  /** From s to t blocks moved from the free list into the file, for logical block bn only. */
  ghost predicate Kept(s: State, t: State, bn: nat) {
    && Sound(t) && t.free <= s.free && Owned(t) == Owned(s)
    && (forall m: nat :: Undisturbed(s, t, m))
    && (forall m: nat | m != bn :: StillHole(s, t, m))
    && (Find(s, bn) == 0 ==> Find(t, bn) == 0 || Find(t, bn) in s.free)
    && (forall b :: Outside(s, t, b))
  }

  lemma {:induction false} KeptSelf(s: State, bn: nat)
    requires Sound(s)
    ensures Kept(s, s, bn)
  {
  }

  lemma {:induction false} KeptTrans(s: State, t: State, u: State, bn: nat)
    requires Kept(s, t, bn) && Kept(t, u, bn)
    ensures Kept(s, u, bn)
  {
    forall m: nat ensures Undisturbed(s, u, m) {
      assert Undisturbed(s, t, m) && Undisturbed(t, u, m);
    }
    forall m: nat | m != bn ensures StillHole(s, u, m) {
      assert StillHole(s, t, m) && StillHole(t, u, m);
    }
    assert Undisturbed(t, u, bn);
    forall b ensures Outside(s, u, b) {
      assert Outside(s, t, b) && Outside(t, u, b);
    }
  }

  ghost predicate ZeroAt(disk: map<int, Block>, z: int) {
    |At(disk, z)| == NINDIR && forall j | 0 <= j < NINDIR :: At(disk, z)[j] == 0
  }

  /** Block z has come off the free list, and logical block m is where it was, or is bn and is now z. */
  ghost predicate OneFound(s: State, t: State, bn: nat, z: int, m: nat) {
    Find(t, m) == Find(s, m) || (m == bn && Find(s, m) == 0 && Find(t, m) == z)
  }

  ghost predicate DataSame(s: State, t: State, m: nat) {
    Find(s, m) != 0 ==> Same(s.disk, t.disk, Find(s, m))
  }

  ghost predicate Elsewhere(s: State, t: State, z: int, b: int) {
    b != z && b !in FileBlocks(s.disk, s.iaddr) ==> Same(s.disk, t.disk, b)
  }

  /** From what became of the blocks and the ways to what is kept. */
  lemma {:induction false} KeptLookups(s: State, t: State, bn: nat, z: int)
    requires Sound(s) && z in s.free && t.free == s.free - {z} && FileGood(t.disk, t.iaddr)
    requires FileBlocks(t.disk, t.iaddr) == FileBlocks(s.disk, s.iaddr) + {z}
    requires forall m: nat :: OneFound(s, t, bn, z, m)
    requires forall m: nat :: DataSame(s, t, m)
    requires forall b :: Elsewhere(s, t, z, b)
    ensures Kept(s, t, bn)
  {
    forall m: nat ensures Undisturbed(s, t, m) {
      assert OneFound(s, t, bn, z, m) && DataSame(s, t, m);
    }
    forall m: nat | m != bn ensures StillHole(s, t, m) {
      assert OneFound(s, t, bn, z, m);
    }
    assert OneFound(s, t, bn, z, bn);
    forall b ensures Outside(s, t, b) {
      assert Elsewhere(s, t, z, b);
    }
  }

  // ---------------------------------------------------------------- under the inode

  /** A block of zeros taken off the free list and put under an empty address of the inode. */
  ghost predicate Planted(s: State, t: State, p: Place, z: int) {
    && Sound(s) && p.Place? && p.slot < NADDR && p.level == Level(Inode, p.slot) && s.iaddr[p.slot] == 0
    && z in s.free && t.free == s.free - {z} && t.iaddr == s.iaddr[p.slot := z]
    && ZeroAt(t.disk, z) && forall b | b != z :: Same(s.disk, t.disk, b)
  }

  lemma {:induction false} PlantedTree(s: State, t: State, p: Place, z: int)
    requires Planted(s, t, p, z)
    ensures FileGood(t.disk, t.iaddr) && FileBlocks(t.disk, t.iaddr) == FileBlocks(s.disk, s.iaddr) + {z}
  {
    EmptyTree(t.disk, z, p.level);
    KidsChange(s.disk, t.disk, s.iaddr, t.iaddr, NADDR, Inode, p.slot, z);
  }

  lemma {:induction false} PlantedLookup(s: State, t: State, bn: nat, z: int, m: nat)
    requires Planted(s, t, PlaceOf(bn), z)
    ensures OneFound(s, t, bn, z, m)
  {
    var p := PlaceOf(bn);
    match PlaceOf(m)
    case TooFar =>
    case Place(slot, level, off) =>
      KidIn(s.disk, s.iaddr, NADDR, Inode, slot);
      if slot == p.slot {
        EmptyTree(t.disk, z, p.level);
      } else if s.iaddr[slot] != 0 {
        WalkFrame(s.disk, t.disk, s.iaddr[slot], level, off, 0);
      }
  }

  lemma {:induction false} PlantedData(s: State, t: State, bn: nat, z: int, m: nat)
    requires Planted(s, t, PlaceOf(bn), z)
    ensures DataSame(s, t, m)
  {
    if Find(s, m) != 0 {
      FileWalkIn(s.disk, s.iaddr, m, 0);
    }
  }

  lemma {:induction false} PlantKeeps(s: State, t: State, bn: nat, z: int)
    requires Planted(s, t, PlaceOf(bn), z)
    ensures Kept(s, t, bn) && FileWalk(t.disk, t.iaddr, bn, PlaceOf(bn).level) == z
  {
    PlantedTree(s, t, PlaceOf(bn), z);
    forall m: nat ensures OneFound(s, t, bn, z, m) && DataSame(s, t, m) {
      PlantedLookup(s, t, bn, z, m);
      PlantedData(s, t, bn, z, m);
    }
    KeptLookups(s, t, bn, z);
  }

  // ---------------------------------------------------------------- under an indirect block

  /** A block of zeros taken off the free list and linked into an indirect block on the way to bn. */
  ghost predicate Linked(s: State, t: State, p: Place, to: nat, nb: int, z: int) {
    && Sound(s) && p.Place? && p.slot < NADDR && p.level == Level(Inode, p.slot) && to < p.level
    && Walk(s.disk, s.iaddr[p.slot], p.level, p.off, to + 1) == nb != 0
    && z in s.free && t.free == s.free - {z} && t.iaddr == s.iaddr
    && LinkedAt(s.disk, t.disk, nb, Index(p.off, to), z)
  }

  ghost predicate LinkedAt(disk: map<int, Block>, disk': map<int, Block>, nb: int, i: nat, z: int) {
    && ZeroAt(disk', z)
    && |At(disk, nb)| == |At(disk', nb)| == NINDIR && i < NINDIR && Differ(At(disk, nb), At(disk', nb), i)
    && At(disk, nb)[i] == 0 && At(disk', nb)[i] == z
    && forall b | b != z && b != nb :: Same(disk, disk', b)
  }

  lemma {:induction false} LinkedGraft(s: State, t: State, p: Place, to: nat, nb: int, z: int)
    requires Linked(s, t, p, to, nb, z)
    ensures s.iaddr[p.slot] != 0 && TreeGood(s.disk, s.iaddr[p.slot], p.level)
    ensures nb in Blocks(s.disk, s.iaddr[p.slot], p.level)
    ensures Blocks(s.disk, s.iaddr[p.slot], p.level) <= FileBlocks(s.disk, s.iaddr)
    ensures Grafted(s.disk, t.disk, Blocks(s.disk, s.iaddr[p.slot], p.level), nb, Index(p.off, to), z)
  {
    KidIn(s.disk, s.iaddr, NADDR, Inode, p.slot);
    WalkIn(s.disk, s.iaddr[p.slot], p.level, p.off, to + 1);
  }

  lemma {:induction false} LinkedTree(s: State, t: State, p: Place, to: nat, nb: int, z: int)
    requires Linked(s, t, p, to, nb, z)
    ensures FileGood(t.disk, t.iaddr) && FileBlocks(t.disk, t.iaddr) == FileBlocks(s.disk, s.iaddr) + {z}
    ensures Walk(t.disk, t.iaddr[p.slot], p.level, p.off, to) == z
    ensures nb in FileBlocks(s.disk, s.iaddr)
  {
    var root := s.iaddr[p.slot];
    LinkedGraft(s, t, p, to, nb, z);
    GraftTree(s.disk, t.disk, root, p.level, p.off, to, nb, z);
    KidsChange(s.disk, t.disk, s.iaddr, t.iaddr, NADDR, Inode, p.slot, z);
    GraftWalk(s.disk, t.disk, root, p.level, p.off, to, nb, z, p.off);
  }

  lemma {:induction false} LinkedHere(s: State, t: State, p: Place, to: nat, nb: int, z: int, off: nat)
    requires Linked(s, t, p, to, nb, z) && p.off < Power(p.level) && off < Power(p.level)
    ensures var b := s.iaddr[p.slot];
            var was, now := Walk(s.disk, b, p.level, off, 0), Walk(t.disk, b, p.level, off, 0);
            now == was || (off == p.off && was == 0 && now == z)
  {
    var root := s.iaddr[p.slot];
    LinkedGraft(s, t, p, to, nb, z);
    GraftWalk(s.disk, t.disk, root, p.level, p.off, to, nb, z, off);
    if to == 0 && Agree(p.off, off, p.level) {
      AgreeEqual(p.off, off, p.level);
      MissingLeaf(s.disk, root, p.level, p.off, nb);
    }
  }

  lemma {:induction false} LinkedThere(s: State, t: State, p: Place, to: nat, nb: int, z: int, slot: nat, off: nat)
    requires Linked(s, t, p, to, nb, z) && slot < NADDR && slot != p.slot
    ensures var k := Level(Inode, slot);
            Walk(t.disk, s.iaddr[slot], k, off, 0) == Walk(s.disk, s.iaddr[slot], k, off, 0)
  {
    LinkedGraft(s, t, p, to, nb, z);
    KidIn(s.disk, s.iaddr, NADDR, Inode, slot);
    var first, second := if slot < p.slot then slot else p.slot, if slot < p.slot then p.slot else slot;
    KidsApart(s.disk, s.iaddr, NADDR, Inode, first, second);
    if s.iaddr[slot] != 0 {
      WalkFrame(s.disk, t.disk, s.iaddr[slot], Level(Inode, slot), off, 0);
    }
  }

  lemma {:induction false} LinkedLookup(s: State, t: State, bn: nat, to: nat, nb: int, z: int, m: nat)
    requires Linked(s, t, PlaceOf(bn), to, nb, z)
    ensures OneFound(s, t, bn, z, m)
  {
    var p := PlaceOf(bn);
    match PlaceOf(m)
    case TooFar =>
    case Place(slot, level, off) =>
      if slot == p.slot {
        LinkedHere(s, t, p, to, nb, z, off);
        if off == p.off {
          SamePlace(bn, m);
        }
      } else {
        LinkedThere(s, t, p, to, nb, z, slot, off);
      }
  }

  lemma {:induction false} LinkedData(s: State, t: State, bn: nat, to: nat, nb: int, z: int, m: nat)
    requires Linked(s, t, PlaceOf(bn), to, nb, z)
    ensures DataSame(s, t, m)
  {
    if Find(s, m) != 0 {
      LookupApart(s.disk, s.iaddr, m, bn, to + 1);
      FileWalkIn(s.disk, s.iaddr, m, 0);
    }
  }

  lemma {:induction false} LinkKeeps(s: State, t: State, bn: nat, to: nat, nb: int, z: int)
    requires Linked(s, t, PlaceOf(bn), to, nb, z)
    ensures Kept(s, t, bn) && FileWalk(t.disk, t.iaddr, bn, to) == z
  {
    LinkedTree(s, t, PlaceOf(bn), to, nb, z);
    forall m: nat ensures OneFound(s, t, bn, z, m) && DataSame(s, t, m) {
      LinkedLookup(s, t, bn, to, nb, z, m);
      LinkedData(s, t, bn, to, nb, z, m);
    }
    forall b ensures Elsewhere(s, t, z, b) {
    }
    KeptLookups(s, t, bn, z);
  }

  /** The same, told from the level of the indirect block. */
  lemma {:induction false} LinkKeepsFrom(s: State, t: State, bn: nat, k: nat, to: nat, nb: int, z: int)
    requires Sound(s) && PlaceOf(bn).Place? && k == to + 1 && k <= PlaceOf(bn).level
    requires FileWalk(s.disk, s.iaddr, bn, k) == nb != 0
    requires z in s.free && t.free == s.free - {z} && t.iaddr == s.iaddr
    requires LinkedAt(s.disk, t.disk, nb, Index(PlaceOf(bn).off, to), z)
    ensures Kept(s, t, bn) && FileWalk(t.disk, t.iaddr, bn, to) == z
  {
    assert Linked(s, t, PlaceOf(bn), to, nb, z);
    LinkKeeps(s, t, bn, to, nb, z);
  }

  lemma {:induction false} SamePlace(bn: nat, m: nat)
    requires PlaceOf(bn).Place? && PlaceOf(m) == PlaceOf(bn)
    ensures m == bn
  {
  }

  /** Where the last indirect block has no address, the way ends. */
  lemma {:induction false} MissingLeaf(disk: map<int, Block>, b: int, k: nat, off: nat, nb: int)
    requires k > 0 && TreeGood(disk, b, k) && Walk(disk, b, k, off, 1) == nb != 0
    requires |At(disk, nb)| == NINDIR && At(disk, nb)[Index(off, 0)] == 0
    ensures Walk(disk, b, k, off, 0) == 0
    decreases k
  {
    if k > 1 {
      KidIn(disk, At(disk, b), NINDIR, Above(k - 1), Index(off, k - 1));
      MissingLeaf(disk, At(disk, b)[Index(off, k - 1)], k - 1, off, nb);
    }
  }
}
