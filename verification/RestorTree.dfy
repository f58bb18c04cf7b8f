/** The blocks of a file (restor.c, `bmap` and `tloop`): ten direct addresses and trees of one, two and three
    levels of indirect blocks. */
module RestorTree {
  import opened Arithmetic
  import opened RestorFree

  const NADDR: int := 13
  const NINDIR: int := 128

  /** Whose addresses: those of an inode, or those of a block just above blocks of level k. */
  datatype Kind = Inode | Above(k: nat)

  /** The level of what address i leads to; data is at level 0. */
  function Level(kind: Kind, i: nat): nat {
    match kind
    case Inode => if i < NADDR - 3 then 0 else if i < NADDR then i - (NADDR - 4) else 0
    case Above(k) => k
  }

  function Rank(kind: Kind): nat {
    match kind
    case Inode => 3
    case Above(k) => k
  }

  // ---------------------------------------------------------------- the blocks of a tree

  /** All blocks at or under block b of level k. */
  ghost function Blocks(disk: map<int, Block>, b: int, k: nat): set<int>
    decreases k, 0
  {
    if k == 0 then {b} else {b} + Kids(disk, At(disk, b), NINDIR, Above(k - 1))
  }

  /** All blocks under the first n addresses. */
  ghost function Kids(disk: map<int, Block>, a: seq<int>, n: nat, kind: Kind): set<int>
    decreases Rank(kind), n + 1
  {
    if n == 0 || n > |a| then {}
    else Kids(disk, a, n - 1, kind) + Kid(disk, a[n - 1], Level(kind, n - 1), Rank(kind))
  }

  ghost function Kid(disk: map<int, Block>, b: int, k: nat, rank: nat): set<int>
    decreases rank, 1
  {
    if b == 0 || k > rank then {} else Blocks(disk, b, k)
  }

  /** A tree in which no block occurs twice. */
  ghost predicate TreeGood(disk: map<int, Block>, b: int, k: nat)
    decreases k, 0
  {
    && b > 0
    && (k > 0 ==> |At(disk, b)| == NINDIR && KidsGood(disk, At(disk, b), NINDIR, Above(k - 1))
                  && b !in Kids(disk, At(disk, b), NINDIR, Above(k - 1)))
  }

  ghost predicate KidsGood(disk: map<int, Block>, a: seq<int>, n: nat, kind: Kind)
    decreases Rank(kind), n + 1
  {
    n == 0 || (n <= |a| && KidsGood(disk, a, n - 1, kind) && KidGood(disk, a[n - 1], Level(kind, n - 1), Rank(kind))
               && Kid(disk, a[n - 1], Level(kind, n - 1), Rank(kind)) !! Kids(disk, a, n - 1, kind))
  }

  ghost predicate KidGood(disk: map<int, Block>, b: int, k: nat, rank: nat)
    decreases rank, 1
  {
    k <= rank && (b == 0 || TreeGood(disk, b, k))
  }

  ghost predicate AllSame(disk: map<int, Block>, disk': map<int, Block>, s: set<int>) {
    forall b | b in s :: Same(disk, disk', b)
  }

  /** A tree depends on its own blocks only. */
  lemma {:induction false} TreeFrame(disk: map<int, Block>, disk': map<int, Block>, b: int, k: nat)
    requires TreeGood(disk, b, k) && AllSame(disk, disk', Blocks(disk, b, k))
    ensures TreeGood(disk', b, k) && Blocks(disk', b, k) == Blocks(disk, b, k)
    decreases k, 0
  {
    if k > 0 {
      assert Same(disk, disk', b);
      KidsFrame(disk, disk', At(disk, b), NINDIR, Above(k - 1));
    }
  }

  lemma {:induction false} KidsFrame(disk: map<int, Block>, disk': map<int, Block>, a: seq<int>, n: nat, kind: Kind)
    requires KidsGood(disk, a, n, kind) && AllSame(disk, disk', Kids(disk, a, n, kind))
    ensures KidsGood(disk', a, n, kind) && Kids(disk', a, n, kind) == Kids(disk, a, n, kind)
    decreases Rank(kind), n + 1
  {
    if n > 0 {
      KidsFrame(disk, disk', a, n - 1, kind);
      KidFrame(disk, disk', a[n - 1], Level(kind, n - 1), Rank(kind));
    }
  }

  lemma {:induction false} KidFrame(disk: map<int, Block>, disk': map<int, Block>, b: int, k: nat, rank: nat)
    requires KidGood(disk, b, k, rank) && AllSame(disk, disk', Kid(disk, b, k, rank))
    ensures KidGood(disk', b, k, rank) && Kid(disk', b, k, rank) == Kid(disk, b, k, rank)
    decreases rank, 1
  {
    if b != 0 {
      TreeFrame(disk, disk', b, k);
    }
  }

  /** The tree under one address is among the blocks under all of them. */
  lemma {:induction false} KidIn(disk: map<int, Block>, a: seq<int>, n: nat, kind: Kind, i: nat)
    requires KidsGood(disk, a, n, kind) && i < n && n <= |a|
    ensures KidGood(disk, a[i], Level(kind, i), Rank(kind))
    ensures Kid(disk, a[i], Level(kind, i), Rank(kind)) <= Kids(disk, a, n, kind)
    decreases n
  {
    if i < n - 1 {
      KidIn(disk, a, n - 1, kind, i);
    }
  }

  /** Trees under different addresses have no block in common. */
  lemma {:induction false} KidsApart(disk: map<int, Block>, a: seq<int>, n: nat, kind: Kind, i: nat, j: nat)
    requires KidsGood(disk, a, n, kind) && i < j < n && n <= |a|
    ensures Kid(disk, a[i], Level(kind, i), Rank(kind)) !! Kid(disk, a[j], Level(kind, j), Rank(kind))
    decreases n
  {
    if j < n - 1 {
      KidsApart(disk, a, n - 1, kind, i, j);
    } else {
      KidIn(disk, a, n - 1, kind, i);
    }
  }

  /** The addresses are the same but for address i. */
  ghost predicate Differ(a: seq<int>, a': seq<int>, i: nat)
    requires |a| == |a'|
  {
    forall j | 0 <= j < |a| && j != i :: a'[j] == a[j]
  }

  /** One address changed to a tree with one block more: all the others are as before. */
  lemma {:induction false} KidsChange(disk: map<int, Block>, disk': map<int, Block>, a: seq<int>, a': seq<int>, n: nat,
                                      kind: Kind, i: nat, z: int)
    requires KidsGood(disk, a, n, kind) && i < n <= |a| == |a'| && Differ(a, a', i)
    requires z !in Kids(disk, a, n, kind)
    requires KidGood(disk', a'[i], Level(kind, i), Rank(kind))
    requires Kid(disk', a'[i], Level(kind, i), Rank(kind)) == Kid(disk, a[i], Level(kind, i), Rank(kind)) + {z}
    requires AllSame(disk, disk', Kids(disk, a, n, kind) - Kid(disk, a[i], Level(kind, i), Rank(kind)))
    ensures KidsGood(disk', a', n, kind)
    ensures Kids(disk', a', n, kind) == Kids(disk, a, n, kind) + {z}
    decreases n
  {
    var m: nat := n - 1;
    if i < m {
      KidsChange(disk, disk', a, a', m, kind, i, z);
      LastUnchanged(disk, disk', a, a', n, m, kind, i, z);
    } else {
      LastChanged(disk, disk', a, a', n, m, kind, z);
    }
  }

  /** The change is at the last address. */
  lemma {:induction false} LastChanged(disk: map<int, Block>, disk': map<int, Block>, a: seq<int>, a': seq<int>,
                                       n: nat, m: nat, kind: Kind, z: int)
    requires n == m + 1 && KidsGood(disk, a, n, kind) && n <= |a| == |a'| && Differ(a, a', m)
             && z !in Kids(disk, a, n, kind)
    requires KidGood(disk', a'[m], Level(kind, m), Rank(kind))
    requires Kid(disk', a'[m], Level(kind, m), Rank(kind)) == Kid(disk, a[m], Level(kind, m), Rank(kind)) + {z}
    requires AllSame(disk, disk', Kids(disk, a, n, kind) - Kid(disk, a[m], Level(kind, m), Rank(kind)))
    ensures KidsGood(disk', a', n, kind) && Kids(disk', a', n, kind) == Kids(disk, a, n, kind) + {z}
  {
    var before, kid := Kids(disk, a, m, kind), Kid(disk, a[m], Level(kind, m), Rank(kind));
    assert Kids(disk, a, n, kind) == before + kid && before !! kid;
    KidsFrame(disk, disk', a, m, kind);
    KidsPrefix(disk', a, a', m, kind);
    LastAddress(disk', a', n, m, kind);
  }

  lemma {:induction false} LastAddress(disk: map<int, Block>, a: seq<int>, n: nat, m: nat, kind: Kind)
    requires n == m + 1 && n <= |a| && KidsGood(disk, a, m, kind) && KidGood(disk, a[m], Level(kind, m), Rank(kind))
    requires Kid(disk, a[m], Level(kind, m), Rank(kind)) !! Kids(disk, a, m, kind)
    ensures KidsGood(disk, a, n, kind)
    ensures Kids(disk, a, n, kind) == Kids(disk, a, m, kind) + Kid(disk, a[m], Level(kind, m), Rank(kind))
  {
    assert n - 1 == m;
  }

  /** The change is before the last address. */
  lemma {:induction false} LastUnchanged(disk: map<int, Block>, disk': map<int, Block>, a: seq<int>, a': seq<int>,
                                         n: nat, m: nat, kind: Kind, i: nat, z: int)
    requires n == m + 1 && KidsGood(disk, a, n, kind) && i < m && n <= |a| == |a'| && a'[m] == a[m]
    requires z !in Kids(disk, a, n, kind)
    requires KidsGood(disk', a', m, kind) && Kids(disk', a', m, kind) == Kids(disk, a, m, kind) + {z}
    requires AllSame(disk, disk', Kids(disk, a, n, kind) - Kid(disk, a[i], Level(kind, i), Rank(kind)))
    ensures KidsGood(disk', a', n, kind) && Kids(disk', a', n, kind) == Kids(disk, a, n, kind) + {z}
  {
    KidIn(disk, a, m, kind, i);
    KidFrame(disk, disk', a[m], Level(kind, m), Rank(kind));
  }

  lemma {:induction false} KidsPrefix(disk: map<int, Block>, a: seq<int>, a': seq<int>, n: nat, kind: Kind)
    requires n <= |a| && n <= |a'| && forall j | 0 <= j < n :: a'[j] == a[j]
    ensures Kids(disk, a', n, kind) == Kids(disk, a, n, kind)
            && KidsGood(disk, a', n, kind) == KidsGood(disk, a, n, kind)
    decreases n
  {
    if n > 0 {
      KidsPrefix(disk, a, a', n - 1, kind);
    }
  }

  // ---------------------------------------------------------------- the way to a block

  function Power(k: nat): (p: int)
    ensures p >= 1
  {
    if k == 0 then 1 else NINDIR * Power(k - 1)
  }

  /** Which address of a block above level k leads towards block number off. */
  function Index(off: nat, k: nat): (i: nat)
    ensures i < NINDIR
  {
    off / Power(k) % NINDIR
  }

  /** The block of level `to` on the way from b, of level k, to block number off; 0 where the way ends. */
  ghost function Walk(disk: map<int, Block>, b: int, k: nat, off: nat, to: nat): int
    decreases k
  {
    if b == 0 then 0
    else if k <= to then b
    else if |At(disk, b)| != NINDIR then 0
    else Walk(disk, At(disk, b)[Index(off, k - 1)], k - 1, off, to)
  }

  /** The same turn at every level below k. */
  ghost predicate Agree(off: nat, off': nat, k: nat) {
    k == 0 || (Index(off, k - 1) == Index(off', k - 1) && Agree(off, off', k - 1))
  }

  lemma {:induction false} AgreeEqual(off: nat, off': nat, k: nat)
    requires off < Power(k) && off' < Power(k) && Agree(off, off', k)
    ensures off == off'
  {
    AgreeMod(off, off', k);
  }

  lemma {:induction false} AgreeMod(off: nat, off': nat, k: nat)
    requires Agree(off, off', k)
    ensures off % Power(k) == off' % Power(k)
    ensures off < Power(k) ==> off % Power(k) == off
    ensures off' < Power(k) ==> off' % Power(k) == off'
  {
    if k > 0 {
      AgreeMod(off, off', k - 1);
      Digit(off, Power(k - 1));
      Digit(off', Power(k - 1));
    }
  }

  lemma {:induction false} Digit(x: nat, p: int)
    requires p >= 1
    ensures x % (NINDIR * p) == x / p % NINDIR * p + x % p
    ensures x < NINDIR * p ==> x % (NINDIR * p) == x
  {
    var q, r := x / p, x % p;
    var h, l := q / NINDIR, q % NINDIR;
    DigitSplit(x, p, q, r, h, l);
    QuotientIs(x, NINDIR * p, h, l * p + r);
    if x < NINDIR * p {
      QuotientIs(x, NINDIR * p, 0, x);
    }
  }

  lemma {:induction false} DigitSplit(x: int, p: int, q: int, r: int, h: int, l: int)
    requires p >= 1 && x == q * p + r && 0 <= r < p && q == h * NINDIR + l && 0 <= l < NINDIR
    ensures x == h * (NINDIR * p) + (l * p + r) && 0 <= l * p + r < NINDIR * p
  {
    Spread(h, l, p);
    MulLe(0, l, p);
    MulLe(l + 1, NINDIR, p);
    assert (l + 1) * p == l * p + p;
  }

  lemma {:induction false} Spread(h: int, l: int, p: int)
    ensures (h * NINDIR + l) * p == h * (NINDIR * p) + l * p
  {
  }

  /** The blocks on the way are blocks of the tree. */
  lemma {:induction false} WalkIn(disk: map<int, Block>, b: int, k: nat, off: nat, to: nat)
    requires TreeGood(disk, b, k) && to <= k
    ensures var c := Walk(disk, b, k, off, to); c != 0 ==> c in Blocks(disk, b, k) && TreeGood(disk, c, to)
    decreases k
  {
    if k > to {
      var i := Index(off, k - 1);
      KidIn(disk, At(disk, b), NINDIR, Above(k - 1), i);
      if At(disk, b)[i] != 0 {
        WalkIn(disk, At(disk, b)[i], k - 1, off, to);
      }
    }
  }

  lemma {:induction false} WalkFrame(disk: map<int, Block>, disk': map<int, Block>, b: int, k: nat, off: nat, to: nat)
    requires TreeGood(disk, b, k) && AllSame(disk, disk', Blocks(disk, b, k))
    ensures Walk(disk', b, k, off, to) == Walk(disk, b, k, off, to)
    decreases k
  {
    if k > to {
      assert Same(disk, disk', b);
      var i := Index(off, k - 1);
      KidIn(disk, At(disk, b), NINDIR, Above(k - 1), i);
      if At(disk, b)[i] != 0 {
        WalkFrame(disk, disk', At(disk, b)[i], k - 1, off, to);
      }
    }
  }

  /** A block of zeros is a tree by itself. */
  lemma {:induction false} EmptyTree(disk: map<int, Block>, z: int, k: nat)
    requires z > 0 && |At(disk, z)| == NINDIR && forall j | 0 <= j < NINDIR :: At(disk, z)[j] == 0
    ensures TreeGood(disk, z, k) && Blocks(disk, z, k) == {z}
    ensures forall off: nat :: Walk(disk, z, k, off, 0) == if k == 0 then z else 0
  {
    if k > 0 {
      NoKids(disk, At(disk, z), NINDIR, Above(k - 1));
    }
  }

  lemma {:induction false} NoKids(disk: map<int, Block>, a: seq<int>, n: nat, kind: Kind)
    requires n <= |a| && (forall j | 0 <= j < n :: a[j] == 0) && forall j: nat | j < n :: Level(kind, j) <= Rank(kind)
    ensures KidsGood(disk, a, n, kind) && Kids(disk, a, n, kind) == {}
    decreases n
  {
    if n > 0 {
      NoKids(disk, a, n - 1, kind);
    }
  }

  // ---------------------------------------------------------------- a new block in the tree

  /** Address i of block nb, which was 0, now leads to the new block z of zeros; nothing else changed. */
  ghost predicate Grafted(disk: map<int, Block>, disk': map<int, Block>, s: set<int>, nb: int, i: nat, z: int) {
    && AllSame(disk, disk', s - {nb})
    && |At(disk, nb)| == |At(disk', nb)| == NINDIR && i < NINDIR
    && At(disk, nb)[i] == 0 && At(disk', nb)[i] == z && Differ(At(disk, nb), At(disk', nb), i)
    && z > 0 && z !in s && |At(disk', z)| == NINDIR && forall j | 0 <= j < NINDIR :: At(disk', z)[j] == 0
  }

  /** What changes is all under the address that the way goes through. */
  lemma {:induction false} GraftedChild(disk: map<int, Block>, disk': map<int, Block>, b: int, k: nat, l: nat, i: nat,
                                        off: nat, to: nat, nb: int, z: int)
    requires k == l + 1 && to < l && TreeGood(disk, b, k) && Walk(disk, b, k, off, to + 1) == nb != 0
    requires i == Index(off, l) && Grafted(disk, disk', Blocks(disk, b, k), nb, Index(off, to), z)
    ensures |At(disk, b)| == NINDIR && Same(disk, disk', b)
    ensures var c := At(disk, b)[i];
            && c != 0 && TreeGood(disk, c, l) && Walk(disk, c, l, off, to + 1) == nb && nb in Blocks(disk, c, l)
            && Blocks(disk, c, l) <= Kids(disk, At(disk, b), NINDIR, Above(l))
            && Grafted(disk, disk', Blocks(disk, c, l), nb, Index(off, to), z)
  {
    assert k - 1 == l;
    KidIn(disk, At(disk, b), NINDIR, Above(l), i);
    WalkIn(disk, At(disk, b)[i], l, off, to + 1);
    assert nb != b;
  }

  /** A block whose one address leads to one block more. */
  lemma {:induction false} GrownChild(disk: map<int, Block>, disk': map<int, Block>, b: int, k: nat, l: nat, i: nat,
                                      z: int)
    requires k == l + 1 && TreeGood(disk, b, k) && |At(disk', b)| == NINDIR && i < NINDIR
    requires Differ(At(disk, b), At(disk', b), i) && z !in Blocks(disk, b, k) && z > 0
    requires KidGood(disk', At(disk', b)[i], l, l)
    requires Kid(disk', At(disk', b)[i], l, l) == Kid(disk, At(disk, b)[i], l, l) + {z}
    requires AllSame(disk, disk', Kids(disk, At(disk, b), NINDIR, Above(l)) - Kid(disk, At(disk, b)[i], l, l))
    ensures TreeGood(disk', b, k) && Blocks(disk', b, k) == Blocks(disk, b, k) + {z}
  {
    assert k - 1 == l;
    KidsChange(disk, disk', At(disk, b), At(disk', b), NINDIR, Above(l), i, z);
  }

  /** The tree grows by the new block, and stays good. */
  lemma {:induction false} GraftTree(disk: map<int, Block>, disk': map<int, Block>, b: int, k: nat, off: nat, to: nat,
                                     nb: int, z: int)
    requires to < k && TreeGood(disk, b, k) && Walk(disk, b, k, off, to + 1) == nb != 0
    requires Grafted(disk, disk', Blocks(disk, b, k), nb, Index(off, to), z)
    ensures TreeGood(disk', b, k) && Blocks(disk', b, k) == Blocks(disk, b, k) + {z}
    decreases k
  {
    var l: nat := k - 1;
    var i, a := Index(off, l), At(disk, b);
    if k == to + 1 {
      GraftHere(disk, disk', b, k, to, i, z);
    } else {
      GraftedChild(disk, disk', b, k, l, i, off, to, nb, z);
      GraftTree(disk, disk', a[i], l, off, to, nb, z);
      GrownChild(disk, disk', b, k, l, i, z);
    }
  }

  lemma {:induction false} GraftHere(disk: map<int, Block>, disk': map<int, Block>, b: int, k: nat, to: nat, i: nat,
                                     z: int)
    requires k == to + 1 && TreeGood(disk, b, k) && Grafted(disk, disk', Blocks(disk, b, k), b, i, z)
    ensures TreeGood(disk', b, k) && Blocks(disk', b, k) == Blocks(disk, b, k) + {z}
  {
    assert k - 1 == to;
    EmptyTree(disk', z, to);
    GrownChild(disk, disk', b, k, to, i, z);
  }

  /** The way to block number off now reaches z; every other way is as before. */
  lemma {:induction false} GraftWalk(disk: map<int, Block>, disk': map<int, Block>, b: int, k: nat, off: nat, to: nat,
                                     nb: int, z: int, off': nat)
    requires to < k && TreeGood(disk, b, k) && Walk(disk, b, k, off, to + 1) == nb != 0
    requires Grafted(disk, disk', Blocks(disk, b, k), nb, Index(off, to), z)
    ensures Walk(disk', b, k, off, to) == z
    ensures Walk(disk', b, k, off', 0) == if to == 0 && Agree(off, off', k) then z else Walk(disk, b, k, off', 0)
    decreases k
  {
    var l: nat := k - 1;
    var i, i', a := Index(off, l), Index(off', l), At(disk, b);
    if i' != i {
      OtherWay(disk, disk', b, k, l, i, i', off, off', to, nb, z);
    }
    if k == to + 1 {
      EmptyTree(disk', z, to);
    } else {
      GraftedChild(disk, disk', b, k, l, i, off, to, nb, z);
      GraftWalk(disk, disk', a[i], l, off, to, nb, z, off');
    }
  }

  /** A way that turns elsewhere at once is not affected. */
  lemma {:induction false} OtherWay(disk: map<int, Block>, disk': map<int, Block>, b: int, k: nat, l: nat, i: nat,
                                    i': nat, off: nat, off': nat, to: nat, nb: int, z: int)
    requires k == l + 1 && to < k && TreeGood(disk, b, k) && Walk(disk, b, k, off, to + 1) == nb != 0
    requires Grafted(disk, disk', Blocks(disk, b, k), nb, Index(off, to), z)
    requires i == Index(off, l) && i' == Index(off', l) && i' != i
    ensures Walk(disk', b, k, off', 0) == Walk(disk, b, k, off', 0)
  {
    assert k - 1 == l;
    var a := At(disk, b);
    KidIn(disk, a, NINDIR, Above(l), i);
    KidIn(disk, a, NINDIR, Above(l), i');
    KidsApart(disk, a, NINDIR, Above(l), if i < i' then i else i', if i < i' then i' else i);
    if to < l {
      GraftedChild(disk, disk', b, k, l, i, off, to, nb, z);
    }
    if a[i'] != 0 {
      WalkFrame(disk, disk', a[i'], l, off', 0);
    }
  }

  // ---------------------------------------------------------------- a whole file

  /** Where logical block bn is: under which address of the inode, how deep, and at which number there. */
  datatype Place = Place(slot: nat, level: nat, off: nat) | TooFar

  function PlaceOf(bn: nat): (p: Place)
    ensures p.Place? ==> p.slot < NADDR && p.level == Level(Inode, p.slot) && p.off < Power(p.level)
  {
    var direct, one, two, three := NADDR - 3, Power(1), Power(2), Power(3);
    if bn < direct then Place(bn, 0, 0)
    else if bn - direct < one then Place(NADDR - 3, 1, bn - direct)
    else if bn - direct - one < two then Place(NADDR - 2, 2, bn - direct - one)
    else if bn - direct - one - two < three then Place(NADDR - 1, 3, bn - direct - one - two)
    else TooFar
  }

  ghost predicate FileGood(disk: map<int, Block>, iaddr: seq<int>) {
    |iaddr| == NADDR && KidsGood(disk, iaddr, NADDR, Inode)
  }

  ghost function FileBlocks(disk: map<int, Block>, iaddr: seq<int>): set<int> {
    Kids(disk, iaddr, NADDR, Inode)
  }

  /** The block of the given level on the way to logical block bn. */
  ghost function FileWalk(disk: map<int, Block>, iaddr: seq<int>, bn: nat, to: nat): int {
    match PlaceOf(bn)
    case Place(slot, level, off) => if slot < |iaddr| then Walk(disk, iaddr[slot], level, off, to) else 0
    case TooFar => 0
  }

  /** The block that holds logical block bn, or 0. */
  ghost function Lookup(disk: map<int, Block>, iaddr: seq<int>, bn: nat): int {
    FileWalk(disk, iaddr, bn, 0)
  }

  /** What is on the way is in the file. */
  lemma {:induction false} FileWalkIn(disk: map<int, Block>, iaddr: seq<int>, bn: nat, to: nat)
    requires FileGood(disk, iaddr) && PlaceOf(bn).Place? && to <= PlaceOf(bn).level
    ensures var c := FileWalk(disk, iaddr, bn, to); c != 0 ==> c in FileBlocks(disk, iaddr) && TreeGood(disk, c, to)
  {
    var p := PlaceOf(bn);
    KidIn(disk, iaddr, NADDR, Inode, p.slot);
    if iaddr[p.slot] != 0 {
      WalkIn(disk, iaddr[p.slot], p.level, p.off, to);
    }
  }

  /** Blocks of different levels are different, and so are those on ways that part. */
  lemma {:induction false} WalkApart(disk: map<int, Block>, b: int, k: nat, off: nat, to: nat, off': nat, to': nat)
    requires TreeGood(disk, b, k) && to <= k && to' <= k
    requires to != to' || (to == 0 && !Agree(off, off', k))
    requires Walk(disk, b, k, off, to) != 0
    ensures Walk(disk, b, k, off, to) != Walk(disk, b, k, off', to')
    decreases k
  {
    if to < k {
      var i, a := Index(off, k - 1), At(disk, b);
      KidIn(disk, a, NINDIR, Above(k - 1), i);
      WalkIn(disk, a[i], k - 1, off, to);
      if to' < k {
        WalkApartBelow(disk, b, k, off, to, off', to');
      }
    } else if to' < k {
      var i', a := Index(off', k - 1), At(disk, b);
      KidIn(disk, a, NINDIR, Above(k - 1), i');
      if a[i'] != 0 {
        WalkIn(disk, a[i'], k - 1, off', to');
      }
    }
  }

  lemma {:induction false} WalkApartBelow(disk: map<int, Block>, b: int, k: nat, off: nat, to: nat, off': nat, to': nat)
    requires TreeGood(disk, b, k) && to < k && to' < k
    requires to != to' || (to == 0 && !Agree(off, off', k))
    requires Walk(disk, b, k, off, to) != 0
    ensures Walk(disk, b, k, off, to) != Walk(disk, b, k, off', to')
    decreases k, 0
  {
    var i, i', a := Index(off, k - 1), Index(off', k - 1), At(disk, b);
    KidIn(disk, a, NINDIR, Above(k - 1), i);
    KidIn(disk, a, NINDIR, Above(k - 1), i');
    WalkIn(disk, a[i], k - 1, off, to);
    if i == i' {
      WalkApart(disk, a[i], k - 1, off, to, off', to');
    } else {
      KidsApart(disk, a, NINDIR, Above(k - 1), if i < i' then i else i', if i < i' then i' else i);
      if a[i'] != 0 {
        WalkIn(disk, a[i'], k - 1, off', to');
      }
    }
  }

  /** Two logical blocks are never kept in one block, and data never in an indirect block. */
  lemma {:induction false} LookupApart(disk: map<int, Block>, iaddr: seq<int>, bn: nat, bn': nat, to: nat)
    requires FileGood(disk, iaddr) && Lookup(disk, iaddr, bn) != 0 && (bn != bn' || to != 0)
    requires PlaceOf(bn').Place? && to <= PlaceOf(bn').level
    ensures Lookup(disk, iaddr, bn) != FileWalk(disk, iaddr, bn', to)
  {
    var p, p' := PlaceOf(bn), PlaceOf(bn');
    KidIn(disk, iaddr, NADDR, Inode, p.slot);
    KidIn(disk, iaddr, NADDR, Inode, p'.slot);
    WalkIn(disk, iaddr[p.slot], p.level, p.off, 0);
    if p.slot == p'.slot {
      if to == 0 && Agree(p.off, p'.off, p.level) {
        AgreeEqual(p.off, p'.off, p.level);
      }
      WalkApart(disk, iaddr[p.slot], p.level, p.off, 0, p'.off, to);
    } else {
      KidsApart(disk, iaddr, NADDR, Inode, if p.slot < p'.slot then p.slot else p'.slot,
                if p.slot < p'.slot then p'.slot else p.slot);
      if iaddr[p'.slot] != 0 {
        WalkIn(disk, iaddr[p'.slot], p'.level, p'.off, to);
      }
    }
  }

  // ---------------------------------------------------------------- writing data

  ghost predicate OnlyIn(disk: map<int, Block>, disk': map<int, Block>, s: set<int>) {
    forall c | c !in s :: Same(disk, disk', c)
  }

  ghost predicate OnlyAt(disk: map<int, Block>, disk': map<int, Block>, b: int) {
    forall c | c != b :: Same(disk, disk', c)
  }

  ghost predicate KidSame(disk: map<int, Block>, disk': map<int, Block>, a: seq<int>, kind: Kind, i: nat)
    requires i < |a|
  {
    && KidGood(disk', a[i], Level(kind, i), Rank(kind))
    && Kid(disk', a[i], Level(kind, i), Rank(kind)) == Kid(disk, a[i], Level(kind, i), Rank(kind))
  }

  lemma {:induction false} KidsEqual(disk: map<int, Block>, disk': map<int, Block>, a: seq<int>, n: nat, kind: Kind)
    requires KidsGood(disk, a, n, kind) && n <= |a| && forall i | 0 <= i < n :: KidSame(disk, disk', a, kind, i)
    ensures KidsGood(disk', a, n, kind) && Kids(disk', a, n, kind) == Kids(disk, a, n, kind)
    decreases n
  {
    if n > 0 {
      KidsEqual(disk, disk', a, n - 1, kind);
      assert KidSame(disk, disk', a, kind, n - 1);
    }
  }

  /** What a data block holds is nothing to the tree. */
  lemma {:induction false} LeafTree(disk: map<int, Block>, disk': map<int, Block>, b: int, k: nat, off: nat, nb: int)
    requires TreeGood(disk, b, k) && Walk(disk, b, k, off, 0) == nb != 0 && OnlyAt(disk, disk', nb)
    ensures TreeGood(disk', b, k) && Blocks(disk', b, k) == Blocks(disk, b, k)
    decreases k
  {
    if k > 0 {
      var a, i := At(disk, b), Index(off, k - 1);
      KidIn(disk, a, NINDIR, Above(k - 1), i);
      WalkIn(disk, a[i], k - 1, off, 0);
      assert Same(disk, disk', b);
      var kind := Above(k - 1);
      forall j | 0 <= j < NINDIR ensures KidSame(disk, disk', a, kind, j) {
        KidIn(disk, a, NINDIR, Above(k - 1), j);
        if j == i {
          LeafTree(disk, disk', a[i], k - 1, off, nb);
        } else {
          KidsApart(disk, a, NINDIR, Above(k - 1), if i < j then i else j, if i < j then j else i);
          KidFrame(disk, disk', a[j], k - 1, k - 1);
        }
      }
      KidsEqual(disk, disk', a, NINDIR, Above(k - 1));
    }
  }

  lemma {:induction false} LeafWalk(disk: map<int, Block>, disk': map<int, Block>, b: int, k: nat, off: nat, nb: int,
                                    off': nat)
    requires TreeGood(disk, b, k) && Walk(disk, b, k, off, 0) == nb != 0 && OnlyAt(disk, disk', nb)
    ensures Walk(disk', b, k, off', 0) == Walk(disk, b, k, off', 0)
    decreases k
  {
    if k > 0 {
      var a, i, i' := At(disk, b), Index(off, k - 1), Index(off', k - 1);
      KidIn(disk, a, NINDIR, Above(k - 1), i);
      KidIn(disk, a, NINDIR, Above(k - 1), i');
      WalkIn(disk, a[i], k - 1, off, 0);
      assert Same(disk, disk', b);
      if i == i' {
        LeafWalk(disk, disk', a[i], k - 1, off, nb, off');
      } else if a[i'] != 0 {
        KidsApart(disk, a, NINDIR, Above(k - 1), if i < i' then i else i', if i < i' then i' else i);
        WalkFrame(disk, disk', a[i'], k - 1, off', 0);
      }
    }
  }

  lemma {:induction false} LeafSlot(disk: map<int, Block>, disk': map<int, Block>, iaddr: seq<int>, p: Place, nb: int,
                                    j: nat)
    requires FileGood(disk, iaddr) && p.Place? && p.slot < NADDR && p.level == Level(Inode, p.slot) && j < NADDR
    requires Walk(disk, iaddr[p.slot], p.level, p.off, 0) == nb != 0 && OnlyAt(disk, disk', nb)
    ensures KidSame(disk, disk', iaddr, Inode, j)
    ensures forall off: nat :: Walk(disk', iaddr[j], Level(Inode, j), off, 0)
                               == Walk(disk, iaddr[j], Level(Inode, j), off, 0)
  {
    var i, k := p.slot, Level(Inode, j);
    KidIn(disk, iaddr, NADDR, Inode, i);
    KidIn(disk, iaddr, NADDR, Inode, j);
    WalkIn(disk, iaddr[i], p.level, p.off, 0);
    if j == i {
      LeafTree(disk, disk', iaddr[i], p.level, p.off, nb);
    } else {
      KidsApart(disk, iaddr, NADDR, Inode, if i < j then i else j, if i < j then j else i);
      KidFrame(disk, disk', iaddr[j], k, 3);
    }
    forall off: nat ensures Walk(disk', iaddr[j], k, off, 0) == Walk(disk, iaddr[j], k, off, 0) {
      if j == i {
        LeafWalk(disk, disk', iaddr[i], p.level, p.off, nb, off);
      } else if iaddr[j] != 0 {
        WalkFrame(disk, disk', iaddr[j], k, off, 0);
      }
    }
  }

  /** Writing a data block of the file changes nothing about where its blocks are. */
  lemma {:induction false} LeafFile(disk: map<int, Block>, disk': map<int, Block>, iaddr: seq<int>, bn: nat, nb: int)
    requires FileGood(disk, iaddr) && Lookup(disk, iaddr, bn) == nb != 0 && OnlyAt(disk, disk', nb)
    ensures FileGood(disk', iaddr) && FileBlocks(disk', iaddr) == FileBlocks(disk, iaddr)
    ensures forall m: nat :: Lookup(disk', iaddr, m) == Lookup(disk, iaddr, m)
  {
    forall j | 0 <= j < NADDR ensures KidSame(disk, disk', iaddr, Inode, j) {
      LeafSlot(disk, disk', iaddr, PlaceOf(bn), nb, j);
    }
    KidsEqual(disk, disk', iaddr, NADDR, Inode);
    forall m: nat ensures Lookup(disk', iaddr, m) == Lookup(disk, iaddr, m) {
      if PlaceOf(m).Place? {
        LeafSlot(disk, disk', iaddr, PlaceOf(bn), nb, PlaceOf(m).slot);
      }
    }
  }
}
