/** The block table of mkfs.py: the blocks of a new file in order, with the indirect blocks that lead to them made on
    the way. Direct, single, double and triple indirect addresses are filled by one loop, whatever they are addresses
    in. */
module BlockTable {
  import opened Arithmetic
  import opened RestorFree
  import opened RestorTree

  /** The blocks to be had, last first; the indirect blocks as they will be written; the data blocks of the file so
      far. */
  datatype Table = Table(free: seq<int>, disk: map<int, Block>, leaf: seq<int>)

  ghost function SetOf(s: seq<int>): set<int> {
    set x | x in s
  }

  /** Blocks to be had, none of them twice. */
  ghost predicate Stock(free: seq<int>) {
    (forall i | 0 <= i < |free| :: free[i] > 0) && forall i, j | 0 <= i < j < |free| :: free[i] != free[j]
  }

  /** What is taken comes off the end, and is what the tables and data are made of. */
  ghost predicate Taken(s: Table, t: Table, mine: seq<int>, blocks: set<int>) {
    && |t.free| <= |s.free| && t.free == s.free[..|t.free|] && t.leaf == s.leaf + mine
    && SetOf(s.free) == SetOf(t.free) + blocks && SetOf(t.free) !! blocks
    && forall c | c !in blocks :: Same(s.disk, t.disk, c)
  }

  lemma {:induction false} TakenTrans(s: Table, t: Table, u: Table, m: seq<int>, n: seq<int>, b: set<int>, c: set<int>)
    requires Taken(s, t, m, b) && Taken(t, u, n, c)
    ensures Taken(s, u, m + n, b + c) && b !! c
  {
    forall d | d !in b + c ensures Same(s.disk, u.disk, d) {
      assert Same(s.disk, t.disk, d) && Same(t.disk, u.disk, d);
    }
  }

  // ---------------------------------------------------------------- which block is where

  /** Where the blocks under address n begin. */
  ghost function Base(kind: Kind, n: nat): nat {
    if n == 0 then 0 else Base(kind, n - 1) + Power(Level(kind, n - 1))
  }

  function Nth(mine: seq<int>, i: nat): int {
    if i < |mine| then mine[i] else 0
  }

  /** Under address b, of the given level, number o is block number base + o of the list. */
  ghost predicate LeafAt(disk: map<int, Block>, b: int, k: nat, mine: seq<int>, base: nat, o: nat) {
    Walk(disk, b, k, o, 0) == Nth(mine, base + o)
  }

  ghost predicate Leads(disk: map<int, Block>, b: int, k: nat, mine: seq<int>, base: nat) {
    forall o: nat | o < Power(k) :: LeafAt(disk, b, k, mine, base, o)
  }

  ghost predicate AllLead(disk: map<int, Block>, a: seq<int>, n: nat, kind: Kind, mine: seq<int>) {
    forall i | 0 <= i < n && i < |a| :: Leads(disk, a[i], Level(kind, i), mine, Base(kind, i))
  }

  // ---------------------------------------------------------------- laws

  /** Whole blocks of a level below it change no turn. */
  lemma {:induction false} AgreeShift(x: nat, c: nat, k: nat)
    ensures c * Power(k) >= 0 && Agree(x + c * Power(k), x, k)
    decreases k
  {
    MulLe(0, c, Power(k));
    if k > 0 {
      var p, l: nat := Power(k - 1), k - 1;
      assert c * (NINDIR * p) == (c * NINDIR) * p;
      AgreeShift(x, c * NINDIR, l);
      IndexShift(x, c, p);
    }
  }

  lemma {:induction false} IndexShift(x: nat, c: nat, p: int)
    requires p >= 1
    ensures (c * NINDIR) * p >= 0 && (x + (c * NINDIR) * p) / p % NINDIR == x / p % NINDIR
  {
    var q, r := x / p, x % p;
    MulLe(0, c * NINDIR, p);
    assert x + (c * NINDIR) * p == (q + c * NINDIR) * p + r;
    QuotientIs(x + (c * NINDIR) * p, p, q + c * NINDIR, r);
  }

  lemma {:induction false} WalkAgree(disk: map<int, Block>, b: int, k: nat, off: nat, off': nat, to: nat)
    requires Agree(off, off', k)
    ensures Walk(disk, b, k, off, to) == Walk(disk, b, k, off', to)
    decreases k
  {
    if b != 0 && k > to && |At(disk, b)| == NINDIR {
      WalkAgree(disk, At(disk, b)[Index(off, k - 1)], k - 1, off, off', to);
    }
  }

  /** The blocks under equal levels begin at multiples. */
  lemma {:induction false} BaseAbove(k: nat, n: nat)
    ensures Base(Above(k), n) == n * Power(k)
  {
    if n > 0 {
      BaseAbove(k, n - 1);
      assert (n - 1) * Power(k) + Power(k) == n * Power(k);
    }
  }

  /** An indirect block leads where its addresses lead. */
  lemma {:induction false} BlockLeads(disk: map<int, Block>, b: int, k: nat, l: nat, a: seq<int>, mine: seq<int>)
    requires k == l + 1 && b != 0 && |a| == NINDIR && a == At(disk, b) && AllLead(disk, a, NINDIR, Above(l), mine)
    ensures Leads(disk, b, k, mine, 0)
  {
    var p := Power(l);
    forall off: nat | off < Power(k) ensures LeafAt(disk, b, k, mine, 0, off) {
      NumberLeads(disk, b, k, l, a, mine, off, off / p, off % p);
    }
  }

  lemma {:induction false} NumberLeads(disk: map<int, Block>, b: int, k: nat, l: nat, a: seq<int>, mine: seq<int>,
                                       off: nat, i: nat, o: nat)
    requires k == l + 1 && b != 0 && |a| == NINDIR && a == At(disk, b) && AllLead(disk, a, NINDIR, Above(l), mine)
    requires off < Power(k) && i == off / Power(l) && o == off % Power(l)
    ensures LeafAt(disk, b, k, mine, 0, off)
  {
    Within(off, Power(l), i, o);
    QuotientIs(i, NINDIR, 0, i);
    BaseAbove(l, i);
    AgreeShift(o, i, l);
    WalkAgree(disk, a[i], l, off, o, 0);
    assert Leads(disk, a[i], Level(Above(l), i), mine, Base(Above(l), i));
    assert LeafAt(disk, a[i], l, mine, Base(Above(l), i), o);
  }

  lemma {:induction false} Within(off: nat, p: int, i: nat, o: nat)
    requires p >= 1 && off < NINDIR * p && i == off / p && o == off % p
    ensures i < NINDIR && off == o + i * p
  {
    if i >= NINDIR {
      MulLe(NINDIR, i, p);
    }
  }

  /** Trees that are not touched lead where they led, and more blocks at the end of the list change nothing before. */
  lemma {:induction false} StillLeads(disk: map<int, Block>, disk': map<int, Block>, b: int, k: nat, mine: seq<int>,
                                      more: seq<int>, base: nat)
    requires Leads(disk, b, k, mine, base) && base + Power(k) <= |mine| && mine <= more
    requires b == 0 || (TreeGood(disk, b, k) && AllSame(disk, disk', Blocks(disk, b, k)))
    ensures Leads(disk', b, k, more, base)
  {
    FrameLeads(disk, disk', b, k, mine, base);
    forall o: nat | o < Power(k) ensures LeafAt(disk', b, k, more, base, o) {
      assert LeafAt(disk', b, k, mine, base, o);
    }
  }

  lemma {:induction false} FrameLeads(disk: map<int, Block>, disk': map<int, Block>, b: int, k: nat, mine: seq<int>,
                                      base: nat)
    requires Leads(disk, b, k, mine, base)
             && (b == 0 || (TreeGood(disk, b, k) && AllSame(disk, disk', Blocks(disk, b, k))))
    ensures Leads(disk', b, k, mine, base)
  {
    forall o: nat | o < Power(k) ensures LeafAt(disk', b, k, mine, base, o) {
      assert LeafAt(disk, b, k, mine, base, o);
      if b != 0 {
        WalkFrame(disk, disk', b, k, o, 0);
      }
    }
  }

  // ---------------------------------------------------------------- one address more

  /** The first n addresses have been filled, from a list of so many blocks to place. */
  ghost predicate Filled(s: Table, t: Table, a: seq<int>, n: nat, kind: Kind, mine: seq<int>, nblk: nat, rem: nat) {
    && n <= |a| && (forall i | n <= i < |a| :: a[i] == 0)
    && KidsGood(t.disk, a, n, kind) && Taken(s, t, mine, Kids(t.disk, a, n, kind)) && AllLead(t.disk, a, n, kind, mine)
    && |mine| + rem == nblk && |mine| <= Base(kind, n) && (rem > 0 ==> |mine| == Base(kind, n))
  }

  /** A tree of its own for the next of the blocks to place. */
  ghost predicate Grown(t: Table, u: Table, b: int, k: nat, mine: seq<int>, rem: nat, rem': nat) {
    && TreeGood(u.disk, b, k) && Taken(t, u, mine, Blocks(u.disk, b, k)) && Leads(u.disk, b, k, mine, 0)
    && |mine| + rem' == rem && |mine| <= Power(k) && (rem' > 0 ==> |mine| == Power(k))
  }

  lemma {:induction false} NextFilled(s: Table, t: Table, u: Table, a: seq<int>, n: nat, kind: Kind, mine: seq<int>,
                                      nblk: nat, rem: nat, b: int, new_: seq<int>, rem': nat)
    requires Filled(s, t, a, n, kind, mine, nblk, rem) && rem > 0 && n < |a| && Stock(s.free)
    requires Level(kind, n) <= Rank(kind) && Grown(t, u, b, Level(kind, n), new_, rem, rem')
    ensures Filled(s, u, a[n := b], n + 1, kind, mine + new_, nblk, rem')
  {
    var k, more, a', next := Level(kind, n), mine + new_, a[n := b], n + 1;
    var old_, added := Kids(t.disk, a, n, kind), Blocks(u.disk, b, k);
    TakenTrans(s, t, u, mine, new_, old_, added);
    NextTrees(t.disk, u.disk, a, n, kind, b, a', next);
    NextLeads(t.disk, u.disk, a, n, kind, mine, b, new_, a', next, more);
    assert Base(kind, next) == Base(kind, n) + Power(k);
  }

  lemma {:induction false} NextTrees(disk: map<int, Block>, disk': map<int, Block>, a: seq<int>, n: nat, kind: Kind,
                                     b: int, a': seq<int>, next: nat)
    requires KidsGood(disk, a, n, kind) && n < |a| && a' == a[n := b] && next == n + 1 && Level(kind, n) <= Rank(kind)
    requires TreeGood(disk', b, Level(kind, n)) && Kids(disk, a, n, kind) !! Blocks(disk', b, Level(kind, n))
    requires AllSame(disk, disk', Kids(disk, a, n, kind))
    ensures KidsGood(disk', a', next, kind)
    ensures Kids(disk', a', next, kind) == Kids(disk, a, n, kind) + Blocks(disk', b, Level(kind, n))
  {
    KidsFrame(disk, disk', a, n, kind);
    KidsPrefix(disk', a, a', n, kind);
    assert Kid(disk', b, Level(kind, n), Rank(kind)) == Blocks(disk', b, Level(kind, n));
    assert KidGood(disk', b, Level(kind, n), Rank(kind));
  }

  lemma {:induction false} NextLeads(disk: map<int, Block>, disk': map<int, Block>, a: seq<int>, n: nat, kind: Kind,
                                     mine: seq<int>, b: int, new_: seq<int>, a': seq<int>, next: nat, more: seq<int>)
    requires KidsGood(disk, a, n, kind) && n < |a| && a' == a[n := b] && next == n + 1 && more == mine + new_
    requires AllSame(disk, disk', Kids(disk, a, n, kind)) && AllLead(disk, a, n, kind, mine) && |mine| == Base(kind, n)
    requires Leads(disk', b, Level(kind, n), new_, 0)
    ensures AllLead(disk', a', next, kind, more)
  {
    forall i | 0 <= i < next ensures Leads(disk', a'[i], Level(kind, i), more, Base(kind, i)) {
      if i < n {
        KidIn(disk, a, n, kind, i);
        BaseGrows(kind, i, n);
        assert Leads(disk, a[i], Level(kind, i), mine, Base(kind, i));
        StillLeads(disk, disk', a[i], Level(kind, i), mine, more, Base(kind, i));
      } else {
        LastLeads(disk', b, Level(kind, n), mine, new_, more);
      }
    }
  }

  lemma {:induction false} LastLeads(disk: map<int, Block>, b: int, k: nat, mine: seq<int>, new_: seq<int>,
                                     more: seq<int>)
    requires Leads(disk, b, k, new_, 0) && more == mine + new_
    ensures Leads(disk, b, k, more, |mine|)
  {
    forall o: nat | o < Power(k) ensures LeafAt(disk, b, k, more, |mine|, o) {
      assert LeafAt(disk, b, k, new_, 0, o);
    }
  }

  lemma {:induction false} BaseGrows(kind: Kind, i: nat, n: nat)
    requires i < n
    ensures Base(kind, i) + Power(Level(kind, i)) <= Base(kind, n)
  {
    if i < n - 1 {
      BaseGrows(kind, i, n - 1);
    }
  }

  /** The addresses left at 0 lead nowhere, and there is nothing left to lead to. */
  lemma {:induction false} Rest(s: Table, t: Table, a: seq<int>, n: nat, m: nat, kind: Kind, mine: seq<int>, nblk: nat,
                                rem: nat)
    requires Filled(s, t, a, n, kind, mine, nblk, rem) && rem == 0 && n <= m <= |a|
    requires forall i | n <= i < m :: Level(kind, i) <= Rank(kind)
    ensures Filled(s, t, a, m, kind, mine, nblk, rem)
  {
    RestTrees(t.disk, a, n, m, kind);
    RestLeads(t.disk, a, n, m, kind, mine);
  }

  lemma {:induction false} RestTrees(disk: map<int, Block>, a: seq<int>, n: nat, m: nat, kind: Kind)
    requires n <= m <= |a| && (forall i | n <= i < m :: a[i] == 0 && Level(kind, i) <= Rank(kind))
             && KidsGood(disk, a, n, kind)
    ensures KidsGood(disk, a, m, kind) && Kids(disk, a, m, kind) == Kids(disk, a, n, kind)
            && Base(kind, n) <= Base(kind, m)
  {
    if n < m {
      var l: nat := m - 1;
      RestTrees(disk, a, n, l, kind);
      assert KidGood(disk, a[l], Level(kind, l), Rank(kind)) && Kid(disk, a[l], Level(kind, l), Rank(kind)) == {};
    }
  }

  lemma {:induction false} RestLeads(disk: map<int, Block>, a: seq<int>, n: nat, m: nat, kind: Kind, mine: seq<int>)
    requires n <= m <= |a| && (forall i | n <= i < m :: a[i] == 0) && AllLead(disk, a, n, kind, mine)
             && |mine| <= Base(kind, n)
    ensures AllLead(disk, a, m, kind, mine)
  {
    forall i | 0 <= i < m ensures Leads(disk, a[i], Level(kind, i), mine, Base(kind, i)) {
      if i >= n {
        BaseUp(kind, n, i);
        forall o: nat | o < Power(Level(kind, i)) ensures LeafAt(disk, a[i], Level(kind, i), mine, Base(kind, i), o) {
        }
      }
    }
  }

  lemma {:induction false} BaseUp(kind: Kind, n: nat, i: nat)
    requires n <= i
    ensures Base(kind, n) <= Base(kind, i)
  {
    if n < i {
      BaseUp(kind, n, i - 1);
    }
  }

  // ---------------------------------------------------------------- the allocation

  /** How many blocks an address of level k takes that is to lead to so many. */
  ghost function Need(k: nat, rem: nat): nat
    decreases k, 0, 0
  {
    if rem == 0 then 0 else if k == 0 then 1 else 1 + NeedKids(Above(k - 1), 0, NINDIR, rem)
  }

  ghost function NeedKids(kind: Kind, n: nat, count: nat, rem: nat): nat
    decreases Rank(kind), 1, count - n
  {
    if n >= count || rem == 0 || Level(kind, n) > Rank(kind) then 0
    else Need(Level(kind, n), rem) + NeedKids(kind, n + 1, count, Over(rem, Level(kind, n)))
  }

  /** What is left to place after an address of level k. */
  function Over(rem: nat, k: nat): nat {
    if rem <= Power(k) then 0 else rem - Power(k)
  }

  /** `claim_block` for a data block. */
  method AllocLeaf(t: Table) returns (b: int, u: Table, ok: bool)
    requires Stock(t.free)
    ensures ok <==> t.free != []
    ensures ok ==> TreeGood(u.disk, b, 0) && Taken(t, u, [b], {b}) && Leads(u.disk, b, 0, [b], 0)
    ensures ok ==> Stock(u.free) && |u.free| == |t.free| - 1
  {
    ok := t.free != [];
    b, u := 0, t;
    if ok {
      var n := |t.free| - 1;
      b := t.free[n];
      u := Table(t.free[..n], t.disk, t.leaf + [b]);
      LastTaken(t.free, n);
    }
  }

  lemma {:induction false} LastTaken(free: seq<int>, n: nat)
    requires Stock(free) && n + 1 == |free|
    ensures SetOf(free) == SetOf(free[..n]) + {free[n]} && free[n] !in free[..n] && Stock(free[..n])
  {
    assert free == free[..n] + [free[n]];
  }

  /** An indirect block of level k and what hangs under it, for as many of the blocks as it can lead to. */
  method AllocTree(t: Table, k: nat, rem: nat) returns (b: int, u: Table, rem': nat, ok: bool, ghost mine: seq<int>)
    requires Stock(t.free) && rem > 0 && k > 0
    ensures ok <==> |t.free| >= Need(k, rem)
    ensures ok ==> Grown(t, u, b, k, mine, rem, rem') && Stock(u.free) && |u.free| == |t.free| - Need(k, rem)
    decreases k, 0
  {
    mine, rem', b := [], rem, 0;
    var a;
    u, ok := t, t.free != [];
    if !ok {
      return;
    }
    var n := |t.free| - 1;
    b := t.free[n];
    u := t.(free := t.free[..n]);
    LastTaken(t.free, n);
    ghost var s := u;
    var l: nat := k - 1;
    a, u, rem', ok, mine := AllocKids(u, NINDIR, Above(l), rem);
    if ok {
      TableWritten(t, s, u, b, k, l, a, mine, rem, rem');
      u := u.(disk := u.disk[b := a]);
    }
  }

  /** The indirect block written, it leads where its addresses do. */
  lemma {:induction false} TableWritten(t: Table, s: Table, u: Table, b: int, k: nat, l: nat, a: seq<int>,
                                        mine: seq<int>, rem: nat, rem': nat)
    requires k == l + 1 && b > 0 && t.disk == s.disk && t.leaf == s.leaf && |a| == NINDIR
    requires Filled(s, u, a, NINDIR, Above(l), mine, rem, rem')
    requires |s.free| < |t.free| && s.free == t.free[..|s.free|] && SetOf(t.free) == SetOf(s.free) + {b}
             && b !in SetOf(s.free)
    ensures Grown(t, u.(disk := u.disk[b := a]), b, k, mine, rem, rem')
  {
    var disk := u.disk[b := a];
    var kids := Kids(u.disk, a, NINDIR, Above(l));
    WrittenTree(u.disk, disk, b, k, l, a, mine);
    BaseAbove(l, NINDIR);
    TakenToo(t, s, u, b, a, mine, kids);
  }

  lemma {:induction false} TakenToo(t: Table, s: Table, u: Table, b: int, a: seq<int>, mine: seq<int>, kids: set<int>)
    requires Taken(s, u, mine, kids) && t.disk == s.disk && t.leaf == s.leaf
    requires |s.free| < |t.free| && s.free == t.free[..|s.free|] && SetOf(t.free) == SetOf(s.free) + {b}
             && b !in SetOf(s.free)
    ensures Taken(t, u.(disk := u.disk[b := a]), mine, {b} + kids) && b !in kids
  {
    forall c | c !in {b} + kids ensures Same(t.disk, u.disk[b := a], c) {
      assert Same(s.disk, u.disk, c);
    }
  }

  lemma {:induction false} WrittenTree(disk: map<int, Block>, disk': map<int, Block>, b: int, k: nat, l: nat,
                                       a: seq<int>, mine: seq<int>)
    requires k == l + 1 && b > 0 && |a| == NINDIR && disk' == disk[b := a]
    requires KidsGood(disk, a, NINDIR, Above(l)) && b !in Kids(disk, a, NINDIR, Above(l))
             && AllLead(disk, a, NINDIR, Above(l), mine)
    ensures TreeGood(disk', b, k) && Blocks(disk', b, k) == {b} + Kids(disk, a, NINDIR, Above(l))
            && Leads(disk', b, k, mine, 0)
  {
    assert At(disk', b) == a;
    forall c | c in Kids(disk, a, NINDIR, Above(l)) ensures Same(disk, disk', c) {
    }
    KidsFrame(disk, disk', a, NINDIR, Above(l));
    TreeOf(disk', b, k, l, a);
    AllFrame(disk, disk', a, NINDIR, Above(l), mine);
    BlockLeads(disk', b, k, l, a, mine);
  }

  lemma {:induction false} TreeOf(disk: map<int, Block>, b: int, k: nat, l: nat, a: seq<int>)
    requires k == l + 1 && b > 0 && a == At(disk, b) && |a| == NINDIR
    requires KidsGood(disk, a, NINDIR, Above(l)) && b !in Kids(disk, a, NINDIR, Above(l))
    ensures TreeGood(disk, b, k) && Blocks(disk, b, k) == {b} + Kids(disk, a, NINDIR, Above(l))
  {
    assert k - 1 == l;
  }

  lemma {:induction false} AllFrame(disk: map<int, Block>, disk': map<int, Block>, a: seq<int>, n: nat, kind: Kind,
                                    mine: seq<int>)
    requires n <= |a| && KidsGood(disk, a, n, kind) && AllSame(disk, disk', Kids(disk, a, n, kind))
    requires AllLead(disk, a, n, kind, mine)
    ensures AllLead(disk', a, n, kind, mine)
  {
    forall i | 0 <= i < n ensures Leads(disk', a[i], Level(kind, i), mine, Base(kind, i)) {
      KidIn(disk, a, n, kind, i);
      assert Leads(disk, a[i], Level(kind, i), mine, Base(kind, i));
      FrameLeads(disk, disk', a[i], Level(kind, i), mine, Base(kind, i));
    }
  }

  method AllocKid(t: Table, k: nat, rem: nat) returns (b: int, u: Table, rem': nat, ok: bool, ghost mine: seq<int>)
    requires Stock(t.free) && rem > 0
    ensures ok <==> |t.free| >= Need(k, rem)
    ensures ok ==> Grown(t, u, b, k, mine, rem, rem') && Stock(u.free) && |u.free| == |t.free| - Need(k, rem)
    decreases k, 1
  {
    if k == 0 {
      b, u, ok := AllocLeaf(t);
      rem', mine := rem - 1, [b];
      assert Power(0) == 1;
    } else {
      b, u, rem', ok, mine := AllocTree(t, k, rem);
    }
  }

  /** The first n addresses are filled, and the rest of the blocks needed is still needed. */
  ghost predicate Filling(t: Table, u: Table, a: seq<int>, n: nat, kind: Kind, mine: seq<int>, nblk: nat, rem: nat) {
    && Filled(t, u, a, n, kind, mine, nblk, rem) && Stock(t.free) && Stock(u.free)
    && (forall i | 0 <= i < |a| :: Level(kind, i) <= Rank(kind))
    && |u.free| + NeedKids(kind, 0, |a|, nblk) == |t.free| + NeedKids(kind, n, |a|, rem)
  }

  /** One address after the other, as long as there are blocks to place. */
  method AllocKids(t: Table, count: nat, kind: Kind, nblk: nat)
    returns (a: seq<int>, u: Table, rem: nat, ok: bool, ghost mine: seq<int>)
    requires Stock(t.free) && forall i | 0 <= i < count :: Level(kind, i) <= Rank(kind)
    ensures ok <==> |t.free| >= NeedKids(kind, 0, count, nblk)
    ensures ok ==> |a| == count && Filled(t, u, a, count, kind, mine, nblk, rem) && Stock(u.free)
    ensures ok ==> |u.free| == |t.free| - NeedKids(kind, 0, count, nblk)
    decreases Rank(kind), 3
  {
    a, u, rem, ok, mine := seq(count, _ => 0), t, nblk, true, [];
    var n: nat := 0;
    NothingFilled(t, a, kind, nblk);
    while n < count && rem > 0
      invariant n <= count == |a| && Filling(t, u, a, n, kind, mine, nblk, rem)
      decreases count - n
    {
      a, u, rem, ok, mine := NextKid(t, u, a, n, kind, mine, nblk, rem);
      if !ok {
        return;
      }
      n := n + 1;
    }
    AllFilled(t, u, a, n, kind, mine, nblk, rem);
  }

  lemma {:induction false} NothingFilled(t: Table, a: seq<int>, kind: Kind, nblk: nat)
    requires Stock(t.free) && forall i | 0 <= i < |a| :: a[i] == 0 && Level(kind, i) <= Rank(kind)
    ensures Filling(t, t, a, 0, kind, [], nblk, nblk)
  {
    assert t.leaf + [] == t.leaf;
  }

  lemma {:induction false} AllFilled(t: Table, u: Table, a: seq<int>, n: nat, kind: Kind, mine: seq<int>, nblk: nat,
                                     rem: nat)
    requires Filling(t, u, a, n, kind, mine, nblk, rem) && (n == |a| || rem == 0)
    ensures Filled(t, u, a, |a|, kind, mine, nblk, rem) && |u.free| == |t.free| - NeedKids(kind, 0, |a|, nblk)
  {
    if rem == 0 {
      Rest(t, u, a, n, |a|, kind, mine, nblk, rem);
    }
  }

  method NextKid(ghost t: Table, u0: Table, a0: seq<int>, n: nat, kind: Kind, ghost mine0: seq<int>, ghost nblk: nat,
                 rem0: nat)
    returns (a: seq<int>, u: Table, rem: nat, ok: bool, ghost mine: seq<int>)
    requires Filling(t, u0, a0, n, kind, mine0, nblk, rem0) && n < |a0| && rem0 > 0
    ensures !ok ==> |t.free| < NeedKids(kind, 0, |a0|, nblk)
    ensures ok ==> |a| == |a0| && Filling(t, u, a, n + 1, kind, mine, nblk, rem)
    decreases Rank(kind), 2
  {
    var b;
    ghost var new_;
    a := a0;
    b, u, rem, ok, new_ := AllocKid(u0, Level(kind, n), rem0);
    mine := mine0 + new_;
    if ok {
      NextFilled(t, u0, u, a, n, kind, mine0, nblk, rem0, b, new_, rem);
      assert rem == Over(rem0, Level(kind, n));
      a := a[n := b];
    }
  }

  /** `setup_for_size`: unless the blocks run out or the file is too big, block number i of the file is the one that the
      addresses in the inode and the indirect blocks lead to, and no block is used for two things. */
  method SetupForSize(free: seq<int>, disk: map<int, Block>, nblk: nat) returns (iaddr: seq<int>, u: Table, ok: bool)
    requires Stock(free)
    ensures ok <==> |free| >= NeedKids(Inode, 0, NADDR, nblk) && nblk <= NADDR - 3 + Power(1) + Power(2) + Power(3)
    ensures ok ==> FileGood(u.disk, iaddr) && SetOf(free) == SetOf(u.free) + FileBlocks(u.disk, iaddr)
    ensures ok ==> SetOf(u.free) !! FileBlocks(u.disk, iaddr) && |u.leaf| == nblk
    ensures ok ==> forall i: nat :: Lookup(u.disk, iaddr, i) == Nth(u.leaf, i)
  {
    ghost var mine;
    var rem;
    iaddr, u, rem, ok, mine := AllocKids(Table(free, disk, []), NADDR, Inode, nblk);
    BaseInode();
    if ok && rem > 0 {
      ok := false;
    }
    if ok {
      FileFilled(Table(free, disk, []), u, iaddr, mine, nblk);
    }
  }

  lemma {:induction false} FileFilled(t: Table, u: Table, iaddr: seq<int>, mine: seq<int>, nblk: nat)
    requires t.leaf == [] && |iaddr| == NADDR && Filled(t, u, iaddr, NADDR, Inode, mine, nblk, 0)
    ensures FileGood(u.disk, iaddr) && SetOf(t.free) == SetOf(u.free) + FileBlocks(u.disk, iaddr)
    ensures SetOf(u.free) !! FileBlocks(u.disk, iaddr) && |u.leaf| == nblk
    ensures forall i: nat :: Lookup(u.disk, iaddr, i) == Nth(u.leaf, i)
  {
    assert u.leaf == mine;
    AllFound(u.disk, iaddr, mine);
  }

  lemma {:induction false} AllFound(disk: map<int, Block>, iaddr: seq<int>, mine: seq<int>)
    requires |iaddr| == NADDR && AllLead(disk, iaddr, NADDR, Inode, mine) && |mine| <= Base(Inode, NADDR)
    ensures |mine| <= NADDR - 3 + Power(1) + Power(2) + Power(3)
            && forall i: nat :: Lookup(disk, iaddr, i) == Nth(mine, i)
  {
    BaseInode();
    forall i: nat ensures Lookup(disk, iaddr, i) == Nth(mine, i) {
      FoundByNumber(disk, iaddr, mine, i);
    }
  }

  lemma {:induction false} BaseDirect(n: nat)
    requires n <= NADDR - 3
    ensures Base(Inode, n) == n
  {
    if n > 0 {
      BaseDirect(n - 1);
      assert Power(0) == 1;
    }
  }

  lemma {:induction false} BaseInode()
    ensures Base(Inode, NADDR - 2) == NADDR - 3 + Power(1) && Base(Inode, NADDR - 1) == NADDR - 3 + Power(1) + Power(2)
    ensures Base(Inode, NADDR) == NADDR - 3 + Power(1) + Power(2) + Power(3)
  {
    BaseDirect(NADDR - 3);
    assert Level(Inode, NADDR - 3) == 1 && Level(Inode, NADDR - 2) == 2 && Level(Inode, NADDR - 1) == 3;
  }

  lemma {:induction false} FoundByNumber(disk: map<int, Block>, iaddr: seq<int>, mine: seq<int>, i: nat)
    requires |iaddr| == NADDR && AllLead(disk, iaddr, NADDR, Inode, mine) && |mine| <= Base(Inode, NADDR)
    ensures Lookup(disk, iaddr, i) == Nth(mine, i)
  {
    BaseInode();
    BaseDirect(NADDR - 3);
    match PlaceOf(i)
    case TooFar =>
    case Place(slot, level, off) =>
      if slot < NADDR - 3 {
        BaseDirect(slot);
      }
      assert Base(Inode, slot) + off == i;
      assert Leads(disk, iaddr[slot], level, mine, Base(Inode, slot));
      assert LeafAt(disk, iaddr[slot], level, mine, Base(Inode, slot), off);
  }
}
