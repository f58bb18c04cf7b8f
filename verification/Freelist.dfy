/** The free list as mkfs (tools/mkfs.py, mkfs.c) and icheck (icheck.c) make it: the blocks of each cylinder
    interleaved, cylinder after cylinder from the end of the volume. */
module Freelist {
  import opened Arithmetic
  import opened RestorFree
  import opened Restor

  // ---------------------------------------------------------------- the order within a cylinder

  /** How far i is from u, going up and round. */
  ghost function Distance(i: nat, u: nat, n: nat): nat
    requires i < n && u < n
  {
    if u >= i then u - i else u - i + n
  }

  lemma {:induction false} StepRound(i: nat, u: nat, n: nat, next: int)
    requires i < n && u < n && i != u && next == (i + 1) % n
    ensures next == (if i + 1 == n then 0 else i + 1) && Distance(next, u, n) < Distance(i, u, n)
  {
    if i + 1 == n {
      QuotientIs(i + 1, n, 1, 0);
    } else {
      QuotientIs(i + 1, n, 0, i + 1);
    }
  }

  lemma {:induction false} WayOn(start: nat, i: nat, next: nat, n: nat)
    requires start < n && i < n && next == if i + 1 == n then 0 else i + 1
    ensures forall y | 0 <= y < n && OnTheWay(start, next, y) :: OnTheWay(start, i, y) || y == i
  {
  }

  ghost predicate NoneTwice(s: seq<int>) {
    forall j, k | 0 <= j < k < |s| :: s[j] != s[k]
  }

  /** The slots not taken yet, so many of n. */
  ghost predicate Unset(flg: seq<bool>, adr: seq<int>, rest: set<nat>, n: nat) {
    && |flg| == n && |adr| + |rest| == n && NoneTwice(adr)
    && (forall k | 0 <= k < n :: flg[k] <==> k !in rest)
    && (forall k | k in rest :: k < n)
    && (forall v :: v in adr <==> 1 <= v <= n && flg[v - 1])
  }

  /** The first slot not taken, from i up and round. */
  method FreeSlot(flg: seq<bool>, i0: nat, n: nat, ghost u: nat) returns (i: nat)
    requires |flg| == n && i0 < n && u < n && !flg[u]
    ensures i < n && !flg[i] && forall y | 0 <= y < n && OnTheWay(i0, i, y) :: flg[y]
  {
    i := i0;
    while flg[i]
      invariant i < n && forall y | 0 <= y < n && OnTheWay(i0, i, y) :: flg[y]
      decreases Distance(i, u, n)
    {
      var next := (i + 1) % n;
      StepRound(i, u, n, next);
      WayOn(i0, i, next, n);
      i := next;
    }
  }

  /** Entry j of the table is the first not taken by an earlier one, going up and round from m slots behind the last. */
  ghost predicate FirstFree(adr: seq<int>, n: nat, m: nat, j: nat) {
    && j < |adr| && n > 0
    && forall y: nat | y < n && OnTheWay(if j == 0 then 0 else (adr[j - 1] - 1 + m) % n, adr[j] - 1, y) ::
         Taken(adr, j, y)
  }

  ghost predicate Taken(adr: seq<int>, j: nat, y: nat) {
    exists k: nat :: k < j && k < |adr| && adr[k] == y + 1
  }

  lemma {:induction false} NextFree(adr: seq<int>, n: nat, m: nat, i: nat, flg: seq<bool>, more: seq<int>, start: nat)
    requires n > 0 && |flg| == n && more == adr + [i + 1] && (forall j: nat | j < |adr| :: FirstFree(adr, n, m, j))
    requires start == if adr == [] then 0 else (adr[|adr| - 1] - 1 + m) % n
    requires forall v :: v in adr <==> 1 <= v <= n && flg[v - 1]
    requires forall y | 0 <= y < n && OnTheWay(start, i, y) :: flg[y]
    ensures forall j: nat | j < |more| :: FirstFree(more, n, m, j)
  {
    forall j: nat | j < |more| ensures FirstFree(more, n, m, j) {
      if j < |adr| {
        assert FirstFree(adr, n, m, j);
        forall y: nat | Taken(adr, j, y) ensures Taken(more, j, y) {
          var k: nat :| k < j && k < |adr| && adr[k] == y + 1;
          assert more[k] == y + 1;
        }
      } else {
        forall y: nat | y < n && OnTheWay(start, i, y) ensures Taken(more, j, y) {
          assert y + 1 in adr;
          var k :| 0 <= k < |adr| && adr[k] == y + 1;
          assert more[k] == y + 1;
        }
      }
    }
  }

  /** The table so far, and where the next search begins. */
  ghost predicate Filling(flg: seq<bool>, adr: seq<int>, rest: set<nat>, n: nat, m: nat, i: nat) {
    && n > 0 && i < n && Unset(flg, adr, rest, n) && i == (if adr == [] then 0 else (adr[|adr| - 1] - 1 + m) % n)
    && forall j: nat | j < |adr| :: FirstFree(adr, n, m, j)
  }

  lemma {:induction false} FillNext(flg: seq<bool>, adr: seq<int>, rest: set<nat>, n: nat, m: nat, start: nat, i: nat)
    requires Filling(flg, adr, rest, n, m, start) && i < n && !flg[i]
    requires forall y | 0 <= y < n && OnTheWay(start, i, y) :: flg[y]
    ensures Filling(flg[i := true], adr + [i + 1], rest - {i}, n, m, (i + m) % n)
  {
    TakeSlot(flg, adr, rest, n, i);
    NextFree(adr, n, m, i, flg, adr + [i + 1], start);
  }

  /** The table `adr` is 1 to n in the order of the interleave, whatever that is. */
  method Interleave(n: nat, m: nat) returns (adr: seq<int>)
    requires n > 0
    ensures |adr| == n && NoneTwice(adr) && forall v :: v in adr <==> 1 <= v <= n
    ensures forall j: nat | j < n :: FirstFree(adr, n, m, j)
  {
    var flg := seq(n, _ => false);
    adr := [];
    var i: nat := 0;
    ghost var rest := UpTo(n);
    while |adr| < n
      invariant Filling(flg, adr, rest, n, m, i)
      decreases |rest|
    {
      ghost var u :| u in rest;
      ghost var start := i;
      i := FreeSlot(flg, i, n, u);
      FillNext(flg, adr, rest, n, m, start, i);
      adr := adr + [i + 1];
      flg := flg[i := true];
      rest := rest - {i};
      i := (i + m) % n;
    }
    assert rest == {};
  }

  lemma {:induction false} TakeSlot(flg: seq<bool>, adr: seq<int>, rest: set<nat>, n: nat, i: nat)
    requires Unset(flg, adr, rest, n) && i < n && !flg[i]
    ensures Unset(flg[i := true], adr + [i + 1], rest - {i}, n)
  {
    assert i + 1 !in adr;
    var more, marks := adr + [i + 1], flg[i := true];
    forall v ensures v in more <==> 1 <= v <= n && marks[v - 1] {
      assert v in more <==> v in adr || v == i + 1;
    }
  }

  // ---------------------------------------------------------------- the order of the volume

  /** The end of the last cylinder: the first multiple of n from fsize - 1 on. Only `build_freelist` of mkfs.py goes on
      to the next where that is fsize - 1 itself. */
  method LastCylinder(fsize: nat, n: nat, onward: bool) returns (d: nat, ghost q: nat)
    requires n > 0 && fsize > 0
    ensures d == q * n && fsize - 1 <= d
    ensures d >= fsize <==> onward || (fsize - 1) % n != 0
  {
    d := fsize - 1;
    if onward && d % n == 0 {
      d := d + 1;
    }
    ghost var d0 := d;
    ghost var next := NextMultiple(d, n);
    while d % n != 0
      invariant d0 <= d <= next && (d0 % n == 0 ==> d == d0)
      decreases next - d
    {
      d := d + 1;
    }
    q := Multiple(d, n);
  }

  lemma {:induction false} Multiple(d: nat, n: nat) returns (q: nat)
    requires n > 0 && d % n == 0
    ensures d == q * n
  {
    q := d / n;
  }

  lemma {:induction false} NextMultiple(d: nat, n: nat) returns (next: nat)
    requires n > 0
    ensures d <= next && next % n == 0
  {
    var q := d / n;
    next := (q + 1) * n;
    assert next == q * n + n;
    QuotientIs(next, n, q + 1, 0);
  }

  /** Block f has been listed: it is in the volume, and in a later cylinder or among the first i of this one. */
  ghost predicate Reached(f: int, isize: nat, fsize: nat, d: int, top: int, adr: seq<int>, i: nat) {
    isize <= f < fsize && f < top && (f >= d || (i <= |adr| && d - f in adr[..i]))
  }

  ghost predicate Listed(list: seq<int>, isize: nat, fsize: nat, d: int, top: int, adr: seq<int>, i: nat) {
    NoneTwice(list) && forall f :: f in list <==> Reached(f, isize, fsize, d, top, adr, i)
  }

  /** Block f comes in front of block g: it is in a higher cylinder, or its place in the table is the earlier one. */
  ghost predicate InFront(adr: seq<int>, n: nat, f: int, g: int) {
    && 0 <= f && 0 <= g && n > 0
    && (f / n > g / n
        || (f / n == g / n && exists i, k :: 0 <= i < k < |adr| && adr[i] == n - f % n && adr[k] == n - g % n))
  }

  ghost predicate InTurn(list: seq<int>, adr: seq<int>, n: nat) {
    forall x, y | 0 <= x < y < |list| :: InFront(adr, n, list[x], list[y])
  }

  /** The table for n and m. */
  ghost predicate TableFor(adr: seq<int>, n: nat, m: nat) {
    && |adr| == n && NoneTwice(adr) && (forall v :: v in adr <==> 1 <= v <= n)
    && forall j: nat | j < n :: FirstFree(adr, n, m, j)
  }

  lemma {:induction false} BlockOf(n: nat, q: nat, d: nat, a: int)
    requires n > 0 && d == q * n && 1 <= a <= n && q > 0
    ensures d - a >= 0 && (d - a) / n == q - 1 && n - (d - a) % n == a
  {
    assert d == (q - 1) * n + n && (q - 1) * n >= 0;
    QuotientIs(d - a, n, q - 1, n - a);
  }

  lemma {:induction false} BlockAbove(n: nat, q: nat, d: nat, g: int)
    requires n > 0 && d == q * n && g >= d
    ensures g / n >= q
  {
    var k, r := g / n, g % n;
    assert g == k * n + r;
    assert (k + 1) * n == k * n + n;
    if k < q {
      MulLe(k + 1, q, n);
    }
  }

  /** The next block of a cylinder comes behind all listed before. */
  lemma {:induction false} PutInTurn(list: seq<int>, isize: nat, fsize: nat, d: nat, top: nat, adr: seq<int>, n: nat,
                                     q: nat, i: nat, f: int)
    requires |adr| == n > 0 && (forall v :: v in adr <==> 1 <= v <= n) && d == q * n && q > 0 && i < n
    requires Listed(list, isize, fsize, d, top, adr, i) && InTurn(list, adr, n) && f == d - adr[i]
    ensures InTurn(list + [f], adr, n)
  {
    assert adr[i] in adr;
    BlockOf(n, q, d, adr[i]);
    forall x | 0 <= x < |list| ensures InFront(adr, n, list[x], f) {
      var g := list[x];
      assert g in list && Reached(g, isize, fsize, d, top, adr, i);
      if g >= d {
        BlockAbove(n, q, d, g);
      } else {
        var k :| 0 <= k < i && adr[k] == d - g;
        assert adr[k] in adr;
        BlockOf(n, q, d, adr[k]);
      }
    }
  }

  /** The blocks of one cylinder. */
  method Cylinder(list0: seq<int>, isize: nat, fsize: nat, d: nat, ghost top: nat, adr: seq<int>, n: nat,
                  ghost q: nat)
    returns (list: seq<int>)
    requires n > 0 && q > 0 && d == q * n && InTurn(list0, adr, n)
    ensures InTurn(list, adr, n)
    requires |adr| == n && NoneTwice(adr) && (forall v :: v in adr <==> 1 <= v <= n) && n <= d <= top
    requires Listed(list0, isize, fsize, d, top, adr, 0)
    ensures Listed(list, isize, fsize, d - n, top, adr, 0)
  {
    list := list0;
    var i: nat := 0;
    while i < n
      invariant i <= n && Listed(list, isize, fsize, d, top, adr, i) && InTurn(list, adr, n)
    {
      var f := d - adr[i];
      PutInTurn(list, isize, fsize, d, top, adr, n, q, i, f);
      assert adr[i] in adr;
      OneMore(list, isize, fsize, d, top, adr, i, f);
      if isize <= f < fsize {
        list := list + [f];
      }
      i := i + 1;
    }
    WholeCylinder(list, isize, fsize, d, top, adr, n);
  }

  lemma {:induction false} OneMore(list: seq<int>, isize: nat, fsize: nat, d: nat, top: nat, adr: seq<int>, i: nat,
                                   f: int)
    requires i < |adr| && NoneTwice(adr) && adr[i] >= 1 && f == d - adr[i] && d <= top
             && Listed(list, isize, fsize, d, top, adr, i)
    ensures Listed(if isize <= f < fsize then list + [f] else list, isize, fsize, d, top, adr, i + 1)
  {
    var next := i + 1;
    assert adr[..next] == adr[..i] + [adr[i]];
    assert adr[i] !in adr[..i];
    assert !Reached(f, isize, fsize, d, top, adr, i);
    var more := if isize <= f < fsize then list + [f] else list;
    forall g ensures g in more <==> Reached(g, isize, fsize, d, top, adr, next) {
      assert g in list <==> Reached(g, isize, fsize, d, top, adr, i);
      assert d - g == adr[i] <==> g == f;
    }
  }

  lemma {:induction false} WholeCylinder(list: seq<int>, isize: nat, fsize: nat, d: nat, top: nat, adr: seq<int>,
                                         n: nat)
    requires |adr| == n && (forall v :: v in adr <==> 1 <= v <= n) && Listed(list, isize, fsize, d, top, adr, n)
    ensures Listed(list, isize, fsize, d - n, top, adr, 0)
  {
    assert adr[..n] == adr;
    forall f ensures f in list <==> Reached(f, isize, fsize, d - n, top, adr, 0) {
      assert f in list <==> Reached(f, isize, fsize, d, top, adr, n);
    }
  }

  /** Each block from isize on is listed once; the last block of the volume is left out when its number is a multiple
      of n and the list does not go onward. */
  method Listing(n: nat, m: nat, isize: nat, fsize: nat, onward: bool) returns (list: seq<int>)
    requires n > 0 && fsize > 0
    ensures NoneTwice(list)
    ensures forall f :: f in list <==> isize <= f < fsize && (f < fsize - 1 || onward || (fsize - 1) % n != 0)
    ensures exists adr :: TableFor(adr, n, m) && InTurn(list, adr, n)
  {
    var adr := Interleave(n, m);
    assert TableFor(adr, n, m);
    var d: nat;
    ghost var q: nat;
    d, q := LastCylinder(fsize, n, onward);
    ghost var top := d;
    list := [];
    while d > 0
      invariant d == q * n && d <= top && Listed(list, isize, fsize, d, top, adr, 0) && InTurn(list, adr, n)
      decreases d
    {
      assert q > 0;
      assert d == (q - 1) * n + n && (q - 1) * n >= 0;
      list := Cylinder(list, isize, fsize, d, top, adr, n, q);
      d := d - n;
      q := q - 1;
    }
    forall f ensures f in list <==> isize <= f < fsize && (f < fsize - 1 || onward || (fsize - 1) % n != 0) {
      assert f in list <==> Reached(f, isize, fsize, 0, top, adr, 0);
    }
  }

  /** A volume of 4 blocks with 3 to a cylinder: block 3 is not listed, unless the list goes onward. */
  method LastBlockMissing(m: nat) returns (list: seq<int>, onward: seq<int>)
    ensures (forall f :: f in list <==> f == 2) && forall f :: f in onward <==> f == 2 || f == 3
  {
    list := Listing(3, m, 2, 4, false);
    onward := Listing(3, m, 2, 4, true);
  }

  // ---------------------------------------------------------------- the list on the volume

  /** `duped`: whether the block has been met, and now it has. */
  method Duped(bmap: set<int>, f: int) returns (dup: bool, bmap': set<int>)
    ensures dup == (f in bmap) && bmap' == bmap + {f}
  {
    dup := f in bmap;
    bmap' := bmap + {f};
  }

  /** The first k blocks of a list that are not used, the last one first. */
  ghost function Backwards(list: seq<int>, k: nat, used: set<int>): seq<int>
    requires k <= |list|
  {
    if k == 0 then []
    else if list[k - 1] in used then Backwards(list, k - 1, used)
    else [list[k - 1]] + Backwards(list, k - 1, used)
  }

  /** `makefree` of icheck, and with no block used `bflist` of mkfs: a chain of exactly the blocks not used, but for the
      last block of the volume where its number is a multiple of n. */
  method MakeFree(disk: map<int, Block>, n: nat, m: nat, isize: nat, fsize: nat, used: set<int>) returns (v: Volume)
    requires n > 0 && 0 < isize && 0 < fsize && Sized(disk)
    ensures fresh(v) && v.Valid()
    ensures forall f :: f in v.Free() <==> f !in used && isize <= f < fsize && (f < fsize - 1 || (fsize - 1) % n != 0)
    ensures exists list, adr ::
              TableFor(adr, n, m) && InTurn(list, adr, n) && v.Order() == Backwards(list, |list|, used)
  {
    v := new Volume(disk);
    var list := Listing(n, m, isize, fsize, false);
    var bmap, k: nat := used, 0;
    while k < |list|
      invariant k <= |list| && fresh(v) && Building(v, list, k, used, bmap)
    {
      assert list[k] in list;
      bmap := BuildNext(v, list, k, used, bmap);
      k := k + 1;
    }
    assert list[..k] == list;
  }

  /** The first k blocks of the list have been met, and those not used are free. */
  ghost predicate Building(v: Volume, list: seq<int>, k: nat, used: set<int>, bmap: set<int>)
    reads v
  {
    && v.Valid() && k <= |list| && v.Order() == Backwards(list, k, used)
    && (forall f :: f in v.Free() <==> f !in used && f in list[..k])
    && forall f :: f in bmap <==> f in used || f in list[..k]
  }

  /** The next block of the list. */
  method BuildNext(v: Volume, list: seq<int>, k: nat, ghost used: set<int>, bmap0: set<int>) returns (bmap: set<int>)
    requires NoneTwice(list) && k < |list| && list[k] > 0 && Building(v, list, k, used, bmap0)
    modifies v
    ensures Building(v, list, k + 1, used, bmap)
  {
    var dup;
    assert list[..k + 1] == list[..k] + [list[k]];
    assert list[k] !in list[..k];
    dup, bmap := Duped(bmap0, list[k]);
    if !dup {
      v.BFree(list[k]);
    }
  }
}
