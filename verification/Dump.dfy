/** Which files and directories dump writes (dump.c): those changed, and every directory that leads to one of them. The
    passes over the directories drop those that can lead nowhere. */
module Dump {
  import opened Arithmetic

  /** The bits of a word of the maps. */
  const MLEN: int := 16

  /** The entries of each inode that is a directory, besides `.` and `..`; inodes count from 1, and 0 is no entry. */
  type Tree = map<nat, seq<nat>>

  ghost predicate Holds(tree: Tree, d: nat, s: set<nat>) {
    d in tree && exists i :: 0 <= i < |tree[d]| && tree[d][i] != 0 && tree[d][i] in s
  }

  /** Every directory with an entry in the set is in it. */
  ghost predicate Closed(tree: Tree, s: set<nat>) {
    forall d | d in tree && Holds(tree, d, s) :: d in s
  }

  /** The smallest such set that has the changed inodes. */
  ghost predicate Least(tree: Tree, changed: set<nat>, s: set<nat>) {
    changed <= s && Closed(tree, s) && forall t: set<nat> | changed <= t && Closed(tree, t) :: s <= t
  }

  /** A directory no longer looked at leads to nothing that is or will be dumped. */
  ghost predicate Dropped(tree: Tree, nodmap: set<nat>, dirmap: set<nat>, d: nat) {
    d in tree && d !in dirmap && d !in nodmap ==> !Holds(tree, d, nodmap) && !Holds(tree, d, dirmap)
  }

  /** Only directories are looked at, and what is dumped has to be. */
  ghost predicate Right(tree: Tree, changed: set<nat>, nodmap: set<nat>, dirmap: set<nat>) {
    && changed <= nodmap && (forall d | d in dirmap :: d in tree)
    && (forall d :: Dropped(tree, nodmap, dirmap, d))
    && forall t: set<nat> | changed <= t && Closed(tree, t) :: nodmap <= t
  }

  // ---------------------------------------------------------------- one directory

  /** `icat` with `dsrch`: whether an entry is dumped, and otherwise whether one is a directory still looked at. */
  method DSrch(tree: Tree, d: nat, nodmap: set<nat>, dirmap: set<nat>) returns (dadded: bool, nsubdir: nat)
    requires d in tree
    ensures dadded <==> Holds(tree, d, nodmap)
    ensures !dadded ==> (nsubdir > 0 <==> Holds(tree, d, dirmap))
  {
    dadded, nsubdir := false, 0;
    var i: nat := 0;
    while i < |tree[d]|
      invariant i <= |tree[d]|
      invariant forall j | 0 <= j < i :: tree[d][j] != 0 ==> tree[d][j] !in nodmap
      invariant nsubdir > 0 <==> exists j :: 0 <= j < i && tree[d][j] != 0 && tree[d][j] in dirmap
    {
      var e := tree[d][i];
      if e != 0 {
        if e in nodmap {
          return true, nsubdir;
        }
        if e in dirmap {
          nsubdir := nsubdir + 1;
        }
      }
      i := i + 1;
    }
  }

  /** `add`: a directory that leads to something dumped is dumped; one that leads to no directory is dropped. */
  method Add(tree: Tree, ghost changed: set<nat>, d: nat, nodmap0: set<nat>, dirmap0: set<nat>)
    returns (nodmap: set<nat>, dirmap: set<nat>, added: bool)
    requires Right(tree, changed, nodmap0, dirmap0) && d in dirmap0
    ensures Right(tree, changed, nodmap, dirmap) && nodmap0 <= nodmap
    ensures dirmap == dirmap0 || dirmap == dirmap0 - {d}
    ensures if added then d !in nodmap0 && nodmap == nodmap0 + {d} else nodmap == nodmap0
    ensures !added ==> d in nodmap || !Holds(tree, d, nodmap)
  {
    nodmap, dirmap, added := nodmap0, dirmap0, false;
    if d in nodmap {
      return;
    }
    var dadded, nsubdir := DSrch(tree, d, nodmap, dirmap);
    if dadded {
      Joins(tree, changed, nodmap, dirmap, d);
      nodmap := nodmap + {d};
      added := true;
    }
    if nsubdir == 0 && d !in nodmap {
      Drops(tree, changed, nodmap, dirmap, d);
      dirmap := dirmap - {d};
    }
  }

  lemma {:induction false} HoldsMore(tree: Tree, d: nat, s: set<nat>, x: nat)
    requires Holds(tree, d, s + {x}) && !Holds(tree, d, s)
    ensures Holds(tree, d, {x})
  {
    var i :| 0 <= i < |tree[d]| && tree[d][i] != 0 && tree[d][i] in s + {x};
  }

  lemma {:induction false} HoldsLess(tree: Tree, d: nat, s: set<nat>, t: set<nat>)
    requires Holds(tree, d, s) && s <= t
    ensures Holds(tree, d, t)
  {
    var i :| 0 <= i < |tree[d]| && tree[d][i] != 0 && tree[d][i] in s;
  }

  /** Whatever is dropped leads to no directory looked at, so it does not lead to one that joins. */
  lemma {:induction false} Joins(tree: Tree, changed: set<nat>, nodmap: set<nat>, dirmap: set<nat>, d: nat)
    requires Right(tree, changed, nodmap, dirmap) && d in dirmap && Holds(tree, d, nodmap)
    ensures Right(tree, changed, nodmap + {d}, dirmap)
  {
    var more := nodmap + {d};
    forall c ensures Dropped(tree, more, dirmap, c) {
      assert Dropped(tree, nodmap, dirmap, c);
      if c in tree && c !in dirmap && c !in more && Holds(tree, c, more) {
        HoldsMore(tree, c, nodmap, d);
        HoldsLess(tree, c, {d}, dirmap);
      }
    }
    forall t: set<nat> | changed <= t && Closed(tree, t) ensures more <= t {
      HoldsLess(tree, d, nodmap, t);
    }
  }

  lemma {:induction false} Drops(tree: Tree, changed: set<nat>, nodmap: set<nat>, dirmap: set<nat>, d: nat)
    requires Right(tree, changed, nodmap, dirmap) && !Holds(tree, d, nodmap) && !Holds(tree, d, dirmap)
    ensures Right(tree, changed, nodmap, dirmap - {d})
  {
    var less := dirmap - {d};
    forall c ensures Dropped(tree, nodmap, less, c) {
      assert Dropped(tree, nodmap, dirmap, c);
      if Holds(tree, c, less) {
        HoldsLess(tree, c, less, dirmap);
      }
    }
  }

  // ---------------------------------------------------------------- the passes

  /** A pass in which nothing was added so far: no directory looked at before ino leads to something dumped. */
  ghost predicate Quiet(tree: Tree, start: set<nat>, nodmap: set<nat>, ino: nat) {
    forall d | d in start && d <= ino :: d in nodmap || !Holds(tree, d, nodmap)
  }

  /** `pass` with `add`; a word of the map is read when its first inode comes up. */
  method Pass(tree: Tree, ghost changed: set<nat>, mino: nat, nodmap0: set<nat>, dirmap0: set<nat>)
    returns (nodmap: set<nat>, dirmap: set<nat>, nadded: nat)
    requires Right(tree, changed, nodmap0, dirmap0) && forall d | d in dirmap0 :: 1 <= d <= mino
    ensures Right(tree, changed, nodmap, dirmap) && dirmap <= dirmap0 && nodmap0 <= nodmap <= nodmap0 + dirmap0
    ensures if nadded == 0 then nodmap == nodmap0 && Quiet(tree, dirmap0, nodmap, mino) else nodmap0 < nodmap
  {
    nodmap, dirmap, nadded := nodmap0, dirmap0, 0;
    var ino: nat, bits: set<nat> := 0, {};
    while ino < mino
      invariant ino <= mino && Right(tree, changed, nodmap, dirmap) && dirmap <= dirmap0
      invariant nodmap0 <= nodmap <= nodmap0 + dirmap0
      invariant forall d | d > ino :: d in dirmap <==> d in dirmap0
      invariant ino % MLEN != 0 ==> forall d | d > ino :: d in bits <==> d in dirmap0
      invariant if nadded == 0 then nodmap == nodmap0 && Quiet(tree, dirmap0, nodmap, ino) else nodmap0 < nodmap
    {
      if ino % MLEN == 0 {
        bits := dirmap;
      }
      ino := ino + 1;
      if ino in bits {
        var added;
        nodmap, dirmap, added := Add(tree, changed, ino, nodmap, dirmap);
        if added {
          nadded := nadded + 1;
        }
      }
    }
  }

  /** The passes repeated until one adds nothing leave in nodmap exactly what has to be dumped. */
  method Select(tree: Tree, changed: set<nat>, mino: nat) returns (nodmap: set<nat>)
    requires forall d | d in tree :: 1 <= d <= mino
    ensures Least(tree, changed, nodmap)
  {
    nodmap := changed;
    var dirmap := tree.Keys;
    var nadded: nat := 1;
    ghost var start := dirmap;
    StartRight(tree, changed);
    while nadded > 0
      invariant Right(tree, changed, nodmap, dirmap) && dirmap <= tree.Keys && nodmap <= changed + tree.Keys
      invariant nadded == 0 ==> start <= tree.Keys && dirmap <= start && Quiet(tree, start, nodmap, mino)
                                && forall d | d in tree && d !in start && d !in nodmap :: !Holds(tree, d, nodmap)
      decreases |changed + tree.Keys - nodmap|, nadded
    {
      start := dirmap;
      ghost var before := nodmap;
      nodmap, dirmap, nadded := Pass(tree, changed, mino, nodmap, dirmap);
      if nadded > 0 {
        Fewer(changed + tree.Keys, before, nodmap);
      } else {
        forall d | d in tree && d !in start && d !in nodmap ensures !Holds(tree, d, nodmap) {
          assert Dropped(tree, nodmap, dirmap, d);
        }
      }
    }
  }

  lemma {:induction false} StartRight(tree: Tree, changed: set<nat>)
    ensures Right(tree, changed, changed, tree.Keys)
  {
  }

  lemma {:induction false} Fewer(all: set<nat>, s: set<nat>, t: set<nat>)
    requires s < t <= all
    ensures |all - t| < |all - s|
  {
    var x :| x in t && x !in s;
    assert all - t <= all - s - {x};
    SubsetSize(all - t, all - s - {x});
  }
}
