/** How many blocks a file takes with the indirect blocks that lead to them, counted level by level. */
module BlockCount {
  import opened Arithmetic
  import opened RestorTree
  import opened BlockTable

  /** How many blocks of p hold x. */
  function Up(x: nat, p: nat): nat
    requires p > 0
  {
    if x == 0 then 0 else if x <= p then 1 else 1 + Up(x - p, p)
  }

  function Least(x: int, y: int): int {
    if x < y then x else y
  }

  /** So many data blocks, one block of addresses for every NINDIR of them, one for every NINDIR of those, and so on. */
  function Total(k: nat, x: nat): nat {
    if k == 0 then x else Total(k - 1, x) + Up(x, Power(k))
  }

  /** The blocks that a file of so many takes: those that the direct addresses lead to, and the trees under the single,
      double and triple indirect address. */
  function FileNeeds(nblk: nat): nat {
    var r1 := Over10(nblk);
    var r2 := Over(r1, 1);
    var r3 := Over(r2, 2);
    Least(nblk, NADDR - 3) + Total(1, Least(r1, Power(1))) + Total(2, Least(r2, Power(2)))
    + Total(3, Least(r3, Power(3)))
  }

  /** What is left for indirect addresses. */
  function Over10(nblk: nat): nat {
    if nblk > NADDR - 3 then nblk - (NADDR - 3) else 0
  }

  // ---------------------------------------------------------------- counting by levels

  /** That is the quotient rounded up. */
  lemma {:induction false} UpIs(x: nat, p: nat)
    requires p > 0
    ensures (Up(x, p) - 1) * p < x <= Up(x, p) * p || x == Up(x, p) == 0
  {
    if x > p {
      UpIs(x - p, p);
      var u := Up(x - p, p);
      assert (u + 1) * p == u * p + p && u * p == (u - 1) * p + p;
    }
  }

  /** A whole block beside the rest. */
  lemma {:induction false} UpOne(x: nat, p: nat)
    requires p > 0
    ensures Up(p + x, p) == 1 + Up(x, p)
  {
  }

  /** Whole blocks beside the rest. */
  lemma {:induction false} UpSplit(y: nat, x: nat, p: nat, a: nat)
    requires p > 0 && y == a * p
    ensures Up(y + x, p) == Up(y, p) + Up(x, p)
    decreases a
  {
    if a > 0 {
      var z: nat := y - p;
      Fewer(a - 1, a, p);
      UpSplit(z, x, p, a - 1);
      UpOne(z + x, p);
      UpOne(z, p);
    }
  }

  lemma {:induction false} Fewer(m: nat, n: nat, p: nat)
    requires n == m + 1
    ensures n * p == m * p + p && m * p >= 0
  {
  }

  lemma {:induction false} PowerTimes(j: nat, k: nat) returns (a: nat)
    requires j <= k
    ensures Power(k) == a * Power(j)
    decreases k
  {
    a := 1;
    if j < k {
      var b := PowerTimes(j, k - 1);
      a := NINDIR * b;
      TimesThree(b, Power(j));
    }
  }

  lemma {:induction false} TimesThree(b: int, p: int)
    ensures NINDIR * (b * p) == (NINDIR * b) * p
  {
  }

  /** A full tree of level k beside the rest. */
  lemma {:induction false} TotalMore(j: nat, k: nat, x: nat, y: nat)
    requires j <= k && y == Power(k)
    ensures Total(j, y + x) == Total(j, y) + Total(j, x)
    decreases j
  {
    if j > 0 {
      var i: nat, p := j - 1, Power(j);
      TotalMore(i, k, x, y);
      var a := PowerTimes(j, k);
      UpSplit(y, x, p, a);
    }
  }

  lemma {:induction false} TotalNothing(k: nat)
    ensures Total(k, 0) == 0
  {
    if k > 0 {
      TotalNothing(k - 1);
    }
  }

  // ---------------------------------------------------------------- what is taken

  /** One address after the other. */
  lemma {:induction false} KidStep(kind: Kind, n: nat, next: nat, count: nat, rem: nat)
    requires next == n + 1 <= count && Level(kind, n) <= Rank(kind)
    ensures NeedKids(kind, n, count, rem) ==
            Need(Level(kind, n), rem) + NeedKids(kind, next, count, Over(rem, Level(kind, n)))
  {
  }

  lemma {:induction false} NeedIs(k: nat, rem: nat)
    ensures Need(k, rem) == Total(k, Least(rem, Power(k)))
    decreases k, 0, 0
  {
    TotalNothing(k);
    if k > 0 && rem > 0 {
      var j: nat, x: nat := k - 1, Least(rem, Power(k));
      KidsAre(j, 0, NINDIR, rem, Power(k));
      assert Up(x, Power(k)) == 1;
    }
  }

  /** The addresses from n on, m of them, lead to cap blocks at most. */
  lemma {:induction false} KidsAre(k: nat, n: nat, m: nat, rem: nat, cap: nat)
    requires n + m == NINDIR && cap == m * Power(k)
    ensures NeedKids(Above(k), n, NINDIR, rem) == Total(k, Least(rem, cap))
    decreases k, 1, m
  {
    TotalNothing(k);
    if m > 0 && rem > 0 {
      var next: nat, p, fewer: nat := n + 1, Power(k), m - 1;
      Fewer(fewer, m, p);
      var less: nat, over := cap - p, Over(rem, k);
      KidStep(Above(k), n, next, NINDIR, rem);
      KidsAre(k, next, fewer, over, less);
      NeedIs(k, rem);
      Beside(k, rem, p, over, less, cap);
    }
  }

  lemma {:induction false} Beside(k: nat, rem: nat, p: nat, over: nat, less: nat, cap: nat)
    requires p == Power(k) && over == Over(rem, k) && cap == less + p
    ensures Total(k, Least(rem, cap)) == Total(k, Least(rem, p)) + Total(k, Least(over, less))
  {
    TotalNothing(k);
    if rem > p {
      TotalMore(k, k, Least(over, less), p);
    }
  }

  /** What the addresses of an inode from n on take. */
  ghost function Takes(n: nat, rem: nat): nat {
    NeedKids(Inode, n, NADDR, rem)
  }

  lemma {:induction false} DirectStep(n: nat, next: nat, rem: nat, less: nat)
    requires next == n + 1 <= NADDR - 3 && rem == less + 1
    ensures Takes(n, rem) == 1 + Takes(next, less)
  {
    KidStep(Inode, n, next, NADDR, rem);
    assert Need(0, rem) == 1 && Over(rem, 0) == less;
  }

  lemma {:induction false} TakesNothing(n: nat)
    ensures Takes(n, 0) == 0
  {
  }

  /** The direct addresses, m of them from n on, lead to one block each; the rest is left for the others. */
  lemma {:induction false} DirectNeed(n: nat, m: nat, rem: nat, direct: nat, rest: nat, x: nat, y: nat)
    requires n + m == direct == NADDR - 3 && rest == if rem > m then rem - m else 0
    requires x == Takes(n, rem) && y == Takes(direct, rest)
    ensures x == rem - rest + y
    decreases m
  {
    if rem == 0 {
      TakesNothing(n);
      TakesNothing(direct);
    } else if m > 0 {
      var next: nat, fewer: nat, less: nat := n + 1, m - 1, rem - 1;
      DirectStep(n, next, rem, less);
      DirectNeed(next, fewer, less, direct, rest, Takes(next, less), y);
    }
  }

  lemma {:induction false} IndirectNeed(r1: nat, r2: nat, r3: nat)
    requires r2 == Over(r1, 1) && r3 == Over(r2, 2)
    ensures NeedKids(Inode, NADDR - 3, NADDR, r1) == Need(1, r1) + Need(2, r2) + Need(3, r3)
  {
    KidStep(Inode, NADDR - 3, NADDR - 2, NADDR, r1);
    KidStep(Inode, NADDR - 2, NADDR - 1, NADDR, r2);
    KidStep(Inode, NADDR - 1, NADDR, NADDR, r3);
  }

  /** What `setup_for_size` takes for a file is its blocks and, for each indirect address, the indirect blocks of every
      level, no more of them than it takes to hold the addresses. */
  lemma {:induction false} FileNeed(nblk: nat)
    ensures NeedKids(Inode, 0, NADDR, nblk) == FileNeeds(nblk)
  {
    var r1 := Over10(nblk);
    var r2 := Over(r1, 1);
    var r3 := Over(r2, 2);
    DirectNeed(0, NADDR - 3, nblk, NADDR - 3, r1, Takes(0, nblk), Takes(NADDR - 3, r1));
    IndirectNeed(r1, r2, r3);
    NeedIs(1, r1);
    NeedIs(2, r2);
    NeedIs(3, r3);
  }
}
