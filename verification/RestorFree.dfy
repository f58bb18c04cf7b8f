/** The chain of free blocks (restor.c, `bfree` and `balloc`): up to fifty addresses in the super-block,
    the first of them naming the block that holds the next fifty. */
module RestorFree {

  const NICFREE: int := 50

  /** The words of a disk block. */
  const WORDS: int := 128

  type Block = seq<int>

  function At(disk: map<int, Block>, b: int): Block {
    if b in disk then disk[b] else seq(WORDS, _ => 0)
  }

  ghost predicate Same(disk: map<int, Block>, disk': map<int, Block>, b: int) {
    At(disk', b) == At(disk, b)
  }

  /** The blocks that link the chain, in order. */
  datatype Links = End | Link(block: int, rest: Links)

  /** The free addresses of a list of n besides the link at its head. */
  ghost function Entries(fr: seq<int>, n: int): set<int> {
    if n <= 1 || n > |fr| then {} else Entries(fr, n - 1) + {fr[n - 1]}
  }

  /** They are addresses, and no two the same. */
  ghost predicate EntriesGood(fr: seq<int>, n: int) {
    n <= 1 || (n <= |fr| && EntriesGood(fr, n - 1) && fr[n - 1] > 0 && fr[n - 1] !in Entries(fr, n - 1))
  }

  /** The count and the list as a link block holds them. */
  function Count(w: Block): int
    requires |w| == WORDS
  {
    w[0]
  }

  function List(w: Block): (fr: seq<int>)
    requires |w| == WORDS
    ensures |fr| == NICFREE
  {
    w[1..1 + NICFREE]
  }

  ghost function ChainSet(disk: map<int, Block>, n: int, fr: seq<int>, links: Links): set<int>
    decreases links
  {
    match links
    case End => Entries(fr, n)
    case Link(b, rest) =>
      var w := At(disk, b);
      if |w| == WORDS then Entries(fr, n) + {b} + ChainSet(disk, Count(w), List(w), rest) else {}
  }

  /** Every list is a good one, the last has no link, and nothing is free twice. */
  ghost predicate ChainGood(disk: map<int, Block>, n: int, fr: seq<int>, links: Links)
    decreases links
  {
    && 1 <= n <= NICFREE && |fr| == NICFREE && EntriesGood(fr, n)
    && match links
       case End => fr[0] == 0
       case Link(b, rest) =>
         var w := At(disk, b);
         && b > 0 && fr[0] == b && |w| == WORDS && b !in Entries(fr, n)
         && ChainGood(disk, Count(w), List(w), rest)
         && Entries(fr, n) + {b} !! ChainSet(disk, Count(w), List(w), rest)
  }

  lemma {:induction false} EntriesSame(fr: seq<int>, fr': seq<int>, n: int)
    requires n <= |fr| && n <= |fr'| && forall i | 0 <= i < n :: fr'[i] == fr[i]
    ensures Entries(fr', n) == Entries(fr, n) && EntriesGood(fr', n) == EntriesGood(fr, n)
  {
    if n > 1 {
      EntriesSame(fr, fr', n - 1);
    }
  }

  lemma {:induction false} EntriesPositive(fr: seq<int>, n: int)
    requires EntriesGood(fr, n)
    ensures forall b | b in Entries(fr, n) :: b > 0
  {
    if n > 1 {
      EntriesPositive(fr, n - 1);
    }
  }

  lemma {:induction false} ChainPositive(disk: map<int, Block>, n: int, fr: seq<int>, links: Links)
    requires ChainGood(disk, n, fr, links)
    ensures forall b | b in ChainSet(disk, n, fr, links) :: b > 0
    decreases links
  {
    EntriesPositive(fr, n);
    match links
    case End =>
    case Link(b, rest) => ChainPositive(disk, Count(At(disk, b)), List(At(disk, b)), rest);
  }

  /** The chain looks only at the blocks that are in it. */
  lemma {:induction false} ChainFrame(disk: map<int, Block>, disk': map<int, Block>, n: int, fr: seq<int>, links: Links)
    requires ChainGood(disk, n, fr, links)
    requires forall b | b in ChainSet(disk, n, fr, links) :: Same(disk, disk', b)
    ensures ChainGood(disk', n, fr, links) && ChainSet(disk', n, fr, links) == ChainSet(disk, n, fr, links)
    decreases links
  {
    match links
    case End =>
    case Link(b, rest) =>
      assert Same(disk, disk', b);
      ChainFrame(disk, disk', Count(At(disk, b)), List(At(disk, b)), rest);
  }

  /** A list with n addresses besides the link, and one of them taken. */
  lemma {:induction false} Pop(disk: map<int, Block>, n: int, fr: seq<int>, links: Links)
    requires ChainGood(disk, n, fr, links) && n > 1
    ensures ChainGood(disk, n - 1, fr, links) && fr[n - 1] in ChainSet(disk, n, fr, links)
    ensures ChainSet(disk, n - 1, fr, links) == ChainSet(disk, n, fr, links) - {fr[n - 1]}
  {
  }

  /** The link block taken, and the list it holds come in its place. */
  lemma {:induction false} PopLink(disk: map<int, Block>, fr: seq<int>, links: Links)
    requires ChainGood(disk, 1, fr, links) && fr[0] != 0
    ensures links.Link? && fr[0] in ChainSet(disk, 1, fr, links)
    ensures var w := At(disk, fr[0]);
            |w| == WORDS && ChainGood(disk, Count(w), List(w), links.rest)
            && ChainSet(disk, Count(w), List(w), links.rest) == ChainSet(disk, 1, fr, links) - {fr[0]}
  {
  }

  /** A full list written to the freed block, which becomes the link to it. */
  lemma {:induction false} PushLink(disk: map<int, Block>, disk': map<int, Block>, fr: seq<int>, fr': seq<int>,
                                    links: Links, b: int)
    requires ChainGood(disk, NICFREE, fr, links) && b > 0 && b !in ChainSet(disk, NICFREE, fr, links)
    requires forall c | c in ChainSet(disk, NICFREE, fr, links) :: Same(disk, disk', c)
    requires |At(disk', b)| == WORDS && Count(At(disk', b)) == NICFREE && List(At(disk', b)) == fr
    requires |fr'| == NICFREE && fr'[0] == b
    ensures ChainGood(disk', 1, fr', Link(b, links))
    ensures ChainSet(disk', 1, fr', Link(b, links)) == ChainSet(disk, NICFREE, fr, links) + {b}
  {
    ChainFrame(disk, disk', NICFREE, fr, links);
  }

  /** The freed block added to a list with room. */
  lemma {:induction false} Push(disk: map<int, Block>, n: int, fr: seq<int>, fr': seq<int>, links: Links, b: int)
    requires ChainGood(disk, n, fr, links) && n < NICFREE && b > 0 && b !in ChainSet(disk, n, fr, links)
    requires |fr'| == NICFREE && fr'[n] == b && forall i | 0 <= i < n :: fr'[i] == fr[i]
    ensures ChainGood(disk, n + 1, fr', links)
    ensures ChainSet(disk, n + 1, fr', links) == ChainSet(disk, n, fr, links) + {b}
  {
    EntriesSame(fr, fr', n);
  }

  // ---------------------------------------------------------------- the order of the chain

  /** The free addresses of a list of n besides the link, the last one first. */
  ghost function Tops(fr: seq<int>, n: int): seq<int> {
    if n <= 1 || n > |fr| then [] else [fr[n - 1]] + Tops(fr, n - 1)
  }

  /** The whole chain, in the order in which blocks come off it. */
  ghost function ChainOrder(disk: map<int, Block>, n: int, fr: seq<int>, links: Links): seq<int>
    decreases links
  {
    match links
    case End => Tops(fr, n)
    case Link(b, rest) =>
      var w := At(disk, b);
      if |w| == WORDS then Tops(fr, n) + ([b] + ChainOrder(disk, Count(w), List(w), rest)) else []
  }

  lemma {:induction false} TopsAre(fr: seq<int>, n: int, x: int)
    requires n <= |fr|
    ensures x in Tops(fr, n) <==> x in Entries(fr, n)
  {
    if n > 1 {
      TopsAre(fr, n - 1, x);
    }
  }

  /** It is the chain. */
  lemma {:induction false} OrderHolds(disk: map<int, Block>, n: int, fr: seq<int>, links: Links, x: int)
    requires ChainGood(disk, n, fr, links)
    ensures x in ChainOrder(disk, n, fr, links) <==> x in ChainSet(disk, n, fr, links)
    decreases links
  {
    TopsAre(fr, n, x);
    match links
    case End =>
    case Link(b, rest) =>
      OrderHolds(disk, Count(At(disk, b)), List(At(disk, b)), rest, x);
  }

  lemma {:induction false} TopsSame(fr: seq<int>, fr': seq<int>, n: int)
    requires n <= |fr| && n <= |fr'| && forall i | 0 <= i < n :: fr'[i] == fr[i]
    ensures Tops(fr', n) == Tops(fr, n)
  {
    if n > 1 {
      TopsSame(fr, fr', n - 1);
    }
  }

  lemma {:induction false} OrderFrame(disk: map<int, Block>, disk': map<int, Block>, n: int, fr: seq<int>, links: Links)
    requires ChainGood(disk, n, fr, links)
    requires forall b | b in ChainSet(disk, n, fr, links) :: Same(disk, disk', b)
    ensures ChainOrder(disk', n, fr, links) == ChainOrder(disk, n, fr, links)
    decreases links
  {
    match links
    case End =>
    case Link(b, rest) =>
      assert Same(disk, disk', b);
      OrderFrame(disk, disk', Count(At(disk, b)), List(At(disk, b)), rest);
  }

  /** A block added to a list with room is the first to come off. */
  lemma {:induction false} OrderPush(disk: map<int, Block>, n: int, next: int, fr: seq<int>, fr': seq<int>,
                                     links: Links, b: int)
    requires ChainGood(disk, n, fr, links) && n < NICFREE == |fr'| && fr'[n] == b && next == n + 1
    requires forall i | 0 <= i < n :: fr'[i] == fr[i]
    ensures ChainOrder(disk, next, fr', links) == [b] + ChainOrder(disk, n, fr, links)
  {
    TopsSame(fr, fr', n);
    assert Tops(fr', next) == [b] + Tops(fr, n);
    match links
    case End =>
    case Link(l, rest) =>
      var more := [l] + ChainOrder(disk, Count(At(disk, l)), List(At(disk, l)), rest);
      assert [b] + Tops(fr, n) + more == [b] + (Tops(fr, n) + more);
  }

  /** So is one that a full list was put into. */
  lemma {:induction false} OrderPushLink(disk: map<int, Block>, disk': map<int, Block>, fr: seq<int>, fr': seq<int>,
                                         links: Links, b: int)
    requires ChainGood(disk, NICFREE, fr, links)
    requires forall c | c in ChainSet(disk, NICFREE, fr, links) :: Same(disk, disk', c)
    requires |At(disk', b)| == WORDS && Count(At(disk', b)) == NICFREE && List(At(disk', b)) == fr
    ensures ChainOrder(disk', 1, fr', Link(b, links)) == [b] + ChainOrder(disk, NICFREE, fr, links)
  {
    OrderFrame(disk, disk', NICFREE, fr, links);
    assert Tops(fr', 1) == [];
  }

  /** The link block is the first to come off when the list has nothing else. */
  lemma {:induction false} OrderPopLink(disk: map<int, Block>, fr: seq<int>, links: Links)
    requires ChainGood(disk, 1, fr, links) && fr[0] != 0
    ensures links.Link? && |At(disk, fr[0])| == WORDS
    ensures ChainOrder(disk, 1, fr, links)
         == [fr[0]] + ChainOrder(disk, Count(At(disk, fr[0])), List(At(disk, fr[0])), links.rest)
  {
    assert Tops(fr, 1) == [];
  }
}
