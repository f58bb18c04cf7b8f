/** The storage allocator (dballoc.c): a circular chain of blocks through one arena of words, searched first-fit
    from where the last search ended; idle neighbours are joined during the search. */
module Dballoc {

  /** Sizes of the machine the code was written for: two bytes a word, 16 bits an unsigned. */
  const WORD: int := 2
  const BLOCK: int := 1024
  const WRAP: int := 65536

  // ---------------------------------------------------------------- words and pointers

  /** A word of memory, its bit 0 told apart from the rest: as a pointer, the word it leads to and the busy bit. */
  datatype Word = Word(high: int, bit: bool)

  predicate TestBusy(v: Word) {
    v.bit
  }

  function SetBusy(a: int): Word {
    Word(a, true)
  }

  function Idle(a: int): Word {
    Word(a, false)
  }

  function Target(v: Word): int {
    v.high
  }

  /** The words `malloc` takes for a request, its header among them; the sum is a 16-bit unsigned. */
  function Words(nbytes: int): int {
    (nbytes + 2 * WORD - 1) % WRAP / WORD
  }

  /** What `malloc` asks of `sbrk` when nothing fits. */
  function Growth(nw: int): int {
    (nw + BLOCK / WORD) / (BLOCK / WORD) * (BLOCK / WORD)
  }

  /** The block is big enough exactly when the sum in its size does not wrap. */
  lemma {:induction false} BigEnough(nbytes: int)
    requires 0 <= nbytes < WRAP
    ensures nbytes <= WORD * (Words(nbytes) - 1) <==> nbytes <= WRAP - 4
    ensures nbytes <= WRAP - 4 ==> Words(nbytes) == (nbytes + WORD - 1) / WORD + 1
  {
  }

  /** The break is a 16-bit address of a byte: with so many words more it wraps. */
  predicate Wraps(brk: int, nw: int) {
    brk + Growth(nw) >= WRAP / WORD
  }

  /** Growth makes room for the request, and moves the break up exactly when it does not wrap. */
  lemma {:induction false} GrowthRoom(nw: int, brk: int)
    requires 1 <= nw < WRAP / WORD && 0 <= brk < WRAP / WORD
    ensures nw < Growth(nw) <= nw + BLOCK / WORD && Growth(nw) <= WRAP / WORD
    ensures var moved := (WORD * brk + WORD * Growth(nw) % WRAP) % WRAP;
            if Wraps(brk, nw) then moved <= WORD * brk else moved == WORD * (brk + Growth(nw))
  {
    var g := Growth(nw);
    assert g <= nw + BLOCK / WORD;
    assert g % (BLOCK / WORD) == 0;
    Moved(brk, g);
  }

  lemma {:induction false} Moved(brk: int, g: int)
    requires 0 <= brk < WRAP / WORD && 0 < g <= WRAP / WORD
    ensures var moved := (WORD * brk + WORD * g % WRAP) % WRAP;
            if brk + g >= WRAP / WORD then moved <= WORD * brk else moved == WORD * (brk + g)
  {
  }

  /** The request of 40000 bytes is an amount below 0 to `sbrk` and yet moves the break up by 40960, but not from 24576
      on. */
  lemma {:induction false} LargeRequest(brk: int)
    ensures WORD * Growth(Words(40000)) == 40960 && (Wraps(brk, Words(40000)) <==> WORD * brk >= 24576)
  {
  }

  // ---------------------------------------------------------------- the chain

  /** Where the block at a ends: the header after it. */
  function Next(mem: seq<Word>, a: int): int
    requires 0 <= a < |mem|
  {
    Target(mem[a])
  }

  ghost predicate NoneBetween(heads: set<int>, a: int, b: int) {
    forall c | c in heads :: c <= a || b <= c
  }

  /** The header at a leads to the next higher header. */
  ghost predicate HeadGood(mem: seq<Word>, heads: set<int>, alloct: int, a: int) {
    && 0 <= a < |mem|
    && (a != alloct ==> a < Next(mem, a) && Next(mem, a) in heads && NoneBetween(heads, a, Next(mem, a)))
  }

  /** A strictly increasing chain of headers from allocs to alloct, closed at the top. */
  ghost predicate Chain(mem: seq<Word>, heads: set<int>, allocs: int, alloct: int) {
    && allocs in heads && alloct in heads && 0 <= allocs < alloct < |mem|
    && (forall a | a in heads :: allocs <= a <= alloct)
    && (forall a {:trigger HeadGood(mem, heads, alloct, a)} | a in heads :: HeadGood(mem, heads, alloct, a))
    && mem[alloct] == SetBusy(allocs) && TestBusy(mem[allocs])
  }

  ghost predicate IdleAt(mem: seq<Word>, heads: set<int>, alloct: int, a: int) {
    0 <= a < |mem| && a in heads && a != alloct && !TestBusy(mem[a])
  }

  /** Words that are not headers are the same. */
  ghost predicate OnlyHeads(mem: seq<Word>, mem': seq<Word>, heads: set<int>) {
    |mem'| == |mem| && forall a | 0 <= a < |mem| && a !in heads :: mem'[a] == mem[a]
  }

  /** The block after idle block a is busy. */
  ghost predicate Ended(mem: seq<Word>, heads: set<int>, alloct: int, a: int) {
    IdleAt(mem, heads, alloct, a) ==> 0 <= Next(mem, a) < |mem| && Next(mem, a) in heads && TestBusy(mem[Next(mem, a)])
  }

  ghost predicate Small(mem: seq<Word>, heads: set<int>, alloct: int, nw: int, a: int) {
    IdleAt(mem, heads, alloct, a) ==> Next(mem, a) - a < nw
  }

  /** Some idle block has room for nw words. */
  ghost predicate Roomy(mem: seq<Word>, heads: set<int>, alloct: int, nw: int) {
    exists a :: IdleAt(mem, heads, alloct, a) && !Small(mem, heads, alloct, nw, a)
  }

  /** A busy block stays, with the same end, and no block changes between busy and idle. */
  ghost predicate BusyKept(mem: seq<Word>, heads: set<int>, mem': seq<Word>, heads': set<int>, a: int) {
    && (0 <= a < |mem| == |mem'| && a in heads && TestBusy(mem[a]) ==> a in heads' && mem'[a] == mem[a])
    && (0 <= a < |mem| == |mem'| && a in heads && a in heads' ==> TestBusy(mem'[a]) == TestBusy(mem[a]))
  }

  /** Idle block p is joined with the idle block q after it. */
  ghost predicate Joined(mem: seq<Word>, heads: set<int>, allocs: int, alloct: int, p: int, q: int,
                         mem': seq<Word>, heads': set<int>)
  {
    && Chain(mem, heads, allocs, alloct) && IdleAt(mem, heads, alloct, p) && q == Next(mem, p)
    && 0 <= q < |mem| && !TestBusy(mem[q]) && mem' == mem[p := mem[q]] && heads' == heads - {q}
  }

  lemma {:induction false} JoinedEnds(mem: seq<Word>, heads: set<int>, allocs: int, alloct: int, p: int, q: int,
                                      mem': seq<Word>, heads': set<int>)
    requires Joined(mem, heads, allocs, alloct, p, q, mem', heads')
    ensures q in heads && p < q < alloct && Next(mem', p) == Next(mem, q) > q && Next(mem', p) in heads'
    ensures NoneBetween(heads, p, q) && NoneBetween(heads, q, Next(mem, q))
  {
    assert HeadGood(mem, heads, alloct, p);
    assert HeadGood(mem, heads, alloct, q);
  }

  lemma {:induction false} JoinedHead(mem: seq<Word>, heads: set<int>, allocs: int, alloct: int, p: int, q: int,
                                      mem': seq<Word>, heads': set<int>, a: int)
    requires Joined(mem, heads, allocs, alloct, p, q, mem', heads') && a in heads'
    ensures HeadGood(mem', heads', alloct, a)
  {
    JoinedEnds(mem, heads, allocs, alloct, p, q, mem', heads');
    assert HeadGood(mem, heads, alloct, a);
    if a != p && a != alloct {
      assert Next(mem, a) != q;
    }
  }

  lemma {:induction false} JoinKeeps(mem: seq<Word>, heads: set<int>, allocs: int, alloct: int, p: int, q: int,
                                     mem': seq<Word>, heads': set<int>)
    requires Joined(mem, heads, allocs, alloct, p, q, mem', heads')
    ensures Chain(mem', heads', allocs, alloct) && IdleAt(mem', heads', alloct, p) && Next(mem', p) > q
    ensures forall a :: BusyKept(mem, heads, mem', heads', a)
  {
    JoinedEnds(mem, heads, allocs, alloct, p, q, mem', heads');
    forall a | a in heads' ensures HeadGood(mem', heads', alloct, a) {
      JoinedHead(mem, heads, allocs, alloct, p, q, mem', heads', a);
    }
  }

  lemma {:induction false} JoinRoomy(mem: seq<Word>, heads: set<int>, allocs: int, alloct: int, p: int, q: int,
                                     mem': seq<Word>, heads': set<int>, nw: int)
    requires Joined(mem, heads, allocs, alloct, p, q, mem', heads') && Roomy(mem, heads, alloct, nw)
    ensures Roomy(mem', heads', alloct, nw)
  {
    JoinedEnds(mem, heads, allocs, alloct, p, q, mem', heads');
    var a :| IdleAt(mem, heads, alloct, a) && !Small(mem, heads, alloct, nw, a);
    var b := if a == q then p else a;
    assert IdleAt(mem', heads', alloct, b) && !Small(mem', heads', alloct, nw, b);
  }

  // ---------------------------------------------------------------- the search

  /** What a search may do: join idle blocks, and nothing else. */
  ghost predicate Searched(mem: seq<Word>, heads: set<int>, mem': seq<Word>, heads': set<int>, allocs: int,
                           alloct: int) {
    && Chain(mem', heads', allocs, alloct) && heads' <= heads && OnlyHeads(mem, mem', heads)
    && (forall a :: BusyKept(mem, heads, mem', heads', a))
    && forall a | IdleAt(mem, heads, alloct, a) :: IdleWord(mem', heads', alloct, a)
  }

  /** A word that is, or once was, the header of an idle block; no header stands between it and where it leads. */
  ghost predicate IdleWord(mem: seq<Word>, heads: set<int>, alloct: int, a: int) {
    0 <= a < |mem| && !TestBusy(mem[a]) && a < Next(mem, a) <= alloct && NoneBetween(heads, a, Next(mem, a))
  }

  lemma {:induction false} IdleHead(mem: seq<Word>, heads: set<int>, allocs: int, alloct: int, a: int)
    requires Chain(mem, heads, allocs, alloct) && IdleAt(mem, heads, alloct, a)
    ensures IdleWord(mem, heads, alloct, a)
  {
    assert HeadGood(mem, heads, alloct, a);
  }

  lemma {:induction false} SearchedSelf(mem: seq<Word>, heads: set<int>, allocs: int, alloct: int)
    requires Chain(mem, heads, allocs, alloct)
    ensures Searched(mem, heads, mem, heads, allocs, alloct)
  {
    forall a | IdleAt(mem, heads, alloct, a) ensures IdleWord(mem, heads, alloct, a) {
      IdleHead(mem, heads, allocs, alloct, a);
    }
  }

  lemma {:induction false} SearchedTrans(m: seq<Word>, h: set<int>, m': seq<Word>, h': set<int>, m'': seq<Word>,
                                         h'': set<int>, allocs: int, alloct: int)
    requires Searched(m, h, m', h', allocs, alloct) && Searched(m', h', m'', h'', allocs, alloct)
    ensures Searched(m, h, m'', h'', allocs, alloct)
  {
    forall a ensures BusyKept(m, h, m'', h'', a) {
      assert BusyKept(m, h, m', h', a) && BusyKept(m', h', m'', h'', a);
    }
    forall a | IdleAt(m, h, alloct, a) ensures IdleWord(m'', h'', alloct, a) {
      assert IdleWord(m', h', alloct, a);
    }
  }

  ghost predicate Below(mem: seq<Word>, heads: set<int>, mem': seq<Word>, heads': set<int>, a: int) {
    0 <= a < |mem| == |mem'| ==> mem'[a] == mem[a] && (a in heads' <==> a in heads)
  }

  /** Idle block p has taken in some idle blocks after it; nothing below it has changed. */
  ghost predicate Grown(m: seq<Word>, h: set<int>, mem: seq<Word>, heads: set<int>, p: int, allocs: int, alloct: int,
                        nw: int) {
    && Searched(m, h, mem, heads, allocs, alloct) && IdleAt(mem, heads, alloct, p)
    && (Roomy(m, h, alloct, nw) ==> Roomy(mem, heads, alloct, nw))
    && forall a | a < p :: Below(m, h, mem, heads, a)
  }

  lemma {:induction false} GrownOne(mem: seq<Word>, heads: set<int>, allocs: int, alloct: int, p: int, q: int,
                                    mem': seq<Word>, heads': set<int>, nw: int)
    requires Joined(mem, heads, allocs, alloct, p, q, mem', heads')
    ensures Grown(mem, heads, mem', heads', p, allocs, alloct, nw) && Next(mem', p) > q
  {
    JoinedSearched(mem, heads, allocs, alloct, p, q, mem', heads');
    JoinedBelow(mem, heads, allocs, alloct, p, q, mem', heads');
    if Roomy(mem, heads, alloct, nw) {
      JoinRoomy(mem, heads, allocs, alloct, p, q, mem', heads', nw);
    }
  }

  lemma {:induction false} JoinedSearched(mem: seq<Word>, heads: set<int>, allocs: int, alloct: int, p: int, q: int,
                                          mem': seq<Word>, heads': set<int>)
    requires Joined(mem, heads, allocs, alloct, p, q, mem', heads')
    ensures Searched(mem, heads, mem', heads', allocs, alloct) && IdleAt(mem', heads', alloct, p) && Next(mem', p) > q
  {
    JoinKeeps(mem, heads, allocs, alloct, p, q, mem', heads');
    JoinedEnds(mem, heads, allocs, alloct, p, q, mem', heads');
    forall a | IdleAt(mem, heads, alloct, a) ensures IdleWord(mem', heads', alloct, a) {
      IdleHead(mem, heads, allocs, alloct, a);
    }
  }

  lemma {:induction false} JoinedBelow(mem: seq<Word>, heads: set<int>, allocs: int, alloct: int, p: int, q: int,
                                       mem': seq<Word>, heads': set<int>)
    requires Joined(mem, heads, allocs, alloct, p, q, mem', heads')
    ensures forall a | a < p :: Below(mem, heads, mem', heads', a)
  {
    JoinedEnds(mem, heads, allocs, alloct, p, q, mem', heads');
    forall a | a < p ensures Below(mem, heads, mem', heads', a) {
    }
  }

  lemma {:induction false} GrownTrans(m: seq<Word>, h: set<int>, m': seq<Word>, h': set<int>, m'': seq<Word>,
                                      h'': set<int>, p: int, allocs: int, alloct: int, nw: int)
    requires Grown(m, h, m', h', p, allocs, alloct, nw) && Grown(m', h', m'', h'', p, allocs, alloct, nw)
    ensures Grown(m, h, m'', h'', p, allocs, alloct, nw)
  {
    SearchedTrans(m, h, m', h', m'', h'', allocs, alloct);
    forall a | a < p ensures Below(m, h, m'', h'', a) {
      assert Below(m, h, m', h', a) && Below(m', h', m'', h'', a);
    }
  }

  lemma {:induction false} NextHead(mem: seq<Word>, heads: set<int>, allocs: int, alloct: int, p: int)
    requires Chain(mem, heads, allocs, alloct) && p in heads
    ensures 0 <= p < |mem|
    ensures p != alloct ==> p < Next(mem, p) <= alloct && Next(mem, p) in heads && NoneBetween(heads, p, Next(mem, p))
    ensures p == alloct ==> Next(mem, p) == allocs && TestBusy(mem[p])
  {
    assert HeadGood(mem, heads, alloct, p);
  }

  /** The inner loop of the search: idle block p takes in all idle blocks after it. */
  method Coalesce(mem0: seq<Word>, ghost heads0: set<int>, p: int, ghost allocs: int, alloct: int, ghost nw: int)
    returns (mem: seq<Word>, ghost heads: set<int>, q: int)
    requires Chain(mem0, heads0, allocs, alloct) && IdleAt(mem0, heads0, alloct, p)
    ensures Grown(mem0, heads0, mem, heads, p, allocs, alloct, nw) && q == Next(mem, p) && Ended(mem, heads, alloct, p)
    ensures q >= Next(mem0, p) && OnlyWord(mem0, mem, p)
  {
    mem, heads := mem0, heads0;
    SearchedSelf(mem, heads, allocs, alloct);
    NextHead(mem, heads, allocs, alloct, p);
    q := Next(mem, p);
    while !TestBusy(mem[q])
      invariant Grown(mem0, heads0, mem, heads, p, allocs, alloct, nw) && q == Next(mem, p) && 0 <= q <= alloct < |mem|
      invariant q in heads && q >= Next(mem0, p) && OnlyWord(mem0, mem, p)
      decreases alloct - q
    {
      ghost var m, h := mem, heads;
      mem := mem[p := mem[q]];
      heads := heads - {q};
      GrownOne(m, h, allocs, alloct, p, q, mem, heads, nw);
      GrownTrans(mem0, heads0, m, h, mem, heads, p, allocs, alloct, nw);
      q := Next(mem, p);
      NextHead(mem, heads, allocs, alloct, p);
    }
  }

  ghost predicate OnlyWord(m: seq<Word>, mem: seq<Word>, p: int) {
    |m| == |mem| && forall a | 0 <= a < |m| && a != p :: mem[a] == m[a]
  }

  /** There is room for nw words at p. */
  ghost predicate Room(mem: seq<Word>, heads: set<int>, alloct: int, nw: int, p: int) {
    IdleAt(mem, heads, alloct, p) && Next(mem, p) >= p + nw
  }

  /** The idle blocks from lo up to p are too small, and cannot be joined any more. */
  ghost predicate SmallIn(mem: seq<Word>, heads: set<int>, alloct: int, nw: int, lo: int, p: int) {
    forall a | lo <= a < p :: Small(mem, heads, alloct, nw, a) && Ended(mem, heads, alloct, a)
  }

  /** From header a to header b there are idle blocks only. */
  ghost predicate Run(mem: seq<Word>, heads: set<int>, alloct: int, a: int, b: int) {
    && 0 <= a < b <= alloct && a in heads && b in heads
    && forall c | c in heads && a <= c < b :: IdleAt(mem, heads, alloct, c)
  }

  /** Some idle blocks side by side have room for nw words. */
  ghost predicate Fits(mem: seq<Word>, heads: set<int>, alloct: int, nw: int) {
    exists a, b :: Run(mem, heads, alloct, a, b) && b - a >= nw
  }

  /** None that begin from lo up to hi have. */
  ghost predicate NoFit(mem: seq<Word>, heads: set<int>, alloct: int, nw: int, lo: int, hi: int) {
    forall a, b | lo <= a < hi && Run(mem, heads, alloct, a, b) :: b - a < nw
  }

  /** The first place that fits from p0 on, going round from the top of the arena to its bottom. */
  ghost predicate FirstFit(mem: seq<Word>, heads: set<int>, allocs: int, alloct: int, nw: int, p0: int, p: int) {
    && (exists q :: Run(mem, heads, alloct, p, q) && q - p >= nw)
    && if p0 <= p then NoFit(mem, heads, alloct, nw, p0, p)
       else NoFit(mem, heads, alloct, nw, p0, alloct) && NoFit(mem, heads, alloct, nw, allocs, p)
  }

  /** The block that a header stands in or begins. */
  lemma {:induction false} Enclosing(mem: seq<Word>, heads: set<int>, allocs: int, alloct: int, b: int, from: int)
    returns (a: int)
    requires Chain(mem, heads, allocs, alloct) && from in heads && from <= b < alloct
    ensures a in heads && 0 <= a && from <= a <= b < Next(mem, a)
    decreases b - from
  {
    NextHead(mem, heads, allocs, alloct, from);
    a := from;
    if Next(mem, from) <= b {
      a := Enclosing(mem, heads, allocs, alloct, b, Next(mem, from));
    }
  }

  /** What a search has found too small was so before it. */
  lemma {:induction false} SmallRuns(m: seq<Word>, h: set<int>, mem: seq<Word>, heads: set<int>, allocs: int,
                                     alloct: int, nw: int, lo: int, hi: int)
    requires Chain(m, h, allocs, alloct) && Searched(m, h, mem, heads, allocs, alloct) && lo in heads
    requires SmallIn(mem, heads, alloct, nw, lo, hi)
    ensures NoFit(m, h, alloct, nw, lo, hi)
  {
    forall a, b | lo <= a < hi && Run(m, h, alloct, a, b) ensures b - a < nw {
      var e := Enclosing(mem, heads, allocs, alloct, a, lo);
      assert BusyKept(m, h, mem, heads, e);
      NextHead(m, h, allocs, alloct, e);
      NextHead(mem, heads, allocs, alloct, e);
      assert IdleAt(mem, heads, alloct, e);
      assert Small(mem, heads, alloct, nw, e) && Ended(mem, heads, alloct, e);
      assert BusyKept(m, h, mem, heads, Next(mem, e));
    }
  }

  /** What a search has joined were idle blocks side by side. */
  lemma {:induction false} FoundRun(m: seq<Word>, h: set<int>, mem: seq<Word>, heads: set<int>, allocs: int,
                                    alloct: int, p: int)
    requires Chain(m, h, allocs, alloct) && Searched(m, h, mem, heads, allocs, alloct) && IdleAt(mem, heads, alloct, p)
    ensures Run(m, h, alloct, p, Next(mem, p))
  {
    NextHead(mem, heads, allocs, alloct, p);
    forall c | c in h && p <= c < Next(mem, p) ensures IdleAt(m, h, alloct, c) {
      assert BusyKept(m, h, mem, heads, c);
      NextHead(m, h, allocs, alloct, c);
    }
  }

  /** One look at p: joined with its idle neighbours if it is idle itself. */
  method Look(mem0: seq<Word>, ghost heads0: set<int>, p: int, ghost allocs: int, alloct: int, nw: int)
    returns (mem: seq<Word>, ghost heads: set<int>, q: int, found: bool)
    requires Chain(mem0, heads0, allocs, alloct) && p in heads0
    ensures Searched(mem0, heads0, mem, heads, allocs, alloct) && p in heads
    ensures Roomy(mem0, heads0, alloct, nw) ==> Roomy(mem, heads, alloct, nw)
    ensures found ==> IdleAt(mem, heads, alloct, p) && q == Next(mem, p) >= p + nw
    ensures !found ==> Small(mem, heads, alloct, nw, p) && Ended(mem, heads, alloct, p)
    ensures forall a | a < p :: Below(mem0, heads0, mem, heads, a)
    ensures OnlyWord(mem0, mem, p) && (Room(mem0, heads0, alloct, nw, p) ==> found && q >= Next(mem0, p))
  {
    mem, heads, q, found := mem0, heads0, 0, false;
    SearchedSelf(mem, heads, allocs, alloct);
    NextHead(mem, heads, allocs, alloct, p);
    if !TestBusy(mem[p]) {
      mem, heads, q := Coalesce(mem, heads, p, allocs, alloct, nw);
      found := q >= p + nw;
    }
  }

  /** The loop over the chain: up to the top, round to allocs, and once more to the top; after the full round
      without success, no idle block is big enough. */
  method Scan(mem0: seq<Word>, ghost heads0: set<int>, p0: int, allocs: int, alloct: int, nw: int)
    returns (mem: seq<Word>, ghost heads: set<int>, p: int, q: int, found: bool)
    requires Chain(mem0, heads0, allocs, alloct) && p0 in heads0
    ensures Searched(mem0, heads0, mem, heads, allocs, alloct)
    ensures found ==> IdleAt(mem, heads, alloct, p) && q == Next(mem, p) >= p + nw
    ensures Roomy(mem0, heads0, alloct, nw) ==> found
    ensures !found ==> p == allocs && SmallIn(mem, heads, alloct, nw, allocs, alloct)
    ensures if found then FirstFit(mem0, heads0, allocs, alloct, nw, p0, p) else !Fits(mem0, heads0, alloct, nw)
    ensures Room(mem0, heads0, alloct, nw, p0) ==> found && p == p0 && q >= Next(mem0, p0)
  {
    mem, heads, p := mem0, heads0, p0;
    SearchedSelf(mem, heads, allocs, alloct);
    var temp := 0;
    while true
      invariant 0 <= temp <= 1 && p in heads && Searched(mem0, heads0, mem, heads, allocs, alloct)
      invariant Room(mem0, heads0, alloct, nw, p0) ==> p == p0 && temp == 0 && mem == mem0 && heads == heads0
      invariant Roomy(mem0, heads0, alloct, nw) ==> Roomy(mem, heads, alloct, nw)
      invariant Passed(mem0, heads0, mem, heads, allocs, alloct, nw, p0, p, temp)
      decreases 2 - temp, alloct - p
    {
      ghost var m, h := mem, heads;
      mem, heads, q, found := Look(mem, heads, p, allocs, alloct, nw);
      SearchedTrans(mem0, heads0, m, h, mem, heads, allocs, alloct);
      if found {
        PassedFound(mem0, heads0, m, h, mem, heads, allocs, alloct, nw, p0, p, temp);
        return;
      }
      PassedLook(mem0, heads0, m, h, mem, heads, allocs, alloct, nw, p0, p, temp);
      NextHead(mem, heads, allocs, alloct, p);
      q := p;
      p := Next(mem, p);
      if p <= q {
        PassedTop(mem0, heads0, mem, heads, allocs, alloct, nw, p0, temp);
        temp := temp + 1;
        if temp > 1 {
          break;
        }
      }
    }
  }

  /** The idle blocks passed over on the way from p0 to p are too small; on the second way through the arena none from
      p0 on had been big enough to begin with. */
  ghost predicate Passed(m0: seq<Word>, h0: set<int>, mem: seq<Word>, heads: set<int>, allocs: int, alloct: int,
                         nw: int, p0: int, p: int, temp: int)
  {
    if temp == 0 then p0 <= p && p0 in heads && SmallIn(mem, heads, alloct, nw, p0, p)
    else NoFit(m0, h0, alloct, nw, p0, alloct) && SmallIn(mem, heads, alloct, nw, allocs, p)
  }

  lemma {:induction false} StillSmall(m: seq<Word>, h: set<int>, mem: seq<Word>, heads: set<int>, alloct: int, nw: int,
                                      lo: int, p: int)
    requires SmallIn(m, h, alloct, nw, lo, p) && |m| == |mem| && forall a | a < p :: Below(m, h, mem, heads, a)
    requires forall a :: BusyKept(m, h, mem, heads, a)
    ensures SmallIn(mem, heads, alloct, nw, lo, p)
  {
    forall a | lo <= a < p ensures Small(mem, heads, alloct, nw, a) && Ended(mem, heads, alloct, a) {
      assert Small(m, h, alloct, nw, a) && Ended(m, h, alloct, a) && Below(m, h, mem, heads, a);
      if IdleAt(mem, heads, alloct, a) {
        assert BusyKept(m, h, mem, heads, Next(mem, a));
      }
    }
  }

  lemma {:induction false} SmallStep(mem: seq<Word>, heads: set<int>, alloct: int, nw: int, lo: int, q: int, p: int)
    requires SmallIn(mem, heads, alloct, nw, lo, q) && NoneBetween(heads, q, p)
    requires Small(mem, heads, alloct, nw, q) && Ended(mem, heads, alloct, q)
    ensures SmallIn(mem, heads, alloct, nw, lo, p)
  {
    forall a | lo <= a < p ensures Small(mem, heads, alloct, nw, a) && Ended(mem, heads, alloct, a) {
    }
  }

  /** A look in vain. */
  lemma {:induction false} PassedLook(m0: seq<Word>, h0: set<int>, m: seq<Word>, h: set<int>, mem: seq<Word>,
                                      heads: set<int>, allocs: int, alloct: int, nw: int, p0: int, p: int, temp: int)
    requires Passed(m0, h0, m, h, allocs, alloct, nw, p0, p, temp) && Searched(m, h, mem, heads, allocs, alloct)
    requires p in heads && (forall a | a < p :: Below(m, h, mem, heads, a)) && |m| == |mem|
    requires Small(mem, heads, alloct, nw, p) && Ended(mem, heads, alloct, p) && 0 <= p0
    ensures p < alloct ==> Passed(m0, h0, mem, heads, allocs, alloct, nw, p0, Next(mem, p), temp)
    ensures p == alloct ==> Passed(m0, h0, mem, heads, allocs, alloct, nw, p0, alloct, temp)
  {
    var lo := if temp == 0 then p0 else allocs;
    StillSmall(m, h, mem, heads, alloct, nw, lo, p);
    NextHead(mem, heads, allocs, alloct, p);
    assert p0 < p ==> Below(m, h, mem, heads, p0);
    if p < alloct {
      SmallStep(mem, heads, alloct, nw, lo, p, Next(mem, p));
    }
  }

  /** The top of the arena is reached. */
  lemma {:induction false} PassedTop(m0: seq<Word>, h0: set<int>, mem: seq<Word>, heads: set<int>, allocs: int,
                                     alloct: int, nw: int, p0: int, temp: int)
    requires Chain(m0, h0, allocs, alloct) && Searched(m0, h0, mem, heads, allocs, alloct) && 0 <= temp <= 1
    requires Passed(m0, h0, mem, heads, allocs, alloct, nw, p0, alloct, temp)
    ensures temp == 0 ==> Passed(m0, h0, mem, heads, allocs, alloct, nw, p0, allocs, 1)
    ensures temp == 1 ==> SmallIn(mem, heads, alloct, nw, allocs, alloct) && !Fits(m0, h0, alloct, nw)
  {
    SmallRuns(m0, h0, mem, heads, allocs, alloct, nw, if temp == 0 then p0 else allocs, alloct);
  }

  /** The first place that fits is found. */
  lemma {:induction false} PassedFound(m0: seq<Word>, h0: set<int>, m: seq<Word>, h: set<int>, mem: seq<Word>,
                                       heads: set<int>, allocs: int, alloct: int, nw: int, p0: int, p: int, temp: int)
    requires Chain(m0, h0, allocs, alloct) && Searched(m0, h0, m, h, allocs, alloct) && 0 <= temp <= 1
    requires Searched(m0, h0, mem, heads, allocs, alloct) && Passed(m0, h0, m, h, allocs, alloct, nw, p0, p, temp)
    requires IdleAt(mem, heads, alloct, p) && Next(mem, p) >= p + nw
    ensures FirstFit(m0, h0, allocs, alloct, nw, p0, p)
  {
    FoundRun(m0, h0, mem, heads, allocs, alloct, p);
    SmallRuns(m0, h0, m, h, allocs, alloct, nw, if temp == 0 then p0 else allocs, p);
  }

  // ---------------------------------------------------------------- growing and taking

  /** The top block opened towards a new one from q to the new top. */
  lemma {:induction false} GrowChain(mem: seq<Word>, heads: set<int>, allocs: int, alloct: int, q: int, top: int,
                                     mem': seq<Word>, heads': set<int>)
    requires Chain(mem, heads, allocs, alloct) && alloct < q < top < |mem| == |mem'| && heads' == heads + {q, top}
    requires Target(mem'[alloct]) == q && mem'[q] == Idle(top) && mem'[top] == SetBusy(allocs)
    requires forall a | 0 <= a < alloct :: mem'[a] == mem[a]
    ensures Chain(mem', heads', allocs, top)
  {
    forall a | a in heads' ensures HeadGood(mem', heads', top, a) {
      if a in heads {
        assert HeadGood(mem, heads, alloct, a);
      }
    }
  }

  /** The first nw words of idle block p made a busy block. */
  lemma {:induction false} TakeChain(mem: seq<Word>, heads: set<int>, allocs: int, alloct: int, p: int, q: int, nw: int,
                                     mem': seq<Word>, heads': set<int>)
    requires Chain(mem, heads, allocs, alloct) && IdleAt(mem, heads, alloct, p) && q == Next(mem, p) >= p + nw
             && nw >= 1
    requires p + nw <= alloct && |mem'| == |mem| && heads' == heads + {p + nw} && mem'[p] == SetBusy(p + nw)
    requires q > p + nw ==> mem'[p + nw] == mem[p]
    requires forall a | 0 <= a < |mem| && a != p && (a != p + nw || q == p + nw) :: mem'[a] == mem[a]
    ensures Chain(mem', heads', allocs, alloct)
  {
    forall a | a in heads' ensures HeadGood(mem', heads', alloct, a) {
      TakeHead(mem, heads, allocs, alloct, p, q, nw, mem', heads', a);
    }
    NextHead(mem, heads, allocs, alloct, p);
  }

  lemma {:induction false} TakeHead(mem: seq<Word>, heads: set<int>, allocs: int, alloct: int, p: int, q: int, nw: int,
                                    mem': seq<Word>, heads': set<int>, a: int)
    requires Chain(mem, heads, allocs, alloct) && IdleAt(mem, heads, alloct, p) && q == Next(mem, p) >= p + nw
             && nw >= 1
    requires p + nw <= alloct && |mem'| == |mem| && heads' == heads + {p + nw} && mem'[p] == SetBusy(p + nw)
    requires q > p + nw ==> mem'[p + nw] == mem[p]
    requires forall a | 0 <= a < |mem| && a != p && (a != p + nw || q == p + nw) :: mem'[a] == mem[a]
    requires a in heads'
    ensures HeadGood(mem', heads', alloct, a)
  {
    NextHead(mem, heads, allocs, alloct, p);
    if a in heads {
      NextHead(mem, heads, allocs, alloct, a);
    }
  }

  // ---------------------------------------------------------------- blocks in use

  /** The block at h is in use and holds the n words that were asked for. */
  ghost predicate InUse(mem: seq<Word>, heads: set<int>, allocs: int, alloct: int, h: int, n: int) {
    allocs + 1 < h < alloct && 0 <= h < |mem| && h in heads && TestBusy(mem[h]) && 1 <= n <= Next(mem, h) - h
  }

  ghost predicate LiveGood(mem: seq<Word>, heads: set<int>, allocs: int, alloct: int, live: map<int, int>) {
    forall h | h in live :: InUse(mem, heads, allocs, alloct, h, live[h])
  }

  /** Blocks in use are disjoint. */
  lemma {:induction false} LiveDisjoint(mem: seq<Word>, heads: set<int>, allocs: int, alloct: int, live: map<int, int>,
                                        g: int, h: int)
    requires Chain(mem, heads, allocs, alloct) && LiveGood(mem, heads, allocs, alloct, live)
    requires g in live && h in live && g < h
    ensures g + live[g] <= h && h + live[h] <= alloct
  {
    NextHead(mem, heads, allocs, alloct, g);
    NextHead(mem, heads, allocs, alloct, h);
    assert InUse(mem, heads, allocs, alloct, g, live[g]);
    assert InUse(mem, heads, allocs, alloct, h, live[h]);
  }

  lemma {:induction false} SearchedLive(m: seq<Word>, h: set<int>, mem: seq<Word>, heads: set<int>, allocs: int,
                                        alloct: int, live: map<int, int>)
    requires Searched(m, h, mem, heads, allocs, alloct) && LiveGood(m, h, allocs, alloct, live)
    ensures LiveGood(mem, heads, allocs, alloct, live)
  {
    forall a | a in live ensures InUse(mem, heads, allocs, alloct, a, live[a]) {
      assert InUse(m, h, allocs, alloct, a, live[a]);
      assert BusyKept(m, h, mem, heads, a);
    }
  }

  /** The words that growing writes: the old top leads to the new block, past a gap if there is one. */
  function Opened(mem: seq<Word>, allocs: int, alloct: int, q: int, top: int): (r: seq<Word>)
    requires 0 <= alloct < q < top < |mem|
    ensures |r| == |mem| && forall a | 0 <= a < alloct :: r[a] == mem[a]
    ensures Target(r[alloct]) == q && TestBusy(r[alloct]) == (q != alloct + 1)
    ensures r[q] == Idle(top) && r[top] == SetBusy(allocs)
  {
    mem[alloct := if q != alloct + 1 then SetBusy(q) else Idle(q)][q := Idle(top)][top := SetBusy(allocs)]
  }

  /** All that growing keeps and brings. */
  lemma {:induction false} GrowKeeps(m: seq<Word>, h: set<int>, allocs: int, alloct: int, q: int, top: int,
                                     mem: seq<Word>, heads: set<int>, live: map<int, int>, nw: int)
    requires Chain(m, h, allocs, alloct) && alloct < q < top < |m| == |mem| && heads == h + {q, top} && top - q >= nw
    requires Target(mem[alloct]) == q && mem[q] == Idle(top) && mem[top] == SetBusy(allocs)
    requires forall a | 0 <= a < alloct :: mem[a] == m[a]
    requires LiveGood(m, h, allocs, alloct, live)
    ensures Chain(mem, heads, allocs, top) && LiveGood(mem, heads, allocs, top, live) && Roomy(mem, heads, top, nw)
  {
    GrowChain(m, h, allocs, alloct, q, top, mem, heads);
    forall a | a in live ensures InUse(mem, heads, allocs, top, a, live[a]) {
      assert InUse(m, h, allocs, alloct, a, live[a]);
    }
    assert IdleAt(mem, heads, top, q) && !Small(mem, heads, top, nw, q);
  }

  /** The arena extended by memory from q up to the new top; the old top t is idle if the memory follows it. */
  ghost predicate Extended(m: seq<Word>, h: set<int>, allocs: int, t: int, q: int, top: int, mem: seq<Word>,
                           heads: set<int>)
  {
    && Chain(m, h, allocs, t) && Chain(mem, heads, allocs, top) && t < q < top < |mem| == |m| && heads == h + {q, top}
    && (forall a | 0 <= a < t :: mem[a] == m[a]) && TestBusy(mem[t]) == (q != t + 1) && mem[q] == Idle(top)
  }

  /** Where a block goes for which there was no room: to the new memory, or, where that follows the old top, to the
      front of the idle blocks before it. */
  ghost predicate Placed(m: seq<Word>, h: set<int>, t: int, brk: int, p: int) {
    if brk == t + 1 then
      && p in h && p <= t && (forall c | c in h && p <= c < t :: IdleAt(m, h, t, c))
      && forall c | c in h && 0 <= c < |m| && c < p && Next(m, c) == p :: TestBusy(m[c])
    else
      p == brk
  }

  /** Where `malloc` puts a block. */
  ghost predicate Given(m: seq<Word>, h: set<int>, allocs: int, t: int, p0: int, brk: int, nw: int, p: int) {
    if Fits(m, h, t, nw) then FirstFit(m, h, allocs, t, nw, p0, p) else Placed(m, h, t, brk, p)
  }

  /** After a search in vain, an idle block or the top follows a busy block, and has done so before. */
  lemma {:induction false} EndsBusy(m0: seq<Word>, h0: set<int>, m1: seq<Word>, h1: set<int>, allocs: int, t: int,
                                    nw: int, e: int, c: int)
    requires Chain(m0, h0, allocs, t) && Searched(m0, h0, m1, h1, allocs, t) && SmallIn(m1, h1, t, nw, allocs, t)
    requires e in h1 && (IdleAt(m1, h1, t, e) || forall x | IdleAt(m1, h1, t, x) :: Next(m1, x) != e)
    requires c in h0 && 0 <= c < e && Next(m0, c) == e
    ensures 0 <= c < |m0| && TestBusy(m0[c])
  {
    NextHead(m0, h0, allocs, t, c);
    NextHead(m1, h1, allocs, t, e);
    var d := Enclosing(m1, h1, allocs, t, c, allocs);
    NextHead(m1, h1, allocs, t, d);
    NextHead(m0, h0, allocs, t, d);
    assert BusyKept(m0, h0, m1, h1, d);
    assert Next(m1, d) == e;
    assert Ended(m1, h1, t, d);
  }

  /** A run with room from below the old top begins at the idle block before that, and the old top is idle. */
  lemma {:induction false} UpToTop(m: seq<Word>, h: set<int>, allocs: int, t: int, q: int, top: int, mem: seq<Word>,
                                   heads: set<int>, nw: int, p: int, end: int)
    requires Extended(m, h, allocs, t, q, top, mem, heads) && SmallIn(m, h, t, nw, allocs, t)
    requires Run(mem, heads, top, p, end) && end - p >= nw && p < t
    ensures IdleAt(m, h, t, p) && Next(m, p) == t && IdleAt(mem, heads, top, t)
  {
    NextHead(m, h, allocs, t, p);
    assert IdleAt(mem, heads, top, p);
    assert Small(m, h, t, nw, p) && Ended(m, h, t, p);
    var n := Next(m, p);
    assert n < end && IdleAt(mem, heads, top, n);
  }

  /** With the memory past a gap, only it has room. */
  lemma {:induction false} PastGap(m: seq<Word>, h: set<int>, allocs: int, t: int, q: int, top: int, mem: seq<Word>,
                                   heads: set<int>, nw: int, p: int, end: int)
    requires Extended(m, h, allocs, t, q, top, mem, heads) && q != t + 1 && SmallIn(m, h, t, nw, allocs, t)
    requires Run(mem, heads, top, p, end) && end - p >= nw
    ensures p == q
  {
    assert IdleAt(mem, heads, top, p);
    if p < t {
      UpToTop(m, h, allocs, t, q, top, mem, heads, nw, p, end);
    }
  }

  /** From the top, or the idle block before it, there is room. */
  lemma {:induction false} RoomFrom(m: seq<Word>, h: set<int>, allocs: int, t: int, q: int, top: int, mem: seq<Word>,
                                    heads: set<int>, nw: int, x: int)
    requires Extended(m, h, allocs, t, q, top, mem, heads) && q == t + 1 && top - q >= nw
    requires x == t || (IdleAt(m, h, t, x) && Next(m, x) == t)
    ensures Run(mem, heads, top, x, top) && top - x >= nw && allocs <= x
  {
    NextHead(m, h, allocs, t, x);
    forall c | c in heads && x <= c < top ensures IdleAt(mem, heads, top, c) {
    }
  }

  lemma {:induction false} PlacedThere(m0: seq<Word>, h0: set<int>, m: seq<Word>, h: set<int>, allocs: int, t: int,
                                       q: int, top: int, mem: seq<Word>, heads: set<int>, nw: int, p: int)
    requires Chain(m0, h0, allocs, t) && Searched(m0, h0, m, h, allocs, t) && SmallIn(m, h, t, nw, allocs, t)
    requires Extended(m, h, allocs, t, q, top, mem, heads) && top - q >= nw
    requires FirstFit(mem, heads, allocs, top, nw, allocs, p)
    ensures Placed(m0, h0, t, q, p)
  {
    var end :| Run(mem, heads, top, p, end) && end - p >= nw;
    if q != t + 1 {
      PastGap(m, h, allocs, t, q, top, mem, heads, nw, p, end);
    } else {
      RoomFrom(m, h, allocs, t, q, top, mem, heads, nw, t);
      assert p <= t;
      if p < t {
        UpToTop(m, h, allocs, t, q, top, mem, heads, nw, p, end);
        FoundRun(m0, h0, m, h, allocs, t, p);
      } else {
        forall x | IdleAt(m, h, t, x) ensures Next(m, x) != t {
          if Next(m, x) == t {
            RoomFrom(m, h, allocs, t, q, top, mem, heads, nw, x);
            NextHead(m, h, allocs, t, x);
          }
        }
      }
      forall c | c in h0 && 0 <= c < |m0| && c < p && Next(m0, c) == p ensures TestBusy(m0[c]) {
        EndsBusy(m0, h0, m, h, allocs, t, nw, p, c);
      }
    }
  }

  /** An idle block is neither of the two first words of the arena. */
  lemma {:induction false} IdleAbove(mem: seq<Word>, heads: set<int>, allocs: int, alloct: int, p: int)
    requires Chain(mem, heads, allocs, alloct) && allocs + 1 in heads && TestBusy(mem[allocs + 1])
    requires IdleAt(mem, heads, alloct, p)
    ensures allocs + 1 < p < Next(mem, p) <= alloct
  {
    NextHead(mem, heads, allocs, alloct, p);
    NextHead(mem, heads, allocs, alloct, allocs);
  }

  class Arena {
    const allocs: int
    var mem: seq<Word>
    var brk: int
    var allocp: int
    var alloct: int
    var allocx: Word
    ghost var heads: set<int>
    ghost var live: map<int, int>

    ghost predicate ChainValid()
      reads this
    {
      && Chain(mem, heads, allocs, alloct) && alloct < brk <= |mem| < WRAP / WORD
      && allocs + 1 in heads && TestBusy(mem[allocs + 1]) && (alloct == allocs + 1 ==> alloct + 1 < brk)
      && LiveGood(mem, heads, allocs, alloct, live)
    }

    ghost predicate Valid()
      reads this
    {
      ChainValid() && allocp in heads && allocs < allocp
    }

    /** The initial arena: two words that point to each other, apart from the memory that `sbrk` gives out. */
    constructor (memory: seq<Word>, base: int, break_: int)
      requires 0 <= base && base + 2 < break_ <= |memory| < WRAP / WORD
      ensures Valid() && live == map[] && brk == break_ && allocs == base
              && mem == memory[base := SetBusy(base + 1)][base + 1 := SetBusy(base)]
    {
      allocs := base;
      mem := memory[base := SetBusy(base + 1)][base + 1 := SetBusy(base)];
      brk, allocp, alloct, allocx := break_, base + 1, base + 1, Word(0, false);
      heads, live := {base, base + 1}, map[];
      new;
      forall a | a in heads ensures HeadGood(mem, heads, alloct, a) {
      }
    }

    /** The system's break, moved by a 16-bit number of bytes; others may move it too, which leaves gaps in the arena.
        The sum wraps, and a lower break is given as readily as a higher one. */
    method Sbrk(n: nat) returns (q: int)
      requires 0 <= brk <= |mem| < WRAP / WORD && n < WRAP && n % WORD == 0
      modifies `brk
      ensures var moved := (WORD * old(brk) + n) % WRAP / WORD;
              if moved <= |mem| then q == old(brk) && brk == moved else q == -1 && brk == old(brk)
    {
      if n == 0 {
        return brk;
      }
      if (WORD * brk + n) % WRAP > WORD * |mem| {
        return -1;
      }
      q := brk;
      brk := (WORD * brk + n) % WRAP / WORD;
    }

    /** More memory at the top of the arena; a gap before it becomes a busy block. Where the break has wrapped, the next
        store is to memory that is not there any more. */
    method Grow(temp: nat, ghost nw: int) returns (ok: bool, lost: bool)
      requires ChainValid() && 1 <= nw < WRAP / WORD && temp == Growth(nw)
      modifies `mem, `brk, `alloct, `heads
      ensures live == old(live) && (lost <==> Wraps(old(brk), nw)) && (!lost ==> ChainValid())
      ensures ok <==> !lost && old(brk) + temp <= |mem|
      ensures lost ==> brk <= old(brk) && mem == old(mem) && heads == old(heads) && alloct == old(alloct)
      ensures !lost ==> if ok then brk == old(brk) + temp && Roomy(mem, heads, alloct, nw)
              else brk == old(brk) && mem == old(mem) && heads == old(heads) && alloct == old(alloct)
      ensures |mem| == |old(mem)| && forall a | 0 <= a < old(alloct) :: mem[a] == old(mem)[a]
      ensures ok ==> old(alloct) < alloct && old(heads) <= heads
      ensures ok ==> forall a | a in heads && a !in old(heads) :: old(alloct) < a
      ensures ok ==> Extended(old(mem), old(heads), allocs, old(alloct), old(brk), alloct, mem, heads)
                     && alloct - old(brk) >= nw
    {
      GrowthRoom(nw, brk);
      lost := false;
      var q := Sbrk(temp * WORD % WRAP);
      if q == -1 {
        return false, false;
      }
      if q >= brk {
        return false, true;
      }
      var top := q + temp - 1;
      ghost var m, h, t := mem, heads, alloct;
      mem := Opened(mem, allocs, alloct, q, top);
      alloct := top;
      heads := heads + {q, top};
      GrowKeeps(m, h, allocs, t, q, top, mem, heads, live, nw);
      ok := true;
    }

    /** `found`: the front of idle block p is taken; the word that the split overwrites is kept in allocx. */
    method Take(p: int, q: int, nw: int)
      requires ChainValid() && IdleAt(mem, heads, alloct, p) && q == Next(mem, p) >= p + nw && nw >= 1
      modifies `mem, `allocp, `allocx, `heads, `live
      ensures Valid() && p !in old(live) && live == old(live)[p := nw] && allocp == p + nw <= q && allocs + 1 < p
      ensures |mem| == |old(mem)| && mem[p] == SetBusy(allocp) && heads == old(heads) + {allocp}
      ensures forall a | 0 <= a < |mem| && a != p && a != allocp :: mem[a] == old(mem)[a]
      ensures q > allocp ==> allocx == old(mem)[allocp] && mem[allocp] == old(mem)[p]
      ensures q == allocp ==> mem[allocp] == old(mem)[allocp]
    {
      ghost var m, h := mem, heads;
      IdleAbove(mem, heads, allocs, alloct, p);
      allocp := p + nw;
      assert allocp <= alloct;
      if q > allocp {
        allocx := mem[allocp];
        mem := mem[allocp := mem[p]];
      }
      mem := mem[p := SetBusy(allocp)];
      heads := heads + {allocp};
      TakeChain(m, h, allocs, alloct, p, q, nw, mem, heads);
      TakenLive(m, h, allocs, alloct, p, nw, mem, heads, live);
      live := live[p := nw];
    }

    /** The search, with the blocks in use kept. */
    method Search(p0: int, nw: int) returns (p: int, q: int, found: bool)
      requires ChainValid() && p0 in heads
      modifies `mem, `heads
      ensures ChainValid() && Searched(old(mem), old(heads), mem, heads, allocs, alloct)
      ensures found ==> IdleAt(mem, heads, alloct, p) && q == Next(mem, p) >= p + nw
      ensures old(Roomy(mem, heads, alloct, nw)) ==> found
      ensures !found ==> p == allocs && SmallIn(mem, heads, alloct, nw, allocs, alloct)
      ensures found <==> old(Fits(mem, heads, alloct, nw))
      ensures found ==> FirstFit(old(mem), old(heads), allocs, alloct, nw, p0, p)
      ensures old(Room(mem, heads, alloct, nw, p0)) ==> found && p == p0 && q >= old(Next(mem, p0))
    {
      ghost var m, h := mem, heads;
      mem, heads, p, q, found := Scan(mem, heads, p0, allocs, alloct, nw);
      SearchedLive(m, h, mem, heads, allocs, alloct, live);
      assert BusyKept(m, h, mem, heads, allocs + 1);
    }

    /** The search, and after it has failed once the arena grows and it is made again. */
    method Find(nw: int) returns (p: int, q: int, found: bool, lost: bool)
      requires Valid() && 1 <= nw < WRAP / WORD
      modifies `mem, `heads, `brk, `alloct
      ensures live == old(live) && old(alloct) <= alloct && |mem| == |old(mem)|
      ensures (found ==> !lost) && (lost ==> Wraps(old(brk), nw)) && (!lost ==> ChainValid())
      ensures Wraps(old(brk), nw) ==> lost || (found && brk == old(brk))
      ensures old(Room(mem, heads, alloct, nw, allocp)) ==> found && p == old(allocp) && q >= old(Next(mem, allocp))
      ensures found ==> IdleAt(mem, heads, alloct, p) && q == Next(mem, p) >= p + nw
      ensures found ==> brk == old(brk) || brk == old(brk) + Growth(nw)
      ensures found <==> old(Served(mem, heads, alloct, brk, nw))
      ensures lost <==> old(!Fits(mem, heads, alloct, nw) && Wraps(brk, nw))
      ensures old(Fits(mem, heads, alloct, nw)) ==>
                brk == old(brk) && alloct == old(alloct)
                && FirstFit(old(mem), old(heads), allocs, alloct, nw, old(allocp), p)
      ensures found && !old(Fits(mem, heads, alloct, nw)) ==>
                brk == old(brk) + Growth(nw) && Placed(old(mem), old(heads), old(alloct), old(brk), p)
      ensures !found && !lost ==> brk == old(brk) && brk + Growth(nw) > |mem|
      ensures !found ==> alloct == old(alloct) && Searched(old(mem), old(heads), mem, heads, allocs, alloct)
                         && SmallIn(mem, heads, alloct, nw, allocs, alloct)
      ensures forall a | a in heads :: a in old(heads) || old(alloct) < a
      ensures WordsKept(old(mem), old(heads), old(alloct), mem, -1)
    {
      lost := false;
      p, q, found := Search(allocp, nw);
      if found {
        return;
      }
      ghost var m1, h1 := mem, heads;
      GrowthRoom(nw, brk);
      var ok;
      ok, lost := Grow(Growth(nw), nw);
      if !ok {
        return;
      }
      ghost var m2, h2 := mem, heads;
      p, q, found := Search(p, nw);
      KeptThrough(old(mem), old(heads), old(alloct), m1, h1, m2, h2, mem);
      PlacedThere(old(mem), old(heads), m1, h1, allocs, old(alloct), old(brk), alloct, m2, h2, nw, p);
    }

    /** The largest request whose size in words does not wrap. */
    static const MAX_REQUEST: int := WRAP - 4

    /** `malloc`, from the size in words on. */
    method MallocWords(nw: int) returns (r: int, lost: bool)
      requires Valid() && 1 <= nw < WRAP / WORD
      modifies this
      ensures r != 0 <==> old(Served(mem, heads, alloct, brk, nw))
      ensures lost <==> old(!Fits(mem, heads, alloct, nw) && Wraps(brk, nw))
      ensures !lost ==> ChainValid()
      ensures !lost ==> (Valid() <==> old(Served(mem, heads, alloct, brk, nw) || !Joinable(mem, heads, alloct, allocp)))
      ensures old(Fits(mem, heads, alloct, nw)) ==>
                brk == old(brk) && FirstFit(old(mem), old(heads), allocs, old(alloct), nw, old(allocp), r - 1)
      ensures old(!Fits(mem, heads, alloct, nw)) && !lost ==> brk == old(brk) + if r != 0 then Growth(nw) else 0
      ensures old(!Fits(mem, heads, alloct, nw)) && r != 0 ==>
                Placed(old(mem), old(heads), old(alloct), old(brk), r - 1)
      ensures r == 0 ==> live == old(live)
      ensures r != 0 ==> r - 1 !in old(live) && live == old(live)[r - 1 := nw] && allocp == r - 1 + nw
      ensures r != 0 ==> r - 1 in old(heads) || r - 1 > old(alloct)
      ensures old(Room(mem, heads, alloct, nw, allocp)) ==> LooksHere(r, nw, old(allocp), old(Next(mem, allocp)))
      ensures WordsKept(old(mem), old(heads), old(alloct), mem, if r == 0 then -1 else allocp)
      ensures r != 0 && allocp < old(alloct) && allocp !in old(heads) ==> allocx == old(mem)[allocp]
      ensures r == 0 && !lost && old(Joinable(mem, heads, alloct, allocp)) ==> Stray(mem, heads, alloct, allocp)
    {
      var p, q, found;
      p, q, found, lost := Find(nw);
      if !found {
        if !lost {
          Astray(old(mem), old(heads), mem, heads, allocs, alloct, nw, allocp);
          if old(Joinable(mem, heads, alloct, allocp)) {
            StrayInside(old(mem), old(heads), mem, heads, allocs, alloct, allocp);
          }
        }
        return 0, lost;
      }
      ghost var m := mem;
      IdleAbove(mem, heads, allocs, alloct, p);
      NextHead(mem, heads, allocs, alloct, p);
      Take(p, q, nw);
      TakenWords(old(mem), old(heads), old(alloct), m, mem, p, allocp);
      r := p + 1;
    }

    /** The block is the front of the one where the search began, and what is left of that one is idle again. */
    ghost predicate LooksHere(r: int, nw: int, p: int, end: int)
      reads this
    {
      r == p + 1 && allocp == p + nw && (p + nw < end ==> IdleAt(mem, heads, alloct, allocp)
                                                          && Next(mem, allocp) >= end)
    }

    /** `malloc`: a block of its own for every request that can be had, from the first place in the arena that fits or
        else with one call of `sbrk`. A call that fails leaves the search pointer astray if its block was idle and so
        was the one before. Where nothing fits and the break would wrap, all is lost. */
    method Malloc(nbytes: nat) returns (r: int, lost: bool)
      requires Valid() && nbytes <= MAX_REQUEST
      modifies this
      ensures r != 0 <==> old(Served(mem, heads, alloct, brk, Words(nbytes)))
      ensures lost <==> old(!Fits(mem, heads, alloct, Words(nbytes)) && Wraps(brk, Words(nbytes)))
      ensures !lost ==> ChainValid()
      ensures !lost ==> (Valid() <==> old(Served(mem, heads, alloct, brk, Words(nbytes))
                                          || !Joinable(mem, heads, alloct, allocp)))
      ensures old(Fits(mem, heads, alloct, Words(nbytes))) ==>
                brk == old(brk) && FirstFit(old(mem), old(heads), allocs, old(alloct), Words(nbytes), old(allocp),
                                            r - 1)
      ensures old(!Fits(mem, heads, alloct, Words(nbytes))) && !lost ==>
                brk == old(brk) + if r != 0 then Growth(Words(nbytes)) else 0
      ensures old(!Fits(mem, heads, alloct, Words(nbytes))) && r != 0 ==>
                Placed(old(mem), old(heads), old(alloct), old(brk), r - 1)
      ensures r == 0 ==> live == old(live)
      ensures r != 0 ==> r - 1 !in old(live) && live == old(live)[r - 1 := Words(nbytes)]
                         && allocp == r - 1 + Words(nbytes)
      ensures r != 0 ==> r - 1 in old(heads) || r - 1 > old(alloct)
      ensures old(Room(mem, heads, alloct, Words(nbytes), allocp)) ==>
                LooksHere(r, Words(nbytes), old(allocp), old(Next(mem, allocp)))
      ensures WordsKept(old(mem), old(heads), old(alloct), mem, if r == 0 then -1 else allocp)
      ensures r != 0 && allocp < old(alloct) && allocp !in old(heads) ==> allocx == old(mem)[allocp]
      ensures r == 0 && !lost && old(Joinable(mem, heads, alloct, allocp)) ==> Stray(mem, heads, alloct, allocp)
    {
      BigEnough(nbytes);
      r, lost := MallocWords(Words(nbytes));
    }

    /** `free`: the block is idle, and the next search begins there. */
    method Free(p: int)
      requires ChainValid() && p - 1 in live
      modifies `mem, `allocp, `live
      ensures Valid() && live == old(live) - {p - 1} && allocp == p - 1
      ensures mem == old(mem)[p - 1 := Idle(Next(old(mem), p - 1))]
    {
      ghost var m, l := mem, live;
      assert InUse(mem, heads, allocs, alloct, p - 1, live[p - 1]);
      AboveGap(mem, heads, allocs, alloct, p - 1);
      assert p > Target(mem[allocs + 1]) && p <= alloct;
      allocp := p - 1;
      mem := mem[allocp := Idle(Target(mem[allocp]))];
      live := live - {allocp};
      FreedChain(m, heads, allocs, alloct, allocp, mem, l);
      assert Target(mem[allocp]) > allocp && Target(mem[allocp]) <= alloct;
    }

    /** `realloc` of a block freed since the last `malloc`: the new block begins with the old contents, as much as
        there is of both, even where the two overlap; other blocks keep theirs. */
    method Realloc(p: int, nbytes: nat) returns (q: int, lost: bool)
      requires Valid() && nbytes <= MAX_REQUEST && p - 1 in heads && allocs + 1 < p - 1 < alloct && p - 1 !in live
      modifies this
      ensures q != 0 <==> old(Served(mem, heads, alloct, brk, Words(nbytes)))
      ensures lost <==> old(!Fits(mem, heads, alloct, Words(nbytes)) && Wraps(brk, Words(nbytes)))
      ensures !lost ==> ChainValid()
      ensures !lost ==> (Valid() <==> old(Served(mem, heads, alloct, brk, Words(nbytes))
                                          || !Joinable(mem, heads, alloct, allocp)))
      ensures q != 0 ==> Given(old(mem), old(heads), allocs, old(alloct), old(allocp), old(brk), Words(nbytes), q - 1)
      ensures q == 0 ==> live == old(live)
      ensures q != 0 ==> q - 1 !in old(live) && live == old(live)[q - 1 := Words(nbytes)]
      ensures q != 0 ==> Copied(old(mem), mem, p, q, Smaller(Next(old(mem), p - 1) - p, Words(nbytes) - 1))
      ensures q != 0 ==> AllKept(old(mem), mem, old(live))
    {
      NextHead(mem, heads, allocs, alloct, p - 1);
      var onw := Next(mem, p - 1) - p;
      BigEnough(nbytes);
      ghost var end, m0, live0 := p + onw, mem, live;
      q, lost := NewBlock(p, nbytes, end);
      if q == 0 {
        return;
      }
      var nw := (nbytes + WORD - 1) / WORD;
      if q == p {
        InPlace(m0, mem, p, end, p + nw, allocx, Smaller(onw, nw));
        return;
      }
      Move(p, q, onw, nw, m0, live0);
    }

    /** The contents moved into the new block at q. */
    method Move(p: int, q: int, onw: int, nw: int, ghost m0: seq<Word>, ghost live0: map<int, int>)
      requires Valid() && |m0| == |mem| && q - 1 !in live0 && live == live0[q - 1 := nw + 1]
      requires 0 <= p && 0 <= q && 0 <= onw && 0 <= nw && p + onw <= |mem| && q + nw <= |mem| && (q < p || p + onw <= q)
      requires Spared(m0, mem, p, p + onw, q + nw, allocx)
      requires AllKept(m0, mem, live0)
      modifies `mem
      ensures Valid() && Copied(m0, mem, p, q, Smaller(onw, nw)) && AllKept(m0, mem, live0)
    {
      ghost var m1 := mem;
      mem := MoveContents(mem, p, q, onw, nw, allocx, m0);
      NewBlockOnly(m1, heads, allocs, alloct, live, mem, q, nw);
      assert forall h | h in live0 && h != q - 1 :: h in live && live[h] == live0[h];
      KeptTwice(m0, m1, mem, live0, q - 1);
    }

    /** The call of `malloc` in `realloc`, and what it leaves of the old block, which ends at `end`. */
    method NewBlock(p: int, nbytes: nat, ghost end: int) returns (q: int, lost: bool)
      requires Valid() && nbytes <= MAX_REQUEST && p - 1 in heads && p - 1 < alloct && end == Next(mem, p - 1)
      modifies this
      ensures q != 0 <==> old(Served(mem, heads, alloct, brk, Words(nbytes)))
      ensures lost <==> old(!Fits(mem, heads, alloct, Words(nbytes)) && Wraps(brk, Words(nbytes)))
      ensures (!lost ==> ChainValid()) && |mem| == |old(mem)|
      ensures !lost ==> (Valid() <==> old(Served(mem, heads, alloct, brk, Words(nbytes))
                                          || !Joinable(mem, heads, alloct, allocp)))
      ensures q != 0 ==> Given(old(mem), old(heads), allocs, old(alloct), old(allocp), old(brk), Words(nbytes), q - 1)
      ensures q == 0 ==> live == old(live)
      ensures q != 0 ==> Valid() && q - 1 !in old(live) && live == old(live)[q - 1 := Words(nbytes)]
      ensures q != 0 ==> 0 < p <= end <= |mem| && (q <= p || end < q) && 0 < q && q - 1 + Words(nbytes) <= |mem|
      ensures q != 0 ==> AllKept(old(mem), mem, old(live))
      ensures q != 0 ==> Spared(old(mem), mem, p, end, q - 1 + Words(nbytes), allocx)
    {
      BlockEnds(mem, heads, allocs, alloct, p);
      q, lost := Malloc(nbytes);
      if q != 0 {
        MallocData(old(mem), old(heads), allocs, old(alloct), old(live), mem, heads, alloct, live, allocp);
        BlockKept(old(mem), old(heads), allocs, old(alloct), p, mem, allocp);
        assert q - 1 in live;
        assert InUse(mem, heads, allocs, alloct, q - 1, live[q - 1]);
        NextHead(mem, heads, allocs, alloct, q - 1);
      }
    }
  }

  /** The words from p up to end are as they were but for the split, and that one is kept in x. */
  ghost predicate Spared(m: seq<Word>, mem: seq<Word>, p: int, end: int, split: int, x: Word) {
    && 0 <= p && end <= |m| == |mem|
    && (forall a | p <= a < end && a != split :: mem[a] == m[a])
    && (p <= split < end ==> x == m[split])
  }

  /** A block given again in its place has its contents already. */
  lemma {:induction false} InPlace(m: seq<Word>, mem: seq<Word>, p: int, end: int, split: int, x: Word, n: int)
    requires Spared(m, mem, p, end, split, x) && p + n <= end && p + n <= split
    ensures Copied(m, mem, p, p, n)
  {
  }

  /** The blocks in use hold what they held. */
  ghost predicate AllKept(m: seq<Word>, mem: seq<Word>, live: map<int, int>) {
    forall h | h in live :: DataKept(m, mem, h, live[h])
  }

  lemma {:induction false} BlockEnds(mem: seq<Word>, heads: set<int>, allocs: int, alloct: int, p: int)
    requires Chain(mem, heads, allocs, alloct) && p - 1 in heads && p - 1 < alloct
    ensures 0 < p <= Next(mem, p - 1) <= alloct && NoneBetween(heads, p - 1, Next(mem, p - 1))
  {
    NextHead(mem, heads, allocs, alloct, p - 1);
  }

  lemma {:induction false} KeptTwice(m0: seq<Word>, m1: seq<Word>, m2: seq<Word>, live: map<int, int>, new_: int)
    requires |m0| == |m1| == |m2| && new_ !in live
    requires forall h | h in live :: DataKept(m0, m1, h, live[h])
    requires forall h | h in live && h != new_ :: DataKept(m1, m2, h, live[h])
    ensures forall h | h in live :: DataKept(m0, m2, h, live[h])
  {
    forall h | h in live ensures DataKept(m0, m2, h, live[h]) {
      forall a | h < a < h + live[h] ensures SameWord(m0, m2, a) {
        assert SameWord(m0, m1, a) && SameWord(m1, m2, a);
      }
    }
  }

  /** The second half of `realloc`: copy, and put right the word that the split overwrote. */
  method MoveContents(m: seq<Word>, p: int, q: int, onw0: int, nw: int, allocx: Word, ghost m0: seq<Word>)
    returns (mem: seq<Word>)
    requires |m0| == |m| && 0 <= p && 0 <= q && 0 <= onw0 && 0 <= nw && p + onw0 <= |m| && q + nw <= |m|
    requires q < p || p + onw0 <= q
    requires forall a | p <= a < p + onw0 && a != q + nw :: m[a] == m0[a]
    requires p <= q + nw < p + onw0 ==> allocx == m0[q + nw]
    ensures |mem| == |m| && Copied(m0, mem, p, q, Smaller(onw0, nw))
    ensures forall a | 0 <= a < |m| && !(q <= a < q + nw) :: mem[a] == m[a]
  {
    var onw := onw0;
    if nw < onw {
      onw := nw;
    }
    mem := CopyWords(m, p, q, onw);
    ghost var m2 := mem;
    if q < p && q + nw >= p {
      mem := mem[q + (q + nw - p) := allocx];
    }
    CopyResult(m0, m, m2, mem, p, q, onw, nw, allocx);
  }

  function Smaller(x: int, y: int): int {
    if x < y then x else y
  }

  /** The n words at p, as they were in m, are the words at q. */
  ghost predicate Copied(m: seq<Word>, mem: seq<Word>, p: int, q: int, n: int) {
    forall a, b | p <= a < p + n && b - a == q - p :: 0 <= a < |m| && 0 <= b < |mem| && mem[b] == m[a]
  }

  /** The words of the block at h after its header are as they were. */
  ghost predicate DataKept(m: seq<Word>, mem: seq<Word>, h: int, n: int) {
    forall a | h < a < h + n :: SameWord(m, mem, a)
  }

  ghost predicate SameWord(m: seq<Word>, mem: seq<Word>, a: int) {
    0 <= a < |m| && a < |mem| && mem[a] == m[a]
  }

  /** The copying loop of `realloc`, upwards. */
  method CopyWords(m: seq<Word>, p: int, q: int, n: int) returns (mem: seq<Word>)
    requires 0 <= p && 0 <= q && 0 <= n && p + n <= |m| && q + n <= |m| && (q <= p || p + n <= q)
    ensures |mem| == |m| && Copied(m, mem, p, q, n)
    ensures forall a | 0 <= a < |m| && !(q <= a < q + n) :: mem[a] == m[a]
  {
    mem := m;
    var s, t, onw := p, q, n;
    while onw != 0
      invariant 0 <= onw <= n && s == p + n - onw && t == q + n - onw && |mem| == |m|
      invariant Copied(m, mem, p, q, n - onw)
      invariant forall a | 0 <= a < |m| && !(q <= a < t) :: mem[a] == m[a]
    {
      onw := onw - 1;
      mem := mem[t := mem[s]];
      s, t := s + 1, t + 1;
    }
  }

  /** The copy is of the old contents: the one word that the split overwrote is put right from allocx. */
  lemma {:induction false} CopyResult(m0: seq<Word>, m1: seq<Word>, m2: seq<Word>, m3: seq<Word>, p: int, q: int,
                                      n: int, nw: int, x: Word)
    requires |m0| == |m1| == |m2| && 0 <= p && 0 <= q && 0 <= n <= nw && p + n <= |m0| && q + nw <= |m0|
    requires q < p || p + n <= q
    requires forall a | p <= a < p + n && a != q + nw :: m1[a] == m0[a]
    requires p <= q + nw < p + n ==> x == m0[q + nw]
    requires Copied(m1, m2, p, q, n)
    requires m3 == if q < p && q + nw >= p then m2[q + (q + nw - p) := x] else m2
    ensures Copied(m0, m3, p, q, n)
  {
  }

  /** `malloc` writes nothing into blocks in use. */
  lemma {:induction false} MallocData(m: seq<Word>, h: set<int>, allocs: int, alloct: int, live: map<int, int>,
                                      mem: seq<Word>, heads: set<int>, alloct': int, live': map<int, int>, split: int)
    requires Chain(m, h, allocs, alloct) && LiveGood(m, h, allocs, alloct, live) && WordsKept(m, h, alloct, mem, split)
    requires Chain(mem, heads, allocs, alloct') && LiveGood(mem, heads, allocs, alloct', live') && split in heads
    requires forall a | a in live :: a in live' && live'[a] == live[a]
    ensures forall a | a in live :: DataKept(m, mem, a, live[a])
  {
    forall a | a in live ensures DataKept(m, mem, a, live[a]) {
      assert InUse(m, h, allocs, alloct, a, live[a]);
      assert InUse(mem, heads, allocs, alloct', a, live'[a]);
      NextHead(m, h, allocs, alloct, a);
      NextHead(mem, heads, allocs, alloct', a);
      forall b | a < b < a + live[a] ensures SameWord(m, mem, b) {
        assert WordKept(m, h, alloct, mem, split, b);
      }
    }
  }

  /** Nor into any block but at the split. */
  lemma {:induction false} BlockKept(m: seq<Word>, h: set<int>, allocs: int, alloct: int, p: int, mem: seq<Word>,
                                     split: int)
    requires Chain(m, h, allocs, alloct) && p - 1 in h && p - 1 < alloct && WordsKept(m, h, alloct, mem, split)
    ensures 0 < p <= Next(m, p - 1) <= alloct && NoneBetween(h, p - 1, Next(m, p - 1))
    ensures forall a | p <= a < Next(m, p - 1) && a != split :: mem[a] == m[a]
  {
    NextHead(m, h, allocs, alloct, p - 1);
    forall a | p <= a < Next(m, p - 1) && a != split ensures mem[a] == m[a] {
      assert WordKept(m, h, alloct, mem, split, a);
    }
  }

  /** Writing inside one block in use disturbs neither the chain nor the other blocks. */
  lemma {:induction false} NewBlockOnly(m: seq<Word>, heads: set<int>, allocs: int, alloct: int, live: map<int, int>,
                                        mem: seq<Word>, q: int, nw: int)
    requires Chain(m, heads, allocs, alloct) && LiveGood(m, heads, allocs, alloct, live) && q - 1 in live
             && live[q - 1] == nw + 1
    requires |mem| == |m| && forall a | 0 <= a < |m| && !(q <= a < q + nw) :: mem[a] == m[a]
    ensures Chain(mem, heads, allocs, alloct) && LiveGood(mem, heads, allocs, alloct, live)
    ensures forall h | h in live && h != q - 1 :: DataKept(m, mem, h, live[h])
  {
    assert InUse(m, heads, allocs, alloct, q - 1, live[q - 1]);
    NextHead(m, heads, allocs, alloct, q - 1);
    forall a | a in heads ensures HeadGood(mem, heads, alloct, a) {
      assert HeadGood(m, heads, alloct, a);
    }
    forall h | h in live ensures InUse(mem, heads, allocs, alloct, h, live[h]) {
      assert InUse(m, heads, allocs, alloct, h, live[h]);
    }
    forall h | h in live && h != q - 1 ensures DataKept(m, mem, h, live[h]) {
      LiveDisjoint(m, heads, allocs, alloct, live, if h < q - 1 then h else q - 1, if h < q - 1 then q - 1 else h);
      assert InUse(m, heads, allocs, alloct, h, live[h]);
    }
  }

  /** The assertion of `free`: blocks in use lie above what the second word of the arena leads to. */
  lemma {:induction false} AboveGap(mem: seq<Word>, heads: set<int>, allocs: int, alloct: int, h: int)
    requires Chain(mem, heads, allocs, alloct) && allocs + 1 in heads && h in heads && allocs + 1 < h < alloct
    ensures Next(mem, allocs + 1) <= h
  {
    NextHead(mem, heads, allocs, alloct, allocs + 1);
  }

  lemma {:induction false} FreedChain(m: seq<Word>, heads: set<int>, allocs: int, alloct: int, h: int, mem: seq<Word>,
                                      live: map<int, int>)
    requires Chain(m, heads, allocs, alloct) && LiveGood(m, heads, allocs, alloct, live) && h in live
    requires 0 <= h < |m| && mem == m[h := Idle(Next(m, h))]
    ensures Chain(mem, heads, allocs, alloct) && LiveGood(mem, heads, allocs, alloct, live - {h})
    ensures h < Next(mem, h) <= alloct && allocs + 1 < h
  {
    assert InUse(m, heads, allocs, alloct, h, live[h]);
    NextHead(m, heads, allocs, alloct, h);
    forall a | a in heads ensures HeadGood(mem, heads, alloct, a) {
      assert HeadGood(m, heads, alloct, a);
    }
    forall a | a in live && a != h ensures InUse(mem, heads, allocs, alloct, a, live[a]) {
      assert InUse(m, heads, allocs, alloct, a, live[a]);
    }
  }

  /** The block where the next search begins is idle, and so is the block before it. */
  ghost predicate Joinable(mem: seq<Word>, heads: set<int>, alloct: int, allocp: int) {
    IdleAt(mem, heads, alloct, allocp) && exists a :: IdleAt(mem, heads, alloct, a) && Next(mem, a) == allocp
  }

  /** The search pointer is inside idle block a, at words that look like an idle block of their own. */
  ghost predicate Inside(mem: seq<Word>, heads: set<int>, alloct: int, p: int, a: int) {
    && IdleAt(mem, heads, alloct, a) && a < p < Next(mem, a) && p !in heads
    && 0 <= p < |mem| && !TestBusy(mem[p]) && p < Next(mem, p) <= Next(mem, a)
  }

  ghost predicate Stray(mem: seq<Word>, heads: set<int>, alloct: int, p: int) {
    exists a :: Inside(mem, heads, alloct, p, a)
  }

  /** A header that a search has joined to the block before it is inside that block. */
  lemma {:induction false} StrayInside(m: seq<Word>, h: set<int>, mem: seq<Word>, heads: set<int>, allocs: int,
                                       alloct: int, p: int)
    requires Chain(m, h, allocs, alloct) && Searched(m, h, mem, heads, allocs, alloct)
    requires IdleAt(m, h, alloct, p) && p !in heads
    ensures Stray(mem, heads, alloct, p)
  {
    assert IdleWord(mem, heads, alloct, p);
    NextHead(m, h, allocs, alloct, p);
    var a := Enclosing(mem, heads, allocs, alloct, p, allocs);
    assert BusyKept(m, h, mem, heads, a);
    NextHead(m, h, allocs, alloct, a);
    NextHead(mem, heads, allocs, alloct, a);
    assert Inside(mem, heads, alloct, p, a);
  }

  /** The next search finds room at the stray pointer, and takes words of an idle block that the chain goes on to offer
      as a whole: a later search that comes to it gives out the same words once more. */
  lemma {:induction false} GivenTwice(mem: seq<Word>, heads: set<int>, allocs: int, alloct: int, p: int, a: int,
                                      nw: int, mem': seq<Word>)
    requires Chain(mem, heads, allocs, alloct) && Inside(mem, heads, alloct, p, a) && 1 <= nw
             && p + nw < Next(mem, p) <= |mem|
    requires mem' == mem[p + nw := mem[p]][p := SetBusy(p + nw)]
    ensures Chain(mem', heads, allocs, alloct) && IdleAt(mem', heads, alloct, a) && a < p < p + nw < Next(mem', a)
  {
    NextHead(mem, heads, allocs, alloct, a);
    forall b | b in heads ensures HeadGood(mem', heads, alloct, b) {
      NextHead(mem, heads, allocs, alloct, b);
    }
  }

  lemma {:induction false} EndsAt(mem: seq<Word>, heads: set<int>, allocs: int, alloct: int, live: map<int, int>,
                                  h: int)
    requires Chain(mem, heads, allocs, alloct) && LiveGood(mem, heads, allocs, alloct, live) && h in live
             && h + live[h] in heads
    ensures 0 <= h < h + live[h] < |mem| && Next(mem, h) == h + live[h] && h in heads && TestBusy(mem[h]) && h != alloct
  {
    assert InUse(mem, heads, allocs, alloct, h, live[h]);
    NextHead(mem, heads, allocs, alloct, h);
    NextHead(mem, heads, allocs, alloct, h + live[h]);
  }

  /** A block that has been freed again, where the next search begins. */
  method FreedBlock(a: Arena)
    requires a.Valid() && a.live == map[] && a.brk == 10 && |a.mem| == 1000
    modifies a
    ensures a.Valid() && |a.mem| == 1000 && a.live == map[] && Room(a.mem, a.heads, a.alloct, 51, a.allocp)
  {
    var r, lost := a.Malloc(100);
    assert InUse(a.mem, a.heads, a.allocs, a.alloct, r - 1, a.live[r - 1]);
    a.Free(r);
  }

  /** Two small blocks side by side, at the front of it. */
  method TwoBlocks(a: Arena) returns (r: int, t: int)
    requires a.Valid() && a.live == map[] && |a.mem| == 1000 && Room(a.mem, a.heads, a.alloct, 51, a.allocp)
    modifies a
    ensures a.Valid() && |a.mem| == 1000 && t - 1 == r - 1 + 6 && a.live == map[r - 1 := 6][t - 1 := 6]
            && t - 1 in a.heads
  {
    var lost;
    r, lost := SmallBlock(a);
    t, lost := SmallBlock(a);
    assert InUse(a.mem, a.heads, a.allocs, a.alloct, t - 1, a.live[t - 1]);
  }

  /** Six words from the front of an idle block of at least twelve. */
  method SmallBlock(a: Arena) returns (r: int, lost: bool)
    requires a.Valid() && |a.mem| == 1000
    requires IdleAt(a.mem, a.heads, a.alloct, a.allocp) && Next(a.mem, a.allocp) >= a.allocp + 12
    modifies a
    ensures a.Valid() && |a.mem| == 1000 && r - 1 !in old(a.live) && a.live == old(a.live)[r - 1 := 6]
    ensures r - 1 == old(a.allocp) && a.allocp == r - 1 + 6
    ensures IdleAt(a.mem, a.heads, a.alloct, a.allocp) && Next(a.mem, a.allocp) >= old(Next(a.mem, a.allocp))
  {
    assert Room(a.mem, a.heads, a.alloct, 6, a.allocp);
    r, lost := a.Malloc(10);
  }

  /** Freed one after the other, they are idle side by side with the search pointer at the second. */
  method FreeBoth(a: Arena, r: int, t: int)
    requires a.Valid() && t - 1 == r - 1 + 6 && a.live == map[r - 1 := 6][t - 1 := 6] && t - 1 in a.heads
    modifies a
    ensures a.Valid() && a.live == map[] && Joinable(a.mem, a.heads, a.alloct, a.allocp)
    ensures a.brk == old(a.brk) && |a.mem| == |old(a.mem)|
  {
    EndsAt(a.mem, a.heads, a.allocs, a.alloct, a.live, r - 1);
    a.Free(r);
    assert InUse(a.mem, a.heads, a.allocs, a.alloct, t - 1, a.live[t - 1]);
    a.Free(t);
    assert IdleAt(a.mem, a.heads, a.alloct, r - 1) && Next(a.mem, r - 1) == t - 1;
  }

  /** A run from the initial arena that ends with nothing in use and the search pointer astray: the last request is
      only too big for the memory there is. */
  method StrayRun() returns (a: Arena)
    ensures a.ChainValid() && !a.Valid() && a.live == map[] && Stray(a.mem, a.heads, a.alloct, a.allocp)
  {
    a := new Arena(seq(1000, _ => Word(0, false)), 0, 10);
    FreedBlock(a);
    var r, t := TwoBlocks(a);
    FreeBoth(a, r, t);
    AskTooMuch(a);
  }

  method AskTooMuch(a: Arena)
    requires a.Valid() && a.live == map[] && |a.mem| == 1000 && a.brk <= 2000
    requires Joinable(a.mem, a.heads, a.alloct, a.allocp)
    modifies a
    ensures a.ChainValid() && !a.Valid() && a.live == map[] && Stray(a.mem, a.heads, a.alloct, a.allocp)
  {
    NoneFits(a.mem, a.heads, a.alloct, Words(60000));
    var q, lost := a.Malloc(60000);
    SmallerThanMemory(a.mem, a.heads, a.allocs, a.alloct, a.live);
  }

  lemma {:induction false} NoneFits(mem: seq<Word>, heads: set<int>, alloct: int, nw: int)
    requires alloct < nw
    ensures !Fits(mem, heads, alloct, nw)
  {
  }

  /** A break of 26000 and a request for 40000 bytes, that no block has room for: the break wraps. */
  method LostRun() returns (a: Arena, lost: bool)
    ensures fresh(a) && lost
  {
    a := new Arena(seq(32000, _ => Word(0, false)), 0, 13000);
    var r;
    LargeRequest(13000);
    assert !Fits(a.mem, a.heads, a.alloct, Words(40000)) by {
      assert a.mem[0] == SetBusy(1);
    }
    r, lost := a.Malloc(40000);
  }

  lemma {:induction false} SmallerThanMemory(mem: seq<Word>, heads: set<int>, allocs: int, alloct: int,
                                             live: map<int, int>)
    requires Chain(mem, heads, allocs, alloct) && LiveGood(mem, heads, allocs, alloct, live)
    ensures forall h | h in live :: live[h] <= |mem|
  {
    forall h | h in live ensures live[h] <= |mem| {
      assert InUse(mem, heads, allocs, alloct, h, live[h]);
      NextHead(mem, heads, allocs, alloct, h);
    }
  }

  /** Every header but the first ends some block. */
  lemma {:induction false} Before(mem: seq<Word>, heads: set<int>, allocs: int, alloct: int, b: int, from: int)
    returns (a: int)
    requires Chain(mem, heads, allocs, alloct) && b in heads && from in heads && from < b
    ensures a in heads && 0 <= a < b && a != alloct && Next(mem, a) == b
    decreases b - from
  {
    NextHead(mem, heads, allocs, alloct, from);
    if Next(mem, from) == b {
      a := from;
    } else {
      a := Before(mem, heads, allocs, alloct, b, Next(mem, from));
    }
  }

  /** After a search that failed, the header where it began is a header still, unless it could be joined. */
  lemma {:induction false} Astray(m: seq<Word>, h: set<int>, mem: seq<Word>, heads: set<int>, allocs: int, alloct: int,
                                  nw: int, allocp: int)
    requires Chain(m, h, allocs, alloct) && Searched(m, h, mem, heads, allocs, alloct) && allocp in h && allocs < allocp
    requires SmallIn(mem, heads, alloct, nw, allocs, alloct)
    ensures allocp in heads <==> !Joinable(m, h, alloct, allocp)
  {
    assert BusyKept(m, h, mem, heads, allocp);
    var a := Before(m, h, allocs, alloct, allocp, allocs);
    assert BusyKept(m, h, mem, heads, a);
    if TestBusy(m[a]) {
      NextHead(mem, heads, allocs, alloct, a);
      OnlyBefore(m, h, allocs, alloct, allocp, a);
    } else if allocp in heads {
      var c := Before(mem, heads, allocs, alloct, allocp, allocs);
      assert BusyKept(m, h, mem, heads, c);
      NextHead(mem, heads, allocs, alloct, allocp);
      assert Ended(mem, heads, alloct, c);
      if TestBusy(m[c]) {
        OnlyBefore(m, h, allocs, alloct, allocp, a);
      }
    }
  }

  lemma {:induction false} OnlyBefore(mem: seq<Word>, heads: set<int>, allocs: int, alloct: int, b: int, a: int)
    requires Chain(mem, heads, allocs, alloct) && a in heads && a != alloct && 0 <= a < |mem| && Next(mem, a) == b
    ensures forall c | c in heads && c != alloct && 0 <= c < |mem| && Next(mem, c) == b :: c == a
  {
    forall c | c in heads && c != alloct && 0 <= c < |mem| && Next(mem, c) == b ensures c == a {
      NextHead(mem, heads, allocs, alloct, a);
      NextHead(mem, heads, allocs, alloct, c);
    }
  }

  /** The request can be had: from the arena, or with more memory. */
  ghost predicate Served(mem: seq<Word>, heads: set<int>, alloct: int, brk: int, nw: int) {
    Fits(mem, heads, alloct, nw) || (!Wraps(brk, nw) && brk + Growth(nw) <= |mem|)
  }

  /** A word of the arena is as it was, unless it was a header or is the new split. */
  ghost predicate WordKept(m: seq<Word>, h: set<int>, alloct: int, mem: seq<Word>, split: int, a: int) {
    0 <= a < |m| == |mem| && a < alloct && a !in h && a != split ==> mem[a] == m[a]
  }

  ghost predicate WordsKept(m: seq<Word>, h: set<int>, alloct: int, mem: seq<Word>, split: int) {
    |m| == |mem| && forall a :: WordKept(m, h, alloct, mem, split, a)
  }

  lemma {:induction false} KeptThrough(m0: seq<Word>, h0: set<int>, t0: int, m1: seq<Word>, h1: set<int>,
                                       m2: seq<Word>, h2: set<int>, m3: seq<Word>)
    requires OnlyHeads(m0, m1, h0) && h1 <= h0 && |m2| == |m1| && OnlyHeads(m2, m3, h2)
    requires forall a | 0 <= a < t0 && a < |m1| :: m2[a] == m1[a]
    requires forall a | a in h2 && a !in h1 :: t0 < a
    ensures WordsKept(m0, h0, t0, m3, -1)
  {
    forall a ensures WordKept(m0, h0, t0, m3, -1, a) {
    }
  }

  lemma {:induction false} TakenWords(m0: seq<Word>, h0: set<int>, t0: int, m: seq<Word>, mem: seq<Word>, p: int,
                                      split: int)
    requires WordsKept(m0, h0, t0, m, -1) && |mem| == |m| && (p in h0 || t0 < p)
    requires forall a | 0 <= a < |m| && a != p && a != split :: mem[a] == m[a]
    ensures WordsKept(m0, h0, t0, mem, split)
    ensures 0 <= split < t0 && split !in h0 && split < |m| ==> m[split] == m0[split]
  {
    forall a ensures WordKept(m0, h0, t0, mem, split, a) {
      assert WordKept(m0, h0, t0, m, -1, a);
    }
    assert WordKept(m0, h0, t0, m, -1, split);
  }

  lemma {:induction false} TakenLive(m: seq<Word>, h: set<int>, allocs: int, alloct: int, p: int, nw: int,
                                     mem: seq<Word>, heads: set<int>, live: map<int, int>)
    requires Chain(m, h, allocs, alloct) && IdleAt(m, h, alloct, p) && p + nw <= Next(m, p) && nw >= 1 && allocs + 1 < p
    requires LiveGood(m, h, allocs, alloct, live) && |mem| == |m| && heads == h + {p + nw} && mem[p] == SetBusy(p + nw)
    requires forall a | 0 <= a < |m| && a != p && (a != p + nw || Next(m, p) == p + nw) :: mem[a] == m[a]
    ensures p !in live && LiveGood(mem, heads, allocs, alloct, live[p := nw])
  {
    NextHead(m, h, allocs, alloct, p);
    forall a | a in live ensures a != p && InUse(mem, heads, allocs, alloct, a, live[a]) {
      assert InUse(m, h, allocs, alloct, a, live[a]);
      NextHead(m, h, allocs, alloct, a);
    }
  }
}
