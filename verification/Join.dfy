/** The merge join of join (join.c). The lines of a file are the ranks of their join fields; `-a` is two bits. */
module Join {

  /** What is printed: two joined lines, or a line of one file alone. */
  datatype Item = Pair(i: nat, j: nat) | First(i: nat) | Second(j: nat)

  ghost predicate Ascending(f: seq<int>) {
    forall x, y | 0 <= x <= y < |f| :: f[x] <= f[y]
  }

  // ---------------------------------------------------------------- what should be printed

  /** The pairs of line i with the lines before j, in order. */
  ghost function Row(f1: seq<int>, f2: seq<int>, i: nat, j: nat): seq<Item>
    requires i < |f1| && j <= |f2|
  {
    if j == 0 then []
    else if f1[i] == f2[j - 1] then Row(f1, f2, i, j - 1) + [Pair(i, j - 1)] else Row(f1, f2, i, j - 1)
  }

  /** The nested loops over the lines before i and all lines of the second file. */
  ghost function Nested(f1: seq<int>, f2: seq<int>, i: nat): seq<Item>
    requires i <= |f1|
  {
    if i == 0 then [] else Nested(f1, f2, i - 1) + Row(f1, f2, i - 1, |f2|)
  }

  ghost predicate Has(f: seq<int>, key: int) {
    exists k :: 0 <= k < |f| && f[k] == key
  }

  ghost function Lone1(f1: seq<int>, f2: seq<int>, i: nat): seq<Item>
    requires i <= |f1|
  {
    if i == 0 then [] else if Has(f2, f1[i - 1]) then Lone1(f1, f2, i - 1) else Lone1(f1, f2, i - 1) + [First(i - 1)]
  }

  ghost function Lone2(f1: seq<int>, f2: seq<int>, j: nat): seq<Item>
    requires j <= |f2|
  {
    if j == 0 then [] else if Has(f1, f2[j - 1]) then Lone2(f1, f2, j - 1) else Lone2(f1, f2, j - 1) + [Second(j - 1)]
  }

  /** The items of one kind, in order. */
  ghost function Pairs(out: seq<Item>): seq<Item> {
    if out == [] then [] else
      var r := Pairs(out[..|out| - 1]);
      if out[|out| - 1].Pair? then r + [out[|out| - 1]] else r
  }

  ghost function Firsts(out: seq<Item>): seq<Item> {
    if out == [] then [] else
      var r := Firsts(out[..|out| - 1]);
      if out[|out| - 1].First? then r + [out[|out| - 1]] else r
  }

  ghost function Seconds(out: seq<Item>): seq<Item> {
    if out == [] then [] else
      var r := Seconds(out[..|out| - 1]);
      if out[|out| - 1].Second? then r + [out[|out| - 1]] else r
  }

  /** All pairs with lines before i and, for line i, with lines before j; the lone lines before i and c if asked for. */
  ghost predicate Printed(f1: seq<int>, f2: seq<int>, aflg1: bool, aflg2: bool, i: nat, j: nat, c: nat,
                          out: seq<Item>) {
    && i <= |f1| && j <= |f2| && c <= |f2|
    && Pairs(out) == Nested(f1, f2, i) + (if i < |f1| then Row(f1, f2, i, j) else [])
    && Firsts(out) == (if aflg1 then Lone1(f1, f2, i) else [])
    && Seconds(out) == (if aflg2 then Lone2(f1, f2, c) else [])
  }

  // ---------------------------------------------------------------- the order of all that is printed

  ghost function Key(f1: seq<int>, f2: seq<int>, x: Item): int {
    match x
    case Pair(i, _) => if i < |f1| then f1[i] else 0
    case First(i) => if i < |f1| then f1[i] else 0
    case Second(j) => if j < |f2| then f2[j] else 0
  }

  ghost predicate InOrder(f1: seq<int>, f2: seq<int>, out: seq<Item>) {
    forall x, y | 0 <= x <= y < |out| :: Key(f1, f2, out[x]) <= Key(f1, f2, out[y])
  }

  /** In order, with no key above this one. */
  ghost predicate UpTo(f1: seq<int>, f2: seq<int>, out: seq<Item>, key: int) {
    InOrder(f1, f2, out) && forall x | 0 <= x < |out| :: Key(f1, f2, out[x]) <= key
  }

  /** In order, with no key above those of the lines to come. */
  ghost predicate Ready(f1: seq<int>, f2: seq<int>, out: seq<Item>, i: nat, c: nat) {
    InOrder(f1, f2, out) && (i < |f1| ==> UpTo(f1, f2, out, f1[i])) && (c < |f2| ==> UpTo(f1, f2, out, f2[c]))
  }

  lemma {:induction false} PutInOrder(f1: seq<int>, f2: seq<int>, out: seq<Item>, key: int, x: Item)
    requires UpTo(f1, f2, out, key) && Key(f1, f2, x) == key
    ensures UpTo(f1, f2, out + [x], key)
  {
  }

  /** What is printed up to some key is in order with what comes after it. */
  lemma {:induction false} StillReady(f1: seq<int>, f2: seq<int>, out: seq<Item>, key: int, i: nat, c: nat)
    requires UpTo(f1, f2, out, key) && (i < |f1| ==> key <= f1[i]) && (c < |f2| ==> key <= f2[c])
    ensures Ready(f1, f2, out, i, c)
  {
  }

  // ---------------------------------------------------------------- laws

  lemma {:induction false} Put(out: seq<Item>, x: Item)
    ensures Pairs(out + [x]) == if x.Pair? then Pairs(out) + [x] else Pairs(out)
    ensures Firsts(out + [x]) == if x.First? then Firsts(out) + [x] else Firsts(out)
    ensures Seconds(out + [x]) == if x.Second? then Seconds(out) + [x] else Seconds(out)
  {
    assert (out + [x])[..|out|] == out;
  }

  lemma {:induction false} RowSame(f1: seq<int>, f2: seq<int>, i: nat, j: nat, k: nat)
    requires i < |f1| && j <= k <= |f2| && forall m | j <= m < k :: f1[i] != f2[m]
    ensures Row(f1, f2, i, j) == Row(f1, f2, i, k)
  {
    if j < k {
      RowSame(f1, f2, i, j, k - 1);
    }
  }

  lemma {:induction false} NestedSame(f1: seq<int>, f2: seq<int>, i: nat, k: nat)
    requires i <= k <= |f1| && forall m, j | i <= m < k && 0 <= j < |f2| :: f1[m] != f2[j]
    ensures Nested(f1, f2, i) == Nested(f1, f2, k)
  {
    if i < k {
      NestedSame(f1, f2, i, k - 1);
      RowSame(f1, f2, k - 1, 0, |f2|);
    }
  }

  /** Every line from c to e has a partner. */
  lemma {:induction false} Lone2Same(f1: seq<int>, f2: seq<int>, c: nat, e: nat)
    requires c <= e <= |f2| && forall j | c <= j < e :: Has(f1, f2[j])
    ensures Lone2(f1, f2, c) == Lone2(f1, f2, e)
  {
    if c < e {
      Lone2Same(f1, f2, c, e - 1);
    }
  }

  // ---------------------------------------------------------------- the loops

  /** Lines i and c are the current ones, and all lines before them are done with. */
  ghost predicate Front(f1: seq<int>, f2: seq<int>, i: nat, c: nat) {
    && i <= |f1| && c <= |f2|
    && (forall m, j | 0 <= m < i && c <= j < |f2| :: f1[m] < f2[j])
    && (forall m, j | i <= m < |f1| && 0 <= j < c :: f2[j] < f1[m])
  }

  /** Lines b to e of the second file have the same key, and only they. */
  ghost predicate Group(f2: seq<int>, key: int, b: nat, e: nat) {
    && b < e <= |f2|
    && (forall j | 0 <= j < b :: f2[j] < key) && (forall j | b <= j < e :: f2[j] == key)
    && (forall j | e <= j < |f2| :: key < f2[j])
  }

  lemma {:induction false} Skip2(f1: seq<int>, f2: seq<int>, aflg1: bool, aflg2: bool, i: nat, c: nat, out: seq<Item>,
                                 next: nat, more: seq<Item>)
    requires Ascending(f1) && Ascending(f2) && Front(f1, f2, i, c) && c < |f2| && (i < |f1| ==> f1[i] > f2[c])
    requires Printed(f1, f2, aflg1, aflg2, i, 0, c, out)
    requires next == c + 1 && more == if aflg2 then out + [Second(c)] else out
    ensures Front(f1, f2, i, next) && Printed(f1, f2, aflg1, aflg2, i, 0, next, more)
  {
    Put(out, Second(c));
    assert !Has(f1, f2[c]);
  }

  lemma {:induction false} Skip1(f1: seq<int>, f2: seq<int>, aflg1: bool, aflg2: bool, i: nat, c: nat, out: seq<Item>,
                                 next: nat, more: seq<Item>)
    requires Ascending(f1) && Ascending(f2) && Front(f1, f2, i, c) && i < |f1| && (c < |f2| ==> f1[i] < f2[c])
    requires Printed(f1, f2, aflg1, aflg2, i, 0, c, out)
    requires next == i + 1 && more == if aflg1 then out + [First(i)] else out
    ensures Front(f1, f2, next, c) && Printed(f1, f2, aflg1, aflg2, next, 0, c, more)
  {
    Put(out, First(i));
    assert !Has(f2, f1[i]);
    RowSame(f1, f2, i, 0, |f2|);
    assert Nested(f1, f2, next) == Nested(f1, f2, i) by {
      assert Row(f1, f2, i, |f2|) == [];
    }
  }

  /** Line i has met the whole group. */
  lemma {:induction false} RowDone(f1: seq<int>, f2: seq<int>, aflg1: bool, aflg2: bool, i: nat, b: nat, e: nat, c: nat,
                                   out: seq<Item>)
    requires i < |f1| && Group(f2, f1[i], b, e) && Printed(f1, f2, aflg1, aflg2, i, e, c, out)
    ensures Printed(f1, f2, aflg1, aflg2, i + 1, 0, c, out)
  {
    RowSame(f1, f2, i, e, |f2|);
    assert f2[b] == f1[i];
  }

  /** Line i meets the next line of the group. */
  lemma {:induction false} Meet(f1: seq<int>, f2: seq<int>, aflg1: bool, aflg2: bool, i: nat, j: nat, c: nat,
                                out: seq<Item>)
    requires i < |f1| && j < |f2| && f1[i] == f2[j] && Printed(f1, f2, aflg1, aflg2, i, j, c, out)
    ensures Printed(f1, f2, aflg1, aflg2, i, j + 1, c, out + [Pair(i, j)])
  {
    Put(out, Pair(i, j));
  }

  /** Before the group there is nothing for line i to meet. */
  lemma {:induction false} AtGroup(f1: seq<int>, f2: seq<int>, aflg1: bool, aflg2: bool, i: nat, key: int, b: nat,
                                   e: nat, j: nat, k: nat, c: nat, out: seq<Item>)
    requires Group(f2, key, b, e) && (i < |f1| ==> key <= f1[i]) && ((j == 0 && k == b) || (j == b && k == 0))
    requires Printed(f1, f2, aflg1, aflg2, i, j, c, out)
    ensures Printed(f1, f2, aflg1, aflg2, i, k, c, out)
  {
    if i < |f1| {
      RowSame(f1, f2, i, 0, b);
    }
  }

  /** The first line with the key of the group meets all of it; the position after it is `top2`. */
  method FirstPass(f1: seq<int>, f2: seq<int>, ghost aflg1: bool, ghost aflg2: bool, i: nat, bot2: nat, out0: seq<Item>)
    returns (top2: nat, out: seq<Item>)
    requires Ascending(f1) && Ascending(f2) && Front(f1, f2, i, bot2) && i < |f1| && bot2 < |f2| && f1[i] == f2[bot2]
    requires Printed(f1, f2, aflg1, aflg2, i, 0, bot2, out0) && UpTo(f1, f2, out0, f1[i])
    ensures Group(f2, f1[i], bot2, top2) && Printed(f1, f2, aflg1, aflg2, i + 1, 0, bot2, out)
    ensures UpTo(f1, f2, out, f1[i])
  {
    var n2: nat := bot2;
    out := out0;
    RowSame(f1, f2, i, 0, bot2);
    top2 := bot2;
    while n2 < |f2| && f1[i] == f2[n2]
      invariant bot2 <= n2 && top2 == n2 && Meeting(f1, f2, aflg1, aflg2, i, bot2, n2, out)
      decreases |f2| - n2
    {
      ghost var last, was := n2, out;
      out := out + [Pair(i, n2)];
      n2 := n2 + 1;
      MeetNext(f1, f2, aflg1, aflg2, i, bot2, last, was, n2, out);
      top2 := n2;
    }
    IsGroup(f1, f2, i, bot2, top2);
    RowDone(f1, f2, aflg1, aflg2, i, bot2, top2, bot2, out);
  }

  /** Line i has met the lines of its key from b up to n2. */
  ghost predicate Meeting(f1: seq<int>, f2: seq<int>, aflg1: bool, aflg2: bool, i: nat, b: nat, n2: nat,
                          out: seq<Item>) {
    && SameKey(f1, f2, i, b, n2) && Printed(f1, f2, aflg1, aflg2, i, n2, b, out) && UpTo(f1, f2, out, f1[i])
  }

  lemma {:induction false} MeetNext(f1: seq<int>, f2: seq<int>, aflg1: bool, aflg2: bool, i: nat, b: nat, n2: nat,
                                    out: seq<Item>, next: nat, more: seq<Item>)
    requires Meeting(f1, f2, aflg1, aflg2, i, b, n2, out) && n2 < |f2| && f1[i] == f2[n2]
    requires next == n2 + 1 && more == out + [Pair(i, n2)]
    ensures Meeting(f1, f2, aflg1, aflg2, i, b, next, more)
  {
    Meet(f1, f2, aflg1, aflg2, i, n2, b, out);
    PutInOrder(f1, f2, out, f1[i], Pair(i, n2));
  }

  ghost predicate SameKey(f1: seq<int>, f2: seq<int>, i: nat, b: nat, e: nat) {
    i < |f1| && e <= |f2| && forall j | b <= j < e :: f2[j] == f1[i]
  }

  lemma {:induction false} IsGroup(f1: seq<int>, f2: seq<int>, i: nat, b: nat, e: nat)
    requires Ascending(f2) && Front(f1, f2, i, b) && b < |f2| && SameKey(f1, f2, i, b, e) && f1[i] == f2[b]
    requires b <= e && (e < |f2| ==> f1[i] != f2[e])
    ensures Group(f2, f1[i], b, e)
  {
  }

  /** Each further line with that key meets the group from `bot2` again; then the second file goes on at `top2`. */
  method FurtherPasses(f1: seq<int>, f2: seq<int>, ghost aflg1: bool, ghost aflg2: bool, ghost key: int, i0: nat,
                       bot2: nat, top2: nat, out0: seq<Item>)
    returns (i: nat, out: seq<Item>)
    requires Ascending(f1) && Group(f2, key, bot2, top2) && 0 < i0 <= |f1| && f1[i0 - 1] == key
    requires Printed(f1, f2, aflg1, aflg2, i0, 0, bot2, out0) && UpTo(f1, f2, out0, key)
    ensures i0 <= i <= |f1| && Printed(f1, f2, aflg1, aflg2, i, 0, top2, out) && Front(f1, f2, i, top2)
    ensures UpTo(f1, f2, out, key)
  {
    i, out := i0, out0;
    var n2: nat := bot2;
    AtGroup(f1, f2, aflg1, aflg2, i, key, bot2, top2, 0, bot2, bot2, out);
    while true
      invariant i0 <= i && Passing(f1, f2, aflg1, aflg2, key, bot2, top2, i, n2, out) && UpTo(f1, f2, out, key)
      decreases |f1| - i, top2 - n2
    {
      if i < |f1| && n2 < |f2| && f1[i] == f2[n2] {
        ghost var was, last := out, n2;
        out := out + [Pair(i, n2)];
        n2 := n2 + 1;
        PassMeet(f1, f2, aflg1, aflg2, key, bot2, top2, i, last, was, n2, out);
        PutInOrder(f1, f2, was, key, Pair(i, last));
      } else if (i < |f1| && n2 < |f2| && f1[i] < f2[n2]) || n2 == |f2| {
        ghost var was := i;
        i := i + 1;
        PassNext(f1, f2, aflg1, aflg2, key, bot2, top2, was, n2, out, i);
        n2 := bot2;
      } else {
        PassOver(f1, f2, aflg1, aflg2, key, bot2, top2, i, n2, out);
        return;
      }
    }
  }

  /** Line i has met the group up to n2, and the line before it has the key of the group. */
  ghost predicate Passing(f1: seq<int>, f2: seq<int>, aflg1: bool, aflg2: bool, key: int, b: nat, e: nat, i: nat,
                          n2: nat, out: seq<Item>) {
    && Ascending(f1) && Group(f2, key, b, e) && 0 < i <= |f1| && b <= n2 <= e && f1[i - 1] == key
    && (n2 > b ==> i < |f1| && f1[i] == key)
    && Printed(f1, f2, aflg1, aflg2, i, n2, b, out)
  }

  lemma {:induction false} PassMeet(f1: seq<int>, f2: seq<int>, aflg1: bool, aflg2: bool, key: int, b: nat, e: nat,
                                    i: nat, n2: nat, out: seq<Item>, next: nat, more: seq<Item>)
    requires Passing(f1, f2, aflg1, aflg2, key, b, e, i, n2, out) && i < |f1| && n2 < |f2| && f1[i] == f2[n2]
    requires next == n2 + 1 && more == out + [Pair(i, n2)]
    ensures n2 < e && f1[i] == key && Passing(f1, f2, aflg1, aflg2, key, b, e, i, next, more)
  {
    Meet(f1, f2, aflg1, aflg2, i, n2, b, out);
  }

  lemma {:induction false} PassNext(f1: seq<int>, f2: seq<int>, aflg1: bool, aflg2: bool, key: int, b: nat, e: nat,
                                    i: nat, n2: nat, out: seq<Item>, next: nat)
    requires Passing(f1, f2, aflg1, aflg2, key, b, e, i, n2, out) && next == i + 1
    requires (i < |f1| && n2 < |f2| && f1[i] < f2[n2]) || n2 == |f2|
    ensures i < |f1| && Passing(f1, f2, aflg1, aflg2, key, b, e, next, b, out)
  {
    assert n2 == e && f1[i] == key;
    RowDone(f1, f2, aflg1, aflg2, i, b, e, b, out);
    AtGroup(f1, f2, aflg1, aflg2, next, key, b, e, 0, b, b, out);
  }

  lemma {:induction false} PassOver(f1: seq<int>, f2: seq<int>, aflg1: bool, aflg2: bool, key: int, b: nat, e: nat,
                                    i: nat, n2: nat, out: seq<Item>)
    requires Passing(f1, f2, aflg1, aflg2, key, b, e, i, n2, out)
    requires n2 < |f2| && (i < |f1| ==> f1[i] > f2[n2])
    ensures Front(f1, f2, i, e) && Printed(f1, f2, aflg1, aflg2, i, 0, e, out)
  {
    GroupDone(f1, f2, aflg1, aflg2, i, key, b, e, out);
  }

  lemma {:induction false} GroupDone(f1: seq<int>, f2: seq<int>, aflg1: bool, aflg2: bool, i: nat, key: int, b: nat,
                                     e: nat, out: seq<Item>)
    requires Ascending(f1) && Group(f2, key, b, e) && 0 < i <= |f1| && f1[i - 1] == key && (i < |f1| ==> key < f1[i])
    requires Printed(f1, f2, aflg1, aflg2, i, b, b, out)
    ensures Front(f1, f2, i, e) && Printed(f1, f2, aflg1, aflg2, i, 0, e, out)
  {
    AtGroup(f1, f2, aflg1, aflg2, i, key, b, e, b, 0, b, out);
    forall j | b <= j < e ensures Has(f1, f2[j]) {
      assert f1[i - 1] == f2[j];
    }
    Lone2Same(f1, f2, b, e);
  }

  /** At the head of the main loop. */
  ghost predicate AtHead(f1: seq<int>, f2: seq<int>, aflg1: bool, aflg2: bool, i: nat, c: nat, out: seq<Item>) {
    Front(f1, f2, i, c) && Printed(f1, f2, aflg1, aflg2, i, 0, c, out) && Ready(f1, f2, out, i, c)
  }

  /** For files in order: the pairs printed are those of the nested loops in their order, and with `-a` the lone lines
      of either file are printed, each once and in order; and all of it in the order of the keys. */
  method JoinFiles(f1: seq<int>, f2: seq<int>, aflg1: bool, aflg2: bool) returns (out: seq<Item>)
    requires Ascending(f1) && Ascending(f2)
    ensures Pairs(out) == Nested(f1, f2, |f1|)
    ensures Firsts(out) == if aflg1 then Lone1(f1, f2, |f1|) else []
    ensures Seconds(out) == if aflg2 then Lone2(f1, f2, |f2|) else []
    ensures InOrder(f1, f2, out)
  {
    out := [];
    var n1: nat, bot2: nat := 0, 0;
    while (n1 < |f1| && bot2 < |f2|) || ((aflg1 || aflg2) && (n1 < |f1| || bot2 < |f2|))
      invariant AtHead(f1, f2, aflg1, aflg2, n1, bot2, out)
      decreases |f1| - n1, |f2| - bot2
    {
      n1, bot2, out := JoinStep(f1, f2, aflg1, aflg2, n1, bot2, out);
    }
    AllPrinted(f1, f2, aflg1, aflg2, n1, bot2, out);
    assert InOrder(f1, f2, out);
  }

  /** One round of the main loop, at whose head `bot2` is the position of the current line of the second file. */
  method JoinStep(f1: seq<int>, f2: seq<int>, aflg1: bool, aflg2: bool, i0: nat, b0: nat, out0: seq<Item>)
    returns (n1: nat, bot2: nat, out: seq<Item>)
    requires Ascending(f1) && Ascending(f2) && AtHead(f1, f2, aflg1, aflg2, i0, b0, out0)
    requires i0 < |f1| || b0 < |f2|
    ensures AtHead(f1, f2, aflg1, aflg2, n1, bot2, out)
    ensures n1 > i0 || (n1 == i0 && bot2 > b0)
  {
    n1, bot2, out := i0, b0, out0;
    var n2 := bot2;
    if (n1 < |f1| && n2 < |f2| && f1[n1] > f2[n2]) || n1 == |f1| {
      if aflg2 {
        out := out + [Second(n2)];
      }
      bot2 := n2 + 1;
      Skip2(f1, f2, aflg1, aflg2, i0, b0, out0, bot2, out);
      PutInOrder(f1, f2, out0, f2[b0], Second(b0));
      StillReady(f1, f2, out, f2[b0], n1, bot2);
    } else if (n1 < |f1| && n2 < |f2| && f1[n1] < f2[n2]) || n2 == |f2| {
      if aflg1 {
        out := out + [First(n1)];
      }
      n1 := n1 + 1;
      Skip1(f1, f2, aflg1, aflg2, i0, b0, out0, n1, out);
      PutInOrder(f1, f2, out0, f1[i0], First(i0));
      StillReady(f1, f2, out, f1[i0], n1, bot2);
    } else {
      n1, bot2, out := GroupStep(f1, f2, aflg1, aflg2, n1, bot2, out);
    }
  }

  /** All lines of one key. */
  method GroupStep(f1: seq<int>, f2: seq<int>, ghost aflg1: bool, ghost aflg2: bool, i: nat, b: nat, out0: seq<Item>)
    returns (n1: nat, bot2: nat, out: seq<Item>)
    requires Ascending(f1) && Ascending(f2) && Front(f1, f2, i, b) && i < |f1| && b < |f2| && f1[i] == f2[b]
    requires Printed(f1, f2, aflg1, aflg2, i, 0, b, out0) && UpTo(f1, f2, out0, f1[i])
    ensures Front(f1, f2, n1, bot2) && Printed(f1, f2, aflg1, aflg2, n1, 0, bot2, out) && n1 > i
    ensures Ready(f1, f2, out, n1, bot2)
  {
    var top2;
    ghost var key := f1[i];
    top2, out := FirstPass(f1, f2, aflg1, aflg2, i, b, out0);
    n1, out := FurtherPasses(f1, f2, aflg1, aflg2, key, i + 1, b, top2, out);
    bot2 := top2;
    StillReady(f1, f2, out, key, n1, bot2);
  }

  lemma {:induction false} AllPrinted(f1: seq<int>, f2: seq<int>, aflg1: bool, aflg2: bool, i: nat, c: nat,
                                      out: seq<Item>)
    requires Front(f1, f2, i, c) && Printed(f1, f2, aflg1, aflg2, i, 0, c, out)
    requires i == |f1| || c == |f2|
    requires aflg1 || aflg2 ==> i == |f1| && c == |f2|
    ensures Pairs(out) == Nested(f1, f2, |f1|)
    ensures Firsts(out) == if aflg1 then Lone1(f1, f2, |f1|) else []
    ensures Seconds(out) == if aflg2 then Lone2(f1, f2, |f2|) else []
  {
    if i < |f1| {
      NestedSame(f1, f2, i, |f1|);
    }
  }
}
