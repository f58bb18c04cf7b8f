/** The search of look (look.c) for the lines of a sorted file that begin with a key: a binary search over the bytes of
    the file, and a scan from where it ends. */
module Look {

  type Word = seq<char>

  // ---------------------------------------------------------------- comparing

  /** 0 for equal words, -1 when the first is the front of the second, 1 the other way round, and else -2 or 2. */
  ghost function Cmp(s: Word, t: Word): (c: int)
    ensures -2 <= c <= 2
    decreases |s|
  {
    if s == [] then (if t == [] then 0 else -1)
    else if t == [] then 1
    else if s[0] == t[0] then Cmp(s[1..], t[1..])
    else if s[0] < t[0] then -2 else 2
  }

  /** The words are the same up to p and differ there. */
  ghost predicate DiffersAt(s: Word, t: Word, p: int) {
    0 <= p < |s| && p < |t| && s[p] != t[p] && forall k | 0 <= k < p :: s[k] == t[k]
  }

  /** What the comparison tells. */
  lemma {:induction false} CmpTells(s: Word, t: Word)
    ensures Cmp(s, t) == 0 <==> s == t
    ensures Cmp(s, t) == -1 <==> s < t
    ensures Cmp(s, t) == 1 <==> t < s
    ensures Cmp(s, t) == -2 <==> exists p :: DiffersAt(s, t, p) && s[p] < t[p]
    ensures Cmp(s, t) == 2 <==> exists p :: DiffersAt(s, t, p) && t[p] < s[p]
    decreases |s|
  {
    if s != [] && t != [] {
      if s[0] == t[0] {
        var s', t' := s[1..], t[1..];
        CmpTells(s', t');
        assert s == [s[0]] + s' && t == [t[0]] + t';
        forall p ensures DiffersAt(s', t', p) <==> p >= 0 && DiffersAt(s, t, p + 1) {
          if DiffersAt(s', t', p) {
            forall k | 0 <= k < p + 1 ensures s[k] == t[k] {
              assert k > 0 ==> s'[k - 1] == t'[k - 1];
            }
          }
        }
        forall p | DiffersAt(s, t, p) ensures DiffersAt(s', t', p - 1) {
          assert DiffersAt(s, t, p - 1 + 1);
        }
      } else {
        assert DiffersAt(s, t, 0);
      }
    }
  }

  method Compare(s: Word, t: Word) returns (c: int)
    ensures c == Cmp(s, t)
    ensures (c == 0 <==> s == t) && (c == -1 <==> s < t) && (c == 1 <==> t < s)
    ensures c == -2 <==> exists p :: DiffersAt(s, t, p) && s[p] < t[p]
    ensures c == 2 <==> exists p :: DiffersAt(s, t, p) && t[p] < s[p]
  {
    CmpTells(s, t);
    var i: nat := 0;
    assert s[0..] == s && t[0..] == t;
    while i < |s| && i < |t| && s[i] == t[i]
      invariant i <= |s| && i <= |t| && Cmp(s[i..], t[i..]) == Cmp(s, t)
      decreases |s| - i
    {
      assert s[i..][1..] == s[i + 1..] && t[i..][1..] == t[i + 1..];
      i := i + 1;
    }
    if i == |s| {
      return if i == |t| then 0 else -1;
    }
    if i == |t| {
      return 1;
    }
    return if s[i] < t[i] then -2 else 2;
  }

  /** Words before those that begin with the key, these, and words behind. */
  ghost function Place(key: Word, w: Word): nat {
    if Cmp(key, w) > 0 then 0 else if Cmp(key, w) >= -1 then 1 else 2
  }

  lemma {:induction false} PlaceIsFront(key: Word, w: Word)
    ensures Place(key, w) == 1 <==> key <= w
    decreases |key|
  {
    if key != [] && w != [] && key[0] == w[0] {
      PlaceIsFront(key[1..], w[1..]);
      assert key == [key[0]] + key[1..] && w == [w[0]] + w[1..];
    }
  }

  lemma {:induction false} PlaceRises(key: Word, v: Word, w: Word)
    requires Cmp(v, w) <= 0
    ensures Place(key, v) <= Place(key, w)
    decreases |key|
  {
    if key != [] && v != [] && w != [] && v[0] == w[0] {
      if key[0] == v[0] {
        PlaceRises(key[1..], v[1..], w[1..]);
      }
    }
  }

  // ---------------------------------------------------------------- the file

  /** The line stands at position s and ends there with the next newline. */
  ghost predicate LineAt(text: seq<char>, s: nat, line: Word) {
    s + |line| < |text| && text[s + |line|] == '\n' && forall p | s <= p < s + |line| :: text[p] == line[p - s] != '\n'
  }

  /** The file is these lines, one after the other, beginning where starts says. */
  ghost predicate File(text: seq<char>, lines: seq<Word>, starts: seq<nat>) {
    && |starts| == |lines| + 1 && starts[0] == 0 && starts[|lines|] == |text|
    && forall i | 0 <= i < |lines| :: Follows(text, lines, starts, i)
  }

  ghost predicate Follows(text: seq<char>, lines: seq<Word>, starts: seq<nat>, i: nat) {
    && i < |lines| && |starts| == |lines| + 1
    && LineAt(text, starts[i], lines[i]) && starts[i + 1] == starts[i] + |lines[i]| + 1
  }

  lemma {:induction false} StartsRise(text: seq<char>, lines: seq<Word>, starts: seq<nat>, i: nat, j: nat)
    requires File(text, lines, starts) && i <= j <= |lines|
    ensures starts[i] + (j - i) <= starts[j] <= |text|
    decreases |lines| - i
  {
    if i < j {
      assert Follows(text, lines, starts, i);
      StartsRise(text, lines, starts, i + 1, j);
    } else if i < |lines| {
      assert Follows(text, lines, starts, i);
      StartsRise(text, lines, starts, i + 1, |lines|);
    }
  }

  /** `getword` at the beginning of a line, or at the end of the file. */
  method GetWord(text: seq<char>, pos: nat, ghost lines: seq<Word>, ghost starts: seq<nat>, ghost i: nat)
    returns (w: Word, next: nat, ok: bool)
    requires File(text, lines, starts) && i <= |lines| && pos == starts[i]
    ensures ok <==> i < |lines|
    ensures ok ==> w == lines[i] && next == starts[i + 1]
  {
    w, next := [], pos;
    if i < |lines| {
      assert Follows(text, lines, starts, i);
    }
    while next < |text| && text[next] != '\n'
      invariant i == |lines| ==> next == |text| && w == []
      invariant i < |lines| ==> next == pos + |w| && |w| <= |lines[i]| && w == lines[i][..|w|]
      decreases |text| - next
    {
      w := w + [text[next]];
      next := next + 1;
    }
    ok := next < |text|;
    next := next + 1;
  }

  /** The bytes up to the next newline are passed over: the line after the one that byte mid is in. */
  method SkipOn(text: seq<char>, mid0: nat, ghost lines: seq<Word>, ghost starts: seq<nat>, ghost i: nat)
    returns (mid: nat)
    requires File(text, lines, starts) && i < |lines| && starts[i] <= mid0 < starts[i + 1]
    ensures mid == starts[i + 1]
  {
    assert Follows(text, lines, starts, i);
    mid := mid0;
    while text[mid] != '\n'
      invariant starts[i] <= mid < starts[i + 1] <= |text|
      decreases |text| - mid
    {
      mid := mid + 1;
    }
    mid := mid + 1;
  }

  lemma {:induction false} LineOf(text: seq<char>, lines: seq<Word>, starts: seq<nat>, mid: nat, b: nat, t: nat)
    returns (i: nat)
    requires File(text, lines, starts) && b < t <= |lines| && starts[b] <= mid < starts[t]
    ensures b <= i < t && starts[i] <= mid < starts[i + 1]
    decreases t - b
  {
    if mid < starts[b + 1] {
      i := b;
    } else {
      i := LineOf(text, lines, starts, mid, b + 1, t);
    }
  }

  // ---------------------------------------------------------------- the search

  ghost predicate Ordered(canon: Word -> Word, lines: seq<Word>) {
    forall i, j | 0 <= i < j < |lines| :: Cmp(canon(lines[i]), canon(lines[j])) <= 0
  }

  ghost function PlaceOf(canon: Word -> Word, key: Word, line: Word): nat {
    Place(key, canon(line))
  }

  /** The lines before b, and line b unless it is the first, come before the key; line t, if there is one, does not. */
  ghost predicate Bounds(canon: Word -> Word, key: Word, lines: seq<Word>, b: nat, t: nat) {
    && b <= t <= |lines|
    && (b > 0 ==> b < |lines| && PlaceOf(canon, key, lines[b]) == 0)
    && (t < |lines| ==> PlaceOf(canon, key, lines[t]) > 0)
  }

  lemma {:induction false} PlacesRise(canon: Word -> Word, key: Word, lines: seq<Word>, i: nat, j: nat)
    requires Ordered(canon, lines) && i <= j < |lines|
    ensures PlaceOf(canon, key, lines[i]) <= PlaceOf(canon, key, lines[j])
  {
    if i < j {
      PlaceRises(key, canon(lines[i]), canon(lines[j]));
    }
  }

  /** The binary search: it ends with bounds that need not be next to each other. */
  method Narrow(canon: Word -> Word, key: Word, text: seq<char>, ghost lines: seq<Word>, ghost starts: seq<nat>)
    returns (bot: nat, top: nat, ghost b: nat, ghost t: nat)
    requires File(text, lines, starts) && Ordered(canon, lines)
    ensures Bounds(canon, key, lines, b, t) && bot == starts[b] && top == starts[t]
  {
    bot, top, b, t := 0, |text|, 0, |lines|;
    while true
      invariant Bounds(canon, key, lines, b, t) && bot == starts[b] && top == starts[t]
      decreases t - b
    {
      var mid: nat := (top + bot) / 2;
      StartsRise(text, lines, starts, b, t);
      StartsRise(text, lines, starts, t, |lines|);
      if mid >= |text| {
        // nothing is left to read
        return;
      }
      ghost var i := LineOf(text, lines, starts, mid, b, |lines|);
      mid := SkipOn(text, mid, lines, starts, i);
      ghost var j: nat := i + 1;
      var w, next, ok := GetWord(text, mid, lines, starts, j);
      if !ok {
        return;
      }
      var c := Compare(key, canon(w));
      if c <= 0 {
        if top <= mid {
          return;
        }
        StartsRise(text, lines, starts, t, if j > t then j else t);
        top, t := mid, j;
      } else {
        if t < |lines| && t <= j {
          PlacesRise(canon, key, lines, t, j);
        }
        bot, b := mid, j;
      }
    }
  }

  /** The lines from i on that begin with the key. */
  ghost function Matching(canon: Word -> Word, key: Word, lines: seq<Word>, i: nat): seq<Word>
    requires i <= |lines|
    decreases |lines| - i
  {
    if i == |lines| then []
    else if key <= canon(lines[i]) then [lines[i]] + Matching(canon, key, lines, i + 1)
    else Matching(canon, key, lines, i + 1)
  }

  lemma {:induction false} NoneBefore(canon: Word -> Word, key: Word, lines: seq<Word>, i: nat)
    requires Ordered(canon, lines) && i <= |lines| && (i > 0 ==> PlaceOf(canon, key, lines[i - 1]) == 0)
    ensures Matching(canon, key, lines, 0) == Matching(canon, key, lines, i)
    decreases i
  {
    if i > 0 {
      if i > 1 {
        PlacesRise(canon, key, lines, i - 2, i - 1);
      }
      NoneBefore(canon, key, lines, i - 1);
      PlaceIsFront(key, canon(lines[i - 1]));
    }
  }

  lemma {:induction false} NoneAfter(canon: Word -> Word, key: Word, lines: seq<Word>, i: nat)
    requires Ordered(canon, lines) && i <= |lines| && (i < |lines| ==> PlaceOf(canon, key, lines[i]) == 2)
    ensures Matching(canon, key, lines, i) == []
    decreases |lines| - i
  {
    if i < |lines| {
      if i + 1 < |lines| {
        PlacesRise(canon, key, lines, i, i + 1);
      }
      NoneAfter(canon, key, lines, i + 1);
      PlaceIsFront(key, canon(lines[i]));
    }
  }

  /** What has been printed, and what is still to be printed from line i on. */
  ghost predicate SoFar(canon: Word -> Word, key: Word, lines: seq<Word>, out: seq<Word>, i: nat) {
    i <= |lines| && Matching(canon, key, lines, 0) == out + Matching(canon, key, lines, i)
  }

  lemma {:induction false} SoFarDone(canon: Word -> Word, key: Word, lines: seq<Word>, out: seq<Word>, i: nat)
    requires Ordered(canon, lines) && SoFar(canon, key, lines, out, i)
    requires i < |lines| ==> PlaceOf(canon, key, lines[i]) == 2
    ensures out == Matching(canon, key, lines, 0)
  {
    NoneAfter(canon, key, lines, i);
  }

  /** A line that begins with the key, and the next is no less. */
  lemma {:induction false} MatchMore(canon: Word -> Word, key: Word, lines: seq<Word>, out: seq<Word>, i: nat)
    requires Ordered(canon, lines) && i < |lines| && key <= canon(lines[i])
    ensures SoFar(canon, key, lines, out, i) ==> SoFar(canon, key, lines, out + [lines[i]], i + 1)
    ensures AtMatches(canon, key, lines, i + 1)
  {
    PlaceIsFront(key, canon(lines[i]));
    if i + 1 < |lines| {
      PlacesRise(canon, key, lines, i, i + 1);
    }
  }

  /** From the lower bound on: lines before the key are passed over, and the first that is not ends this loop. */
  method Approach(canon: Word -> Word, key: Word, text: seq<char>, bot: nat, top: nat, ghost lines: seq<Word>,
                  ghost starts: seq<nat>, ghost b: nat, ghost t: nat)
    returns (out: seq<Word>, pos: nat, done: bool, ghost i: nat)
    requires File(text, lines, starts) && Ordered(canon, lines) && Bounds(canon, key, lines, b, t)
    requires bot == starts[b] && top == starts[t]
    ensures i <= |lines| && (!done ==> pos == starts[i] && AtMatches(canon, key, lines, i))
    ensures if done then out == Matching(canon, key, lines, 0) else SoFar(canon, key, lines, out, i)
  {
    out, pos, done, i := [], bot, false, b;
    StartBefore(canon, key, lines, b, t);
    while pos < top
      invariant b <= i <= t && pos == starts[i] && out == []
      invariant i > b ==> PlaceOf(canon, key, lines[i - 1]) == 0
      invariant Matching(canon, key, lines, 0) == Matching(canon, key, lines, i)
      decreases t - i
    {
      StartsRise(text, lines, starts, i, t);
      var w, next, ok := GetWord(text, pos, lines, starts, i);
      if !ok {
        return [], pos, true, i;
      }
      var c := Compare(key, canon(w));
      PlaceIsFront(key, canon(lines[i]));
      if c == -2 {
        NoneAfter(canon, key, lines, i);
        return [], pos, true, i;
      } else if c <= 0 {
        MatchMore(canon, key, lines, [], i);
        out, pos, i := out + [w], next, i + 1;
        return;
      }
      pos, i := next, i + 1;
    }
    StartsRise(text, lines, starts, i, t);
  }

  /** The next line, if there is one, does not come before the key. */
  ghost predicate AtMatches(canon: Word -> Word, key: Word, lines: seq<Word>, i: nat) {
    i < |lines| ==> PlaceOf(canon, key, lines[i]) > 0
  }

  lemma {:induction false} StartBefore(canon: Word -> Word, key: Word, lines: seq<Word>, b: nat, t: nat)
    requires Ordered(canon, lines) && Bounds(canon, key, lines, b, t)
    ensures Matching(canon, key, lines, 0) == Matching(canon, key, lines, b)
  {
    if b > 0 {
      PlacesRise(canon, key, lines, b - 1, b);
      NoneBefore(canon, key, lines, b);
    }
  }

  /** All lines of a sorted file that begin with the key, in order, and no others. */
  method Search(canon: Word -> Word, key: Word, text: seq<char>, ghost lines: seq<Word>, ghost starts: seq<nat>)
    returns (out: seq<Word>)
    requires File(text, lines, starts) && Ordered(canon, lines)
    ensures out == Matching(canon, key, lines, 0)
  {
    var bot, top, pos, done;
    ghost var b, t, i;
    bot, top, b, t := Narrow(canon, key, text, lines, starts);
    out, pos, done, i := Approach(canon, key, text, bot, top, lines, starts, b, t);
    if done {
      return;
    }
    while true
      invariant i <= |lines| && pos == starts[i] && AtMatches(canon, key, lines, i)
      invariant SoFar(canon, key, lines, out, i)
      decreases |lines| - i
    {
      var w, next, ok := GetWord(text, pos, lines, starts, i);
      if !ok {
        SoFarDone(canon, key, lines, out, i);
        return;
      }
      var c := Compare(key, canon(w));
      PlaceIsFront(key, canon(lines[i]));
      if c == -1 || c == 0 {
        MatchMore(canon, key, lines, out, i);
        out, pos, i := out + [w], next, i + 1;
      } else {
        SoFarDone(canon, key, lines, out, i);
        return;
      }
    }
  }
}
