/** `compile` (grep.c): the pattern, read one character at a time, becomes byte code in which a star is patched
    into the element before it. */
module GrepCompile {
  import opened Arithmetic
  import opened GrepMatch
  import opened GrepSyntax
  import opened GrepParse
  import opened GrepSpell
  import opened Grep

  const ESIZE: int := 256

  // ---------------------------------------------------------------- bits

  /** The byte with bit k set. */
  function OrBit(b: int, k: nat): int
    decreases k
  {
    if k == 0 then b / 2 * 2 + 1 else b % 2 + 2 * OrBit(b / 2, k - 1)
  }

  lemma {:induction false} OrBitRange(b: int, n: nat, k: nat)
    requires 0 <= b < Two(n) && k < n
    ensures 0 <= OrBit(b, k) < Two(n)
  {
    if k > 0 {
      OrBitRange(b / 2, n - 1, k - 1);
    }
  }

  lemma {:induction false} OrBitHas(b: int, k: nat, j: nat)
    ensures HasBit(OrBit(b, k), j) <==> HasBit(b, j) || j == k
    decreases k
  {
    if k > 0 {
      Halves(b % 2, OrBit(b / 2, k - 1));
      if j > 0 {
        OrBitHas(b / 2, k - 1, j - 1);
      }
    } else {
      Halves(1, b / 2);
    }
  }

  lemma {:induction false} Halves(r: int, h: int)
    requires 0 <= r < 2
    ensures (r + 2 * h) % 2 == r && (r + 2 * h) / 2 == h && (2 * h + r) % 2 == r && (2 * h + r) / 2 == h
  {
  }

  /** All n bits flipped. */
  lemma {:induction false} Flip(b: int, n: nat, j: nat)
    requires 0 <= b < Two(n) && j < n
    ensures HasBit(Two(n) - 1 - b, j) <==> !HasBit(b, j)
  {
    FlipHalf(Two(n - 1), b);
    if j > 0 {
      Flip(b / 2, n - 1, j - 1);
    }
  }

  lemma {:induction false} FlipHalf(t: int, b: int)
    ensures (2 * t - 1 - b) / 2 == t - 1 - b / 2 && (2 * t - 1 - b) % 2 == 1 - b % 2
  {
  }

  lemma {:induction false} ClearFirst(b: int, j: nat)
    ensures HasBit(b - b % 2, j) <==> HasBit(b, j) && j > 0
  {
  }

  lemma {:induction false} NoBits(j: nat)
    ensures !HasBit(0, j)
  {
    if j > 0 {
      NoBits(j - 1);
    }
  }

  // ---------------------------------------------------------------- building a class

  /** Sixteen bytes that hold just these characters. */
  ghost predicate MapIs(map_: seq<int>, chars: set<int>) {
    && |map_| == 16 && (forall k | 0 <= k < 16 :: 0 <= map_[k] < Two(8))
    && forall x | 0 <= x < 128 :: InMap(map_, 0, x) <==> x in chars
  }

  method SetChar(map0: seq<int>, c: int, ghost chars: set<int>) returns (map_: seq<int>)
    requires MapIs(map0, chars) && 0 <= c < 128
    ensures MapIs(map_, chars + {c})
  {
    var b := map0[c / 8];
    OrBitRange(b, 8, c % 8);
    map_ := map0[c / 8 := OrBit(b, c % 8)];
    forall x | 0 <= x < 128 ensures InMap(map_, 0, x) <==> InMap(map0, 0, x) || x == c {
      OrBitHas(b, c % 8, x % 8);
    }
  }

  /** The inner loop of a range: all characters up to the last one, and then that one, or the first if there is none. */
  method SetRange(map0: seq<int>, lo: int, hi: int, ghost chars: set<int>) returns (map_: seq<int>)
    requires MapIs(map0, chars) && 0 <= lo < 128 && 0 <= hi < 128
    ensures MapIs(map_, chars + Range(lo, hi) + {lo})
  {
    map_ := map0;
    var c := lo;
    ghost var more := chars;
    while c < hi
      invariant lo <= c && (c <= hi || c == lo) && MapIs(map_, more) && more == chars + Range(lo, c - 1)
    {
      map_ := SetChar(map_, c, more);
      OneMore(chars, lo, c);
      more := more + {c};
      c := c + 1;
    }
    map_ := SetChar(map_, c, more);
    LastOne(chars, lo, hi, c);
  }

  lemma {:induction false} OneMore(chars: set<int>, lo: int, c: int)
    requires lo <= c
    ensures chars + Range(lo, c - 1) + {c} == chars + Range(lo, c)
  {
  }

  lemma {:induction false} LastOne(chars: set<int>, lo: int, hi: int, c: int)
    requires if lo < hi then c == hi else c == lo
    ensures chars + Range(lo, c - 1) + {c} == chars + Range(lo, hi) + {lo}
  {
  }

  /** The negated class: every bit flipped, and the end of the line taken out. */
  method Negate(map0: seq<int>, ghost chars: set<int>) returns (map_: seq<int>)
    requires MapIs(map0, chars)
    ensures MapIs(map_, Range(1, 127) - chars)
  {
    map_ := map0;
    var cclcnt := 0;
    while cclcnt < 16
      invariant 0 <= cclcnt <= 16 && |map_| == 16
      invariant forall k | 0 <= k < 16 :: map_[k] == if k < cclcnt then Two(8) - 1 - map0[k] else map0[k]
    {
      Two8();
      map_ := map_[cclcnt := 255 - map_[cclcnt]];
      cclcnt := cclcnt + 1;
    }
    ghost var flipped := map_;
    map_ := map_[0 := map_[0] - map_[0] % 2];
    Negated(map0, flipped, map_, chars);
  }

  lemma {:induction false} Negated(map0: seq<int>, flipped: seq<int>, map_: seq<int>, chars: set<int>)
    requires MapIs(map0, chars) && |flipped| == 16 && map_ == flipped[0 := flipped[0] - flipped[0] % 2]
    requires forall k | 0 <= k < 16 :: flipped[k] == Two(8) - 1 - map0[k]
    ensures MapIs(map_, Range(1, 127) - chars)
  {
    forall x | 0 <= x < 128 ensures InMap(map_, 0, x) <==> x in Range(1, 127) - chars {
      Flip(map0[x / 8], 8, x % 8);
      ClearFirst(flipped[0], x % 8);
      assert InMap(map0, 0, x) <==> x in chars;
    }
  }

  lemma {:induction false} Two8()
    ensures Two(8) == 256
  {
    assert Two(4) == 16 && Two(8) == 2 * Two(7) && Two(7) == 2 * Two(6) && Two(6) == 2 * Two(5) && Two(5) == 2 * Two(4);
  }

  lemma {:induction false} EmptyMap(map_: seq<int>)
    requires |map_| == 16 && forall k | 0 <= k < 16 :: map_[k] == 0
    ensures MapIs(map_, {})
  {
    forall x | 0 <= x < 128 ensures !InMap(map_, 0, x) {
      NoBits(x % 8);
    }
  }

  /** One character or range. */
  method Member(s: seq<int>, first: nat, i: nat, map0: seq<int>, ghost chars0: set<int>)
    returns (map_: seq<int>, next: nat, ghost chars: set<int>)
    requires IsPattern(s) && first <= i < |s| && MapIs(map0, chars0) && (IsRange(s, i, first) ==> i + 1 < |s|)
    ensures MapIs(map_, chars) && next == if IsRange(s, i, first) then i + 2 else i + 1
    ensures chars == if IsRange(s, i, first) then chars0 + Range(s[i - 1], s[i + 1]) + {s[i - 1]} else chars0 + {s[i]}
  {
    if IsRange(s, i, first) {
      map_ := SetRange(map0, s[i - 1], s[i + 1], chars0);
      chars := chars0 + Range(s[i - 1], s[i + 1]) + {s[i - 1]};
      next := i + 2;
    } else {
      map_ := SetChar(map0, s[i], chars0);
      chars := chars0 + {s[i]};
      next := i + 1;
    }
  }

  /** The members of a class, up to the closing bracket. */
  method Members(s: seq<int>, first: nat)
    returns (ok: bool, over: bool, map_: seq<int>, next: nat, ghost chars: set<int>)
    requires IsPattern(s)
    ensures ok <==> ClassFrom(s, first, first, {}).ClassEnd?
    ensures over <==> ClassFrom(s, first, first, {}).ClassOver?
    ensures ok ==> MapIs(map_, chars) && ClassFrom(s, first, first, {}) == ClassEnd(chars, next) && first < next <= |s|
  {
    map_ := seq(16, _ => 0);
    EmptyMap(map_);
    chars := {};
    var i: nat := first;
    while true
      invariant first <= i && MapIs(map_, chars) && ClassFrom(s, first, first, {}) == ClassFrom(s, i, first, chars)
      decreases |s| - i
    {
      if i >= |s| {
        return false, false, map_, 0, chars;
      }
      if IsRange(s, i, first) && i + 1 >= |s| {
        return false, true, map_, 0, chars;
      }
      map_, next, chars := Member(s, first, i, map_, chars);
      if next < |s| && s[next] == ']' as int {
        return true, false, map_, next + 1, chars;
      }
      i := next;
    }
  }

  /** A class after its opening bracket. */
  method ReadClass(s: seq<int>, i: nat)
    returns (ok: bool, over: bool, map_: seq<int>, next: nat, ghost chars: set<int>)
    requires IsPattern(s)
    ensures ok <==> ClassOf(s, i).ClassEnd?
    ensures over <==> ClassOf(s, i).ClassOver?
    ensures ok ==> MapIs(map_, chars) && ClassOf(s, i) == ClassEnd(chars, next) && i < next <= |s| && 0 !in chars
  {
    if i < |s| && s[i] == '^' as int {
      ok, over, map_, next, chars := Members(s, i + 1);
      if ok {
        map_ := Negate(map_, chars);
        chars := Range(1, 127) - chars;
      }
    } else {
      NoEndInClass(s, i, i, {});
      ok, over, map_, next, chars := Members(s, i);
    }
  }

  lemma {:induction false} NoEndInClass(s: seq<int>, i: nat, first: nat, acc: set<int>)
    requires IsPattern(s) && first <= i && 0 !in acc
    ensures ClassFrom(s, i, first, acc).ClassEnd? ==> 0 !in ClassFrom(s, i, first, acc).chars
    decreases |s| - i
  {
    if i < |s| && !(IsRange(s, i, first) && i + 1 >= |s|) {
      var next := if IsRange(s, i, first) then i + 2 else i + 1;
      var more := if IsRange(s, i, first) then acc + Range(s[i - 1], s[i + 1]) + {s[i - 1]} else acc + {s[i]};
      assert 0 !in more;
      NoEndInClass(s, next, first, more);
    }
  }

  // ---------------------------------------------------------------- emitting code

  /** The code is that of the items, and nothing more. */
  ghost predicate CodeIs(code: seq<int>, items: seq<Item>) {
    |code| == Off(items, |items|) && forall i {:trigger Placed(code, items, i)} | 0 <= i < |items| ::
        Placed(code, items, i)
  }

  lemma {:induction false} ItemAtMoved(code: seq<int>, at: nat, code': seq<int>, at': nat, item: Item)
    requires ItemAt(code, at, item) && at' + Size(item) <= |code'|
    requires forall k, k' | at <= k < at + Size(item) && k' - k == at' - at :: code'[k'] == code[k]
    ensures ItemAt(code', at', item)
  {
    match item
    case Class(chars, _) =>
      forall x | 0 <= x < 128 ensures InMap(code', at' + 1, x) <==> x in chars {
        var k, k' := at + 1 + x / 8, at' + 1 + x / 8;
        assert code'[k'] == code[k];
        assert InMap(code, at + 1, x) <==> x in chars;
      }
    case Chr(_, _) =>
      var k, k' := at + 1, at' + 1;
      assert code'[k'] == code[k];
    case _ =>
  }

  lemma {:induction false} OffSame(items: seq<Item>, items': seq<Item>, i: nat)
    requires i <= |items| && i <= |items'| && forall j | 0 <= j < i :: Size(items'[j]) == Size(items[j])
    ensures Off(items', i) == Off(items, i)
  {
    if i > 0 {
      OffSame(items, items', i - 1);
    }
  }

  lemma {:induction false} OffMonotone(items: seq<Item>, i: nat, j: nat)
    requires i <= j <= |items|
    ensures Off(items, i) <= Off(items, j)
    ensures i < j ==> Off(items, i) + Size(items[i]) <= Off(items, j)
    decreases j
  {
    if i < j {
      OffMonotone(items, i, j - 1);
    }
  }

  /** One more item at the end. */
  lemma {:induction false} Append(code: seq<int>, items: seq<Item>, bytes: seq<int>, item: Item)
    requires CodeIs(code, items) && |bytes| == Size(item) && ItemAt(bytes, 0, item)
    ensures CodeIs(code + bytes, items + [item]) && Off(items + [item], |items|) == |code|
  {
    var code', items' := code + bytes, items + [item];
    OffSame(items, items', |items|);
    forall i | 0 <= i < |items'| ensures Placed(code', items', i) {
      if i < |items| {
        OffSame(items, items', i);
        OffMonotone(items, i, |items|);
        assert Placed(code, items, i);
        ItemAtMoved(code, Off(items, i), code', Off(items, i), items[i]);
      } else {
        OffSame(items, items', |items|);
        ItemAtMoved(bytes, 0, code', |code|, item);
      }
    }
  }

  predicate Repeatable(item: Item) {
    item.Chr? || item.Dot? || item.Class?
  }

  /** The star bit set in the opcode. */
  function WithStar(op: int): int {
    if op % 2 == 0 then op + STAR else op
  }

  /** The star patched into the last item. */
  lemma {:induction false} Patch(code: seq<int>, items: seq<Item>, lastep: nat)
    requires CodeIs(code, items) && |items| > 0 && lastep == Off(items, |items| - 1) && Repeatable(items[|items| - 1])
    ensures lastep < |code| && 2 <= WithStar(code[lastep]) <= 7
    ensures CodeIs(code[lastep := WithStar(code[lastep])], items[|items| - 1 := Repeat(items[|items| - 1])])
    ensures Off(items[|items| - 1 := Repeat(items[|items| - 1])], |items| - 1) == lastep
  {
    var n, last := |items| - 1, items[|items| - 1];
    assert Placed(code, items, n);
    var code', items' := code[lastep := WithStar(code[lastep])], items[n := Repeat(last)];
    OffSame(items, items', |items|);
    OffSame(items, items', n);
    PatchedAt(code, lastep, last);
    forall i | 0 <= i < |items'| ensures Placed(code', items', i) {
      if i < n {
        PatchItem(code, items, lastep, i, items', code');
      }
    }
  }

  lemma {:induction false} PatchItem(code: seq<int>, items: seq<Item>, lastep: nat, i: nat, items': seq<Item>,
                                     code': seq<int>)
    requires CodeIs(code, items) && i < |items| - 1 && lastep == Off(items, |items| - 1) < |code| == |code'|
    requires |items'| == |items| && forall j | 0 <= j < |items| - 1 :: items'[j] == items[j]
    requires forall k | 0 <= k < lastep :: code'[k] == code[k]
    ensures Placed(code', items', i)
  {
    OffSame(items, items', i);
    OffMonotone(items, i, |items| - 1);
    assert Placed(code, items, i);
    ItemAtMoved(code, Off(items, i), code', Off(items, i), items[i]);
  }

  lemma {:induction false} PatchedAt(code: seq<int>, at: nat, item: Item)
    requires ItemAt(code, at, item) && Repeatable(item)
    ensures ItemAt(code[at := WithStar(code[at])], at, Repeat(item))
  {
    var code' := code[at := WithStar(code[at])];
    match item
    case Class(chars, _) =>
      forall x | 0 <= x < 128 ensures InMap(code', at + 1, x) <==> x in chars {
        assert InMap(code, at + 1, x) <==> x in chars;
      }
    case _ =>
  }

  // ---------------------------------------------------------------- the whole pattern

  /** The element last read can take a star: there is one, and it is not the mark of a group. */
  predicate CanRepeat(code: seq<int>, lastep: int) {
    0 <= lastep < |code| && code[lastep] != CBRA && code[lastep] != CKET
  }

  /** The code so far is that of the items so far, and the rest of the pattern is still to be read. */
  ghost predicate Compiling(s: seq<int>, sp: nat, code: seq<int>, lastep: int, st: State) {
    && sp <= |s| && CodeIs(code, st.items) && lastep < |code|
    && (CanRepeat(code, lastep) && code[lastep] == CDOL ==> sp == |s|)
    && if CanRepeat(code, lastep) && code[lastep] != CDOL
       then |st.items| > 0 && lastep == Off(st.items, |st.items| - 1) && Repeatable(st.items[|st.items| - 1])
            && Parse(s) == AfterElement(s, sp, st)
       else Parse(s) == Elements(s, sp, st)
  }

  lemma {:induction false} StarAgain(s: seq<int>, sp: nat, st: State)
    requires sp < |s| && s[sp] == '*' as int && |st.items| > 0 && Repeatable(st.items[|st.items| - 1])
    ensures AfterElement(s, sp, st) == AfterElement(s, sp + 1, RepeatLast(st))
  {
    assert Stars(s, sp) == Stars(s, sp + 1);
    assert RepeatLast(RepeatLast(st)) == RepeatLast(st);
  }

  lemma {:induction false} NoStar(s: seq<int>, sp: nat, st: State)
    requires |st.items| > 0 && !(sp < |s| && s[sp] == '*' as int)
    ensures AfterElement(s, sp, st) == Elements(s, sp, st)
  {
  }

  /** The elements read first are there at the end, if perhaps repeated. */
  ghost predicate Extends(items: seq<Item>, more: seq<Item>) {
    |items| <= |more| && forall k | 0 <= k < |items| :: Size(more[k]) == Size(items[k])
  }

  /** Reading on only adds to the code. */
  lemma {:induction false} ElementsGrow(s: seq<int>, i: nat, st: State)
    ensures Extends(st.items, Elements(s, i, st).items)
    decreases |s| - i, 0
  {
    if i < |s| {
      if s[i] == '[' as int {
        match ClassOf(s, i + 1)
        case ClassEnd(chars, next) =>
          if next > i {
            AfterGrow(s, next, Add(st, Class(chars, false)));
          }
        case _ =>
      } else if s[i] == '\\' as int {
        EscapedGrow(s, i + 1, st);
      } else if s[i] == '.' as int {
        AfterGrow(s, i + 1, Add(st, Dot(false)));
      } else if s[i] == '*' as int {
        ElementsGrow(s, i + 1, Add(st, Chr(s[i], false)));
      } else if s[i] == '$' as int && i + 1 == |s| {
        ElementsGrow(s, i + 1, Add(st, Dol));
      } else {
        AfterGrow(s, i + 1, Add(st, Chr(s[i], false)));
      }
    }
  }

  lemma {:induction false} AfterGrow(s: seq<int>, i: nat, st: State)
    requires |st.items| > 0
    ensures Extends(st.items, AfterElement(s, i, st).items)
    decreases |s| - i, 1
  {
    ElementsGrow(s, Stars(s, i), if Stars(s, i) > i then RepeatLast(st) else st);
  }

  lemma {:induction false} EscapedGrow(s: seq<int>, i: nat, st: State)
    ensures Extends(st.items, Escaped(s, i, st).items)
    decreases |s| - i, 2
  {
    if i < |s| {
      if s[i] == '(' as int {
        if st.numbra < NBRA {
          ElementsGrow(s, i + 1, Add(st, Bra(st.numbra)).(open := st.open + [st.numbra], numbra := st.numbra + 1));
        }
      } else if s[i] == ')' as int {
        if |st.open| > 0 {
          ElementsGrow(s, i + 1,
            Add(st, Ket(st.open[|st.open| - 1])).(open := st.open[..|st.open| - 1], closed := st.closed + 1));
        }
      } else if !('1' as int <= s[i] <= '9' as int) {
        AfterGrow(s, i + 1, Add(st, Chr(s[i], false)));
      }
    }
  }

  ghost function Total(items: seq<Item>): nat {
    Off(items, |items|)
  }

  // ---------------------------------------------------------------- what becomes of a pattern

  /** Compiled; refused; read on past its end; or with a back-reference, at which the model stops. */
  datatype Fate = Fits | Refused | Past | Back

  ghost function FateOf(s: seq<int>): Fate {
    FateIn(Parse(s))
  }

  ghost function FateIn(p: Parsed): Fate {
    if Total(p.items) >= ESIZE then Refused
    else match p
      case Done(_) => Fits
      case Bad(_) => Refused
      case BackReference(_) => Back
      case Over(items, inClass) => if inClass && Total(items) + 17 >= ESIZE then Refused else Past
  }

  /** A pattern in the grammar whose code fits. */
  ghost predicate Compiles(s: seq<int>) {
    Parse(s).Done? && Total(Parse(s).items) < ESIZE
  }

  /** Two bytes begin in the last byte of the buffer. */
  ghost predicate Overruns(s: seq<int>) {
    OverrunsIn(Parse(s))
  }

  ghost predicate OverrunsIn(p: Parsed) {
    || (exists k :: PairAtEnd(p.items, k))
    || (p.BackReference? && Total(p.items) == ESIZE - 1)
  }

  ghost predicate PairAtEnd(items: seq<Item>, k: int) {
    0 <= k < |items| && Off(items, k) == ESIZE - 1 && Size(items[k]) == 2
  }

  /** As long as the code is shorter than the buffer nothing has overrun it. */
  lemma {:induction false} NotYet(items: seq<Item>)
    requires Total(items) < ESIZE
    ensures forall k :: !PairAtEnd(items, k)
  {
    forall k ensures !PairAtEnd(items, k) {
      if 0 <= k < |items| {
        OffMonotone(items, k, |items|);
      }
    }
  }

  /** With so much code the pattern is refused, and it has overrun the buffer exactly if there is a byte too many. */
  lemma {:induction false} TooMuch(s: seq<int>, items: seq<Item>)
    requires Extends(items, Parse(s).items) && ESIZE <= Total(items) <= ESIZE + 1
    requires |items| > 0 && Off(items, |items| - 1) < ESIZE && (Total(items) > ESIZE ==> Size(items[|items| - 1]) == 2)
    ensures FateOf(s) == Refused && (Overruns(s) <==> Total(items) == ESIZE + 1)
  {
    var all, n := Parse(s).items, |items| - 1;
    OffSame(items, all, |items|);
    OffSame(items, all, n);
    OffMonotone(all, |items|, |all|);
    assert Size(all[n]) == Size(items[n]);
    forall k | 0 <= k < |all| && k != n ensures !PairAtEnd(all, k) {
      if k < n {
        OffMonotone(all, k, n);
      } else {
        OffMonotone(all, |items|, k);
      }
    }
    assert PairAtEnd(all, n) <==> Total(items) == ESIZE + 1 && Size(items[n]) == 2;
  }

  /** A class for which there is no room. */
  lemma {:induction false} NoRoom(s: seq<int>, items: seq<Item>, class_: Item)
    requires Extends(items + [class_], Parse(s).items) && Size(class_) == 17
    requires Total(items) < ESIZE <= Total(items) + 17
    ensures FateOf(s) == Refused && !Overruns(s)
  {
    var all, n := Parse(s).items, |items|;
    assert (items + [class_])[n] == class_;
    forall k | 0 <= k < n ensures Size(all[k]) == Size(items[k]) {
      assert (items + [class_])[k] == items[k];
    }
    OffSame(items, all, n);
    OffMonotone(all, n, |all|);
    forall k | 0 <= k < |all| ensures !PairAtEnd(all, k) {
      if k < n {
        OffMonotone(all, k, n);
      } else if n < k {
        OffMonotone(all, n, k);
      }
    }
  }

  /** An element that may be repeated has been emitted. */
  lemma {:induction false} Emitted(s: seq<int>, sp: nat, code: seq<int>, st: State, bytes: seq<int>, item: Item)
    requires CodeIs(code, st.items) && |bytes| == Size(item) && ItemAt(bytes, 0, item) && sp <= |s|
    requires Repeatable(item) && Parse(s) == AfterElement(s, sp, Add(st, item))
    ensures Compiling(s, sp, code + bytes, |code|, Add(st, item))
  {
    Append(code, st.items, bytes, item);
    assert (code + bytes)[|code|] == bytes[0];
  }

  /** Something that cannot be repeated has been emitted. */
  lemma {:induction false} EmittedMark(s: seq<int>, sp: nat, code: seq<int>, st: State, bytes: seq<int>, item: Item,
                                       st': State)
    requires CodeIs(code, st.items) && |bytes| == Size(item) && ItemAt(bytes, 0, item) && sp <= |s|
    requires item.Bra? || item.Ket? || (item.Dol? && sp == |s|)
    requires st'.items == st.items + [item] && Parse(s) == Elements(s, sp, st')
    ensures Compiling(s, sp, code + bytes, |code|, st')
  {
    Append(code, st.items, bytes, item);
    assert (code + bytes)[|code|] == bytes[0];
  }

  lemma {:induction false} EmittedStar(s: seq<int>, sp: nat, code: seq<int>, lastep: int, st: State)
    requires CodeIs(code, st.items) && sp < |s| && s[sp] == '*' as int && lastep < |code| && !CanRepeat(code, lastep)
    requires Parse(s) == Elements(s, sp, st)
    ensures Compiling(s, sp + 1, code + [CCHR, s[sp]], lastep, Add(st, Chr(s[sp], false)))
  {
    Append(code, st.items, [CCHR, s[sp]], Chr(s[sp], false));
  }

  /** An error, or the end of the pattern passed, or a back-reference; or what one element makes of the globals. */
  datatype Step = Error | AtEnd | AtBack
                | Next(sp: nat, code: seq<int>, bracket: seq<int>, numbra: nat, closed: nat)

  ghost predicate Stepped(s: seq<int>, r: Step, lastep: int, items0: seq<Item>, items: seq<Item>) {
    match r
    case Error => FateOf(s) == Refused && !Overruns(s)
    case AtEnd => FateOf(s) == Past && !Overruns(s)
    case AtBack => FateOf(s) == Back && (Overruns(s) <==> Total(items0) == ESIZE - 1)
    case Next(sp, code, bracket, numbra, closed) =>
      && Compiling(s, sp, code, lastep, State(items, bracket, numbra, closed))
      && |items| == |items0| + 1 && items[..|items0|] == items0 && (|code| <= Total(items0) + 2 || |code| <= ESIZE)
  }

  /** The case of an opening bracket. */
  method ClassElement(s: seq<int>, sp: nat, code: seq<int>, bracket: seq<int>, numbra: nat, closed: nat,
                      ghost items0: seq<Item>)
    returns (r: Step, ghost items: seq<Item>)
    requires IsPattern(s) && sp < |s| && s[sp] == '[' as int && CodeIs(code, items0) && |code| < ESIZE
    requires Parse(s) == Elements(s, sp, State(items0, bracket, numbra, closed))
    ensures Stepped(s, r, |code|, items0, items) && (r.Next? ==> sp < r.sp)
  {
    items := items0;
    ghost var st := State(items, bracket, numbra, closed);
    var ok, over, map_, next;
    ghost var chars;
    NotYet(items0);
    if |code| + 17 >= ESIZE {
      match ClassOf(s, sp + 1) {
        case ClassEnd(c, n) =>
          if n > sp {
            AfterGrow(s, n, Add(st, Class(c, false)));
            NoRoom(s, items0, Class(c, false));
          }
        case _ =>
      }
      return Error, items;
    }
    ok, over, map_, next, chars := ReadClass(s, sp + 1);
    if over {
      return AtEnd, items;
    }
    if !ok {
      return Error, items;
    }
    ghost var item := Class(chars, false);
    MapItem(map_, chars);
    Emitted(s, next, code, st, [CCL] + map_, item);
    items := items + [item];
    r := Next(next, code + ([CCL] + map_), bracket, numbra, closed);
  }

  lemma {:induction false} MapItem(map_: seq<int>, chars: set<int>)
    requires MapIs(map_, chars) && 0 !in chars
    ensures ItemAt([CCL] + map_, 0, Class(chars, false))
  {
    var bytes := [CCL] + map_;
    forall x | 0 <= x < 128 ensures InMap(bytes, 1, x) <==> x in chars {
      assert InMap(map_, 0, x) <==> x in chars;
      assert bytes[1 + x / 8] == map_[x / 8];
    }
  }

  /** The case of a backslash. */
  method EscapedElement(s: seq<int>, sp: nat, code: seq<int>, bracket: seq<int>, numbra: nat, closed: nat,
                        ghost items0: seq<Item>)
    returns (r: Step, ghost items: seq<Item>)
    requires IsPattern(s) && sp < |s| && s[sp] == '\\' as int && CodeIs(code, items0) && |code| < ESIZE
    requires Parse(s) == Elements(s, sp, State(items0, bracket, numbra, closed))
    ensures Stepped(s, r, |code|, items0, items) && (r.Next? ==> sp < r.sp)
  {
    items := items0;
    ghost var st := State(items, bracket, numbra, closed);
    NotYet(items0);
    if sp + 1 == |s| {
      return AtEnd, items;
    }
    var c := s[sp + 1];
    if c == '(' as int {
      if numbra >= NBRA {
        return Error, items;
      }
      items := items + [Bra(numbra)];
      EmittedMark(s, sp + 2, code, st, [CBRA, numbra], Bra(numbra),
                  State(items, bracket + [numbra], numbra + 1, closed));
      return Next(sp + 2, code + [CBRA, numbra], bracket + [numbra], numbra + 1, closed), items;
    }
    if c == ')' as int {
      if |bracket| == 0 {
        return Error, items;
      }
      var n := bracket[|bracket| - 1];
      items := items + [Ket(n)];
      EmittedMark(s, sp + 2, code, st, [CKET, n], Ket(n), State(items, bracket[..|bracket| - 1], numbra, closed + 1));
      return Next(sp + 2, code + [CKET, n], bracket[..|bracket| - 1], numbra, closed + 1), items;
    }
    if '1' as int <= c <= '9' as int {
      return if c - '1' as int >= closed then Error else AtBack, items;
    }
    items := items + [Chr(c, false)];
    Emitted(s, sp + 2, code, st, [CCHR, c], Chr(c, false));
    r := Next(sp + 2, code + [CCHR, c], bracket, numbra, closed);
  }

  /** The other cases of one element; lastep is told what the program leaves there. */
  method Element(s: seq<int>, sp: nat, code: seq<int>, bracket: seq<int>, numbra: nat, closed: nat, lastep: int,
                 ghost items0: seq<Item>)
    returns (r: Step, ghost items: seq<Item>)
    requires IsPattern(s) && sp < |s| && CodeIs(code, items0) && |code| < ESIZE
    requires Parse(s) == Elements(s, sp, State(items0, bracket, numbra, closed))
    requires if s[sp] == '*' as int then lastep < |code| && !CanRepeat(code, lastep) else lastep == |code|
    ensures Stepped(s, r, lastep, items0, items) && (r.Next? ==> sp < r.sp)
  {
    ghost var st := State(items0, bracket, numbra, closed);
    var c := s[sp];
    if c == '[' as int {
      r, items := ClassElement(s, sp, code, bracket, numbra, closed, items0);
    } else if c == '\\' as int {
      r, items := EscapedElement(s, sp, code, bracket, numbra, closed, items0);
    } else if c == '.' as int {
      items := items0 + [Dot(false)];
      Emitted(s, sp + 1, code, st, [CDOT], Dot(false));
      r := Next(sp + 1, code + [CDOT], bracket, numbra, closed);
    } else if c == '$' as int && sp + 1 == |s| {
      items := items0 + [Dol];
      EmittedMark(s, sp + 1, code, st, [CDOL], Dol, Add(st, Dol));
      r := Next(sp + 1, code + [CDOL], bracket, numbra, closed);
    } else {
      items := items0 + [Chr(c, false)];
      if c == '*' as int {
        EmittedStar(s, sp, code, lastep, st);
      } else {
        Emitted(s, sp + 1, code, st, [CCHR, c], Chr(c, false));
      }
      r := Next(sp + 1, code + [CCHR, c], bracket, numbra, closed);
    }
  }

  /** The code; the error; the end of the pattern passed; or a back-reference met, at which the model stops. */
  datatype Compiled = Ok(code: seq<int>, circf: bool) | REerror | PastEnd | BackRef

  ghost function FateFor(r: Compiled): Fate {
    match r
    case Ok(_, _) => Fits
    case REerror => Refused
    case PastEnd => Past
    case BackRef => Back
  }

  /** Whatever the pattern is spelled like, it is read so. */
  lemma {:induction false} AllSpellings(s: seq<int>)
    requires IsPattern(s)
    ensures exists es :: Reads(s, es, Parse(s))
    ensures forall es, anchored | Fit(es, anchored, true) && s == Spell(es, anchored) ::
              Parse(s) == Done(ItemsOf(es, |es|)) && Anchored(s) == anchored
  {
    var es := SomeSpelling(s);
    forall es, anchored | Fit(es, anchored, true) && s == Spell(es, anchored)
      ensures Parse(s) == Done(ItemsOf(es, |es|)) && Anchored(s) == anchored
    {
      SpelledBack(es, anchored);
    }
  }

  /** A star patched into the last element. */
  lemma {:induction false} StarPatched(s: seq<int>, sp: nat, next: nat, code: seq<int>, lastep: int, st: State)
    requires Compiling(s, sp, code, lastep, st) && Within(st.items) && CanRepeat(code, lastep)
    requires sp < |s| && s[sp] == '*' as int && next == sp + 1
    ensures |st.items| > 0 && Compiling(s, next, code[lastep := WithStar(code[lastep])], lastep, RepeatLast(st))
    ensures Within(RepeatLast(st).items) && RepeatLast(st) == st.(items := RepeatLast(st).items)
  {
    StarAgain(s, sp, st);
    Patch(code, st.items, lastep);
    StillWithin(st.items, RepeatLast(st).items);
  }

  /** The loop of `compile`. */
  method CompileLoop(s: seq<int>) returns (r: Compiled, written: nat)
    requires IsPattern(s)
    ensures FateFor(r) == FateOf(s)
    ensures r.Ok? ==> Encoded(r.code, Parse(s).items) && |r.code| <= ESIZE && r.circf == Anchored(s)
    ensures written <= ESIZE + 1 && (written == ESIZE + 1 <==> Overruns(s))
  {
    var code: seq<int>, lastep, sp: nat := [], -1, if Anchored(s) then 1 else 0;
    var bracket: seq<int>, numbra: nat, closed: nat := [], 0, 0;
    ghost var items: seq<Item> := [];
    while true
      invariant Compiling(s, sp, code, lastep, State(items, bracket, numbra, closed)) && Within(items)
      decreases |s| - sp
    {
      ghost var st := State(items, bracket, numbra, closed);
      if |code| >= ESIZE {
        TooLong(s, sp, code, lastep, st);
        return REerror, |code|;
      }
      if sp < |s| && s[sp] == '*' as int && CanRepeat(code, lastep) {
        ghost var next: nat := sp + 1;
        StarPatched(s, sp, next, code, lastep, st);
        code := code[lastep := WithStar(code[lastep])];
        items := RepeatLast(st).items;
        sp := sp + 1;
      } else {
        ToElements(s, sp, code, lastep, st);
        NotYet(items);
        if sp == |s| {
          LastCode(code, items);
          return Ok(code + [CEOF], Anchored(s)), |code| + 1;
        }
        if s[sp] != '*' as int {
          lastep := |code|;
        }
        var step;
        ghost var before := items;
        step, items := Element(s, sp, code, bracket, numbra, closed, lastep, items);
        match step
        case Error => return REerror, |code|;
        case AtEnd => return PastEnd, |code|;
        case AtBack => return BackRef, |code| + 2;
        case Next(sp', code', bracket', numbra', closed') =>
          StepWithin(s, step, lastep, before, items);
          sp, code, bracket, numbra, closed := sp', code', bracket', numbra', closed';
      }
    }
  }

  /** `compile`: the code of the elements, within the buffer, exactly for a pattern in the grammar that is not too long;
      otherwise an error, except that a pattern that ends in an escape or a range is read on past its end. One byte has
      been written past the end of the buffer exactly where the two bytes of an element begin in its last byte. */
  method Compile(s: seq<int>) returns (r: Compiled, written: nat)
    requires IsPattern(s)
    ensures FateFor(r) == FateOf(s)
    ensures r.Ok? ==> Encoded(r.code, Parse(s).items) && |r.code| <= ESIZE && r.circf == Anchored(s)
    ensures written <= ESIZE + 1 && (written == ESIZE + 1 <==> Overruns(s))
    ensures exists es, p :: Reads(s, es, p) && FateFor(r) == FateIn(p) && (written == ESIZE + 1 <==> OverrunsIn(p))
    ensures forall es, anchored | Fit(es, anchored, true) && s == Spell(es, anchored) ::
              if Total(ItemsOf(es, |es|)) < ESIZE
              then r.Ok? && Encoded(r.code, ItemsOf(es, |es|)) && r.circf == anchored
              else r == REerror
  {
    AllSpellings(s);
    r, written := CompileLoop(s);
  }

  /** All elements but the last ended within the buffer. */
  ghost predicate Within(items: seq<Item>) {
    && Total(items) <= ESIZE + 1
    && (|items| > 0 ==> Off(items, |items| - 1) < ESIZE && (Total(items) > ESIZE ==> Size(items[|items| - 1]) == 2))
  }

  lemma {:induction false} StepWithin(s: seq<int>, r: Step, lastep: int, items0: seq<Item>, items: seq<Item>)
    requires Stepped(s, r, lastep, items0, items) && r.Next? && Total(items0) < ESIZE
    ensures Within(items)
  {
    OffSame(items0, items, |items0|);
  }

  lemma {:induction false} StillWithin(items: seq<Item>, items': seq<Item>)
    requires Within(items) && |items'| == |items| && forall k | 0 <= k < |items| :: Size(items'[k]) == Size(items[k])
    ensures Within(items')
  {
    OffSame(items, items', |items|);
    if |items| > 0 {
      OffSame(items, items', |items| - 1);
    }
  }

  lemma {:induction false} TooLong(s: seq<int>, sp: nat, code: seq<int>, lastep: int, st: State)
    requires Compiling(s, sp, code, lastep, st) && |code| >= ESIZE && Within(st.items)
    ensures FateOf(s) == Refused && (Overruns(s) <==> |code| == ESIZE + 1)
  {
    if CanRepeat(code, lastep) && code[lastep] != CDOL {
      AfterGrow(s, sp, st);
    } else {
      ElementsGrow(s, sp, st);
    }
    TooMuch(s, st.items);
  }

  lemma {:induction false} ToElements(s: seq<int>, sp: nat, code: seq<int>, lastep: int, st: State)
    requires Compiling(s, sp, code, lastep, st) && !(sp < |s| && s[sp] == '*' as int && CanRepeat(code, lastep))
    ensures Parse(s) == Elements(s, sp, st)
  {
    if CanRepeat(code, lastep) && code[lastep] != CDOL {
      NoStar(s, sp, st);
    }
  }

  lemma {:induction false} LastCode(code: seq<int>, items: seq<Item>)
    requires CodeIs(code, items)
    ensures Encoded(code + [CEOF], items)
  {
    forall i | 0 <= i < |items| ensures Placed(code + [CEOF], items, i) {
      assert Placed(code, items, i);
      ItemAtMoved(code, Off(items, i), code + [CEOF], Off(items, i), items[i]);
    }
  }

  lemma {:induction false} WholeSpelling(s: seq<int>)
    requires IsPattern(s) && Parse(s).Done?
    ensures exists es ::
              Fit(es, Anchored(s), true) && s == Spell(es, Anchored(s)) && ItemsOf(es, |es|) == Parse(s).items
  {
    var es := SomeSpelling(s);
    assert s == Spell(es, Anchored(s));
  }

  /** `grep` on one line: the line is selected exactly if it holds a string of the pattern's language, at its front
      if the pattern has a circumflex. */
  method GrepLine(s: seq<int>, line: seq<int>) returns (r: Compiled, found: bool)
    requires IsPattern(s) && IsText(line)
    ensures r.Ok? <==> Compiles(s)
    ensures r.Ok? ==> (found <==> exists p: nat :: p <= |line| && (Anchored(s) ==> p == 0)
                                     && InLanguage(Parse(s).items, 0, line, p))
    ensures forall es, anchored | Fit(es, anchored, true) && s == Spell(es, anchored)
            && Total(ItemsOf(es, |es|)) < ESIZE ::
              r.Ok? && (found <==> exists p: nat :: p <= |line| && (anchored ==> p == 0)
                                                    && InLanguage(ItemsOf(es, |es|), 0, line, p))
    ensures r.Ok? <==> exists es :: Fit(es, Anchored(s), true) && s == Spell(es, Anchored(s))
                                    && Total(ItemsOf(es, |es|)) < ESIZE
  {
    var written;
    r, written := Compile(s);
    found := false;
    if r.Ok? {
      found := Selects(line, r.code, r.circf, Parse(s).items);
    }
    AllSpellings(s);
    if r.Ok? {
      WholeSpelling(s);
    }
  }

  // ---------------------------------------------------------------- patterns that run past the buffer or their own end

  /** A row of the letter a, not repeated. */
  lemma {:induction false} Letters(s: seq<int>, i: nat, st: State, n: nat)
    requires |s| == i + n && forall k | i <= k < |s| :: s[k] == 'a' as int
    ensures Elements(s, i, st) == Done(st.items + seq(n, _ => Chr('a' as int, false)))
    decreases n
  {
    var item := Chr('a' as int, false);
    if n > 0 {
      assert Stars(s, i + 1) == i + 1;
      Letters(s, i + 1, Add(st, item), n - 1);
      assert st.items + [item] + seq(n - 1, _ => item) == st.items + seq(n, _ => item);
    } else {
      assert st.items + seq(0, _ => item) == st.items;
    }
  }

  lemma {:induction false} LetterOff(items: seq<Item>, k: nat)
    requires 1 <= k <= |items| && items[0] == Dot(false) && forall j | 1 <= j < |items| :: Size(items[j]) == 2
    ensures Off(items, k) == 2 * k - 1
  {
    if k > 1 {
      LetterOff(items, k - 1);
    } else {
      assert Off(items, 0) == 0;
    }
  }

  lemma {:induction false} DotAndLetters(s: seq<int>, items: seq<Item>)
    requires s == ['.' as int] + seq(128, _ => 'a' as int)
             && items == [Dot(false)] + seq(128, _ => Chr('a' as int, false))
    ensures IsPattern(s) && Parse(s) == Done(items)
  {
    var none := State([], [], 0, 0);
    assert s[0] == '.' as int && s[1] == 'a' as int && Stars(s, 1) == 1;
    assert Parse(s) == Elements(s, 0, none);
    assert Elements(s, 0, none) == AfterElement(s, 1, Add(none, Dot(false)));
    assert AfterElement(s, 1, Add(none, Dot(false))) == Elements(s, 1, Add(none, Dot(false)));
    Letters(s, 1, Add(none, Dot(false)), 128);
  }

  lemma {:induction false} LettersOver(items: seq<Item>)
    requires items == [Dot(false)] + seq(128, _ => Chr('a' as int, false))
    ensures PairAtEnd(items, 128) && Total(items) == ESIZE + 1
  {
    LetterOff(items, 128);
    LetterOff(items, 129);
  }

  /** A dot and 128 letters fill 255 bytes before the last letter, whose second byte is past the buffer. */
  method OnePast() returns (r: Compiled, written: nat)
    ensures r == REerror && written == ESIZE + 1
  {
    var s := ['.' as int] + seq(128, _ => 'a' as int);
    ghost var items := [Dot(false)] + seq(128, _ => Chr('a' as int, false));
    DotAndLetters(s, items);
    LettersOver(items);
    r, written := Compile(s);
  }

  /** A backslash by itself is read on past its end, and so is a class that ends in a hyphen. */
  method PastItsEnd() returns (r: Compiled, t: Compiled)
    ensures r == PastEnd && t == PastEnd
  {
    var written;
    var escape, hyphen := ['\\' as int], ['[' as int, 'a' as int, '-' as int];
    ghost var none := State([], [], 0, 0);
    assert Parse(escape) == Elements(escape, 0, none);
    assert Elements(escape, 0, none) == Escaped(escape, 1, none);
    r, written := Compile(escape);
    assert ClassFrom(hyphen, 1, 1, {}) == ClassFrom(hyphen, 2, 1, {'a' as int});
    assert Parse(hyphen) == Over([], true);
    t, written := Compile(hyphen);
  }
}
