/** `advance` and the matching loops of `execute` (grep.c). */
module Grep {
  import opened GrepMatch

  /** top is the end of the longest run from a that fits the item. */
  ghost predicate LongestRun(item: Item, text: seq<int>, a: nat, top: nat) {
    && a <= top <= |text| && (forall k | a <= k < top :: Fits(item, text[k]))
    && (top < |text| ==> !Fits(item, text[top]))
  }

  /** A match at p, by its name. */
  ghost predicate MatchesAt(items: seq<Item>, i: nat, text: seq<int>, p: nat)
    requires i <= |items| && p <= |text|
  {
    Accepts(items, i, text, p)
  }

  /** A match from some position between curlp and top. */
  ghost predicate SomeFrom(items: seq<Item>, i: nat, text: seq<int>, curlp: nat, top: nat)
    requires i <= |items| && top <= |text|
  {
    exists q: nat :: curlp <= q <= top && Accepts(items, i, text, q)
  }

  /** A starred item reaches just the positions up to the end of the run. */
  lemma {:induction false} RunReaches(items: seq<Item>, i: nat, text: seq<int>, a: nat, top: nat, next: nat)
    requires next == i + 1 <= |items| && Starred(items[i]) && LongestRun(items[i], text, a, top)
    ensures MatchesAt(items, i, text, a) <==> SomeFrom(items, next, text, a, top)
    ensures top == a ==> SameAnswer(items, text, i, a, next, a)
  {
    if Accepts(items, i, text, a) {
      var q := StarTook(items, i, text, a);
      assert a <= q <= top && Accepts(items, next, text, q);
    }
    if SomeFrom(items, next, text, a, top) {
      var q: nat :| a <= q <= top && Accepts(items, next, text, q);
      StarTakes(items, i, text, a, q);
    }
  }

  lemma {:induction false} NextOff(items: seq<Item>, i: nat, next: nat)
    requires next == i + 1 <= |items|
    ensures Off(items, next) == Off(items, i) + Size(items[i])
  {
  }

  /** The character class test of the program, for one character of the line. */
  lemma {:induction false} ClassFits(code: seq<int>, at: nat, item: Item, ch: int)
    requires item.Class? && ClassAt(code, at, item.chars) && 0 <= ch < 256
    ensures InMap(code, at, ch % 128) <==> Fits(item, ch)
  {
  }

  /** The test of a class, for one character of the line. */
  method TestClass(code: seq<int>, at: nat, ch: int, ghost item: Item) returns (b: bool)
    requires item.Class? && ClassAt(code, at, item.chars) && 0 <= ch < 256
    ensures b <==> Fits(item, ch)
  {
    ClassFits(code, at, item, ch);
    b := InMap(code, at, ch % 128);
  }

  lemma {:induction false} EndFitsNothing(code: seq<int>, ep: nat, item: Item)
    requires ItemAt(code, ep, item)
    ensures !Fits(item, 0)
  {
  }

  /** The scanning loops of the starred cases. */
  method Run(text: seq<int>, curlp: nat, code: seq<int>, ep: nat, ghost item: Item) returns (lp: nat)
    requires IsText(text) && curlp <= |text| && ItemAt(code, ep, item) && Starred(item)
    ensures LongestRun(item, text, curlp, lp)
  {
    EndFitsNothing(code, ep, item);
    lp := curlp;
    if code[ep] == CDOT + STAR {
      while At(text, lp) != 0
        invariant curlp <= lp <= |text| && forall k | curlp <= k < lp :: Fits(item, text[k])
        decreases |text| - lp
      {
        lp := lp + 1;
      }
    } else if code[ep] == CCHR + STAR {
      while At(text, lp) == code[ep + 1]
        invariant curlp <= lp <= |text| && forall k | curlp <= k < lp :: Fits(item, text[k])
        decreases |text| - lp
      {
        lp := lp + 1;
      }
    } else {
      lp := RunClass(text, curlp, code, ep, item);
    }
  }

  method RunClass(text: seq<int>, curlp: nat, code: seq<int>, ep: nat, ghost item: Item) returns (lp: nat)
    requires IsText(text) && curlp <= |text| && ItemAt(code, ep, item) && item.Class? && !Fits(item, 0)
    ensures LongestRun(item, text, curlp, lp)
  {
    lp := curlp;
    var b := TestClass(code, ep + 1, At(text, lp), item);
    while b
      invariant curlp <= lp <= |text| && forall k | curlp <= k < lp :: Fits(item, text[k])
      invariant b <==> Fits(item, At(text, lp))
      decreases |text| - lp
    {
      lp := lp + 1;
      b := TestClass(code, ep + 1, At(text, lp), item);
    }
  }

  /** The loops at `star`: from the end of the run back to its start. */
  method TryBack(text: seq<int>, curlp: nat, top: nat, code: seq<int>, ep: nat, ghost items: seq<Item>, ghost i: nat)
    returns (r: bool)
    requires IsText(text) && curlp <= top <= |text| && Encoded(code, items) && i <= |items| && ep == Off(items, i)
    ensures r <==> SomeFrom(items, i, text, curlp, top)
    decreases |items| - i, 3
  {
    OffWithin(code, items, i);
    if code[ep] == CCHR {
      r := TryQuick(text, curlp, top, code, ep, items, i);
      return;
    }
    var lp: int := top;
    while lp >= curlp
      invariant curlp - 1 <= lp <= top && NoneFrom(items, i, text, lp, top)
    {
      r := Advance(text, lp, code, ep, items, i);
      if r {
        return;
      }
      NoneStep(items, i, text, lp, top);
      lp := lp - 1;
    }
    return false;
  }

  lemma {:induction false} NoneStep(items: seq<Item>, i: nat, text: seq<int>, lp: nat, top: nat)
    requires i <= |items| && lp <= top <= |text| && NoneFrom(items, i, text, lp, top) && !Accepts(items, i, text, lp)
    ensures NoneFrom(items, i, text, lp - 1, top)
  {
  }

  ghost predicate NoneFrom(items: seq<Item>, i: nat, text: seq<int>, lp: int, top: nat)
    requires i <= |items| && top <= |text|
  {
    forall q: nat | lp < q <= top :: !Accepts(items, i, text, q)
  }

  /** The same when the next element is a plain character: a look at it first. */
  method TryQuick(text: seq<int>, curlp: nat, top: nat, code: seq<int>, ep: nat, ghost items: seq<Item>, ghost i: nat)
    returns (r: bool)
    requires IsText(text) && curlp <= top <= |text| && Encoded(code, items) && i < |items| && ep == Off(items, i)
    requires ItemAt(code, ep, items[i]) && code[ep] == CCHR
    ensures r <==> SomeFrom(items, i, text, curlp, top)
    decreases |items| - i, 2
  {
    var lp: int, c := top, code[ep + 1];
    while lp >= curlp
      invariant curlp - 1 <= lp <= top && NoneFrom(items, i, text, lp, top)
    {
      if At(text, lp) == c {
        r := Advance(text, lp, code, ep, items, i);
        if r {
          return;
        }
      } else {
        FirstDiffers(code, ep, items, i, text, lp);
      }
      NoneStep(items, i, text, lp, top);
      lp := lp - 1;
    }
    return false;
  }

  lemma {:induction false} OffWithin(code: seq<int>, items: seq<Item>, i: nat)
    requires Encoded(code, items) && i <= |items|
    ensures Off(items, i) < |code|
    ensures code[Off(items, i)] == if i < |items| then Opcode(items[i]) else CEOF
    ensures i < |items| ==> ItemAt(code, Off(items, i), items[i])
  {
    if i < |items| {
      assert Placed(code, items, i);
    }
  }

  lemma {:induction false} FirstDiffers(code: seq<int>, ep: nat, items: seq<Item>, i: nat, text: seq<int>, p: nat)
    requires i < |items| && p <= |text| && ItemAt(code, ep, items[i]) && code[ep] == CCHR && At(text, p) != code[ep + 1]
    ensures !Accepts(items, i, text, p)
  {
    match items[i]
    case Chr(c, star) => assert !star;
    case _ =>
  }

  /** Whether there is a match is the same question at both places. */
  ghost predicate SameAnswer(items: seq<Item>, text: seq<int>, i: nat, p: nat, j: nat, q: nat) {
    i <= |items| && j <= |items| && p <= |text| && q <= |text|
        && (Accepts(items, i, text, p) <==> Accepts(items, j, text, q))
  }

  lemma {:induction false} SameStep(items: seq<Item>, text: seq<int>, i: nat, p: nat, j: nat, q: nat, k: nat, r: nat)
    requires SameAnswer(items, text, i, p, j, q) && SameAnswer(items, text, j, q, k, r)
    ensures SameAnswer(items, text, i, p, k, r)
  {
  }

  /** `advance`: the code from ep on matches the line from lp on exactly if the language has a string there. */
  method Advance(text: seq<int>, lp0: nat, code: seq<int>, ep0: nat, ghost items: seq<Item>, ghost i0: nat)
    returns (r: bool)
    requires IsText(text) && lp0 <= |text| && Encoded(code, items) && i0 <= |items| && ep0 == Off(items, i0)
    ensures r <==> Accepts(items, i0, text, lp0)
    decreases |items| - i0, 1
  {
    var lp: nat, ep: nat := lp0, ep0;
    ghost var i: nat := i0;
    while true
      invariant i0 <= i <= |items| && lp <= |text| && ep == Off(items, i)
      invariant SameAnswer(items, text, i0, lp0, i, lp)
      decreases |items| - i
    {
      OffWithin(code, items, i);
      if code[ep] == CEOF {
        return true;
      }
      ghost var next := i + 1;
      NextOff(items, i, next);
      var size: nat, to: nat, decided;
      if code[ep] == CCHR + STAR || code[ep] == CDOT + STAR || code[ep] == CCL + STAR {
        size, decided, r := StarStep(text, lp, code, ep, items, i, next);
        to := lp;
      } else {
        size, to, r := Step(text, lp, code, ep, items, i, next);
        decided := !r;
      }
      if decided {
        return;
      }
      SameStep(items, text, i0, lp0, i, lp, next, to);
      ep, lp, i := ep + size, to, next;
    }
  }

  /** The starred cases: decided by what follows the run, unless the run is empty. */
  method StarStep(text: seq<int>, lp: nat, code: seq<int>, ep: nat, ghost items: seq<Item>, ghost i: nat,
                  ghost next: nat)
    returns (size: nat, decided: bool, r: bool)
    requires IsText(text) && lp <= |text| && Encoded(code, items) && next == i + 1 <= |items| && ep == Off(items, i)
    requires ItemAt(code, ep, items[i])
    requires code[ep] == CCHR + STAR || code[ep] == CDOT + STAR || code[ep] == CCL + STAR
    ensures size == Size(items[i])
    ensures decided ==> (r <==> MatchesAt(items, i, text, lp))
    ensures !decided ==> SameAnswer(items, text, i, lp, next, lp)
    decreases |items| - i, 0
  {
    var top;
    size, top := RunOf(text, lp, code, ep, items[i]);
    RunReaches(items, i, text, lp, top, next);
    decided := top != lp;
    r := false;
    if decided {
      NextOff(items, i, next);
      r := TryBack(text, lp, top, code, ep + size, items, next);
    }
  }

  method RunOf(text: seq<int>, lp: nat, code: seq<int>, ep: nat, ghost item: Item) returns (size: nat, top: nat)
    requires IsText(text) && lp <= |text| && ItemAt(code, ep, item)
    requires code[ep] == CCHR + STAR || code[ep] == CDOT + STAR || code[ep] == CCL + STAR
    ensures Starred(item) && size == Size(item) && LongestRun(item, text, lp, top)
  {
    size := if code[ep] == CCHR + STAR then 2 else if code[ep] == CDOT + STAR then 1 else 17;
    top := Run(text, lp, code, ep, item);
  }

  /** The cases without a star: how far in the code and in the line, or no match. */
  method Step(text: seq<int>, lp: nat, code: seq<int>, ep: nat, ghost items: seq<Item>, ghost i: nat, ghost next: nat)
    returns (size: nat, to: nat, fits: bool)
    requires IsText(text) && lp <= |text| && next == i + 1 <= |items| && ItemAt(code, ep, items[i])
    requires code[ep] != CCHR + STAR && code[ep] != CDOT + STAR && code[ep] != CCL + STAR
    ensures size == Size(items[i])
    ensures fits ==> SameAnswer(items, text, i, lp, next, to)
    ensures !fits ==> !Accepts(items, i, text, lp)
  {
    EndFitsNothing(code, ep, items[i]);
    to := lp + 1;
    if code[ep] == CCHR {
      size, fits := 2, code[ep + 1] == At(text, lp);
    } else if code[ep] == CDOT {
      size, fits := 1, At(text, lp) != 0;
    } else if code[ep] == CDOL {
      size, to, fits := 1, lp, At(text, lp) == 0;
    } else if code[ep] == CCL {
      fits := TestClass(code, ep + 1, At(text, lp), items[i]);
      size := 17;
    } else {
      size, to, fits := 2, lp, true;
    }
  }

  /** The choice of `execute` for one line: at the front only for a pattern with a circumflex, otherwise from every
      position, of which those with another first character are passed over quickly. */
  method Selects(text: seq<int>, code: seq<int>, circf: bool, ghost items: seq<Item>) returns (found: bool)
    requires IsText(text) && Encoded(code, items)
    ensures found <==> if circf then InLanguage(items, 0, text, 0)
                       else exists p: nat :: p <= |text| && InLanguage(items, 0, text, p)
  {
    forall p: nat | p <= |text| ensures Accepts(items, 0, text, p) <==> InLanguage(items, 0, text, p) {
      AcceptsIsLanguage(items, 0, text, p);
    }
    if circf {
      found := Advance(text, 0, code, 0, items, 0);
      return;
    }
    OffWithin(code, items, 0);
    var p1 := 0;
    if code[0] == CCHR {
      var c := code[1];
      while p1 <= |text|
        invariant p1 <= |text| + 1 && forall p: nat | p < p1 :: !InLanguage(items, 0, text, p)
      {
        if At(text, p1) == c {
          found := Advance(text, p1, code, 0, items, 0);
          if found {
            return;
          }
        } else {
          FirstDiffers(code, 0, items, 0, text, p1);
        }
        p1 := p1 + 1;
      }
      return false;
    }
    while p1 <= |text|
      invariant p1 <= |text| + 1 && forall p: nat | p < p1 :: !InLanguage(items, 0, text, p)
    {
      found := Advance(text, p1, code, 0, items, 0);
      if found {
        return;
      }
      p1 := p1 + 1;
    }
    return false;
  }
}
