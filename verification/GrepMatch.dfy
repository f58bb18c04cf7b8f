/** The byte code of grep (grep.c), the language it stands for, and the matcher `advance`. */
module GrepMatch {

  const CBRA: int := 1
  const CCHR: int := 2
  const CDOT: int := 4
  const CCL: int := 6
  const CDOL: int := 10
  const CEOF: int := 11
  const CKET: int := 12
  const STAR: int := 1

  // ---------------------------------------------------------------- bits of a class

  /** Bit k of a byte. */
  predicate HasBit(b: int, k: nat)
    decreases k
  {
    if k == 0 then b % 2 == 1 else HasBit(b / 2, k - 1)
  }

  /** The character x is in the class whose sixteen bytes are code[at..at + 16]. */
  predicate InMap(code: seq<int>, at: nat, x: int)
    requires at + 16 <= |code| && 0 <= x < 128
  {
    HasBit(code[at + x / 8], x % 8)
  }

  // ---------------------------------------------------------------- items

  /** What one element of a pattern compiles to. */
  datatype Item =
    | Chr(c: int, star: bool)
    | Dot(star: bool)
    | Class(chars: set<int>, star: bool)
    | Bra(n: int)
    | Ket(n: int)
    | Dol

  predicate Starred(item: Item) {
    !item.Bra? && !item.Ket? && !item.Dol? && item.star
  }

  function Size(item: Item): nat {
    match item
    case Chr(_, _) => 2
    case Dot(_) => 1
    case Class(_, _) => 17
    case Bra(_) => 2
    case Ket(_) => 2
    case Dol => 1
  }

  function Opcode(item: Item): int {
    match item
    case Chr(_, star) => CCHR + (if star then STAR else 0)
    case Dot(star) => CDOT + (if star then STAR else 0)
    case Class(_, star) => CCL + (if star then STAR else 0)
    case Bra(_) => CBRA
    case Ket(_) => CKET
    case Dol => CDOL
  }

  ghost predicate ClassAt(code: seq<int>, at: nat, chars: set<int>) {
    at + 16 <= |code| && 0 !in chars && forall x | 0 <= x < 128 :: InMap(code, at, x) <==> x in chars
  }

  /** The item stands at this place in the code. */
  ghost predicate ItemAt(code: seq<int>, at: nat, item: Item) {
    && at + Size(item) <= |code| && code[at] == Opcode(item)
    && match item
       case Chr(c, _) => code[at + 1] == c && c != 0
       case Class(chars, _) => ClassAt(code, at + 1, chars)
       case _ => true
  }

  /** Where the code of item i begins. */
  ghost function Off(items: seq<Item>, i: nat): nat
    requires i <= |items|
  {
    if i == 0 then 0 else Off(items, i - 1) + Size(items[i - 1])
  }

  ghost predicate Placed(code: seq<int>, items: seq<Item>, i: nat)
    requires i < |items|
  {
    ItemAt(code, Off(items, i), items[i])
  }

  ghost predicate Encoded(code: seq<int>, items: seq<Item>) {
    && Off(items, |items|) < |code| && code[Off(items, |items|)] == CEOF
    && forall i {:trigger Placed(code, items, i)} | 0 <= i < |items| :: Placed(code, items, i)
  }

  // ---------------------------------------------------------------- the language

  /** A line: no character of it is zero. */
  ghost predicate IsText(text: seq<int>) {
    forall p | 0 <= p < |text| :: 0 < text[p] < 256
  }

  /** What the matcher reads at position p, the end of the line included. */
  function At(text: seq<int>, p: nat): int
    requires p <= |text|
  {
    if p < |text| then text[p] else 0
  }

  predicate Fits(item: Item, ch: int) {
    match item
    case Chr(c, _) => ch == c
    case Dot(_) => ch != 0
    case Class(chars, _) => ch % 128 in chars
    case _ => false
  }

  /** The stretch of text from a to b is spelled by the item. */
  ghost predicate Piece(item: Item, text: seq<int>, a: nat, b: nat) {
    && a <= b <= |text|
    && match item
       case Bra(_) => a == b
       case Ket(_) => a == b
       case Dol => a == b == |text|
       case _ => if item.star then forall k | a <= k < b :: Fits(item, text[k]) else b == a + 1 && Fits(item, text[a])
  }

  /** The text from cuts[0] on falls into pieces, one for each item from i on. */
  ghost predicate Spelled(items: seq<Item>, i: nat, text: seq<int>, cuts: seq<nat>) {
    && i <= |items| && |cuts| == |items| - i + 1 && cuts[0] <= |text|
    && forall j | 0 <= j < |items| - i :: Cut(items, i, text, cuts, j)
  }

  ghost predicate Cut(items: seq<Item>, i: nat, text: seq<int>, cuts: seq<nat>, j: nat)
    requires i + j < |items| && |cuts| == |items| - i + 1
  {
    Piece(items[i + j], text, cuts[j], cuts[j + 1])
  }

  /** Some stretch of text that begins at p is in the language of the items from i on. */
  ghost predicate InLanguage(items: seq<Item>, i: nat, text: seq<int>, p: nat) {
    exists cuts: seq<nat> :: Spelled(items, i, text, cuts) && cuts[0] == p
  }

  /** The same, one character at a time. */
  ghost predicate Accepts(items: seq<Item>, i: nat, text: seq<int>, p: nat)
    requires i <= |items| && p <= |text|
    decreases |items| - i, |text| - p
  {
    if i == |items| then true
    else match items[i]
      case Bra(_) => Accepts(items, i + 1, text, p)
      case Ket(_) => Accepts(items, i + 1, text, p)
      case Dol => p == |text| && Accepts(items, i + 1, text, p)
      case item =>
        if item.star then
          Accepts(items, i + 1, text, p) || (p < |text| && Fits(item, text[p]) && Accepts(items, i, text, p + 1))
        else p < |text| && Fits(item, text[p]) && Accepts(items, i + 1, text, p + 1)
  }

  lemma {:induction false} SpelledTail(items: seq<Item>, i: nat, text: seq<int>, cuts: seq<nat>)
    requires Spelled(items, i, text, cuts) && i < |items|
    ensures Piece(items[i], text, cuts[0], cuts[1]) && Spelled(items, i + 1, text, cuts[1..]) && cuts[1..][0] == cuts[1]
  {
    assert Cut(items, i, text, cuts, 0);
    var rest, next := cuts[1..], i + 1;
    forall j | 0 <= j < |items| - next ensures Cut(items, next, text, rest, j) {
      assert Cut(items, i, text, cuts, j + 1);
    }
  }

  lemma {:induction false} SpelledCons(items: seq<Item>, i: nat, text: seq<int>, a: nat, rest: seq<nat>)
    requires i < |items| && Spelled(items, i + 1, text, rest) && Piece(items[i], text, a, rest[0])
    ensures Spelled(items, i, text, [a] + rest) && ([a] + rest)[0] == a
  {
    var cuts := [a] + rest;
    forall j | 0 <= j < |items| - i ensures Cut(items, i, text, cuts, j) {
      if j > 0 {
        assert Cut(items, i + 1, text, rest, j - 1);
      }
    }
  }

  /** A starred item takes any run of characters that fit it. */
  lemma {:induction false} StarTakes(items: seq<Item>, i: nat, text: seq<int>, a: nat, b: nat)
    requires i < |items| && Starred(items[i]) && a <= b <= |text| && (forall k | a <= k < b :: Fits(items[i], text[k]))
    requires Accepts(items, i + 1, text, b)
    ensures Accepts(items, i, text, a)
    decreases b - a
  {
    if a < b {
      StarTakes(items, i, text, a + 1, b);
    }
  }

  /** And nothing but such runs. */
  lemma {:induction false} StarTook(items: seq<Item>, i: nat, text: seq<int>, a: nat) returns (b: nat)
    requires i < |items| && Starred(items[i]) && a <= |text| && Accepts(items, i, text, a)
    ensures a <= b <= |text| && (forall k | a <= k < b :: Fits(items[i], text[k])) && Accepts(items, i + 1, text, b)
    decreases |text| - a
  {
    if Accepts(items, i + 1, text, a) {
      b := a;
    } else {
      b := StarTook(items, i, text, a + 1);
    }
  }

  lemma {:induction false} AcceptsSpelled(items: seq<Item>, i: nat, text: seq<int>, cuts: seq<nat>)
    requires Spelled(items, i, text, cuts)
    ensures Accepts(items, i, text, cuts[0])
    decreases |items| - i
  {
    if i < |items| {
      SpelledTail(items, i, text, cuts);
      AcceptsSpelled(items, i + 1, text, cuts[1..]);
      if Starred(items[i]) {
        StarTakes(items, i, text, cuts[0], cuts[1]);
      }
    }
  }

  lemma {:induction false} SpelledAccepts(items: seq<Item>, i: nat, text: seq<int>, p: nat) returns (cuts: seq<nat>)
    requires i <= |items| && p <= |text| && Accepts(items, i, text, p)
    ensures Spelled(items, i, text, cuts) && cuts[0] == p
    decreases |items| - i
  {
    if i == |items| {
      cuts := [p];
    } else {
      var b := p;
      if Starred(items[i]) {
        b := StarTook(items, i, text, p);
      } else if !items[i].Bra? && !items[i].Ket? && !items[i].Dol? {
        b := p + 1;
      }
      var rest := SpelledAccepts(items, i + 1, text, b);
      SpelledCons(items, i, text, p, rest);
      cuts := [p] + rest;
    }
  }

  /** Matching step by step is membership in the language. */
  lemma {:induction false} AcceptsIsLanguage(items: seq<Item>, i: nat, text: seq<int>, p: nat)
    requires i <= |items| && p <= |text|
    ensures Accepts(items, i, text, p) <==> InLanguage(items, i, text, p)
  {
    if Accepts(items, i, text, p) {
      var cuts := SpelledAccepts(items, i, text, p);
      assert Spelled(items, i, text, cuts);
    }
    if InLanguage(items, i, text, p) {
      var cuts: seq<nat> :| Spelled(items, i, text, cuts) && cuts[0] == p;
      AcceptsSpelled(items, i, text, cuts);
    }
  }
}
