/** Facts about numbers that more than one program rests on. */
module Arithmetic {

  ghost function Two(d: nat): (t: int)
    ensures t >= 1
  {
    if d == 0 then 1 else 2 * Two(d - 1)
  }

  /** Quotient and remainder are what they are said to be. */
  lemma {:induction false} QuotientIs(x: int, t: int, q: int, r: int)
    requires t > 0 && x == q * t + r && 0 <= r < t
    ensures x / t == q && x % t == r
  {
    var q', r' := x / t, x % t;
    assert (q' - q) * t == r - r' by {
      assert q' * t - q * t == (q' - q) * t;
    }
    assert q' - q >= 1 ==> (q' - q) * t >= t;
    assert q' - q <= -1 ==> (q' - q) * t <= -t;
  }

  lemma {:induction false} MulLe(a: int, b: int, p: int)
    requires a <= b && 0 <= p
    ensures a * p <= b * p
  {
  }

  lemma {:induction false} MulLt(a: int, b: int, p: int)
    requires a < b && 0 < p
    ensures a * p < b * p
  {
  }

  /** The numbers below n. */
  ghost function UpTo(n: nat): (s: set<nat>)
    ensures forall k: nat :: k in s <==> k < n
    ensures |s| == n
  {
    if n == 0 then {} else UpTo(n - 1) + {n - 1}
  }

  lemma {:induction false} SubsetSize<T>(s: set<T>, t: set<T>)
    requires s <= t
    ensures |s| <= |t|
  {
    assert t == s + (t - s);
  }

  /** Going up from `start` and round, y comes before `end`. */
  ghost predicate OnTheWay(start: int, end: int, y: int) {
    if start <= end then start <= y < end else start <= y || y < end
  }
}
