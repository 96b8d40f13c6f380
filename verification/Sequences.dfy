/** The newest elements of a sequence. */
module Sequences {

  /** The last n elements, or all when there are fewer. */
  function Last<T>(s: seq<T>, n: nat): (r: seq<T>)
    ensures |r| == if |s| <= n then |s| else n
  {
    if |s| <= n then s else s[|s| - n..]
  }

  /** Elements that have been dropped once do not come back. */
  lemma LastOfLast<T>(a: seq<T>, b: seq<T>, n: nat)
    ensures Last(Last(a, n) + b, n) == Last(a + b, n)
  {
  }

  lemma LastOne<T>(s: seq<T>, c: T, n: nat)
    requires 0 < n && |s| <= n
    ensures Last(s + [c], n) == if |s| < n then s + [c] else s[1..] + [c]
  {
  }

  lemma LastStep<T>(before: seq<T>, logged: seq<T>, more: seq<T>, n: nat)
    ensures Last(Last(before + logged, n) + more, n) == Last(before + (logged + more), n)
  {
    hide Last;
    LastOfLast(before + logged, more, n);
    assert before + logged + more == before + (logged + more);
  }

  lemma LastWhole<T>(s: seq<T>, n: nat)
    requires |s| <= n
    ensures Last(s + [], n) == s
  {
    assert s + [] == s;
  }
}
