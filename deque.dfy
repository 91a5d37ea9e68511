/** `collections.deque(maxlen=n)` as both Python receivers use it for their
    "latest packet" slot. */
module Deque {

  /** `q.append(x)` on a deque bounded by `maxLen`: `x` goes on the right and,
      when the deque is full, the leftmost item falls off. */
  function Append<T>(q: seq<T>, x: T, maxLen: nat): (r: seq<T>)
    requires 0 < maxLen && |q| <= maxLen
    ensures |r| == if |q| < maxLen then |q| + 1 else maxLen
    ensures r == (q + [x])[|q| + 1 - |r|..]
  {
    if |q| < maxLen then q + [x] else q[1..] + [x]
  }

  /** With `maxlen=1` the slot holds only the newest item, whatever it held
      before, so the `clear()` before `append` changes nothing. */
  lemma SingleSlot<T>(q: seq<T>, x: T)
    requires |q| <= 1
    ensures Append(q, x, 1) == [x]
    ensures Append([], x, 1) == Append(q, x, 1)
  {
  }
}
