/** Reading a circular buffer as a sequence. */
module Rings {

  /** `count` slots starting at `start`, wrapping at the end of the buffer. */
  function Window<T>(buf: seq<T>, start: nat, count: nat): (w: seq<T>)
    requires start < |buf| && count <= |buf|
    ensures |w| == count
  {
    if start + count <= |buf| then buf[start..start + count]
    else buf[start..] + buf[..start + count - |buf|]
  }

  /** The slot `k` places after `start`. */
  function Slot(size: nat, start: nat, k: nat): (i: nat)
    requires start < size && k <= size
    ensures i == (start + k) % size && i < size
  {
    if start + k < size then start + k else start + k - size
  }

  lemma WindowAt<T>(buf: seq<T>, start: nat, count: nat, k: nat)
    requires start < |buf| && k < count <= |buf|
    ensures Window(buf, start, count)[k] == buf[Slot(|buf|, start, k)]
  {}

  /** Writing the slot after the window appends to it. */
  lemma WindowPush<T>(buf: seq<T>, start: nat, count: nat, x: T)
    requires start < |buf| && count < |buf|
    ensures Window(buf[Slot(|buf|, start, count) := x], start, count + 1) == Window(buf, start, count) + [x]
  {}

  /** Advancing the start drops the oldest. */
  lemma WindowPop<T>(buf: seq<T>, start: nat, count: nat)
    requires start < |buf| && 1 <= count <= |buf|
    ensures Window(buf, Slot(|buf|, start, 1), count - 1) == Window(buf, start, count)[1..]
  {}

  /** An overwriting log: slot k mod size holds entry k, for the last `size` entries. */
  predicate KeepsLast<T(==)>(buf: seq<T>, log: seq<T>) {
    |buf| > 0 && forall k :: 0 <= k < |log| && |log| - |buf| <= k ==> buf[k % |buf|] == log[k]
  }

  lemma KeptAt<T>(buf: seq<T>, log: seq<T>, k: nat)
    requires KeepsLast(buf, log) && k < |log| && |log| - |buf| <= k
    ensures buf[k % |buf|] == log[k]
  {}

  lemma ModInjective(j: nat, k: nat, size: nat)
    requires 0 < size && j % size == k % size && j <= k < j + size
    ensures j == k
  {
    var p, q := j / size, k / size;
    assert k - j == q * size - p * size;
    assert q * size - p * size == (q - p) * size by { Distribute(p, q, size); }
    if q - p >= 1 {
      AtLeastOne(q - p, size);
    } else if q - p <= -1 {
      AtLeastOne(p - q, size);
      Distribute(q, p, size);
    }
  }

  lemma Distribute(p: int, q: int, size: int)
    ensures q * size - p * size == (q - p) * size
  {}

  lemma AtLeastOne(d: int, size: int)
    requires d >= 1 && size >= 0
    ensures d * size >= size
  {}

  /** Writing the slot of the next entry keeps the log of the last ones. */
  lemma KeepsLastAppend<T>(buf: seq<T>, log: seq<T>, x: T)
    requires KeepsLast(buf, log)
    ensures KeepsLast(buf[|log| % |buf| := x], log + [x])
  {
    var n := |log|;
    forall k | 0 <= k < n + 1 && n + 1 - |buf| <= k
      ensures buf[n % |buf| := x][k % |buf|] == (log + [x])[k]
    {
      if k < n && k % |buf| == n % |buf| {
        ModInjective(k, n, |buf|);
      }
    }
  }
}
