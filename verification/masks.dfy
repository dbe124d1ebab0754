/** Boolean masks over positions, in the manner of a pandas boolean indexer:
    turning a mask into the increasing list of selected positions, the
    `duplicated()` mask that marks repeats of an earlier key, and selection
    of the elements at a list of positions. */
module Masks {

  /** Position lists that go strictly up, so selecting by them keeps order. */
  predicate Increasing(idx: seq<nat>) {
    forall k, l :: 0 <= k < l < |idx| ==> idx[k] < idx[l]
  }

  /** The positions where `mask` is true, in increasing order. */
  function Where(mask: seq<bool>): (idx: seq<nat>)
    ensures |idx| <= |mask|
    ensures Increasing(idx)
    ensures forall k :: 0 <= k < |idx| ==> idx[k] < |mask| && mask[idx[k]]
    ensures forall i :: 0 <= i < |mask| && mask[i] ==> i in idx
  {
    if |mask| == 0 then []
    else
      var front := Where(mask[..|mask| - 1]);
      if mask[|mask| - 1] then front + [|mask| - 1] else front
  }

  /** pandas `duplicated(keep='first')`: true at every position whose key
      already occurred at an earlier position. */
  function Duplicated<K(==)>(keys: seq<K>): (m: seq<bool>)
    ensures |m| == |keys|
    ensures forall i :: 0 <= i < |keys| ==> (m[i] <==> exists j :: 0 <= j < i && keys[j] == keys[i])
  {
    seq(|keys|, i requires 0 <= i < |keys| => keys[i] in keys[..i])
  }

  function Not(m: seq<bool>): (r: seq<bool>)
    ensures |r| == |m|
    ensures forall i :: 0 <= i < |m| ==> r[i] == !m[i]
  {
    seq(|m|, i requires 0 <= i < |m| => !m[i])
  }

  /** Position `i` holds the first occurrence of its key. */
  predicate IsFirst<K(==)>(keys: seq<K>, i: nat)
    requires i < |keys|
  {
    forall j :: 0 <= j < i ==> keys[j] != keys[i]
  }

  /** The positions that `~duplicated()` keeps: the first occurrence of each key. */
  function FirstOccurrences<K(==)>(keys: seq<K>): (idx: seq<nat>)
    ensures |idx| <= |keys|
    ensures Increasing(idx)
    ensures forall k :: 0 <= k < |idx| ==> idx[k] < |keys| && IsFirst(keys, idx[k])
    ensures forall i :: 0 <= i < |keys| && IsFirst(keys, i) ==> i in idx
  {
    Where(Not(Duplicated(keys)))
  }

  /** No key is kept twice. */
  lemma FirstOccurrencesDistinct<K>(keys: seq<K>)
    ensures var idx := FirstOccurrences(keys);
      forall k, l :: 0 <= k < l < |idx| ==> keys[idx[k]] != keys[idx[l]]
  {
  }

  /** Every key keeps a representative: its first occurrence, which is at
      or before any occurrence. */
  lemma {:induction false} FirstOccurrencesCover<K>(keys: seq<K>, i: nat)
    requires i < |keys|
    ensures exists k :: 0 <= k < |FirstOccurrences(keys)| && FirstOccurrences(keys)[k] <= i
                        && keys[FirstOccurrences(keys)[k]] == keys[i]
    decreases i
  {
    var idx := FirstOccurrences(keys);
    if IsFirst(keys, i) {
      var k :| 0 <= k < |idx| && idx[k] == i;
    } else {
      var j :| 0 <= j < i && keys[j] == keys[i];
      FirstOccurrencesCover(keys, j);
    }
  }

  /** The number of true entries: `mask.sum()`. */
  function CountTrue(mask: seq<bool>): (n: nat)
    ensures n <= |mask|
  {
    if |mask| == 0 then 0
    else CountTrue(mask[..|mask| - 1]) + (if mask[|mask| - 1] then 1 else 0)
  }

  /** A mask that is true wherever another one is has at least as many true
      entries. */
  lemma {:induction false} CountTrueMonotone(a: seq<bool>, b: seq<bool>)
    requires |a| == |b|
    requires forall i :: 0 <= i < |a| && a[i] ==> b[i]
    ensures CountTrue(a) <= CountTrue(b)
    decreases |a|
  {
    if |a| > 0 {
      CountTrueMonotone(a[..|a| - 1], b[..|b| - 1]);
    }
  }

  /** A mask with no true entry counts zero and selects nothing. */
  lemma {:induction false} NoneTrue(mask: seq<bool>)
    requires forall i :: 0 <= i < |mask| ==> !mask[i]
    ensures CountTrue(mask) == 0 && Where(mask) == []
    decreases |mask|
  {
    if |mask| > 0 {
      NoneTrue(mask[..|mask| - 1]);
    }
  }

  /** The elements of `xs` at the positions `idx`, in that order. */
  function Select<T>(xs: seq<T>, idx: seq<nat>): (r: seq<T>)
    requires forall k :: 0 <= k < |idx| ==> idx[k] < |xs|
    ensures |r| == |idx|
    ensures forall k :: 0 <= k < |idx| ==> r[k] == xs[idx[k]]
  {
    seq(|idx|, k requires 0 <= k < |idx| => xs[idx[k]])
  }
}
