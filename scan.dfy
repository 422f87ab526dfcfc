/**
 * Scanning the slot array in array order: the live slots of a range, the
 * iterator's slide to the next live slot, and the callbacks made by a
 * traversal that stops when the callback returns false.
 */
module Scan {
  import opened Options
  import opened Slots

  /** The live slots of [from, limit), in increasing order. */
  function LiveBetween<T>(t: seq<Slot<T>>, from: nat, limit: nat): seq<nat>
    requires limit <= |t|
    decreases limit - from
  {
    if from >= limit then []
    else if t[from].Live? then [from] + LiveBetween(t, from + 1, limit)
    else LiveBetween(t, from + 1, limit)
  }

  /** LiveBetween lists exactly the live slots of the range, each once, in increasing order. */
  lemma {:induction false} LiveBetweenIsLiveSlots<T>(t: seq<Slot<T>>, from: nat, limit: nat)
    requires limit <= |t|
    ensures forall i :: i in LiveBetween(t, from, limit) <==> from <= i < limit && t[i].Live?
    ensures forall a, b :: 0 <= a < b < |LiveBetween(t, from, limit)| ==>
      LiveBetween(t, from, limit)[a] < LiveBetween(t, from, limit)[b]
    decreases limit - from
  {
    if from < limit {
      LiveBetweenIsLiveSlots(t, from + 1, limit);
      var rest := LiveBetween(t, from + 1, limit);
      assert forall b :: 0 <= b < |rest| ==> rest[b] in rest;
    }
  }

  /** The first live slot of [from, limit): where `slide` stops. */
  function NextLive<T>(t: seq<Slot<T>>, from: nat, limit: nat): (r: Option<nat>)
    requires limit <= |t|
    ensures r.Some? ==> from <= r.value < limit && t[r.value].Live?
    ensures r.Some? ==> forall j :: from <= j < r.value ==> !t[j].Live?
    ensures r.None? ==> forall j :: from <= j < limit ==> !t[j].Live?
    decreases limit - from
  {
    if from >= limit then None
    else if t[from].Live? then Some(from)
    else NextLive(t, from + 1, limit)
  }

  /** Sliding loses no live slot: the live slots of a range are its next live slot and the live slots after it. */
  lemma {:induction false} NextLiveHead<T>(t: seq<Slot<T>>, from: nat, limit: nat)
    requires limit <= |t|
    ensures NextLive(t, from, limit).None? ==> LiveBetween(t, from, limit) == []
    ensures NextLive(t, from, limit).Some? ==>
      var i := NextLive(t, from, limit).value;
      LiveBetween(t, from, limit) == [i] + LiveBetween(t, i + 1, limit)
    decreases limit - from
  {
    if from < limit && !t[from].Live? {
      NextLiveHead(t, from + 1, limit);
    }
  }

  /** Slot i is live and the callback on it returned true, so the traversal went on. */
  predicate Continued<T>(t: seq<Slot<T>>, i: nat, cb: (nat, T) -> bool) {
    i < |t| && t[i].Live? && cb(i, t[i].value)
  }

  /**
   * The slots handed to the callback by traverse_noresize from slot p on:
   * every live slot in array order, up to and including the first one for
   * which the callback returns false.
   */
  function Calls<T>(t: seq<Slot<T>>, p: nat, cb: (nat, T) -> bool): seq<nat>
    decreases |t| - p
  {
    if p >= |t| then []
    else if t[p].Live? then (if cb(p, t[p].value) then [p] + Calls(t, p + 1, cb) else [p])
    else Calls(t, p + 1, cb)
  }

  /**
   * A traversal visits a prefix of the live slots in array order; every
   * callback but the last returned true, so it stops at the first callback
   * that returns false; it visits all of them unless the callback returned
   * false on the last slot visited, and all of them whenever the callback
   * never returns false.
   */
  lemma {:induction false} CallsArePrefix<T>(t: seq<Slot<T>>, p: nat, cb: (nat, T) -> bool)
    requires p <= |t|
    ensures Calls(t, p, cb) <= LiveBetween(t, p, |t|)
    ensures Calls(t, p, cb) == LiveBetween(t, p, |t|) ||
      (var r := Calls(t, p, cb);
       (|r| > 0 && r[|r| - 1] < |t| && t[r[|r| - 1]].Live? && !cb(r[|r| - 1], t[r[|r| - 1]].value)))
    ensures (forall i :: p <= i < |t| && t[i].Live? ==> cb(i, t[i].value)) ==>
      Calls(t, p, cb) == LiveBetween(t, p, |t|)
    ensures forall a :: 0 <= a < |Calls(t, p, cb)| - 1 ==> Continued(t, Calls(t, p, cb)[a], cb)
    decreases |t| - p
  {
    if p < |t| {
      CallsArePrefix(t, p + 1, cb);
      if t[p].Live? && cb(p, t[p].value) {
        var r := Calls(t, p + 1, cb);
        if |r| > 0 {
          assert ([p] + r)[|[p] + r| - 1] == r[|r| - 1];
        }
        forall a | 1 <= a < |[p] + r| - 1
          ensures Continued(t, ([p] + r)[a], cb)
        {
          assert ([p] + r)[a] == r[a - 1];
        }
      }
    }
  }
}
