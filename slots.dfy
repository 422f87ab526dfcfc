/**
 * A slot of the table holds nothing (HTAB_EMPTY_ENTRY), a tombstone
 * (HTAB_DELETED_ENTRY) or a live value.  The table's counters are
 * counts over the slot array: `m_n_elements` counts the slots that are not
 * Empty, `m_n_deleted` the tombstones; the live values form a multiset.
 */
module Slots {

  datatype Slot<T> = Empty | Deleted | Live(value: T)

  /** The live values of one slot. */
  function LiveOf<T>(e: Slot<T>): multiset<T> {
    if e.Live? then multiset{e.value} else multiset{}
  }

  /** Number of slots that are not Empty (live plus deleted). */
  function CountUsed<T>(s: seq<Slot<T>>): (r: nat)
    ensures r <= |s|
  {
    if |s| == 0 then 0 else (if s[0].Empty? then 0 else 1) + CountUsed(s[1..])
  }

  /** Number of tombstones. */
  function CountDeleted<T>(s: seq<Slot<T>>): nat {
    if |s| == 0 then 0 else (if s[0].Deleted? then 1 else 0) + CountDeleted(s[1..])
  }

  /** Number of live slots. */
  function CountLive<T>(s: seq<Slot<T>>): nat {
    if |s| == 0 then 0 else (if s[0].Live? then 1 else 0) + CountLive(s[1..])
  }

  /** The live values of the slots. */
  function LiveValues<T>(s: seq<Slot<T>>): multiset<T> {
    if |s| == 0 then multiset{} else LiveOf(s[0]) + LiveValues(s[1..])
  }

  /** The used slots are the live slots and the tombstones. */
  lemma {:induction false} LiveCounts<T>(s: seq<Slot<T>>)
    ensures CountLive(s) + CountDeleted(s) == CountUsed(s)
  {
    if |s| > 0 {
      LiveCounts(s[1..]);
    }
  }

  /** There are as many live values as live slots. */
  lemma {:induction false} LiveValuesCount<T>(s: seq<Slot<T>>)
    ensures |LiveValues(s)| == CountLive(s)
  {
    if |s| > 0 {
      LiveValuesCount(s[1..]);
    }
  }

  /**
   * The values handed to the descriptor's `remove` by a loop that visits the
   * slots below j from the top down, starting from the multiset d.
   */
  function Removed<T>(d: multiset<T>, s: seq<Slot<T>>, j: nat): multiset<T>
    requires j <= |s|
    decreases j
  {
    if j == 0 then d
    else if s[j - 1].Live? then Removed(d + multiset{s[j - 1].value}, s, j - 1)
    else Removed(d, s, j - 1)
  }

  /** No slot is a tombstone. */
  predicate NoDeleted<T>(s: seq<Slot<T>>) {
    forall i :: 0 <= i < |s| ==> !s[i].Deleted?
  }

  /** Some slot is Empty. */
  predicate HasEmpty<T>(s: seq<Slot<T>>) {
    exists i :: 0 <= i < |s| && s[i].Empty?
  }

  /** The counts of a concatenation are the sums of the counts. */
  lemma {:induction false} CountsConcat<T>(a: seq<Slot<T>>, b: seq<Slot<T>>)
    ensures CountUsed(a + b) == CountUsed(a) + CountUsed(b)
    ensures CountDeleted(a + b) == CountDeleted(a) + CountDeleted(b)
    ensures CountLive(a + b) == CountLive(a) + CountLive(b)
    decreases |a|
  {
    if |a| > 0 {
      assert (a + b)[0] == a[0];
      assert (a + b)[1..] == a[1..] + b;
      CountsConcat(a[1..], b);
    } else {
      assert a + b == b;
    }
  }

  /** The live values of a concatenation are the union of the live values. */
  lemma {:induction false} LiveValuesConcat<T>(a: seq<Slot<T>>, b: seq<Slot<T>>)
    ensures LiveValues(a + b) == LiveValues(a) + LiveValues(b)
    decreases |a|
  {
    if |a| > 0 {
      assert (a + b)[0] == a[0];
      assert (a + b)[1..] == a[1..] + b;
      LiveValuesConcat(a[1..], b);
    } else {
      assert a + b == b;
    }
  }

  /** The counts of a single slot. */
  lemma CountsOne<T>(e: Slot<T>)
    ensures CountUsed([e]) == (if e.Empty? then 0 else 1)
    ensures CountDeleted([e]) == (if e.Deleted? then 1 else 0)
    ensures CountLive([e]) == (if e.Live? then 1 else 0)
    ensures LiveValues([e]) == LiveOf(e)
  {
    assert [e][1..] == [];
  }

  /** Overwriting one slot changes the counts by that slot's old and new contribution only. */
  lemma CountsUpdate<T>(s: seq<Slot<T>>, i: nat, x: Slot<T>)
    requires i < |s|
    ensures CountUsed(s[i := x]) + (if s[i].Empty? then 0 else 1) == CountUsed(s) + (if x.Empty? then 0 else 1)
    ensures CountDeleted(s[i := x]) + (if s[i].Deleted? then 1 else 0) == CountDeleted(s) + (if x.Deleted? then 1 else 0)
    ensures CountLive(s[i := x]) + (if s[i].Live? then 1 else 0) == CountLive(s) + (if x.Live? then 1 else 0)
  {
    assert s == s[..i] + [s[i]] + s[i + 1..];
    assert s[i := x] == s[..i] + [x] + s[i + 1..];
    CountsConcat(s[..i] + [s[i]], s[i + 1..]);
    CountsConcat(s[..i], [s[i]]);
    CountsConcat(s[..i] + [x], s[i + 1..]);
    CountsConcat(s[..i], [x]);
    CountsOne(s[i]);
    CountsOne(x);
  }

  /** Overwriting one slot changes the live values by that slot's old and new value only. */
  lemma LiveValuesUpdate<T>(s: seq<Slot<T>>, i: nat, x: Slot<T>)
    requires i < |s|
    ensures LiveValues(s[i := x]) + LiveOf(s[i]) == LiveValues(s) + LiveOf(x)
  {
    assert s == s[..i] + [s[i]] + s[i + 1..];
    assert s[i := x] == s[..i] + [x] + s[i + 1..];
    LiveValuesConcat(s[..i] + [s[i]], s[i + 1..]);
    LiveValuesConcat(s[..i], [s[i]]);
    LiveValuesConcat(s[..i] + [x], s[i + 1..]);
    LiveValuesConcat(s[..i], [x]);
    CountsOne(s[i]);
    CountsOne(x);
  }

  /** Turning a live slot into a tombstone keeps the used count, counts one more tombstone and one live slot fewer. */
  lemma KillSlotCounts<T>(s: seq<Slot<T>>, i: nat)
    requires i < |s| && s[i].Live?
    ensures CountUsed(s[i := Deleted]) == CountUsed(s) && CountDeleted(s[i := Deleted]) == CountDeleted(s) + 1
    ensures CountLive(s[i := Deleted]) + 1 == CountLive(s)
  {
    CountsUpdate(s, i, Deleted);
  }

  /** Turning a live slot into a tombstone drops exactly its value from the live values. */
  lemma KillSlot<T>(s: seq<Slot<T>>, i: nat)
    requires i < |s| && s[i].Live?
    ensures LiveValues(s[i := Deleted]) + multiset{s[i].value} == LiveValues(s)
  {
    LiveValuesUpdate(s, i, Deleted);
    assert LiveOf<T>(Deleted) == multiset{};
    assert LiveValues(s) + multiset{} == LiveValues(s);
  }

  /** Turning a tombstone back into an Empty slot uncounts it and keeps the live slots. */
  lemma ReuseTombstoneCounts<T>(s: seq<Slot<T>>, i: nat)
    requires i < |s| && s[i].Deleted?
    ensures CountUsed(s[i := Empty]) + 1 == CountUsed(s) && CountDeleted(s[i := Empty]) + 1 == CountDeleted(s)
    ensures CountLive(s[i := Empty]) == CountLive(s)
  {
    CountsUpdate(s, i, Empty);
  }

  /** Turning a tombstone back into an Empty slot keeps the live values. */
  lemma ReuseTombstone<T>(s: seq<Slot<T>>, i: nat)
    requires i < |s| && s[i].Deleted?
    ensures LiveValues(s[i := Empty]) == LiveValues(s)
  {
    LiveValuesUpdate(s, i, Empty);
    var a, b := LiveValues(s[i := Empty]), LiveValues(s);
    assert LiveOf(s[i]) == LiveOf<T>(Empty) == multiset{};
    assert a + multiset{} == b + multiset{};
    assert a + multiset{} == a && b + multiset{} == b;
  }

  /** Writing a value into an Empty slot counts it as used and live and adds it to the live values. */
  lemma FillSlot<T>(s: seq<Slot<T>>, i: nat, v: T)
    requires i < |s| && s[i].Empty?
    ensures CountUsed(s[i := Live(v)]) == CountUsed(s) + 1 && CountDeleted(s[i := Live(v)]) == CountDeleted(s)
    ensures CountLive(s[i := Live(v)]) == CountLive(s) + 1
    ensures LiveValues(s[i := Live(v)]) == LiveValues(s) + multiset{v}
  {
    CountsUpdate(s, i, Live(v));
    LiveValuesUpdate(s, i, Live(v));
    assert LiveOf<T>(Empty) == multiset{};
    assert LiveValues(s[i := Live(v)]) + multiset{} == LiveValues(s[i := Live(v)]);
  }

  /** The counts of a prefix grow by the next slot's contribution. */
  lemma CountsPrefix<T>(s: seq<Slot<T>>, n: nat)
    requires n < |s|
    ensures CountLive(s[..n + 1]) == CountLive(s[..n]) + (if s[n].Live? then 1 else 0)
    ensures LiveValues(s[..n + 1]) == LiveValues(s[..n]) + LiveOf(s[n])
  {
    assert s[..n + 1] == s[..n] + [s[n]];
    CountsConcat(s[..n], [s[n]]);
    LiveValuesConcat(s[..n], [s[n]]);
    CountsOne(s[n]);
  }

  /** An array of Empty slots has nothing counted. */
  lemma {:induction false} CountsAllEmpty<T>(s: seq<Slot<T>>)
    requires forall i :: 0 <= i < |s| ==> s[i].Empty?
    ensures CountUsed(s) == 0 && CountDeleted(s) == 0 && CountLive(s) == 0 && LiveValues(s) == multiset{}
    decreases |s|
  {
    if |s| > 0 {
      CountsAllEmpty(s[1..]);
    }
  }

  /** Fewer used slots than slots means some slot is Empty. */
  lemma {:induction false} SpareSlotIsEmpty<T>(s: seq<Slot<T>>)
    requires CountUsed(s) < |s|
    ensures HasEmpty(s)
    decreases |s|
  {
    if !s[0].Empty? {
      SpareSlotIsEmpty(s[1..]);
      var i :| 0 <= i < |s[1..]| && s[1..][i].Empty?;
      assert s[i + 1].Empty?;
    }
  }

  /** A table with no tombstone counts exactly its live values as used. */
  lemma {:induction false} NoDeletedCounts<T>(s: seq<Slot<T>>)
    requires NoDeleted(s)
    ensures CountDeleted(s) == 0
    decreases |s|
  {
    if |s| > 0 {
      assert NoDeleted(s[1..]) by {
        forall i | 0 <= i < |s[1..]| ensures !s[1..][i].Deleted? { assert s[1..][i] == s[i + 1]; }
      }
      NoDeletedCounts(s[1..]);
    }
  }

  /** The removal loop hands over exactly the live values of the slots it visits. */
  lemma {:induction false} RemovedIsLive<T>(d: multiset<T>, s: seq<Slot<T>>, j: nat)
    requires j <= |s|
    ensures Removed(d, s, j) == d + LiveValues(s[..j])
    decreases j
  {
    if j == 0 {
      assert s[..0] == [];
    } else {
      var prev := LiveValues(s[..j - 1]);
      CountsPrefix(s, j - 1);
      if s[j - 1].Live? {
        RemovedIsLive(d + multiset{s[j - 1].value}, s, j - 1);
        assert LiveValues(s[..j]) == prev + multiset{s[j - 1].value};
      } else {
        RemovedIsLive(d, s, j - 1);
        assert LiveValues(s[..j]) == prev + multiset{};
        assert prev + multiset{} == prev;
      }
    }
  }

  /** The value of a live slot is one of the live values. */
  lemma {:induction false} LiveValueIn<T>(s: seq<Slot<T>>, i: nat)
    requires i < |s| && s[i].Live?
    ensures s[i].value in LiveValues(s)
    decreases i
  {
    if i > 0 {
      LiveValueIn(s[1..], i - 1);
      assert s[1..][i - 1] == s[i];
    }
  }

  /** A prefix has no more live slots than the whole array. */
  lemma PrefixCountBound<T>(s: seq<Slot<T>>, n: nat)
    requires n <= |s|
    ensures CountLive(s[..n]) <= CountLive(s)
  {
    assert s[..n] + s[n..] == s;
    CountsConcat(s[..n], s[n..]);
  }
}
