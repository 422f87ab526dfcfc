/**
 * The probe searches of the table, as functions of the slot array: the
 * lookup used by find_with_hash and find_slot_with_hash, the earliest
 * tombstone on the path that an insertion reuses, and the search for a
 * free slot used when the table is rebuilt.  The size of the table is the
 * length of the slot sequence.
 */
module Search {
  import opened Options
  import opened PrimeService
  import opened Probing
  import opened Slots

  /** A live slot whose value the descriptor's `equal` matches with the comparable. */
  predicate Hit<T, C>(e: Slot<T>, c: C, eq: (T, C) -> bool) {
    e.Live? && eq(e.value, c)
  }

  /** A lookup ends at an Empty slot or at a hit; tombstones and other values are passed over. */
  predicate Stops<T, C>(e: Slot<T>, c: C, eq: (T, C) -> bool) {
    e.Empty? || Hit(e, c, eq)
  }

  /** The number of the first probe, from probe k on, at which a lookup for c ends. */
  function SearchFrom<T, C>(t: seq<Slot<T>>, h: nat, c: C, eq: (T, C) -> bool, k: nat): (r: nat)
    requires |t| >= 3
    ensures k <= r
    ensures r < |t| ==> Stops(t[ProbeAt(|t|, h, r)], c, eq)
    decreases |t| - k
  {
    if k >= |t| then k
    else if Stops(t[ProbeAt(|t|, h, k)], c, eq) then k
    else SearchFrom(t, h, c, eq, k + 1)
  }

  /** A lookup passes over every probe before the one at which it ends. */
  lemma {:induction false} SearchSkips<T, C>(t: seq<Slot<T>>, h: nat, c: C, eq: (T, C) -> bool, k: nat)
    requires |t| >= 3
    ensures forall j :: k <= j < SearchFrom(t, h, c, eq, k) && j < |t| ==> !Stops(t[ProbeAt(|t|, h, j)], c, eq)
    decreases |t| - k
  {
    if k < |t| && !Stops(t[ProbeAt(|t|, h, k)], c, eq) {
      SearchSkips(t, h, c, eq, k + 1);
    }
  }

  /** The number of the probe at which a lookup for c with hash h ends. */
  function SearchLen<T, C>(t: seq<Slot<T>>, h: nat, c: C, eq: (T, C) -> bool): nat
    requires |t| >= 3
  {
    SearchFrom(t, h, c, eq, 0)
  }

  /** The slot a lookup finds: the hit that ends the search, or None if it ended at an Empty slot. */
  function Lookup<T, C>(t: seq<Slot<T>>, h: nat, c: C, eq: (T, C) -> bool): (r: Option<nat>)
    requires |t| >= 3
    ensures r.Some? ==> r.value < |t| && Hit(t[r.value], c, eq)
  {
    var k := SearchLen(t, h, c, eq);
    if k < |t| && Hit(t[ProbeAt(|t|, h, k)], c, eq) then Some(ProbeAt(|t|, h, k)) else None
  }

  /** The number of the earliest probe below k that meets a tombstone. */
  function FirstDeletedProbe<T>(t: seq<Slot<T>>, h: nat, k: nat): (r: Option<nat>)
    requires |t| >= 3
    ensures r.Some? ==> r.value < k && t[ProbeAt(|t|, h, r.value)].Deleted?
    decreases k
  {
    if k == 0 then None
    else
      var prev := FirstDeletedProbe(t, h, k - 1);
      if prev.Some? then prev
      else if t[ProbeAt(|t|, h, k - 1)].Deleted? then Some(k - 1)
      else None
  }

  /** No probe before the earliest tombstone probe meets a tombstone, and none below k when there is none. */
  lemma {:induction false} FirstDeletedIsFirst<T>(t: seq<Slot<T>>, h: nat, k: nat)
    requires |t| >= 3
    ensures var r := FirstDeletedProbe(t, h, k);
      (r.Some? ==> forall j :: 0 <= j < r.value ==> !t[ProbeAt(|t|, h, j)].Deleted?) &&
      (r.None? ==> forall j :: 0 <= j < k ==> !t[ProbeAt(|t|, h, j)].Deleted?)
    decreases k
  {
    if k > 0 {
      FirstDeletedIsFirst(t, h, k - 1);
    }
  }

  /** The probe whose slot an insertion that misses reserves: the earliest tombstone, else the final Empty slot. */
  function ReserveProbe<T, C>(t: seq<Slot<T>>, h: nat, c: C, eq: (T, C) -> bool): nat
    requires |t| >= 3
  {
    var k := SearchLen(t, h, c, eq);
    match FirstDeletedProbe(t, h, k)
    case Some(j) => j
    case None => k
  }

  /** The slot an insertion that misses reserves. */
  function ReserveSlot<T, C>(t: seq<Slot<T>>, h: nat, c: C, eq: (T, C) -> bool): nat
    requires |t| >= 3
  {
    ProbeAt(|t|, h, ReserveProbe(t, h, c, eq))
  }

  /** Slot i lies on the probe path of h and every slot before it on that path is live. */
  ghost predicate Reachable<T>(t: seq<Slot<T>>, h: nat, i: nat)
    requires |t| >= 3
  {
    exists k :: 0 <= k < |t| && ProbeAt(|t|, h, k) == i && (forall j :: 0 <= j < k ==> t[ProbeAt(|t|, h, j)].Live?)
  }

  /** A search ends within |t| probes when the size is prime and some slot is Empty. */
  lemma SearchEnds<T, C>(t: seq<Slot<T>>, h: nat, c: C, eq: (T, C) -> bool)
    requires |t| >= 3 && IsPrime(|t|) && HasEmpty(t)
    ensures SearchLen(t, h, c, eq) < |t|
  {
    var e :| 0 <= e < |t| && t[e].Empty?;
    ProbeAtCovers(|t|, h, e);
    var k :| 0 <= k < |t| && ProbeAt(|t|, h, k) == e;
    assert Stops(t[ProbeAt(|t|, h, k)], c, eq);
    SearchSkips(t, h, c, eq, 0);
  }

  /**
   * What a lookup returns: the search passes over tombstones and values that
   * do not match, and ends at the first Empty slot (not found) or the first
   * matching live value (found) on the probe path.
   */
  lemma LookupIsFirstMatch<T, C>(t: seq<Slot<T>>, h: nat, c: C, eq: (T, C) -> bool)
    requires |t| >= 3 && IsPrime(|t|) && HasEmpty(t)
    ensures exists k :: (0 <= k < |t| &&
      (forall j :: 0 <= j < k ==>
         t[ProbeAt(|t|, h, j)].Deleted? || (t[ProbeAt(|t|, h, j)].Live? && !eq(t[ProbeAt(|t|, h, j)].value, c))) &&
      (t[ProbeAt(|t|, h, k)].Empty? ==> Lookup(t, h, c, eq) == None) &&
      (!t[ProbeAt(|t|, h, k)].Empty? ==> Hit(t[ProbeAt(|t|, h, k)], c, eq) && Lookup(t, h, c, eq) == Some(ProbeAt(|t|, h, k))))
  {
    SearchEnds(t, h, c, eq);
    SearchSkips(t, h, c, eq, 0);
    var k := SearchLen(t, h, c, eq);
    assert forall j :: 0 <= j < k ==> !Stops(t[ProbeAt(|t|, h, j)], c, eq);
  }

  /** Lemma form of the search bound: the lookup ends exactly at probe m when m is the first stopping probe. */
  lemma SearchEndsAt<T, C>(t: seq<Slot<T>>, h: nat, c: C, eq: (T, C) -> bool, m: nat)
    requires |t| >= 3 && m < |t|
    requires forall j :: 0 <= j < m ==> !Stops(t[ProbeAt(|t|, h, j)], c, eq)
    requires Stops(t[ProbeAt(|t|, h, m)], c, eq)
    ensures SearchLen(t, h, c, eq) == m
  {
    SearchSkips(t, h, c, eq, 0);
  }

  /**
   * Round trip: after an insertion that missed, writing a matching value into
   * the reserved slot makes the lookup find it there.
   */
  lemma LookupAfterStore<T, C>(t: seq<Slot<T>>, h: nat, c: C, eq: (T, C) -> bool, v: T)
    requires |t| >= 3 && IsPrime(|t|) && HasEmpty(t)
    requires Lookup(t, h, c, eq).None? && eq(v, c)
    ensures Lookup(t[ReserveSlot(t, h, c, eq) := Live(v)], h, c, eq) == Some(ReserveSlot(t, h, c, eq))
  {
    SearchEnds(t, h, c, eq);
    SearchSkips(t, h, c, eq, 0);
    var n := |t|;
    var m := ReserveProbe(t, h, c, eq);
    var i := ProbeAt(n, h, m);
    var t' := t[i := Live(v)];
    forall j | 0 <= j < m
      ensures !Stops(t'[ProbeAt(n, h, j)], c, eq)
    {
      ProbeAtInjective(n, h, j, m);
    }
    SearchEndsAt(t', h, c, eq, m);
  }

  /**
   * The slot an insertion that misses reserves lies on the probe path no
   * later than the Empty slot that ended the search, is not live, is the
   * earliest tombstone on that stretch when there is one, and is the Empty
   * slot that ended the search otherwise.
   */
  lemma {:induction false} ReserveSlotChoice<T, C>(t: seq<Slot<T>>, h: nat, c: C, eq: (T, C) -> bool)
    requires |t| >= 3 && IsPrime(|t|) && HasEmpty(t) && Lookup(t, h, c, eq).None?
    ensures ReserveProbe(t, h, c, eq) <= SearchLen(t, h, c, eq) < |t|
    ensures t[ProbeAt(|t|, h, SearchLen(t, h, c, eq))].Empty?
    ensures !t[ReserveSlot(t, h, c, eq)].Live?
    ensures forall j :: 0 <= j < ReserveProbe(t, h, c, eq) ==> !t[ProbeAt(|t|, h, j)].Deleted?
    ensures t[ReserveSlot(t, h, c, eq)].Deleted? <==>
      exists j :: 0 <= j < SearchLen(t, h, c, eq) && t[ProbeAt(|t|, h, j)].Deleted?
  {
    SearchEnds(t, h, c, eq);
    var k := SearchLen(t, h, c, eq);
    SearchSkips(t, h, c, eq, 0);
    FirstDeletedIsFirst(t, h, k);
    var fd := FirstDeletedProbe(t, h, k);
    if fd.None? {
      assert ReserveProbe(t, h, c, eq) == k;
    } else {
      assert ReserveProbe(t, h, c, eq) == fd.value;
    }
  }

  /**
   * Deletion: when c matches only the value the lookup found, marking that
   * slot Deleted makes the lookup report not-found.
   */
  lemma LookupAfterRemove<T, C>(t: seq<Slot<T>>, h: nat, c: C, eq: (T, C) -> bool, i: nat)
    requires |t| >= 3 && IsPrime(|t|) && HasEmpty(t)
    requires Lookup(t, h, c, eq) == Some(i)
    requires forall j :: 0 <= j < |t| && j != i ==> !Hit(t[j], c, eq)
    ensures Lookup(t[i := Deleted], h, c, eq) == None
  {
    var t' := t[i := Deleted];
    var e :| 0 <= e < |t| && t[e].Empty?;
    assert t'[e].Empty?;
    SearchEnds(t', h, c, eq);
  }

  /**
   * Slot i lies on the probe path of h and no slot before it on that path is
   * Empty: a search for h passes over tombstones and other values until it
   * reaches slot i.
   */
  ghost predicate Findable<T>(t: seq<Slot<T>>, h: nat, i: nat)
    requires |t| >= 3
  {
    exists k :: 0 <= k < |t| && ProbeAt(|t|, h, k) == i && (forall j :: 0 <= j < k ==> !t[ProbeAt(|t|, h, j)].Empty?)
  }

  /** Every live value is findable from its own hash. */
  ghost predicate AllFindable<T>(t: seq<Slot<T>>, hashOf: T -> nat)
    requires |t| >= 3
  {
    forall i :: 0 <= i < |t| && t[i].Live? ==> Findable(t, hashOf(t[i].value), i)
  }

  /** A matching value that is findable from its hash is always found (perhaps an earlier match). */
  lemma LookupFindsFindable<T, C>(t: seq<Slot<T>>, h: nat, c: C, eq: (T, C) -> bool, i: nat)
    requires |t| >= 3 && i < |t| && Findable(t, h, i) && Hit(t[i], c, eq)
    ensures Lookup(t, h, c, eq).Some?
  {
    var k :| 0 <= k < |t| && ProbeAt(|t|, h, k) == i &&
      forall j :: 0 <= j < k ==> !t[ProbeAt(|t|, h, j)].Empty?;
    assert Stops(t[ProbeAt(|t|, h, k)], c, eq);
    SearchSkips(t, h, c, eq, 0);
    var r := SearchLen(t, h, c, eq);
    assert r <= k;
    if r < k {
      assert !t[ProbeAt(|t|, h, r)].Empty?;
    }
  }

  /** The slot a lookup finds is findable: every probe before it was passed over. */
  lemma LookupFoundIsFindable<T, C>(t: seq<Slot<T>>, h: nat, c: C, eq: (T, C) -> bool)
    requires |t| >= 3 && Lookup(t, h, c, eq).Some?
    ensures Findable(t, h, Lookup(t, h, c, eq).value)
  {
    SearchSkips(t, h, c, eq, 0);
    var k := SearchLen(t, h, c, eq);
    assert forall j :: 0 <= j < k ==> !t[ProbeAt(|t|, h, j)].Empty?;
  }

  /** A slot reachable over live slots only is findable. */
  lemma ReachableIsFindable<T>(t: seq<Slot<T>>, h: nat, i: nat)
    requires |t| >= 3 && Reachable(t, h, i)
    ensures Findable(t, h, i)
  {
    var k :| 0 <= k < |t| && ProbeAt(|t|, h, k) == i &&
      forall j :: 0 <= j < k ==> t[ProbeAt(|t|, h, j)].Live?;
    assert forall j :: 0 <= j < k ==> !t[ProbeAt(|t|, h, j)].Empty?;
  }

  /** Findability survives any change that leaves no used slot Empty. */
  lemma FindableKept<T>(t: seq<Slot<T>>, t': seq<Slot<T>>, h: nat, i: nat)
    requires |t| >= 3 && |t'| == |t| && Findable(t, h, i)
    requires forall j :: 0 <= j < |t| && !t[j].Empty? ==> !t'[j].Empty?
    ensures Findable(t', h, i)
  {
    var k :| 0 <= k < |t| && ProbeAt(|t|, h, k) == i &&
      forall j :: 0 <= j < k ==> !t[ProbeAt(|t|, h, j)].Empty?;
    assert forall j :: 0 <= j < k ==> !t'[ProbeAt(|t|, h, j)].Empty?;
  }

  /** A table as expand leaves it, every value reachable over live slots, has every value findable. */
  lemma PlacedIsAllFindable<T>(t: seq<Slot<T>>, hashOf: T -> nat)
    requires |t| >= 3 && Placed(t, hashOf)
    ensures AllFindable(t, hashOf)
  {
    forall i | 0 <= i < |t| && t[i].Live?
      ensures Findable(t, hashOf(t[i].value), i)
    {
      ReachableIsFindable(t, hashOf(t[i].value), i);
    }
  }

  /**
   * Deletion leaves a tombstone so that the other values stay findable:
   * turning a live slot into a tombstone keeps every other value findable
   * from its hash.
   */
  lemma DeleteKeepsAllFindable<T>(t: seq<Slot<T>>, hashOf: T -> nat, j: nat)
    requires |t| >= 3 && j < |t| && t[j].Live? && AllFindable(t, hashOf)
    ensures AllFindable(t[j := Deleted], hashOf)
  {
    var t' := t[j := Deleted];
    forall i | 0 <= i < |t'| && t'[i].Live?
      ensures Findable(t', hashOf(t'[i].value), i)
    {
      FindableKept(t, t', hashOf(t[i].value), i);
    }
  }

  /**
   * The store that completes an INSERT lookup for a value v with hash h:
   * writing v into the slot the lookup returns (the hit, or the reserved
   * slot of a miss) keeps every value findable and makes v findable there.
   */
  lemma StoreKeepsAllFindable<T, C>(t: seq<Slot<T>>, hashOf: T -> nat, c: C, eq: (T, C) -> bool, v: T)
    requires |t| >= 3 && IsPrime(|t|) && HasEmpty(t) && AllFindable(t, hashOf)
    ensures var r := (match Lookup(t, hashOf(v), c, eq) case Some(i) => i case None => ReserveSlot(t, hashOf(v), c, eq));
      r < |t| && AllFindable(t[r := Live(v)], hashOf) && Findable(t[r := Live(v)], hashOf(v), r)
  {
    var h := hashOf(v);
    var l := Lookup(t, h, c, eq);
    var r := if l.Some? then l.value else ReserveSlot(t, h, c, eq);
    var t' := t[r := Live(v)];
    if l.Some? {
      LookupFoundIsFindable(t, h, c, eq);
      FindableKept(t, t', h, r);
    } else {
      SearchEnds(t, h, c, eq);
      SearchSkips(t, h, c, eq, 0);
      var m := ReserveProbe(t, h, c, eq);
      forall j | 0 <= j < m
        ensures !t'[ProbeAt(|t|, h, j)].Empty?
      {
        ProbeAtInjective(|t|, h, j, m);
      }
    }
    forall i | 0 <= i < |t'| && t'[i].Live? && i != r
      ensures Findable(t', hashOf(t'[i].value), i)
    {
      FindableKept(t, t', hashOf(t[i].value), i);
    }
  }

  /**
   * pointer_hash compares by identity: in a table whose values are all
   * findable from their own hashes, looking up a stored pointer with its
   * own hash finds a slot holding that very pointer.
   */
  lemma PointerLookupFindsStored<T>(t: seq<Slot<T>>, hashOf: T -> nat, i: nat)
    requires |t| >= 3 && AllFindable(t, hashOf) && i < |t| && t[i].Live?
    ensures var l := Lookup(t, hashOf(t[i].value), t[i].value, (x: T, y: T) => x == y);
      l.Some? && t[l.value] == t[i]
  {
    LookupFindsFindable(t, hashOf(t[i].value), t[i].value, (x: T, y: T) => x == y, i);
  }

  /**
   * Removing one pointer leaves every other stored pointer found by its own
   * hash: the lookup passes over the tombstone.
   */
  lemma PointerLookupAfterRemove<T>(t: seq<Slot<T>>, hashOf: T -> nat, i: nat, j: nat)
    requires |t| >= 3 && AllFindable(t, hashOf) && i < |t| && j < |t| && i != j && t[i].Live? && t[j].Live?
    ensures var l := Lookup(t[j := Deleted], hashOf(t[i].value), t[i].value, (x: T, y: T) => x == y);
      l.Some? && t[j := Deleted][l.value] == t[i]
  {
    DeleteKeepsAllFindable(t, hashOf, j);
    PointerLookupFindsStored(t[j := Deleted], hashOf, i);
  }

  /** The number of the first probe, from probe k on, whose slot is not live. */
  function FreeFrom<T>(t: seq<Slot<T>>, h: nat, k: nat): (r: nat)
    requires |t| >= 3
    ensures k <= r
    ensures r < |t| ==> !t[ProbeAt(|t|, h, r)].Live?
    decreases |t| - k
  {
    if k >= |t| then k
    else if !t[ProbeAt(|t|, h, k)].Live? then k
    else FreeFrom(t, h, k + 1)
  }

  /** The free slot search passes over live slots only. */
  lemma {:induction false} FreeSkips<T>(t: seq<Slot<T>>, h: nat, k: nat)
    requires |t| >= 3
    ensures forall j :: k <= j < FreeFrom(t, h, k) && j < |t| ==> t[ProbeAt(|t|, h, j)].Live?
    decreases |t| - k
  {
    if k < |t| && t[ProbeAt(|t|, h, k)].Live? {
      FreeSkips(t, h, k + 1);
    }
  }

  /**
   * find_empty_slot_for_expand as a function: the first slot on the probe
   * path that is not live, if it is Empty; None where the source aborts
   * because that slot is a tombstone.
   */
  function FreeSlot<T>(t: seq<Slot<T>>, h: nat): Option<nat>
    requires |t| >= 3
  {
    var k := FreeFrom(t, h, 0);
    if k < |t| && t[ProbeAt(|t|, h, k)].Empty? then Some(ProbeAt(|t|, h, k)) else None
  }

  /**
   * In a table of prime size with an Empty slot and no tombstone, the free
   * slot search never aborts, returns an Empty slot, and a value written
   * there is reachable from its hash.
   */
  lemma FreeSlotPlaces<T>(t: seq<Slot<T>>, h: nat, v: T)
    requires |t| >= 3 && IsPrime(|t|) && HasEmpty(t) && NoDeleted(t)
    ensures FreeSlot(t, h).Some?
    ensures t[FreeSlot(t, h).value].Empty?
    ensures Reachable(t[FreeSlot(t, h).value := Live(v)], h, FreeSlot(t, h).value)
  {
    var e :| 0 <= e < |t| && t[e].Empty?;
    ProbeAtCovers(|t|, h, e);
    var ke :| 0 <= ke < |t| && ProbeAt(|t|, h, ke) == e;
    var k := FreeFrom(t, h, 0);
    FreeSkips(t, h, 0);
    assert k <= ke;
    var i := ProbeAt(|t|, h, k);
    var t' := t[i := Live(v)];
    forall j | 0 <= j < k ensures t'[ProbeAt(|t|, h, j)].Live? {
      assert t[ProbeAt(|t|, h, j)].Live?;
    }
  }

  /** Reachability survives any change that leaves every live slot as it was. */
  lemma ReachableKept<T>(t: seq<Slot<T>>, t': seq<Slot<T>>, h: nat, i: nat)
    requires |t| >= 3 && |t'| == |t| && Reachable(t, h, i)
    requires forall j :: 0 <= j < |t| && t[j].Live? ==> t'[j] == t[j]
    ensures Reachable(t', h, i)
  {
    var k :| 0 <= k < |t| && ProbeAt(|t|, h, k) == i &&
      forall j :: 0 <= j < k ==> t[ProbeAt(|t|, h, j)].Live?;
    assert forall j :: 0 <= j < k ==> t'[ProbeAt(|t|, h, j)].Live?;
  }

  /** Every live value is reachable from its own hash. */
  ghost predicate Placed<T>(t: seq<Slot<T>>, hashOf: T -> nat)
    requires |t| >= 3
  {
    forall i :: 0 <= i < |t| && t[i].Live? ==> Reachable(t, hashOf(t[i].value), i)
  }

  /**
   * One reinsertion step of expand: in a tombstone-free table of prime size
   * with a spare slot, the free slot search for v's hash finds an Empty slot,
   * and writing v there keeps every live value reachable and adds v to the
   * live values.
   */
  lemma PlaceStep<T>(t: seq<Slot<T>>, hashOf: T -> nat, v: T)
    requires |t| >= 3 && IsPrime(|t|) && CountUsed(t) < |t| && NoDeleted(t) && Placed(t, hashOf)
    ensures HasEmpty(t) && FreeSlot(t, hashOf(v)).Some?
    ensures var q := FreeSlot(t, hashOf(v)).value; var t' := t[q := Live(v)];
      t[q].Empty? && NoDeleted(t') && Placed(t', hashOf) &&
      CountUsed(t') == CountUsed(t) + 1 && LiveValues(t') == LiveValues(t) + multiset{v}
  {
    SpareSlotIsEmpty(t);
    FreeSlotPlaces(t, hashOf(v), v);
    var q := FreeSlot(t, hashOf(v)).value;
    var t' := t[q := Live(v)];
    FillSlot(t, q, v);
    forall i | 0 <= i < |t'| && t'[i].Live?
      ensures Reachable(t', hashOf(t'[i].value), i)
    {
      if i != q {
        ReachableKept(t, t', hashOf(t[i].value), i);
      }
    }
  }

  /** What remove_elt_with_hash does, as written, after its NO_INSERT lookup. */
  datatype RemoveOutcome = NullDereference | NoOp | Tombstone(slot: nat)

  /**
   * remove_elt_with_hash as written: the NO_INSERT lookup yields the slot of
   * the hit or NULL on a miss, and the code reads *slot before testing for
   * an Empty slot, so a miss dereferences NULL. The early return for an
   * Empty slot is dead code: a hit is always live.
   */
  function RemoveAsWritten<T, C>(t: seq<Slot<T>>, h: nat, c: C, eq: (T, C) -> bool): (r: RemoveOutcome)
    requires |t| >= 3
    ensures r != NoOp
    ensures r == NullDereference <==> Lookup(t, h, c, eq).None?
    ensures r.Tombstone? ==> Lookup(t, h, c, eq) == Some(r.slot) && r.slot < |t| && Hit(t[r.slot], c, eq)
  {
    match Lookup(t, h, c, eq)
    case None => NullDereference
    case Some(i) => if t[i].Empty? then NoOp else Tombstone(i)
  }

  /** An input that shows it: removing any key from a table of five Empty slots. */
  lemma RemoveFromEmptyTableDereferencesNull()
    ensures RemoveAsWritten([Empty, Empty, Empty, Empty, Empty], 7, 3, (x: int, y: int) => x == y) == NullDereference
  {
    var t: seq<Slot<int>> := [Empty, Empty, Empty, Empty, Empty];
    assert ProbeAt(5, 7, 0) == 2;
    assert SearchFrom(t, 7, 3, (x: int, y: int) => x == y, 0) == 0;
  }
}
