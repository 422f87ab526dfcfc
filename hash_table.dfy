/**
 * hash_table<Descriptor, Allocator>: an open-addressing hash table with
 * double hashing and tombstones.  T is the descriptor's value_type, C its
 * compare_type; `hashOf` and `equal` are the descriptor's `hash` and
 * `equal`, and the descriptor's `remove` is recorded in the ghost multiset
 * `disposed`.  Slot pointers are slot indices.
 */
module HashTables {
  import opened Options
  import opened PrimeService
  import opened Probing
  import opened Slots
  import opened Search
  import opened Scan
  import opened Iterators

  datatype InsertOption = NoInsert | Insert

  /** sizeof (PTR) on the host: 8-byte pointers. */
  const PtrSize: nat := 8

  /** Above this many slots `empty` reallocates a small table instead of clearing in place. */
  const ShrinkThreshold: nat := 1024 * 1024 / PtrSize

  class HashTable<T, C> {
    /** prime_tab: the sizes the table may take. */
    const primes: seq<nat>
    /** Descriptor::hash */
    const hashOf: T -> nat
    /** Descriptor::equal */
    const equal: (T, C) -> bool

    /** m_entries */
    var entries: array<Slot<T>>
    /** m_size */
    var size: nat
    /** m_n_elements: live plus deleted slots */
    var nElements: nat
    /** m_n_deleted: tombstones */
    var nDeleted: nat
    /** m_size_prime_index */
    var sizePrimeIndex: nat
    /** The values handed to Descriptor::remove so far. */
    ghost var disposed: multiset<T>

    /** The size comes from the table of primes and matches the slot array. */
    ghost predicate Sized()
      reads this`entries, this`size, this`sizePrimeIndex
    {
      ValidPrimeTab(primes) && sizePrimeIndex < |primes| &&
      size == primes[sizePrimeIndex] && entries.Length == size && IsPrime(size) && size >= 5
    }

    /** The counters agree with the slots, and an Empty slot always remains. */
    ghost predicate Valid()
      reads this`entries, this`size, this`sizePrimeIndex, this`nElements, this`nDeleted, entries
    {
      Sized() && nDeleted == CountDeleted(entries[..]) &&
      nElements == CountUsed(entries[..]) && nElements < size
    }

    /**
     * The state left by an INSERT lookup that missed: slot i is counted but
     * still Empty, waiting for the caller to write the value into it.
     */
    ghost predicate Reserved(i: nat)
      reads this`entries, this`size, this`sizePrimeIndex, this`nElements, this`nDeleted, entries
    {
      Sized() && nDeleted == CountDeleted(entries[..]) && i < size && entries[i].Empty? &&
      nElements == CountUsed(entries[..]) + 1 && nElements < size
    }

    /** The live values of the table. */
    ghost function Contents(): multiset<T>
      reads this`entries, entries
    {
      LiveValues(entries[..])
    }

    /** expand picks a new size: the live values would fill more than half the table, or less than an eighth of a table above 32 slots. */
    ghost predicate NeedsResize()
      reads this`entries, this`size, entries
    {
      var elts := CountLive(entries[..]);
      elts * 2 > size || (elts * 8 < size && size > 32)
    }

    /** expand would need a new size and the table of primes has none large enough. */
    ghost predicate ResizeBlocked()
      reads this`entries, this`size, entries
    {
      NeedsResize() && HigherPrimeIndex(primes, CountLive(entries[..]) * 2).None?
    }

    /** The table is built for at least n elements: the first prime not below n, all slots Empty. */
    constructor (primes: seq<nat>, hashOf: T -> nat, equal: (T, C) -> bool, n: nat)
      requires ValidPrimeTab(primes) && HigherPrimeIndex(primes, n).Some?
      ensures Valid() && fresh(entries)
      ensures this.primes == primes && this.hashOf == hashOf && this.equal == equal
      ensures Some(sizePrimeIndex) == HigherPrimeIndex(primes, n) && size >= n
      ensures forall i :: 0 <= i < size ==> entries[i].Empty?
      ensures nElements == 0 && nDeleted == 0 && Contents() == multiset{} && disposed == multiset{}
    {
      var index := HigherPrimeIndex(primes, n).value;
      var sz := primes[index];
      this.primes, this.hashOf, this.equal := primes, hashOf, equal;
      entries := new Slot<T>[sz](_ => Empty);
      size, sizePrimeIndex := sz, index;
      nElements, nDeleted := 0, 0;
      disposed := multiset{};
      new;
      CountsAllEmpty(entries[..]);
    }

    /** elements (): the number of live values; the subtraction never goes below zero. */
    function Elements(): (r: int)
      reads this`entries, this`nElements, this`nDeleted, entries
      ensures Valid() ==> r == CountLive(entries[..])
    {
      LiveCounts(entries[..]);
      nElements - nDeleted
    }

    /**
     * find_with_hash: the value the lookup for c with hash h finds (the
     * first matching live value on the probe path before an Empty slot),
     * or None.  Nothing changes.
     */
    method FindWithHash(c: C, h: nat) returns (r: Option<T>)
      requires Valid()
      ensures r == (match Lookup(entries[..], h, c, equal)
                    case Some(i) => Some(entries[i].value)
                    case None => None)
    {
      ghost var t := entries[..];
      SpareSlotIsEmpty(t);
      SearchEnds(t, h, c, equal);
      SearchSkips(t, h, c, equal, 0);
      ghost var n := SearchLen(t, h, c, equal);
      var index := Mod1(h, size);
      var entry := entries[index];
      ghost var k := 0;
      if entry.Empty? || (!entry.Deleted? && equal(entry.value, c)) {
        return if entry.Empty? then None else Some(entry.value);
      }
      var hash2 := Mod2(h, size);
      while true
        invariant k < n && index == ProbeAt(size, h, k) && entry == t[index]
        decreases size - k
      {
        ProbeNext(size, h, k);
        index := index + hash2;
        if index >= size {
          index := index - size;
        }
        k := k + 1;
        entry := entries[index];
        if entry.Empty? || (!entry.Deleted? && equal(entry.value, c)) {
          return if entry.Empty? then None else Some(entry.value);
        }
      }
    }

    /**
     * clear_slot: aborts (aborted is true, nothing changes) unless slot i
     * lies in the table and is live; otherwise disposes of that value, marks
     * the slot Deleted and counts the tombstone, leaving every other slot.
     */
    method ClearSlot(i: int) returns (aborted: bool)
      requires Valid()
      modifies this`nDeleted, this`disposed, entries
      ensures Valid()
      ensures aborted == !(0 <= i < size && old(entries[i]).Live?)
      ensures aborted ==> entries[..] == old(entries[..]) && nDeleted == old(nDeleted) && disposed == old(disposed)
      ensures !aborted ==> entries[..] == old(entries[..])[i := Deleted] && nDeleted == old(nDeleted) + 1
      ensures !aborted ==> disposed == old(disposed) + multiset{old(entries[i]).value}
      ensures AllFindable(old(entries[..]), hashOf) ==> AllFindable(entries[..], hashOf)
    {
      if i < 0 || i >= size || !entries[i].Live? {
        return true;
      }
      ghost var t := entries[..];
      KillSlotCounts(t, i);
      if AllFindable(t, hashOf) {
        DeleteKeepsAllFindable(t, hashOf, i);
      }
      disposed := disposed + multiset{entries[i].value};
      entries[i] := Deleted;
      nDeleted := nDeleted + 1;
      assert entries[..] == t[i := Deleted];
      return false;
    }

    /**
     * `*slot = v` by the caller: write a value into a slot reserved by an
     * INSERT lookup, or overwrite the live value an INSERT lookup found.
     */
    method Store(i: nat, v: T)
      requires Reserved(i) || (Valid() && i < size && entries[i].Live?)
      modifies entries
      ensures Valid()
      ensures entries[..] == old(entries[..])[i := Live(v)]
    {
      CountsUpdate(entries[..], i, Live(v));
      entries[i] := Live(v);
    }

    /**
     * find_empty_slot_for_expand: the first slot on the probe path of h
     * that is not live, if it is Empty; None where the source aborts because
     * that slot is a tombstone.  Nothing changes.
     */
    method FindEmptySlotForExpand(h: nat) returns (r: Option<nat>)
      requires Sized() && HasEmpty(entries[..])
      ensures r == FreeSlot(entries[..], h)
    {
      ghost var t := entries[..];
      ghost var e :| 0 <= e < |t| && t[e].Empty?;
      ProbeAtCovers(size, h, e);
      ghost var ke :| 0 <= ke < size && ProbeAt(size, h, ke) == e;
      FreeSkips(t, h, 0);
      ghost var n := FreeFrom(t, h, 0);
      assert n <= ke;
      var index := Mod1(h, size);
      var hash2 := Mod2(h, size);
      ghost var k := 0;
      while entries[index].Live?
        invariant k <= n && index == ProbeAt(size, h, k)
        decreases n - k
      {
        ProbeNext(size, h, k);
        index := index + hash2;
        if index >= size {
          index := index - size;
        }
        k := k + 1;
      }
      if entries[index].Deleted? {
        return None;
      }
      return Some(index);
    }

    /**
     * expand: rebuild the table without tombstones, at a new prime size
     * chosen for twice the live count when the table is too full or too
     * sparse, at the same size otherwise.  Every live value is reinserted at
     * the first free slot on its own probe path.  ok is false, and nothing
     * changes, where the prime service has no prime large enough (the
     * source aborts).
     */
    method Expand() returns (ok: bool)
      requires Valid()
      modifies this`entries, this`size, this`sizePrimeIndex, this`nElements, this`nDeleted
      ensures Valid()
      ensures ok == !old(ResizeBlocked())
      ensures ok && old(NeedsResize()) ==> Some(sizePrimeIndex) == HigherPrimeIndex(primes, old(CountLive(entries[..])) * 2)
      ensures ok && !old(NeedsResize()) ==> sizePrimeIndex == old(sizePrimeIndex) && size == old(size)
      ensures ok ==> nElements == old(CountLive(entries[..])) && nDeleted == 0
      ensures ok ==> fresh(entries) && Contents() == old(Contents()) && NoDeleted(entries[..])
      ensures ok ==> Placed(entries[..], hashOf)
      ensures !ok ==> unchanged(this)
    {
      ghost var old_t := entries[..];
      var osize := size;
      var elts := Elements();
      var nindex;
      if elts * 2 > osize || (elts * 8 < osize && osize > 32) {
        var hp := HigherPrimeIndex(primes, elts * 2);
        if hp.None? {
          return false;
        }
        nindex := hp.value;
      } else {
        nindex := sizePrimeIndex;
      }
      Rebuild(nindex, elts, old_t);
      return true;
    }

    /** The new slot array of expand: allocate it at prime index nindex, reset the counters and reinsert the live values. */
    method Rebuild(nindex: nat, elts: nat, ghost old_t: seq<Slot<T>>)
      requires Sized() && entries[..] == old_t && elts == CountLive(old_t) && nindex < |primes| && elts * 2 <= primes[nindex]
      modifies this`entries, this`size, this`sizePrimeIndex, this`nElements, this`nDeleted
      ensures Valid() && fresh(entries) && sizePrimeIndex == nindex && size == primes[nindex]
      ensures nElements == CountLive(old_t) && nDeleted == 0
      ensures LiveValues(entries[..]) == LiveValues(old_t) && NoDeleted(entries[..]) && Placed(entries[..], hashOf)
    {
      var oentries := entries;
      var nsize := primes[nindex];
      var nentries := new Slot<T>[nsize](_ => Empty);
      entries, size, sizePrimeIndex := nentries, nsize, nindex;
      Reinsert(oentries, old_t);
      NoDeletedCounts(entries[..]);
      nElements, nDeleted := elts, 0;
    }

    /** The do-while loop of expand: reinsert every live value of the old slot array into the new, empty one. */
    method Reinsert(oentries: array<Slot<T>>, ghost old_t: seq<Slot<T>>)
      requires Sized() && oentries != entries && oentries[..] == old_t && CountLive(old_t) < size
      requires forall i :: 0 <= i < entries.Length ==> entries[i].Empty?
      modifies entries
      ensures NoDeleted(entries[..]) && Placed(entries[..], hashOf)
      ensures LiveValues(entries[..]) == LiveValues(old_t)
      ensures CountUsed(entries[..]) == CountLive(old_t)
    {
      CountsAllEmpty(entries[..]);
      assert old_t[..0] == [];
      var p := 0;
      while p < oentries.Length
        invariant 0 <= p <= oentries.Length
        invariant NoDeleted(entries[..]) && Placed(entries[..], hashOf)
        invariant CountUsed(entries[..]) == CountLive(old_t[..p])
        invariant LiveValues(entries[..]) == LiveValues(old_t[..p])
      {
        var x := oentries[p];
        CountsPrefix(old_t, p);
        PrefixCountBound(old_t, p + 1);
        if x.Live? {
          PlaceStep(entries[..], hashOf, x.value);
          var q := FindEmptySlotForExpand(hashOf(x.value));
          entries[q.value] := x;
        }
        p := p + 1;
      }
      assert old_t[..p] == old_t;
    }
    /**
     * The search of find_slot_with_hash, on a table that needs no expansion:
     * a hit returns its slot and changes nothing; a miss returns None for
     * NO_INSERT, and for INSERT reserves the first tombstone on the probe
     * path (turning it back into an Empty slot and uncounting it) or else
     * the Empty slot that ended the search (counting it).
     */
    method SearchSlot(c: C, h: nat, insert: InsertOption) returns (r: Option<nat>)
      requires Valid() && (insert == Insert ==> nElements + 1 < size)
      modifies this`nElements, this`nDeleted, entries
      ensures var t := old(entries[..]); var l := Lookup(t, h, c, equal);
        (l.Some? ==> r == l) &&
        (l.None? && insert == NoInsert ==> r.None?) &&
        (l.Some? || insert == NoInsert ==>
           Valid() && entries[..] == t && nElements == old(nElements) && nDeleted == old(nDeleted))
      ensures var t := old(entries[..]);
        Lookup(t, h, c, equal).None? && insert == Insert ==>
          r == Some(ReserveSlot(t, h, c, equal)) && Reserved(r.value) && entries[..] == t[r.value := Empty] &&
          CountLive(entries[..]) == CountLive(t)
    {
      SpareSlotIsEmpty(entries[..]);
      var found, index, firstDeleted := ProbePath(c, h);
      if found {
        return Some(index);
      }
      if insert == NoInsert {
        return None;
      }
      var slot := Reserve(index, firstDeleted);
      return Some(slot);
    }

    /**
     * The probe loop of find_slot_with_hash: follow the probe path of h
     * until a hit (found) or an Empty slot, remembering the first tombstone
     * passed.  Nothing changes.
     */
    method ProbePath(c: C, h: nat) returns (found: bool, index: nat, firstDeleted: Option<nat>)
      requires Sized() && HasEmpty(entries[..])
      ensures var t := entries[..]; var n := SearchLen(t, h, c, equal);
        n < size && index == ProbeAt(size, h, n) && found == !t[index].Empty? &&
        firstDeleted == (match FirstDeletedProbe(t, h, n)
                         case Some(j) => Some(ProbeAt(size, h, j))
                         case None => None)
    {
      ghost var t := entries[..];
      SearchEnds(t, h, c, equal);
      SearchSkips(t, h, c, equal, 0);
      ghost var n := SearchLen(t, h, c, equal);
      firstDeleted := None;
      index := Mod1(h, size);
      var hash2 := Mod2(h, size);
      ghost var k := 0;
      ghost var fd: Option<nat> := None;
      while !entries[index].Empty? && !(entries[index].Live? && equal(entries[index].value, c))
        invariant k <= n && index == ProbeAt(size, h, k)
        invariant fd == FirstDeletedProbe(t, h, k)
        invariant firstDeleted == (match fd case Some(j) => Some(ProbeAt(size, h, j)) case None => None)
        decreases n - k
      {
        if entries[index].Deleted? && firstDeleted.None? {
          firstDeleted := Some(index);
          fd := Some(k);
        }
        ProbeNext(size, h, k);
        index := index + hash2;
        if index >= size {
          index := index - size;
        }
        k := k + 1;
      }
      found := !entries[index].Empty?;
    }

    /**
     * The INSERT miss of find_slot_with_hash: reserve the first tombstone
     * met (made Empty again and uncounted), or else the Empty slot that
     * ended the search (counted).
     */
    method Reserve(index: nat, firstDeleted: Option<nat>) returns (r: nat)
      requires Valid() && index < size && entries[index].Empty? && nElements + 1 < size
      requires firstDeleted.Some? ==> firstDeleted.value < size && entries[firstDeleted.value].Deleted?
      modifies this`nElements, this`nDeleted, entries
      ensures r == (if firstDeleted.Some? then firstDeleted.value else index)
      ensures Reserved(r) && entries[..] == old(entries[..])[r := Empty] && CountLive(entries[..]) == old(CountLive(entries[..]))
    {
      ghost var t := entries[..];
      if firstDeleted.Some? {
        ReuseTombstoneCounts(t, firstDeleted.value);
        nDeleted := nDeleted - 1;
        entries[firstDeleted.value] := Empty;
        assert entries[..] == t[firstDeleted.value := Empty];
        return firstDeleted.value;
      }
      assert t[index := Empty] == t;
      nElements := nElements + 1;
      return index;
    }

    /**
     * find_slot_with_hash: for INSERT on a table at least three quarters
     * used (tombstones included), expand first; None, with nothing changed,
     * where that expansion is blocked.  Then search the table as it stands
     * after the expansion (pre): see SearchSlot.
     */
    method FindSlotWithHash(c: C, h: nat, insert: InsertOption) returns (r: Option<nat>, ghost pre: seq<Slot<T>>)
      requires Valid()
      modifies this`entries, this`size, this`sizePrimeIndex, this`nElements, this`nDeleted, entries
      ensures disposed == old(disposed) && |pre| == size && size >= 5 && IsPrime(|pre|) && HasEmpty(pre)
      ensures var due := insert == Insert && old(size * 3 <= nElements * 4);
        !due ==> pre == old(entries[..]) && entries == old(entries) && size == old(size) && sizePrimeIndex == old(sizePrimeIndex)
      ensures var due := insert == Insert && old(size * 3 <= nElements * 4);
        due && r.Some? ==> fresh(entries) && LiveValues(pre) == old(Contents()) && NoDeleted(pre) && Placed(pre, hashOf)
      ensures var due := insert == Insert && old(size * 3 <= nElements * 4);
        due && r.Some? ==>
          (old(NeedsResize()) ==> Some(sizePrimeIndex) == HigherPrimeIndex(primes, old(CountLive(entries[..])) * 2)) &&
          (!old(NeedsResize()) ==> sizePrimeIndex == old(sizePrimeIndex) && size == old(size))
      ensures var blocked := insert == Insert && old(size * 3 <= nElements * 4 && ResizeBlocked());
        blocked ==> r.None? && unchanged(this) && entries[..] == old(entries[..])
      ensures var blocked := insert == Insert && old(size * 3 <= nElements * 4 && ResizeBlocked());
        var l := Lookup(pre, h, c, equal);
        (!blocked && l.Some? ==> r == l && Valid() && entries[..] == pre) &&
        (!blocked && l.None? && insert == NoInsert ==> r.None? && Valid() && entries[..] == pre)
      ensures var blocked := insert == Insert && old(size * 3 <= nElements * 4 && ResizeBlocked());
        !blocked && Lookup(pre, h, c, equal).None? && insert == Insert ==>
          r == Some(ReserveSlot(pre, h, c, equal)) && Reserved(r.value) && entries[..] == pre[r.value := Empty] &&
          nElements - nDeleted == CountLive(pre) + 1
    {
      if insert == Insert && size * 3 <= nElements * 4 {
        var ok := Expand();
        if !ok {
          SpareSlotIsEmpty(entries[..]);
          return None, entries[..];
        }
      }
      pre := entries[..];
      SpareSlotIsEmpty(pre);
      assert insert == Insert ==> nElements + 1 < size;
      r := SearchSlot(c, h, insert);
      LiveCounts(entries[..]);
    }
    /**
     * remove_elt_with_hash, as its documentation promises: when the lookup
     * for c with hash h finds a live value, dispose of it and leave a
     * tombstone in its slot; when it finds nothing, change nothing.  (As
     * written, the source dereferences the NULL slot of the miss: see
     * RemoveAsWritten.)
     */
    method RemoveEltWithHash(c: C, h: nat)
      requires Valid()
      modifies this`nElements, this`nDeleted, this`disposed, entries
      ensures Valid() && nElements == old(nElements)
      ensures var t := old(entries[..]); var l := Lookup(t, h, c, equal);
        (l.None? ==> entries[..] == t && nDeleted == old(nDeleted) && disposed == old(disposed)) &&
        (l.Some? ==> entries[..] == t[l.value := Deleted] && nDeleted == old(nDeleted) + 1 &&
                     disposed == old(disposed) + multiset{t[l.value].value})
      ensures AllFindable(old(entries[..]), hashOf) ==> AllFindable(entries[..], hashOf)
    {
      var slot := SearchSlot(c, h, NoInsert);
      if slot.None? {
        return;
      }
      var i := slot.value;
      ghost var t := entries[..];
      KillSlotCounts(t, i);
      if AllFindable(t, hashOf) {
        DeleteKeepsAllFindable(t, hashOf, i);
      }
      disposed := disposed + multiset{entries[i].value};
      entries[i] := Deleted;
      nDeleted := nDeleted + 1;
      assert entries[..] == t[i := Deleted];
    }

    /**
     * The loop of ~hash_table, which empty also runs first: hand every live
     * value to Descriptor::remove, from the last slot down.  The slots and
     * counters stay as they are.
     */
    method RemoveAll()
      requires Sized()
      modifies this`disposed
      ensures disposed == old(disposed) + Contents()
    {
      ghost var t := entries[..];
      var i: int := size - 1;
      while i >= 0
        invariant -1 <= i < size
        invariant Removed(disposed, t, i + 1) == Removed(old(disposed), t, size)
      {
        if entries[i].Live? {
          disposed := disposed + multiset{entries[i].value};
        }
        i := i - 1;
      }
      RemovedIsLive(old(disposed), t, size);
      assert t[..size] == t;
    }

    /**
     * empty: dispose of every live value and leave a table of Empty slots
     * with zero counts.  A table above ShrinkThreshold slots is replaced by
     * a new one of the first prime not below 1024 / PtrSize; a smaller one
     * is cleared in place.
     */
    method Clear()
      requires Valid()
      modifies this, entries
      ensures Valid() && nElements == 0 && nDeleted == 0
      ensures forall i :: 0 <= i < size ==> entries[i].Empty?
      ensures disposed == old(disposed) + old(Contents())
      ensures old(size) > ShrinkThreshold ==>
        fresh(entries) && Some(sizePrimeIndex) == HigherPrimeIndex(primes, 1024 / PtrSize)
      ensures old(size) <= ShrinkThreshold ==>
        entries == old(entries) && size == old(size) && sizePrimeIndex == old(sizePrimeIndex)
    {
      RemoveAll();
      ResetSlots();
    }

    /** The second half of empty: reallocate a large slot array or clear a small one, and zero the counts. */
    method ResetSlots()
      requires Sized()
      modifies this`entries, this`size, this`sizePrimeIndex, this`nElements, this`nDeleted, entries
      ensures Valid() && nElements == 0 && nDeleted == 0
      ensures forall i :: 0 <= i < size ==> entries[i].Empty?
      ensures old(size) > ShrinkThreshold ==>
        fresh(entries) && Some(sizePrimeIndex) == HigherPrimeIndex(primes, 1024 / PtrSize)
      ensures old(size) <= ShrinkThreshold ==>
        entries == old(entries) && size == old(size) && sizePrimeIndex == old(sizePrimeIndex)
    {
      if size > ShrinkThreshold {
        HigherPrimeIndexFirst(primes, 1024 / PtrSize);
        var nindex := HigherPrimeIndex(primes, 1024 / PtrSize).value;
        var nsize := primes[nindex];
        entries := new Slot<T>[nsize](_ => Empty);
        size, sizePrimeIndex := nsize, nindex;
      } else {
        forall j | 0 <= j < size {
          entries[j] := Empty;
        }
      }
      nDeleted := 0;
      nElements := 0;
      CountsAllEmpty(entries[..]);
    }

    /**
     * traverse_noresize: call back on the live slots in array order,
     * stopping after the first call that returns false; visited lists the
     * slots handed to the callback.  Nothing changes.
     */
    method TraverseNoresize(callback: (nat, T) -> bool) returns (visited: seq<nat>)
      requires Sized()
      ensures visited == Calls(entries[..], 0, callback)
    {
      ghost var t := entries[..];
      visited := [];
      var p := 0;
      while p < size
        invariant p <= size && visited + Calls(t, p, callback) == Calls(t, 0, callback)
      {
        var x := entries[p];
        if x.Live? {
          visited := visited + [p];
          if !callback(p, x.value) {
            return;
          }
        }
        p := p + 1;
      }
    }

    /**
     * traverse: when fewer than an eighth of the slots of a table above 32
     * slots are live, expand (which then shrinks the table and cannot be
     * blocked) before traversing.  The live values are kept.
     */
    method Traverse(callback: (nat, T) -> bool) returns (visited: seq<nat>)
      requires Valid()
      modifies this
      ensures Valid() && Contents() == old(Contents()) && disposed == old(disposed)
      ensures visited == Calls(entries[..], 0, callback)
      ensures old(CountLive(entries[..]) * 8 < size && size > 32) ==>
        fresh(entries) && NoDeleted(entries[..]) && Placed(entries[..], hashOf) && Some(sizePrimeIndex) == HigherPrimeIndex(primes, old(CountLive(entries[..])) * 2)
      ensures !old(CountLive(entries[..]) * 8 < size && size > 32) ==> unchanged(this)
    {
      if Elements() * 8 < size && size > 32 {
        HigherPrimeIndexFirst(primes, Elements() * 2);
        assert primes[sizePrimeIndex] >= Elements() * 2;
        var ok := Expand();
        assert ok;
      }
      visited := TraverseNoresize(callback);
    }

    /** begin (): an iterator over the whole slot array, slid to the first live slot; it will visit every live slot in array order. */
    method Begin() returns (it: Iterator<T>)
      requires Sized()
      ensures fresh(it) && it.Positioned() && it.Remaining() == LiveBetween(entries[..], 0, size)
      ensures it.slot.At? ==> it.slot.block == entries && it.limit == At(entries, size)
    {
      it := new Iterator(entries, 0, size);
      it.Slide();
    }

    /** end (): the finished iterator. */
    method End() returns (it: Iterator<T>)
      ensures fresh(it) && it.Positioned() && it.Remaining() == []
    {
      it := new Iterator.Finished();
    }
  }
}
