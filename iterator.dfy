/**
 * hash_table::iterator: a pair of slot pointers, the current slot and the
 * end of the slot array, both NULL once the iteration is over.
 */
module Iterators {
  import opened Options
  import opened Slots
  import opened Scan

  /** A slot pointer: NULL, or slot `index` of the slot array `block` (index == block.Length is one past the end). */
  datatype Ptr<T> = Null | At(block: array<Slot<T>>, index: nat)

  class Iterator<T> {
    /** m_slot */
    var slot: Ptr<T>
    /** m_limit */
    var limit: Ptr<T>

    /** Both pointers are NULL, or both point into the same slot array with the current slot at or before the limit. */
    ghost predicate Valid()
      reads this
    {
      (slot.Null? && limit.Null?) ||
      (slot.At? && limit.At? && slot.block == limit.block && slot.index <= limit.index <= limit.block.Length)
    }

    /** A valid iterator that is either finished or stands on a live slot. */
    ghost predicate Positioned()
      reads this, if slot.At? then {slot.block} else {}
    {
      Valid() && (slot.At? ==> slot.index < limit.index && slot.block[slot.index].Live?)
    }

    /** The live slots the iteration has still to visit, the current one first. */
    ghost function Remaining(): seq<nat>
      reads this, if slot.At? then {slot.block} else {}
      requires Valid()
    {
      if slot.At? then LiveBetween(slot.block[..], slot.index, limit.index) else []
    }

    /** iterator (): the finished iterator that end () returns. */
    constructor Finished()
      ensures slot == Null && limit == Null && Positioned() && Remaining() == []
    {
      slot, limit := Null, Null;
    }

    /** iterator (slot, limit) */
    constructor (block: array<Slot<T>>, from: nat, to: nat)
      requires from <= to <= block.Length
      ensures slot == At(block, from) && limit == At(block, to) && Valid()
    {
      slot, limit := At(block, from), At(block, to);
    }

    /**
     * slide: move the current slot forward to the first live slot before
     * the limit, or make both pointers NULL when there is none.  The live
     * slots still to visit are the same.
     */
    method Slide()
      requires Valid()
      modifies this
      ensures Positioned() && Remaining() == old(Remaining())
      ensures old(slot).At? ==> match NextLive(old(slot).block[..], old(slot).index, old(limit).index)
        case Some(i) => slot == At(old(slot).block, i) && limit == old(limit)
        case None => slot == Null && limit == Null
    {
      if slot.Null? {
        limit := Null;
        return;
      }
      ghost var t := slot.block[..];
      NextLiveHead(t, slot.index, limit.index);
      while slot.index < limit.index
        invariant Valid() && slot.At? && slot.block == old(slot).block && limit == old(limit)
        invariant old(slot).index <= slot.index
        invariant NextLive(t, slot.index, limit.index) == NextLive(t, old(slot).index, limit.index)
        invariant LiveBetween(t, slot.index, limit.index) == LiveBetween(t, old(slot).index, limit.index)
        decreases limit.index - slot.index
      {
        if slot.block[slot.index].Live? {
          return;
        }
        slot := At(slot.block, slot.index + 1);
      }
      slot, limit := Null, Null;
    }

    /** operator++: step past the current live slot and slide; the first remaining slot is consumed. */
    method Next()
      requires Positioned() && slot.At?
      modifies this
      ensures Positioned() && Remaining() == old(Remaining())[1..]
      ensures slot.At? ==> slot.block == old(slot).block && limit == old(limit)
    {
      slot := At(slot.block, slot.index + 1);
      Slide();
    }

    /** operator*: the value in the current slot, the first of the remaining ones. */
    method Current() returns (v: T)
      requires Positioned() && slot.At?
      ensures Remaining() != [] && slot.block[Remaining()[0]] == Live(v)
    {
      v := slot.block[slot.index].value;
    }

    /**
     * operator!=: the pointers differ.  Against end (), a positioned
     * iterator differs exactly while live slots remain.
     */
    method Differs(other: Iterator<T>) returns (r: bool)
      requires Positioned()
      ensures r == (slot != other.slot || limit != other.limit)
      ensures other.slot.Null? && other.limit.Null? ==> (r <==> Remaining() != [])
    {
      r := slot != other.slot || limit != other.limit;
    }
  }
}
