/** The deterministic allocator: a bump pointer over a preallocated range, with red zones. */
module MemoryManager {
  import opened Options
  import opened Bits
  import opened AddressSpace

  const WORD: nat := Pow2(64)

  predicate IsPowerOf2(n: nat) {
    exists k: nat :: k < 64 && n == Pow2(k)
  }

  /** At least one byte is taken, so that an empty object has its own red zones. */
  function Taken(size: nat): nat {
    if size == 0 then 1 else size
  }

  function Wrap(x: nat): nat {
    x % WORD
  }

  /** `RoundUpToAlignment`, in arithmetic modulo `word`. */
  function RoundUp(word: nat, v: nat, alignment: nat): nat
    requires alignment > 0 && word > 0
  {
    (v + alignment - 1) % word / alignment * alignment
  }

  /** The address the next object gets. */
  function NextAddress(slot: nat, alignment: nat): nat
    requires alignment > 0
  {
    RoundUp(WORD, (slot + alignment - 1) % WORD, alignment)
  }

  lemma Small(v: nat, word: nat)
    requires v < word
    ensures v % word == v
  {
    DivUnique(v, word, 0, v);
  }

  lemma RoundUpFits(word: nat, v: nat, al: nat)
    requires al > 0 && v + al - 1 < word
    ensures v <= RoundUp(word, v, al) < v + al && RoundUp(word, v, al) % al == 0
  {
    Small(v + al - 1, word);
    var q := (v + al - 1) / al;
    assert v + al - 1 == q * al + (v + al - 1) % al;
    DivUnique(q * al, al, q, 0);
  }

  lemma RoundUpWraps(word: nat, v: nat, al: nat)
    requires word == 2 * al && al < v < word
    ensures RoundUp(word, v, al) == 0
  {
    DivUnique(v + al - 1, word, 1, v - al - 1);
    DivUnique(v - al - 1, al, 0, v - al - 1);
  }

  lemma Powers(k: nat)
    requires k < 63
    ensures 2 * Pow2(k) <= Pow2(63) && 2 * Pow2(63) == WORD && Pow2(k) > 0
  {
    Pow2Mono(k, 62);
    assert Pow2(63) == 2 * Pow2(62) && Pow2(64) == 2 * Pow2(63);
  }

  /** Below the largest power of two the sums do not wrap, and the address is aligned and not below the
      bump pointer. */
  lemma NextAddressFits(slot: nat, k: nat)
    requires k < 63 && slot <= Pow2(63)
    ensures var a := NextAddress(slot, Pow2(k)); slot <= a < WORD && a % Pow2(k) == 0
  {
    Powers(k);
    hide Pow2, RoundUp;
    Small(slot + Pow2(k) - 1, WORD);
    RoundUpFits(WORD, slot + Pow2(k) - 1, Pow2(k));
  }

  /** At the largest power of two they do wrap, to the null address. */
  lemma NextAddressWraps(slot: nat)
    requires 2 <= slot < Pow2(63)
    ensures NextAddress(slot, Pow2(63)) == 0
  {
    Powers(0);
    hide Pow2, RoundUp;
    Small(slot + Pow2(63) - 1, WORD);
    RoundUpWraps(WORD, slot + Pow2(63) - 1, Pow2(63));
  }

  class MemoryManager {
    const space: nat
    const spaceSize: nat
    const redZone: nat
    const nullOnZero: bool
    var nextFreeSlot: nat
    var objects: seq<MemoryObject>

    /** Objects lie in the range in allocation order, each followed by its red zone. */
    ghost predicate Valid()
      reads this
    {
      && 2 <= space <= nextFreeSlot <= space + spaceSize + redZone < Pow2(63)
      && InOrder(objects, space, redZone, nextFreeSlot)
    }

    constructor (space: nat, spaceSize: nat, redZone: nat, nullOnZero: bool)
      requires 2 <= space && space + spaceSize + redZone < Pow2(63)
      ensures Valid() && objects == [] && nextFreeSlot == space
    {
      this.space, this.spaceSize, this.redZone, this.nullOnZero := space, spaceSize, redZone, nullOnZero;
      nextFreeSlot, objects := space, [];
    }

    /** Succeeds exactly if `Succeeds` says so beforehand, and then hands out the next aligned address. The
        object is in the range and a red zone away from all others exactly when its end does not wrap
        around. A failed call leaves everything as it was, except that an alignment of 2^63 resets the
        bump pointer. */
    method Allocate(size: nat, alignment: nat) returns (r: Option<MemoryObject>)
      requires Valid() && size < WORD
      modifies this
      ensures r.Some? <==> Succeeds(nullOnZero, space + spaceSize, old(nextFreeSlot), size, alignment)
      ensures r.Some? ==> alignment > 0 && r.value == MemoryObject(NextAddress(old(nextFreeSlot), alignment), size)
      ensures r.Some? ==> objects == old(objects) + [r.value] && r.value.address % alignment == 0
      ensures r.Some? ==> (Valid() <==> NextAddress(old(nextFreeSlot), alignment) + Taken(size) < WORD)
      ensures r.None? ==> objects == old(objects)
      ensures r.None? ==> nextFreeSlot == (if Resets(size, alignment) then Taken(size) + redZone else old(nextFreeSlot))
    {
      hide Pow2, NextAddress, Wrap, IsPowerOf2, InOrder;
      Powers(0);
      LargestIsPower();
      if nullOnZero && size == 0 { return None; }
      if !IsPowerOf2(alignment) { return None; }
      Start(nextFreeSlot, alignment);
      var address := NextAddress(nextFreeSlot, alignment);
      WrappedEnd(address, Taken(size), redZone, space + spaceSize);
      if Wrap(address + Taken(size)) < space + spaceSize {
        nextFreeSlot := Wrap(address + Taken(size) + redZone);
      } else {
        address := 0;
      }
      if address == 0 { return None; }
      r := Some(MemoryObject(address, size));
      Grown(objects, space, redZone, old(nextFreeSlot), r.value, nextFreeSlot);
      objects := objects + [r.value];
    }

    predicate Resets(size: nat, alignment: nat) {
      alignment == Pow2(63) && !(nullOnZero && size == 0) && Taken(size) < space + spaceSize
    }
  }

  /** The request is one the allocator serves, and its end, in wrapping arithmetic, is before `end`. */
  predicate Succeeds(nullOnZero: bool, end: nat, slot: nat, size: nat, alignment: nat) {
    && !(nullOnZero && size == 0) && IsPowerOf2(alignment) && alignment > 0
    && NextAddress(slot, alignment) != 0 && Wrap(NextAddress(slot, alignment) + Taken(size)) < end
  }

  /** An object of 2^64 - 1 bytes is granted wherever the bump pointer stands in the range, although its
      end wraps around. */
  lemma {:induction false} WrappingRequest(nullOnZero: bool, end: nat, slot: nat)
    requires 2 <= slot <= end < Pow2(63)
    ensures Succeeds(nullOnZero, end, slot, WORD - 1, 1) && NextAddress(slot, 1) + Taken(WORD - 1) >= WORD
  {
    Powers(0);
    assert Pow2(0) == 1 && IsPowerOf2(1);
    NextAddressOne(slot);
    hide Pow2, NextAddress, IsPowerOf2;
    DivUnique(slot + WORD - 1, WORD, 1, slot - 1);
  }

  lemma NextAddressOne(slot: nat)
    requires slot < WORD
    ensures NextAddress(slot, 1) == slot
  {
    hide Pow2;
    Small(slot, WORD);
    RoundUpFits(WORD, slot, 1);
  }

  lemma LargestIsPower()
    ensures IsPowerOf2(Pow2(63))
  {
  }

  lemma Start(slot: nat, alignment: nat)
    requires IsPowerOf2(alignment) && 2 <= slot < Pow2(63)
    ensures alignment > 0
    ensures alignment == Pow2(63) ==> NextAddress(slot, alignment) == 0
    ensures alignment != Pow2(63) ==>
      slot <= NextAddress(slot, alignment) < WORD && NextAddress(slot, alignment) % alignment == 0
  {
    var k: nat :| k < 64 && alignment == Pow2(k);
    hide Pow2, NextAddress;
    if k == 63 { NextAddressWraps(slot); } else { NextAddressFits(slot, k); Powers(k); }
  }

  /** A sum of two words wraps at most once; if it does not and ends in the range, its red zone does too. */
  lemma WrappedEnd(address: nat, taken: nat, redZone: nat, end: nat)
    requires address < WORD && taken < WORD && end + redZone < Pow2(63) && 2 * Pow2(63) == WORD
    ensures Wrap(address + taken) == if address + taken < WORD then address + taken else address + taken - WORD
    ensures address + taken < end ==> Wrap(address + taken + redZone) == address + taken + redZone
  {
    hide Pow2;
    if address + taken < WORD { Small(address + taken, WORD); }
    else { DivUnique(address + taken, WORD, 1, address + taken - WORD); }
    if address + taken < end { Small(address + taken + redZone, WORD); }
  }

  ghost predicate InOrder(objects: seq<MemoryObject>, space: nat, redZone: nat, slot: nat) {
    && (forall i :: 0 <= i < |objects| ==>
      space <= objects[i].address && objects[i].address + Taken(objects[i].size) + redZone <= slot)
    && (forall i, j :: 0 <= i < j < |objects| ==>
      objects[i].address + Taken(objects[i].size) + redZone <= objects[j].address)
  }

  lemma Grown(objects: seq<MemoryObject>, space: nat, redZone: nat, slot: nat, o: MemoryObject, slot': nat)
    requires InOrder(objects, space, redZone, slot) && space <= slot <= o.address
    ensures InOrder(objects + [o], space, redZone, slot') ==> o.address + Taken(o.size) + redZone <= slot'
    ensures o.address + Taken(o.size) + redZone == slot' ==> InOrder(objects + [o], space, redZone, slot')
  {
    assert (objects + [o])[|objects|] == o;
  }

  /** What the allocator hands out is an address space as pointer resolution wants it. */
  lemma AllocatedSpace(objects: seq<MemoryObject>, space: nat, redZone: nat, slot: nat)
    requires InOrder(objects, space, redZone, slot) && slot < Pow2(63)
    ensures WFSpace(objects)
  {
    Powers(0);
  }
}
