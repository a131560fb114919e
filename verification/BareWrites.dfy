/** What happens without `applyPsnOnWrite`: the fast read trusts the store, so a symbolic value that was only
    written is read back as whatever the store held before. */
module BareWrites {
  import opened Bits
  import opened Exprs
  import opened Memory
  import opened Poison

  /** The widths the fast path serves. */
  predicate FastWidth(w: nat) {
    w == 16 || w == 32 || w == 64
  }

  /** One of the words holds the poison. */
  predicate Spelled(bytes: seq<nat>) {
    exists k :: 0 <= k && k + 1 < |bytes| && k % 2 == 0 && bytes[k] == POISON_LOW && NextIs(bytes, k, POISON_HIGH)
  }

  predicate NextIs(bytes: seq<nat>, k: nat, v: nat)
    requires k + 1 < |bytes|
  {
    bytes[k + 1] == v
  }

  /** What `write` alone leaves in the store, given what was there. */
  function BytesAfter(value: Expr, stored: seq<nat>): (bytes: seq<nat>)
    requires WF(value) && FastWidth(Width(value)) && |stored| == ByteCount(Width(value))
    ensures |bytes| == |stored|
    ensures forall k :: 0 <= k < |bytes| ==>
      bytes[k] == if Part(value, k).Constant? then Part(value, k).value else stored[k]
  {
    seq(|stored|, k requires 0 <= k < |stored| => if Part(value, k).Constant? then Part(value, k).value else stored[k])
  }

  lemma TaintedExactly(os: ObjectState, offset: nat, n: nat)
    requires offset % 2 == 0 && offset + n <= os.concreteStore.Length
    ensures Tainted(os, offset, n) <==> Spelled(os.concreteStore[offset..offset + n])
  {
    hide WordOf;
    var bytes := os.concreteStore[offset..offset + n];
    assert WordOf(offset) == offset;
    assert forall w: nat :: Scanned(w, offset, n) <==> w % 2 == 0 && offset <= w && w + 2 <= offset + n;
    hide Scanned;
    if Tainted(os, offset, n) {
      var w: nat :| Scanned(w, offset, n) && PoisonedWord(os, w);
      assert bytes[w - offset] == POISON_LOW && NextIs(bytes, w - offset, POISON_HIGH);
    }
    if Spelled(bytes) {
      var k: nat :| k + 1 < |bytes| && k % 2 == 0 && bytes[k] == POISON_LOW && NextIs(bytes, k, POISON_HIGH);
      assert Scanned(offset + k, offset, n) && PoisonedWord(os, offset + k);
    }
  }

  /** Byte `k` of the value is a constant, or can be no other than what the store already holds. */
  ghost predicate InStore(value: Expr, stored: seq<nat>, k: nat)
    requires WF(value) && FastWidth(Width(value)) && k < |stored| == ByteCount(Width(value))
  {
    Part(value, k).Constant? || forall a :: Eval(Part(value, k), a) == stored[k]
  }

  /** The condition for a write without poisoning to be read back: the store holds every byte of it, or the
      written words happen to look poisoned. */
  ghost predicate ReadsBack(value: Expr, stored: seq<nat>)
    requires WF(value) && FastWidth(Width(value)) && |stored| == ByteCount(Width(value))
  {
    Spelled(BytesAfter(value, stored)) || forall k :: 0 <= k < |stored| ==> InStore(value, stored, k)
  }

  method WriteOnly(os: ObjectState, offset: nat, value: Expr)
    requires os.Valid() && WF(value) && FastWidth(Width(value)) && offset + ByteCount(Width(value)) <= os.size
    modifies os, os.concreteStore
    ensures os.Valid() && BytesWritten(os, offset, value)
    ensures var n := ByteCount(Width(value));
      os.concreteStore[offset..offset + n] == BytesAfter(value, old(os.concreteStore[offset..offset + n]))
  {
    hide ObjectState.Byte, ObjectState.ByteOk, WF, Width, Part, Pow2;
    WriteParts(os, offset, value);
  }

  /** A write that is not followed by `applyPsnOnWrite`, read back at an even offset: right exactly if it can be,
      and otherwise what the store holds. */
  method WriteBare(os: ObjectState, offset: nat, value: Expr) returns (e: Expr)
    requires os.Valid() && Aligned(os) && WF(value) && FastWidth(Width(value)) && offset % 2 == 0
    requires offset + ByteCount(Width(value)) <= os.size
    modifies os, os.concreteStore
    ensures os.Valid() && WF(e) && Width(e) == Width(value) && BytesWritten(os, offset, value)
    ensures var stored := old(os.concreteStore[offset..offset + ByteCount(Width(value))]);
      && (SameBytes(e, value) <==> ReadsBack(value, stored))
      && (!Spelled(BytesAfter(value, stored)) ==> ByteConstants(e, BytesAfter(value, stored)))
  {
    hide ObjectState.Byte, ObjectState.ByteOk, WF, Width, Part, Slice, Eval, Pow2, Readable, Tase, Spelled, ReadsBack,
      Tainted;
    var n := ByteCount(Width(value));
    ghost var stored := os.concreteStore[offset..offset + n];
    ghost var after := BytesAfter(value, stored);
    WriteOnly(os, offset, value);
    TaintedExactly(os, offset, n);
    label written:
    e := Poison.Read(os, offset, Width(value));
    forall k, a | 0 <= k < n
      ensures Slice(Eval(e, a), 8 * k, INT8) == if Spelled(after) then Slice(Eval(value, a), 8 * k, INT8) else after[k]
    {
      assert Slice(Eval(e, a), 8 * k, INT8) == old@written(RawByte(os, offset, n, k, a));
      assert old@written(os.concreteStore[offset..offset + n])[k] == after[k];
    }
    BackExactly(e, value, stored);
  }

  /** Byte `k` of the value can be no other than `b`. */
  ghost predicate Always(value: Expr, k: nat, b: nat) {
    forall a :: Slice(Eval(value, a), 8 * k, INT8) == b
  }

  lemma BackExactly(e: Expr, value: Expr, stored: seq<nat>)
    requires WF(value) && FastWidth(Width(value)) && |stored| == ByteCount(Width(value))
    requires var after := BytesAfter(value, stored);
      if Spelled(after) then SameBytes(e, value) else ByteConstants(e, after)
    ensures SameBytes(e, value) <==> ReadsBack(value, stored)
  {
    hide WF, Width, Part, Slice, Eval, Pow2, InStore, Spelled;
    var after := BytesAfter(value, stored);
    if !Spelled(after) {
      forall k | 0 <= k < |stored| ensures InStore(value, stored, k) <==> Always(value, k, after[k]) {
        InStoreExactly(value, stored, k);
      }
      if SameBytes(e, value) {
        forall k | 0 <= k < |stored| ensures Always(value, k, after[k]) {
          forall a ensures Slice(Eval(value, a), 8 * k, INT8) == after[k] {
            assert Slice(Eval(e, a), 8 * k, INT8) == after[k];
          }
        }
      }
      if forall k :: 0 <= k < |stored| ==> InStore(value, stored, k) {
        forall k, a | 0 <= k < |stored| ensures Slice(Eval(e, a), 8 * k, INT8) == Slice(Eval(value, a), 8 * k, INT8) {
          assert Always(value, k, after[k]);
        }
      }
    }
  }

  /** The two expressions agree byte for byte, under every assignment. */
  ghost predicate SameBytes(e: Expr, value: Expr) {
    forall k, a :: 0 <= k < ByteCount(Width(value)) ==>
      Slice(Eval(e, a), 8 * k, INT8) == Slice(Eval(value, a), 8 * k, INT8)
  }

  ghost predicate ByteConstants(e: Expr, bytes: seq<nat>) {
    forall k, a :: 0 <= k < |bytes| ==> Slice(Eval(e, a), 8 * k, INT8) == bytes[k]
  }

  lemma InStoreExactly(value: Expr, stored: seq<nat>, k: nat)
    requires WF(value) && FastWidth(Width(value)) && k < |stored| == ByteCount(Width(value))
    ensures InStore(value, stored, k) <==> Always(value, k, BytesAfter(value, stored)[k])
  {
    hide WF, Width, Part, Slice, Pow2;
    var p := Part(value, k);
    forall a ensures Eval(p, a) == Slice(Eval(value, a), 8 * k, INT8) { PartMeaning(value, k, a); }
    if p.Constant? {
      assert forall a :: Eval(p, a) == p.value;
    } else if Always(value, k, stored[k]) {
      forall a ensures Eval(p, a) == stored[k] { assert Slice(Eval(value, a), 8 * k, INT8) == stored[k]; }
    }
  }

  /** The stale read: any symbolic 16-bit value written to a fresh object without poisoning reads back as a
      low byte of zero, although the object holds the value. */
  method StaleRead(x: Expr) returns (os: ObjectState, e: Expr)
    requires WF(x) && Width(x) == 16 && !Part(x, 0).Constant?
    ensures fresh(os) && os.Valid() && os.size == 4 && WF(e) && Width(e) == 16
    ensures forall a :: os.Byte(0, a) == Slice(Eval(x, a), 0, INT8)
    ensures forall a :: Slice(Eval(e, a), 0, INT8) == 0
  {
    hide ObjectState.Byte, ObjectState.ByteOk, Pow2, Slice, Eval, Part, Tase, WF, Width;
    os := CleanObject();
    ghost var after := BytesAfter(x, os.concreteStore[0..2]);
    assert after[0] == 0 && !Spelled(after);
    e := WriteBare(os, 0, x);
    assert forall a :: Slice(Eval(e, a), 8 * 0, INT8) == 0;
    assert forall a :: os.Byte(0, a) == Slice(Eval(x, a), 8 * 0, INT8);
  }
}
