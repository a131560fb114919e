/** Merging and poison: `ExecutionState::merge` writes selects into the first state's objects without poisoning
    them, so a fast read may return what the store held before the merge. */
module MergePoison {
  import opened Bits
  import opened Exprs
  import opened Constraints
  import opened Memory
  import opened Merge
  import opened Poison

  /** Both selects of the word folded to constants. */
  predicate Folded(os: ObjectState, w: nat)
    requires os.MasksSized() && w + 1 < os.size
    reads os
  {
    os.Status(w) == os.Status(w + 1) == IN_STORE
  }

  /** Both TASE invariants survive the merge of an object exactly if each word folded or holds the poison, and
      the object stays readable exactly if each other word can hold no other bytes than its store. A word of
      which nothing folded holds the poison exactly if it did before. */
  method MergePoisoned(inA: Expr, wos: ObjectState, other: ObjectState)
    requires WFConstraint(inA) && wos.Valid() && other.Valid() && wos.size == other.size && Aligned(wos)
    requires wos != other && wos.concreteStore != other.concreteStore
    modifies wos, wos.concreteStore, other
    ensures wos.Valid() && other.Valid()
    ensures forall i, a ::
      ByteAt(wos, i, a) == if IsTrue(inA, a) then old(ByteAt(wos, i, a)) else old(ByteAt(other, i, a))
    ensures Tase(wos) <==> forall w: nat :: IsWord(wos, w) ==> Folded(wos, w) || PoisonedWord(wos, w)
    ensures Readable(wos) <==> forall w: nat :: IsWord(wos, w) && !Folded(wos, w) ==> Honest(wos, w)
    ensures forall i :: 0 <= i < wos.size ==> wos.Status(i) == IN_STORE || SymbolicAt(wos, i, old(wos.concreteStore[i]))
    ensures forall w: nat :: IsWord(wos, w) && wos.Status(w) == wos.Status(w + 1) == IN_SYMBOLS ==>
      (PoisonedWord(wos, w) <==> old(PoisonedWord(wos, w)))
  {
    hide ObjectState.Byte, ByteAt, IsTrue, Pow2, StoredByte, Honest;
    MergeObject(inA, wos, other);
    forall i | 0 <= i < wos.size ensures ConcreteIsUnflushed(wos, i) {
      assert wos.Status(i) == IN_STORE || wos.Status(i) == IN_SYMBOLS;
    }
    AllSettled(wos);
    AllHonest(wos);
    forall w: nat | IsWord(wos, w) && Folded(wos, w) ensures Honest(wos, w) { SettledIsHonest(wos, w); }
  }

  /** A merge that is not seen: byte 0 is 0 in the first object and 1 in the second, and the merged object holds
      either, depending on `inA`, but the fast read of its first word says 0. */
  method StaleMerge(inA: Expr, ghost yes: Assignment, ghost no: Assignment) returns (wos: ObjectState, e: Expr)
    requires WFConstraint(inA) && IsTrue(inA, yes) && !IsTrue(inA, no)
    ensures fresh(wos) && wos.Valid() && wos.size == 4 && WF(e) && Width(e) == 16
    ensures forall a :: wos.Byte(0, a) == if IsTrue(inA, a) then 0 else 1
    ensures forall a :: Slice(Eval(e, a), 0, INT8) == 0
  {
    hide ObjectState.ByteOk, IsTrue, Pow2, Slice, Eval, Tase, Readable, Honest, Folded, ByteOf;
    OneFits();
    wos := CleanObject();
    assert wos.Status(0) == IN_STORE && wos.concreteStore[0] == 0;
    StoreShows(wos, 0);
    var other := CleanObject();
    other.Write8(0, 1);
    assert forall a :: ByteAt(wos, 0, a) == 0 && ByteAt(other, 0, a) == 1;
    MergePoisoned(inA, wos, other);
    assert forall a :: ByteAt(wos, 0, a) == wos.Byte(0, a);
    OneValueStored(wos, 0, yes, no);
    assert wos.concreteStore[0] == 0;
    forall v: nat | Scanned(v, 0, 2) ensures !PoisonedWord(wos, v) { assert v == 0; }
    assert Fast(wos, 0, 2);
    e := Poison.Read(wos, 0, 16);
    assert forall a :: Slice(Eval(e, a), 8 * 0, INT8) == 0;
  }

  lemma OneValueStored(os: ObjectState, i: nat, a: Assignment, b: Assignment)
    requires os.Valid() && i < os.size
    ensures os.Status(i) == IN_STORE ==> os.Byte(i, a) == os.Byte(i, b)
  {
    if os.Status(i) == IN_STORE { StoreShows(os, i); }
  }

  lemma OneFits()
    ensures 1 < Pow2(INT8)
  {
  }
}
