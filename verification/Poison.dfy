/** TASE's poison: a 16-bit word holding 0xDEAD tells native code that one of its two bytes may be
    symbolic.  Objects are even-addressed and even-sized, so words sit at even offsets. */
module Poison {
  import opened Bits
  import opened Exprs
  import opened Create
  import opened Memory

  /** The bytes of 0xDEAD as stored by a little-endian machine. */
  const POISON_LOW: nat := 0xAD
  const POISON_HIGH: nat := 0xDE

  function PoisonByte(i: nat): (b: nat)
    ensures b < Pow2(INT8)
  {
    assert Pow2(INT8) == 256;
    if i % 2 == 0 then POISON_LOW else POISON_HIGH
  }

  function WordOf(i: nat): (w: nat)
    ensures w % 2 == 0 && w <= i <= w + 1
  {
    i - i % 2
  }

  predicate Aligned(os: ObjectState) {
    os.address % 2 == 0 && os.size % 2 == 0
  }

  predicate PoisonedWord(os: ObjectState, w: nat)
    requires w + 1 < os.concreteStore.Length
    reads os.concreteStore
  {
    os.concreteStore[w] == POISON_LOW && os.concreteStore[w + 1] == POISON_HIGH
  }

  /** First TASE invariant: a byte that is not poison is concrete and nothing else. */
  ghost predicate CleanIsConcrete(os: ObjectState, i: nat)
    requires os.Valid() && Aligned(os) && i < os.size
    reads os, os.concreteStore
  {
    !PoisonedWord(os, WordOf(i)) ==> os.Status(i) == IN_STORE
  }

  /** Second TASE invariant: native code, which cannot unflush, may overwrite any concrete byte. */
  ghost predicate ConcreteIsUnflushed(os: ObjectState, i: nat)
    requires os.Valid() && i < os.size
    reads os, os.concreteStore
  {
    os.IsConcrete(i) ==> !os.IsFlushed(i)
  }

  ghost predicate Unflushed(os: ObjectState)
    requires os.Valid()
    reads os, os.concreteStore
  {
    forall i :: 0 <= i < os.size ==> ConcreteIsUnflushed(os, i)
  }

  /** Both invariants, for every byte. */
  ghost predicate Tase(os: ObjectState)
    requires os.Valid()
    reads os, os.concreteStore
  {
    Aligned(os) && Unflushed(os) && forall i :: 0 <= i < os.size ==> CleanIsConcrete(os, i)
  }

  /** The caches and the stored bytes of a word. */
  datatype WordState = WordState(low: Caches, high: Caches, lowByte: nat, highByte: nat)

  ghost function Word(os: ObjectState, w: nat): WordState
    requires os.Valid() && w + 1 < os.size
    reads os, os.concreteStore
  {
    WordState(os.Status(w), os.Status(w + 1), os.concreteStore[w], os.concreteStore[w + 1])
  }

  predicate IsWord(os: ObjectState, w: nat) {
    w + 1 < os.size && w % 2 == 0
  }

  predicate SettledWord(s: WordState) {
    (s.lowByte == POISON_LOW && s.highByte == POISON_HIGH) || s.low == s.high == IN_STORE
  }

  /** A word on which the first invariant holds for both bytes. */
  ghost predicate Settled(os: ObjectState, w: nat)
    requires os.Valid() && w + 1 < os.size
    reads os, os.concreteStore
  {
    SettledWord(Word(os, w))
  }

  lemma AllSettled(os: ObjectState)
    requires os.Valid() && Aligned(os) && Unflushed(os)
    ensures Tase(os) <==> forall w: nat :: IsWord(os, w) ==> Settled(os, w)
  {
    if Tase(os) {
      forall w: nat | IsWord(os, w) ensures Settled(os, w) {
        assert CleanIsConcrete(os, w) && CleanIsConcrete(os, w + 1) && WordOf(w) == w == WordOf(w + 1);
      }
    }
    if forall w: nat :: IsWord(os, w) ==> Settled(os, w) {
      forall i | 0 <= i < os.size ensures CleanIsConcrete(os, i) {
        assert Settled(os, WordOf(i));
      }
    }
  }

  // ----- what reads rely on -----

  /** The store shows the byte, wherever it lives. */
  ghost predicate StoredByte(os: ObjectState, i: nat)
    requires os.Valid() && i < os.size
    reads os, os.concreteStore
  {
    forall a :: os.Byte(i, a) == os.concreteStore[i]
  }

  ghost predicate CleanIsStored(os: ObjectState, i: nat)
    requires os.Valid() && Aligned(os) && i < os.size
    reads os, os.concreteStore
  {
    !PoisonedWord(os, WordOf(i)) ==> StoredByte(os, i)
  }

  /** Weaker than the first TASE invariant, and enough for reading: it also holds after a read at a symbolic
      offset has moved every byte into the symbolic cache. */
  ghost predicate Readable(os: ObjectState)
    requires os.Valid()
    reads os, os.concreteStore
  {
    Aligned(os) && Unflushed(os) && forall i :: 0 <= i < os.size ==> CleanIsStored(os, i)
  }

  ghost predicate Honest(os: ObjectState, w: nat)
    requires os.Valid() && w + 1 < os.size
    reads os, os.concreteStore
  {
    PoisonedWord(os, w) || (StoredByte(os, w) && StoredByte(os, w + 1))
  }

  lemma AllHonest(os: ObjectState)
    requires os.Valid() && Aligned(os) && Unflushed(os)
    ensures Readable(os) <==> forall w: nat :: IsWord(os, w) ==> Honest(os, w)
  {
    hide StoredByte, Unflushed;
    if Readable(os) {
      forall w: nat | IsWord(os, w) ensures Honest(os, w) {
        assert CleanIsStored(os, w) && CleanIsStored(os, w + 1) && WordOf(w) == w == WordOf(w + 1);
      }
    }
    if forall w: nat :: IsWord(os, w) ==> Honest(os, w) {
      forall i | 0 <= i < os.size ensures CleanIsStored(os, i) {
        assert IsWord(os, WordOf(i)) && Honest(os, WordOf(i));
      }
    }
  }

  lemma StoreShows(os: ObjectState, i: nat)
    requires os.Valid() && i < os.size && os.Status(i) == IN_STORE
    ensures forall a :: os.Byte(i, a) == os.concreteStore[i]
  {
  }

  lemma SettledIsHonest(os: ObjectState, w: nat)
    requires os.Valid() && IsWord(os, w) && Settled(os, w)
    ensures Honest(os, w)
  {
    hide Eval, EvalRead, Pow2;
    assert os.ByteOk(w) && os.ByteOk(w + 1);
  }

  lemma TaseIsReadable(os: ObjectState)
    requires os.Valid() && Tase(os)
    ensures Readable(os)
  {
    hide Settled, Honest;
    AllSettled(os);
    AllHonest(os);
    forall w: nat | IsWord(os, w) ensures Honest(os, w) { SettledIsHonest(os, w); }
  }

  // ----- the taint scan -----

  /** The scan visits this word: it starts at the word of the first byte and stops where fewer than
      two bytes of the buffer remain. */
  predicate Scanned(w: nat, offset: nat, n: nat) {
    w % 2 == 0 && WordOf(offset) <= w && w + 2 <= offset + n
  }

  ghost predicate Tainted(os: ObjectState, offset: nat, n: nat)
    requires offset + n <= os.concreteStore.Length
    reads os.concreteStore
  {
    exists w: nat :: Scanned(w, offset, n) && PoisonedWord(os, w)
  }

  /** `tase_buf_has_taint` with two-byte poison. */
  method HasTaint(os: ObjectState, offset: nat, n: nat) returns (tainted: bool)
    requires Aligned(os) && os.concreteStore.Length == os.size && offset + n <= os.size
    ensures tainted == Tainted(os, offset, n)
  {
    var end := offset + n;
    var x := WordOf(offset);
    while end - x >= 2
      invariant x % 2 == 0 && WordOf(offset) <= x
      invariant forall w: nat :: Scanned(w, offset, n) && w < x ==> !PoisonedWord(os, w)
    {
      if os.concreteStore[x] == POISON_LOW && os.concreteStore[x + 1] == POISON_HIGH {
        assert Scanned(x, offset, n) && PoisonedWord(os, x);
        return true;
      }
      x := x + 2;
    }
    return false;
  }

  /** At an even address with an even size the scan is exact: it sees every word of the buffer. */
  lemma ScanExact(os: ObjectState, offset: nat, n: nat)
    requires offset % 2 == 0 && n % 2 == 0 && offset + n <= os.concreteStore.Length
    ensures !Tainted(os, offset, n) <==> forall i :: offset <= i < offset + n ==> !PoisonedWord(os, WordOf(i))
  {
    if !Tainted(os, offset, n) {
      forall i | offset <= i < offset + n ensures !PoisonedWord(os, WordOf(i)) {
        assert Scanned(WordOf(i), offset, n);
      }
    } else {
      var w: nat :| Scanned(w, offset, n) && PoisonedWord(os, w);
      assert WordOf(w) == w;
    }
  }

  // ----- the fast read -----

  /** The little-endian value of a run of bytes, as a wide load sees it. */
  function Load(bytes: seq<nat>): nat {
    if bytes == [] then 0 else Join(bytes[|bytes| - 1], Load(bytes[..|bytes| - 1]), 8 * (|bytes| - 1))
  }

  lemma {:induction false} LoadBytes(bytes: seq<nat>)
    requires forall k :: 0 <= k < |bytes| ==> bytes[k] < Pow2(INT8)
    ensures Load(bytes) < Pow2(8 * |bytes|)
    ensures forall k :: 0 <= k < |bytes| ==> Slice(Load(bytes), 8 * k, INT8) == bytes[k]
  {
    hide Slice, Join;
    if bytes != [] {
      var n := |bytes| - 1;
      LoadBytes(bytes[..n]);
      JoinBound(bytes[n], INT8, Load(bytes[..n]), 8 * n);
      forall k | 0 <= k <= n ensures Slice(Load(bytes), 8 * k, INT8) == bytes[k] {
        JoinBytes(bytes[n], Load(bytes[..n]), n, k);
      }
    }
  }

  /** The guard of the fast path: a width it serves, and no poison where it looks. */
  ghost predicate Fast(os: ObjectState, offset: nat, n: nat)
    requires offset + n <= os.concreteStore.Length
    reads os.concreteStore
  {
    n in {2, 4, 8} && !Tainted(os, offset, n)
  }

  /** What the read returns for byte `k`: on the fast path whatever the store holds. */
  ghost function RawByte(os: ObjectState, offset: nat, n: nat, k: nat, a: Assignment): nat
    requires os.Valid() && offset + n <= os.size && k < n
    reads os, os.concreteStore
  {
    if Fast(os, offset, n) then os.concreteStore[offset + k] else os.Byte(offset + k, a)
  }

  /** The fast path answers although the last byte is in a poisoned word, which the scan never looked at.
      Only possible at an odd offset. */
  ghost predicate Missed(os: ObjectState, offset: nat, n: nat)
    requires os.Valid() && Aligned(os) && offset + n <= os.size
    reads os, os.concreteStore
  {
    offset % 2 == 1 && Fast(os, offset, n) && PoisonedWord(os, offset + n - 1)
  }

  /** The byte, or the poison standing in a missed one. */
  ghost function FastByte(os: ObjectState, offset: nat, n: nat, k: nat, a: Assignment): nat
    requires os.Valid() && Aligned(os) && offset + n <= os.size && k < n
    reads os, os.concreteStore
  {
    if k == n - 1 && Missed(os, offset, n) then POISON_LOW else os.Byte(offset + k, a)
  }

  /** On a readable object the store is right wherever the fast path trusts it, but for a missed byte. */
  lemma RawIsFast(os: ObjectState, offset: nat, n: nat, k: nat, a: Assignment)
    requires os.Valid() && Readable(os) && offset + n <= os.size && k < n
    ensures RawByte(os, offset, n, k, a) == FastByte(os, offset, n, k, a)
  {
    hide ObjectState.Byte, Unflushed, Scanned, WordOf;
    if Fast(os, offset, n) {
      assert CleanIsStored(os, offset + k);
      ScannedWord(offset, n, k);
    }
  }

  /** The words the scan sees; the one it may miss starts with the last byte. */
  lemma ScannedWord(offset: nat, n: nat, k: nat)
    requires k < n && n % 2 == 0
    ensures k < n - 1 || offset % 2 == 0 ==> Scanned(WordOf(offset + k), offset, n)
    ensures k == n - 1 && offset % 2 == 1 ==> WordOf(offset + k) == offset + n - 1
  {
  }

  /** The read with TASE's fast path, on any object. On a readable one it returns the bytes, except that a
      missed last byte reads as the poison that stands in its place. */
  method Read(os: ObjectState, offset: nat, width: nat) returns (e: Expr)
    requires os.Valid() && Aligned(os) && StorableWidth(width) && offset + ByteCount(width) <= os.size
    modifies os`root, os`updates, os`arrayCount
    ensures os.Valid() && WF(e) && Width(e) == width
    ensures width == BOOL ==> forall a :: Eval(e, a) == Slice(os.Byte(offset, a), 0, BOOL)
    ensures width != BOOL ==> forall k, a :: 0 <= k < width / 8 ==>
      Slice(Eval(e, a), 8 * k, INT8) == old(RawByte(os, offset, width / 8, k, a))
    ensures old(Readable(os)) && width != BOOL ==> forall k, a :: 0 <= k < width / 8 ==>
      Slice(Eval(e, a), 8 * k, INT8) == old(FastByte(os, offset, width / 8, k, a))
    ensures forall i, a :: 0 <= i < os.size ==> os.Byte(i, a) == old(os.Byte(i, a))
    ensures forall i :: 0 <= i < os.size ==> os.Status(i) == old(os.Status(i))
    ensures (old(Readable(os)) ==> Readable(os)) && (old(Tase(os)) ==> Tase(os))
  {
    hide ByteOf, ByteOkOf, Slice, Eval, Load, Pow2, WF, Readable, Tase, FastByte;
    if width != BOOL && Readable(os) {
      forall k, a | 0 <= k < width / 8
        ensures RawByte(os, offset, width / 8, k, a) == FastByte(os, offset, width / 8, k, a)
      {
        RawIsFast(os, offset, width / 8, k, a);
      }
    }
    e := ReadRaw(os, offset, width);
    if old(Readable(os)) { ReadableKept(os); }
    if old(Tase(os)) { TaseKept(os); }
  }

  method ReadRaw(os: ObjectState, offset: nat, width: nat) returns (e: Expr)
    requires os.Valid() && Aligned(os) && StorableWidth(width) && offset + ByteCount(width) <= os.size
    modifies os`root, os`updates, os`arrayCount
    ensures os.Valid() && WF(e) && Width(e) == width
    ensures width == BOOL ==> forall a :: Eval(e, a) == Slice(os.Byte(offset, a), 0, BOOL)
    ensures width != BOOL ==> forall k, a :: 0 <= k < width / 8 ==>
      Slice(Eval(e, a), 8 * k, INT8) == old(RawByte(os, offset, width / 8, k, a))
    ensures forall i, a :: 0 <= i < os.size ==> os.Byte(i, a) == old(os.Byte(i, a))
    ensures forall i :: 0 <= i < os.size ==> os.Status(i) == old(os.Status(i))
  {
    hide ByteOf, ByteOkOf, Slice, Eval, Load, Pow2, WF;
    if width != BOOL {
      var n := width / 8;
      if n == 2 || n == 4 || n == 8 {
        var tainted := HasTaint(os, offset, n);
        if !tainted {
          e := FastLoad(os, offset, n);
          return;
        }
      }
    }
    e := os.ReadBytes(offset, width, true);
    if width != BOOL {
      forall k, a | 0 <= k < width / 8
        ensures Slice(Eval(e, a), 8 * k, INT8) == old(RawByte(os, offset, width / 8, k, a))
      {
        assert Place(k, width / 8, true) == k;
        assert os.Byte(offset + k, a) == old(os.Byte(offset + k, a));
      }
    }
  }

  /** Nothing but the update list changed. */
  twostate lemma TaseKept(os: ObjectState)
    requires old(os.Valid()) && old(Tase(os)) && os.Valid()
    requires forall i :: 0 <= i < os.size ==>
      os.Status(i) == old(os.Status(i)) && os.concreteStore[i] == old(os.concreteStore[i])
    ensures Tase(os)
  {
    forall i | 0 <= i < os.size ensures CleanIsConcrete(os, i) && ConcreteIsUnflushed(os, i) {
      assert old(CleanIsConcrete(os, i)) && old(ConcreteIsUnflushed(os, i));
    }
  }

  twostate lemma ReadableKept(os: ObjectState)
    requires old(os.Valid()) && old(Readable(os)) && os.Valid()
    requires forall i :: 0 <= i < os.size ==>
      os.Status(i) == old(os.Status(i)) && os.concreteStore[i] == old(os.concreteStore[i])
    requires forall i, a :: 0 <= i < os.size ==> os.Byte(i, a) == old(os.Byte(i, a))
    ensures Readable(os)
  {
    hide ObjectState.Byte;
    forall i | 0 <= i < os.size ensures CleanIsStored(os, i) && ConcreteIsUnflushed(os, i) {
      assert old(CleanIsStored(os, i)) && old(ConcreteIsUnflushed(os, i)) && os.Status(i) == old(os.Status(i));
    }
  }

  method FastLoad(os: ObjectState, offset: nat, n: nat) returns (e: Expr)
    requires os.Valid() && offset + n <= os.size && n in {2, 4, 8}
    ensures WF(e) && Width(e) == 8 * n && e.Constant?
    ensures forall k, a :: 0 <= k < n ==> Slice(Eval(e, a), 8 * k, INT8) == os.concreteStore[offset + k]
  {
    hide Slice, Load, ByteOf, Pow2;
    var bytes := os.concreteStore[offset..offset + n];
    forall k | 0 <= k < n ensures bytes[k] < Pow2(INT8) { assert os.ByteOk(offset + k); }
    LoadBytes(bytes);
    e := Constant(Load(bytes), 8 * n);
  }

  // ----- applying poison -----

  /** The bare 16-bit store: a byte that lived in the store is lost. */
  method PoisonWord(os: ObjectState, w: nat)
    requires os.Valid() && Unflushed(os) && w + 1 < os.size && w % 2 == 0
    modifies os.concreteStore
    ensures os.Valid() && Unflushed(os) && PoisonedWord(os, w)
    ensures forall i, a :: 0 <= i < os.size ==>
      os.Byte(i, a) == if WordOf(i) == w && old(os.IsConcrete(i)) then PoisonByte(i) else old(os.Byte(i, a))
    ensures forall i :: 0 <= i < os.size ==> os.Status(i) == old(os.Status(i))
    ensures forall i :: 0 <= i < os.size && WordOf(i) != w ==>
      os.Status(i) == old(os.Status(i)) && os.concreteStore[i] == old(os.concreteStore[i])
    ensures forall v: nat :: IsWord(os, v) && v != w ==> Word(os, v) == old(Word(os, v))
  {
    hide Eval, EvalRead, Pow2;
    assert PoisonByte(w) == POISON_LOW && PoisonByte(w + 1) == POISON_HIGH;
    os.concreteStore[w], os.concreteStore[w + 1] := POISON_LOW, POISON_HIGH;
    forall i | 0 <= i < os.size ensures os.ByteOk(i) {
      assert old(os.ByteOk(i)) && old(ConcreteIsUnflushed(os, i));
    }
    assert forall i :: 0 <= i < os.size ==> old(ConcreteIsUnflushed(os, i)) ==> ConcreteIsUnflushed(os, i);
  }

  /** Moves both bytes of a word into the symbolic cache. */
  method SavePair(os: ObjectState, w: nat)
    requires os.Valid() && Unflushed(os) && w + 1 < os.size && w % 2 == 0
    modifies os
    ensures os.Valid() && Unflushed(os)
    ensures forall i, a :: 0 <= i < os.size ==> os.Byte(i, a) == old(os.Byte(i, a))
    ensures forall i :: 0 <= i < os.size ==> os.Status(i) == if WordOf(i) == w then IN_SYMBOLS else old(os.Status(i))
  {
    hide ByteOf, ByteOkOf;
    var b1 := os.Read8(w);
    var b2 := os.Read8(w + 1);
    os.Write8AsExpr(w, b1);
    os.Write8AsExpr(w + 1, b2);
    forall i | 0 <= i < os.size ensures os.Status(i) == if WordOf(i) == w then IN_SYMBOLS else old(os.Status(i)) {
    }
    forall i | 0 <= i < os.size ensures ConcreteIsUnflushed(os, i) {
      assert old(ConcreteIsUnflushed(os, i));
      assert os.Status(i) == if WordOf(i) == w then IN_SYMBOLS else old(os.Status(i));
    }
  }

  /** Saves both bytes of a word, then poisons it. */
  method MarkPair(os: ObjectState, w: nat)
    requires os.Valid() && Unflushed(os) && IsWord(os, w)
    modifies os, os.concreteStore
    ensures os.Valid() && Unflushed(os) && Settled(os, w)
    ensures forall i, a :: 0 <= i < os.size ==> os.Byte(i, a) == old(os.Byte(i, a))
    ensures forall v: nat :: IsWord(os, v) && v != w ==> Word(os, v) == old(Word(os, v))
    ensures NoneConcrete(os)
  {
    hide ByteOf, ByteOkOf;
    SavePair(os, w);
    label saved:
    PoisonWord(os, w);
    forall i, a | 0 <= i < os.size ensures os.Byte(i, a) == old(os.Byte(i, a)) {
      assert old@saved(os.Byte(i, a)) == old(os.Byte(i, a));
      assert WordOf(i) == w ==> old@saved(os.Status(i)) == IN_SYMBOLS;
    }
    forall i | 0 <= i < os.size && os.IsConcrete(i) ensures old(os.IsConcrete(i)) {
      assert os.Status(i).concrete && os.Status(i) == old@saved(os.Status(i));
    }
  }

  method MarkPairs(os: ObjectState, w: nat, count: nat)
    requires os.Valid() && Unflushed(os) && w + 2 * count <= os.size && w % 2 == 0
    modifies os, os.concreteStore
    ensures os.Valid() && Unflushed(os)
    ensures forall v: nat :: IsWord(os, v) && w <= v < w + 2 * count ==> Settled(os, v)
    ensures forall i, a :: 0 <= i < os.size ==> os.Byte(i, a) == old(os.Byte(i, a))
    ensures forall v: nat :: IsWord(os, v) && !(w <= v < w + 2 * count) ==> Word(os, v) == old(Word(os, v))
    ensures NoneConcrete(os)
  {
    hide ByteOf, ByteOkOf, ObjectState.Byte, Word, SettledWord, Unflushed, Pow2;
    var k := 0;
    while k < count
      invariant k <= count && os.Valid() && Unflushed(os)
      invariant forall v: nat :: IsWord(os, v) && w <= v < w + 2 * k ==> Settled(os, v)
      invariant forall i, a :: 0 <= i < os.size ==> os.Byte(i, a) == old(os.Byte(i, a))
      invariant forall v: nat :: IsWord(os, v) && !(w <= v < w + 2 * k) ==> Word(os, v) == old(Word(os, v))
      invariant forall i :: 0 <= i < os.size && os.IsConcrete(i) ==> old(os.IsConcrete(i))
    {
      MarkPair(os, w + 2 * k);
      k := k + 1;
    }
  }

  /** The widths `applyPsnOnWrite` accepts. */
  predicate PoisonWidth(w: nat) {
    w == BOOL || w == 8 || w == 16 || w == 32 || w == 64
  }

  /** A value of such a width that fits into the object at `offset`. */
  predicate Storable(os: ObjectState, offset: nat, value: Expr) {
    WF(value) && PoisonWidth(Width(value)) && offset + ByteCount(Width(value)) <= os.size
  }

  /** An aligned 16-bit symbolic write poisons its word without saving it first. */
  predicate BarePoison(offset: nat, value: Expr) {
    !value.Constant? && Width(value) == 16 && offset % 2 == 0
  }

  /** The state a write leaves behind: the words it did not touch are honest. */
  ghost predicate AfterWrite(os: ObjectState, offset: nat, n: nat, value: Expr)
    requires os.Valid()
    reads os, os.concreteStore
  {
    && 0 < n && offset + n <= os.size && Aligned(os) && Unflushed(os)
    && (forall w: nat :: IsWord(os, w) && !Touched(w, offset, n) ==> Honest(os, w))
    && (value.Constant? ==> forall i :: offset <= i < offset + n ==> os.Status(i) == IN_STORE)
  }

  /** A word that lies in the written range. */
  predicate Inside(w: nat, offset: nat, n: nat) {
    offset <= w && w + 2 <= offset + n
  }

  /** A word that shares a byte with the written range. */
  predicate Touched(w: nat, offset: nat, n: nat) {
    offset < w + 2 && w < offset + n
  }

  /** Word `w` is as before, store, caches and bytes. */
  twostate predicate SameWord(os: ObjectState, w: nat)
    requires old(os.Valid()) && os.Valid() && IsWord(os, w)
    reads os, os.concreteStore
  {
    && Word(os, w) == old(Word(os, w))
    && (forall i, a :: w <= i <= w + 1 ==> os.Byte(i, a) == old(os.Byte(i, a)))
  }

  twostate lemma HonestKept(os: ObjectState)
    requires old(os.Valid()) && os.Valid()
    ensures forall w: nat :: IsWord(os, w) && SameWord(os, w) && old(Honest(os, w)) ==> Honest(os, w)
  {
    hide ObjectState.Byte, ObjectState.Status;
    forall w: nat | IsWord(os, w) && SameWord(os, w) && old(Honest(os, w)) ensures Honest(os, w) {
      if old(StoredByte(os, w) && StoredByte(os, w + 1)) {
        forall a ensures os.Byte(w, a) == os.concreteStore[w] && os.Byte(w + 1, a) == os.concreteStore[w + 1] {
          assert old(os.Byte(w + 1, a)) == old(os.concreteStore[w + 1]);
        }
      }
    }
  }

  /** The words outside the written range are as before. */
  twostate predicate SameElsewhere(os: ObjectState, offset: nat, n: nat)
    requires old(os.Valid()) && os.Valid()
    reads os, os.concreteStore
  {
    forall w: nat :: IsWord(os, w) && !Touched(w, offset, n) ==> Word(os, w) == old(Word(os, w))
  }

  /** Bytes keep their values, except that concrete bytes of a bare-poisoned word become the poison. */
  twostate predicate BytesPoisoned(os: ObjectState, offset: nat, value: Expr)
    requires old(os.Valid()) && os.Valid()
    reads os, os.concreteStore
  {
    forall i, a :: 0 <= i < os.size ==>
      os.Byte(i, a) ==
        if BarePoison(offset, value) && offset <= i < offset + 2 && old(os.IsConcrete(i)) then PoisonByte(i)
        else old(os.Byte(i, a))
  }

  /** Nothing enters the store. */
  twostate predicate NoneConcrete(os: ObjectState)
    requires old(os.Valid()) && os.Valid()
    reads os, os.concreteStore
  {
    forall i :: 0 <= i < os.size && os.IsConcrete(i) ==> old(os.IsConcrete(i))
  }

  /** The words a write did not touch are settled. */
  ghost predicate SettledElsewhere(os: ObjectState, offset: nat, n: nat)
    requires os.Valid()
    reads os, os.concreteStore
  {
    forall w: nat :: IsWord(os, w) && !Touched(w, offset, n) ==> Settled(os, w)
  }

  /** Poisons what the write made symbolic: the words inside it, and the two end words together with
      the neighbour each shares with the rest of the object. No other word is touched, and no byte
      becomes concrete. The object is readable again, and satisfies both TASE invariants if the words
      elsewhere do. */
  method ApplyPsnOnWrite(os: ObjectState, offset: nat, value: Expr)
    requires os.Valid() && WF(value) && PoisonWidth(Width(value))
    requires AfterWrite(os, offset, ByteCount(Width(value)), value)
    modifies os, os.concreteStore
    ensures os.Valid() && Readable(os)
    ensures old(SettledElsewhere(os, offset, ByteCount(Width(value)))) ==> Tase(os)
    ensures BytesPoisoned(os, offset, value)
    ensures SameElsewhere(os, offset, ByteCount(Width(value)))
    ensures NoneConcrete(os)
  {
    hide ObjectState.Byte, ObjectState.ByteOk, ObjectState.Status, WF, Width, Unflushed, Tase, Readable, Honest,
      PoisonByte,
      Word, SettledWord, Pow2, SameWord;
    var n := ByteCount(Width(value));
    MarkWords(os, offset, n, value);
    HonestKept(os);
    forall w: nat | IsWord(os, w) ensures Honest(os, w) {
      if Touched(w, offset, n) { SettledIsHonest(os, w); } else { assert old(Honest(os, w)); }
    }
    AllHonest(os);
    if old(SettledElsewhere(os, offset, n)) {
      forall w: nat | IsWord(os, w) ensures Settled(os, w) {
        assert !Touched(w, offset, n) ==> old(Settled(os, w)) && Word(os, w) == old(Word(os, w));
      }
      AllSettled(os);
    }
  }

  /** The words inside the written range, then the end words: all of them settled, no other touched. */
  method MarkWords(os: ObjectState, offset: nat, n: nat, value: Expr)
    requires os.Valid() && n in {1, 2, 4, 8} && AfterWrite(os, offset, n, value) && (n == 2 <==> Width(value) == 16)
    modifies os, os.concreteStore
    ensures os.Valid() && Unflushed(os)
    ensures forall w: nat :: IsWord(os, w) && Touched(w, offset, n) ==> Settled(os, w)
    ensures forall w: nat :: IsWord(os, w) && !Touched(w, offset, n) ==>
      Word(os, w) == old(Word(os, w)) && SameWord(os, w)
    ensures BytesPoisoned(os, offset, value)
    ensures NoneConcrete(os)
  {
    hide ObjectState.Byte, ObjectState.ByteOk, ObjectState.Status, WF, Width, Unflushed, PoisonByte, Word, SettledWord,
      Pow2,
      Honest;
    MarkMiddle(os, offset, n, value);
    if offset % 2 == 1 { MarkEnd(os, offset - 1); }
    if (offset + n - 1) % 2 == 0 { MarkEnd(os, offset + n - 1); }
  }

  /** The words inside the written range. */
  method MarkMiddle(os: ObjectState, offset: nat, n: nat, value: Expr)
    requires os.Valid() && n in {1, 2, 4, 8} && AfterWrite(os, offset, n, value) && (n == 2 <==> Width(value) == 16)
    modifies os, os.concreteStore
    ensures os.Valid() && Unflushed(os)
    ensures forall w: nat :: IsWord(os, w) && Inside(w, offset, n) ==> Settled(os, w)
    ensures BytesPoisoned(os, offset, value)
    ensures forall w: nat :: IsWord(os, w) && !Inside(w, offset, n) ==> Word(os, w) == old(Word(os, w))
    ensures NoneConcrete(os)
  {
    hide ByteOf, ByteOkOf, Width, ObjectState.Byte, PoisonByte, Pow2;
    if value.Constant? || n == 1 { return; }
    if n == 2 {
      MarkBare(os, offset, value);
    } else {
      hide Word, SettledWord, Unflushed;
      if offset % 2 == 0 { MarkPairs(os, offset, n / 2); } else { MarkPairs(os, offset + 1, n / 2 - 1); }
    }
  }

  /** Two bytes: only an aligned word is poisoned here. */
  method MarkBare(os: ObjectState, offset: nat, value: Expr)
    requires os.Valid() && Unflushed(os) && offset + 2 <= os.size && Aligned(os) && Width(value) == 16
    requires !value.Constant?
    modifies os.concreteStore
    ensures os.Valid() && Unflushed(os)
    ensures forall w: nat :: IsWord(os, w) && Inside(w, offset, 2) ==> Settled(os, w)
    ensures BytesPoisoned(os, offset, value)
    ensures forall w: nat :: IsWord(os, w) && !Inside(w, offset, 2) ==> Word(os, w) == old(Word(os, w))
    ensures NoneConcrete(os)
  {
    hide ByteOf, ByteOkOf, Width, ObjectState.Byte, PoisonByte, Pow2;
    if offset % 2 == 0 { PoisonWord(os, offset); }
  }

  /** An end word: nothing to do when both bytes are plainly concrete. */
  method MarkEnd(os: ObjectState, w: nat)
    requires os.Valid() && Unflushed(os) && IsWord(os, w)
    modifies os, os.concreteStore
    ensures os.Valid() && Unflushed(os) && Settled(os, w)
    ensures forall i, a :: 0 <= i < os.size ==> os.Byte(i, a) == old(os.Byte(i, a))
    ensures forall v: nat :: IsWord(os, v) && v != w ==> Word(os, v) == old(Word(os, v))
    ensures NoneConcrete(os)
  {
    hide ByteOf, ObjectState.Byte, Pow2;
    if !(os.IsConcrete(w) && !os.IsFlushed(w) && os.IsConcrete(w + 1) && !os.IsFlushed(w + 1)) {
      MarkPair(os, w);
    } else {
      assert os.ByteOk(w) && os.ByteOk(w + 1);
    }
  }

  // ----- whole accesses -----

  /** The value byte `i` should have once `value` is stored at `offset`. */
  ghost function Written(offset: nat, value: Expr, i: nat, before: nat, a: Assignment): nat {
    if offset <= i < offset + ByteCount(Width(value)) then Slice(Eval(value, a), 8 * (i - offset), INT8) else before
  }

  /** Every byte is what the write should leave. */
  twostate predicate BytesWritten(os: ObjectState, offset: nat, value: Expr)
    requires old(os.Valid()) && os.Valid()
    reads os, os.concreteStore
  {
    forall i, a :: 0 <= i < os.size ==> os.Byte(i, a) == Written(offset, value, i, old(os.Byte(i, a)), a)
  }

  /** Every byte is what the write and the poisoning leave. */
  twostate predicate BytesStored(os: ObjectState, offset: nat, value: Expr)
    requires old(os.Valid()) && os.Valid() && Storable(os, offset, value)
    reads os, os.concreteStore
  {
    forall i, a :: 0 <= i < os.size ==> os.Byte(i, a) == StoreResult(offset, value, i, old(os.Byte(i, a)), a)
  }

  /** No byte of a bare-poisoned value folds to a constant other than the poison itself. */
  predicate Lossless(offset: nat, value: Expr)
    requires WF(value) && StorableWidth(Width(value))
  {
    BarePoison(offset, value) ==>
      forall k :: 0 <= k < 2 && Part(value, k).Constant? ==> Part(value, k).value == PoisonByte(k)
  }

  /** A write at a constant offset followed by `applyPsnOnWrite`, on a readable object: it is readable again,
      and satisfies both TASE invariants if it did. Every byte of the value is stored, except that in a
      bare-poisoned word the poison stands in place of bytes that folded to constants. */
  method Store(os: ObjectState, offset: nat, value: Expr)
    requires os.Valid() && Readable(os) && Storable(os, offset, value)
    modifies os, os.concreteStore
    ensures os.Valid() && Readable(os) && (old(Tase(os)) ==> Tase(os))
    ensures BytesStored(os, offset, value)
    ensures SameElsewhere(os, offset, ByteCount(Width(value)))
    ensures PartsSymbolic(os, offset, value)
  {
    hide ObjectState.Byte, ObjectState.ByteOk, WF, Width, Part, Slice, Eval, PoisonByte, Tase, Readable, AfterWrite,
      Word,
      SettledElsewhere, Pow2;
    WriteThrough(os, offset, value);
    ApplyPsnOnWrite(os, offset, value);
  }

  /** The result is what a write should leave, for whatever was there before, exactly if it is lossless. */
  lemma {:induction false} LosslessExactly(offset: nat, value: Expr)
    requires WF(value) && PoisonWidth(Width(value))
    ensures Lossless(offset, value) <==>
      forall i, before, a :: StoreResult(offset, value, i, before, a) == Written(offset, value, i, before, a)
  {
    hide WF, Width, Part, Slice, Eval, PoisonByte, Pow2;
    if Lossless(offset, value) {
      forall i, before, a ensures StoreResult(offset, value, i, before, a) == Written(offset, value, i, before, a) {
        LosslessResult(offset, value, i, before, a);
      }
    } else {
      var k :| 0 <= k < 2 && Part(value, k).Constant? && Part(value, k).value != PoisonByte(k);
      var a: Assignment := (x, y) => 0;
      PoisonedPart(offset, value, k, a);
      assert StoreResult(offset, value, offset + k, 0, a) != Written(offset, value, offset + k, 0, a);
    }
  }

  /** A lossless write has the effect a write should have. */
  lemma LosslessResult(offset: nat, value: Expr, i: nat, before: nat, a: Assignment)
    requires WF(value) && PoisonWidth(Width(value)) && Lossless(offset, value)
    ensures StoreResult(offset, value, i, before, a) == Written(offset, value, i, before, a)
  {
    hide WF, Width, Part, Slice, Eval, PoisonByte, Pow2;
    if offset <= i < offset + ByteCount(Width(value)) { PoisonedPart(offset, value, i - offset, a); }
  }

  /** A byte of the value is in the store exactly if it folded to a constant. */
  ghost predicate PartsPlaced(os: ObjectState, offset: nat, value: Expr)
    requires os.MasksSized() && Storable(os, offset, value)
    reads os
  {
    forall i :: offset <= i < offset + ByteCount(Width(value)) ==> os.IsConcrete(i) == Part(value, i - offset).Constant?
  }

  /** A byte that did is there. */
  ghost predicate PartsStored(os: ObjectState, offset: nat, value: Expr)
    requires os.Valid() && Storable(os, offset, value)
    reads os, os.concreteStore
  {
    forall i :: offset <= i < offset + ByteCount(Width(value)) && os.IsConcrete(i) ==>
      Part(value, i - offset).Constant? && os.concreteStore[i] == Part(value, i - offset).value
  }

  /** A byte of the value that did not fold to a constant is not in the store. */
  ghost predicate PartsSymbolic(os: ObjectState, offset: nat, value: Expr)
    requires os.MasksSized() && Storable(os, offset, value)
    reads os
  {
    forall i :: offset <= i < offset + ByteCount(Width(value)) && os.IsConcrete(i) ==> Part(value, i - offset).Constant?
  }

  /** The write itself: the untouched words stay as they are. */
  method WriteThrough(os: ObjectState, offset: nat, value: Expr)
    requires os.Valid() && Readable(os) && Storable(os, offset, value)
    modifies os, os.concreteStore
    ensures os.Valid() && AfterWrite(os, offset, ByteCount(Width(value)), value)
    ensures old(Tase(os)) ==> SettledElsewhere(os, offset, ByteCount(Width(value)))
    ensures BytesWritten(os, offset, value)
    ensures PartsPlaced(os, offset, value)
    ensures SameElsewhere(os, offset, ByteCount(Width(value)))
  {
    hide ObjectState.Byte, ObjectState.ByteOk, WF, Width, Part, Slice, Eval, PoisonByte, StoredByte, Pow2;
    var n := ByteCount(Width(value));
    AllHonest(os);
    if Tase(os) { AllSettled(os); }
    WriteParts(os, offset, value);
    if value.Constant? { PartOfConstant(value); }
    forall i | 0 <= i < os.size ensures ConcreteIsUnflushed(os, i) {
      assert os.Status(i) == Caches(os.IsConcrete(i), os.IsKnownSymbolic(i), os.IsFlushed(i));
      if !(offset <= i < offset + n) {
        assert os.Status(i) == old(os.Status(i)) && old(ConcreteIsUnflushed(os, i));
      }
    }
    HonestKept(os);
    forall w: nat | IsWord(os, w) && !Touched(w, offset, n)
      ensures Honest(os, w) && (old(Tase(os)) ==> Settled(os, w))
    {
      assert old(Honest(os, w)) && SameWord(os, w);
    }
  }

  /** A written byte is in the store or in the symbolic cache, and only then is its store unchanged; the other
      bytes are as before. */
  twostate predicate PlacedBytes(os: ObjectState, offset: nat, n: nat)
    requires old(os.Valid()) && os.Valid()
    reads os, os.concreteStore
  {
    forall i :: 0 <= i < os.size ==>
      if offset <= i < offset + n then
        && os.Status(i) == (if os.IsConcrete(i) then IN_STORE else IN_SYMBOLS)
        && (!os.IsConcrete(i) ==> os.concreteStore[i] == old(os.concreteStore[i]))
      else os.Status(i) == old(os.Status(i)) && os.concreteStore[i] == old(os.concreteStore[i])
  }

  /** `write` byte by byte: where each byte of the value goes. */
  method WriteParts(os: ObjectState, offset: nat, value: Expr)
    requires os.Valid() && Storable(os, offset, value)
    modifies os, os.concreteStore
    ensures os.Valid()
    ensures BytesWritten(os, offset, value)
    ensures PartsPlaced(os, offset, value)
    ensures PlacedBytes(os, offset, ByteCount(Width(value)))
    ensures PartsStored(os, offset, value)
  {
    hide ObjectState.Byte, ObjectState.ByteOk, WF, Width, Part, Slice, Eval, Pow2;
    var n := ByteCount(Width(value));
    os.Write(offset, value, true);
    forall i | offset <= i < offset + n
      ensures os.Status(i) == if Part(value, i - offset).Constant? then IN_STORE else IN_SYMBOLS
      ensures os.IsConcrete(i) == Part(value, i - offset).Constant?
    {
      assert Place(i - offset, n, true) == i - offset;
      assert os.Status(i).concrete == os.IsConcrete(i);
    }
    forall i, a | 0 <= i < os.size ensures os.Byte(i, a) == Written(offset, value, i, old(os.Byte(i, a)), a) {
      if offset <= i < offset + n { assert Place(i - offset, n, true) == i - offset; }
    }
    forall i | offset <= i < offset + n && os.IsConcrete(i)
      ensures os.concreteStore[i] == Part(value, i - offset).value
    {
      var a: Assignment := (x, y) => 0;
      StoreShows(os, i);
      assert os.Byte(i, a) == Written(offset, value, i, old(os.Byte(i, a)), a);
      PoisonedPart(0, value, i - offset, a);
    }
  }

  /** What byte `i` reads as after the two steps. */
  ghost function StoreResult(offset: nat, value: Expr, i: nat, before: nat, a: Assignment): nat
    requires WF(value) && StorableWidth(Width(value))
  {
    if !(offset <= i < offset + ByteCount(Width(value))) then before
    else if BarePoison(offset, value) && Part(value, i - offset).Constant? then PoisonByte(i)
    else Slice(Eval(value, a), 8 * (i - offset), INT8)
  }

  lemma PoisonedPart(offset: nat, value: Expr, k: nat, a: Assignment)
    requires WF(value) && StorableWidth(Width(value)) && k < ByteCount(Width(value))
    ensures Part(value, k).Constant? ==> Slice(Eval(value, a), 8 * k, INT8) == Part(value, k).value
    ensures BarePoison(offset, value) ==> PoisonByte(offset + k) == PoisonByte(k)
  {
    hide Part, Slice, WF, Width, PoisonByte;
    PartMeaning(value, k, a);
    if offset % 2 == 0 { PoisonShift(offset, k); }
  }

  lemma PoisonShift(offset: nat, k: nat)
    requires offset % 2 == 0
    ensures PoisonByte(offset + k) == PoisonByte(k)
  {
  }

  /** The family that is lost: a 16-bit value one of whose bytes is a constant other than the poison. */
  lemma BarePoisonLoses(x: Expr)
    requires IsByte(x) && !x.Constant? && !(x.Unary? && x.uop.Extract?)
    ensures var value := ConcatCreate(x, ByteConstant(0));
      WF(value) && Width(value) == 16 && !Lossless(0, value)
  {
    var zero := ByteConstant(0);
    var value := ConcatCreate(x, zero);
    assert value == Binary(Concat, x, zero);
    assert Part(value, 0) == ExtractCreate(zero, 0, 8) == zero;
  }

  /** The odd-address read that goes wrong: in a four-byte object whose byte 2 is symbolic, the fast
      16-bit read at 1 sees the poison as the high byte, whatever the symbolic byte is. */
  method MissedRead(x: Expr) returns (os: ObjectState, e: Expr)
    requires IsByte(x) && !x.Constant?
    ensures fresh(os) && os.Valid() && Tase(os) && os.size == 4
    ensures forall a :: os.Byte(2, a) == Eval(x, a)
    ensures WF(e) && Width(e) == 16 && forall a :: Slice(Eval(e, a), 8, INT8) == POISON_LOW
  {
    hide ObjectState.Byte, ObjectState.ByteOk, Pow2, Slice, Eval, Part, Tase, Settled;
    os := CleanObject();
    assert IsWord(os, 0) && Word(os, 0).lowByte == 0;
    WholeByte(x);
    TaseIsReadable(os);
    Store(os, 2, x);
    assert Word(os, 0).lowByte == 0;
    forall v: nat | Scanned(v, 1, 2) ensures !PoisonedWord(os, v) { assert v == 0; }
    SymbolicIsPoisoned(os, 2);
    assert Missed(os, 1, 2) && forall a :: FastByte(os, 1, 2, 1, a) == POISON_LOW;
    e := Read(os, 1, 16);
    assert forall a :: Slice(Eval(e, a), 8 * 1, INT8) == POISON_LOW;
  }

  lemma SymbolicIsPoisoned(os: ObjectState, w: nat)
    requires os.Valid() && Tase(os) && IsWord(os, w) && !os.IsConcrete(w)
    ensures PoisonedWord(os, w)
  {
    assert CleanIsConcrete(os, w) && WordOf(w) == w && os.Status(w).concrete == os.IsConcrete(w);
  }

  method CleanObject() returns (os: ObjectState)
    ensures fresh(os) && fresh(os.concreteStore) && os.Valid() && Tase(os) && os.size == 4
    ensures forall i :: 0 <= i < 4 ==> os.concreteStore[i] == 0 && os.Status(i) == IN_STORE
  {
    assert Pow2(10) == 1024;
    Pow2Mono(10, INT32);
    os := new ObjectState(0, 4);
    ghost var a: Assignment := (x, y) => 0;
    forall i | 0 <= i < os.size ensures os.Status(i) == IN_STORE && os.concreteStore[i] == 0 {
      assert os.ByteOk(i) && os.Byte(i, a) == 0;
    }
  }

  lemma WholeByte(x: Expr)
    requires IsByte(x)
    ensures Part(x, 0) == x && Lossless(2, x) && forall a :: Slice(Eval(x, a), 0, INT8) == Eval(x, a)
  {
    forall a ensures Slice(Eval(x, a), 0, INT8) == Eval(x, a) {
      EvalBound(x, a);
      SliceFull(Eval(x, a), INT8);
    }
  }

  // ----- accesses at a symbolic offset -----

  /** Poisons every word of an object none of whose bytes lives in the store. */
  method PoisonAll(os: ObjectState)
    requires os.Valid() && Aligned(os) && forall i :: 0 <= i < os.size ==> !os.IsConcrete(i)
    modifies os.concreteStore
    ensures os.Valid() && Tase(os)
    ensures forall i, a :: 0 <= i < os.size ==> os.Byte(i, a) == old(os.Byte(i, a))
    ensures forall i :: 0 <= i < os.size ==> os.Status(i) == old(os.Status(i))
  {
    hide ByteOf, ByteOkOf, PoisonByte, Pow2, WF, ObjectState.Byte;
    var w := 0;
    while w < os.size
      invariant w % 2 == 0 && w <= os.size && os.Valid() && Unflushed(os)
      invariant forall i :: 0 <= i < os.size ==> os.Status(i) == old(os.Status(i)) && !os.IsConcrete(i)
      invariant forall v :: 0 <= v < w && v % 2 == 0 ==> PoisonedWord(os, v)
      invariant forall i, a :: 0 <= i < os.size ==> os.Byte(i, a) == old(os.Byte(i, a))
    {
      label before:
      PoisonWord(os, w);
      forall i | 0 <= i < os.size ensures !os.IsConcrete(i) { assert os.Status(i) == old(os.Status(i)); }
      forall v | 0 <= v < w && v % 2 == 0 ensures PoisonedWord(os, v) {
        assert old@before(PoisonedWord(os, v)) && WordOf(v) == WordOf(v + 1) == v;
      }
      w := w + 2;
    }
    AllSettled(os);
  }

  /** A write at a symbolic offset followed by `applyPsnOnWrite`. */
  method StoreSymbolic(os: ObjectState, offset: Expr, value: Expr)
    requires os.Valid() && Aligned(os) && WF(value) && PoisonWidth(Width(value))
    requires WF(offset) && Width(offset) == INT32
    requires forall k :: 0 <= k < ByteCount(Width(value)) ==> !SumIndex(offset, k).Constant?
    modifies os, os.concreteStore
    ensures os.Valid() && Tase(os)
    ensures forall i, a :: 0 <= i < os.size ==>
      var d := SubMod(INT32, i, Eval(offset, a));
      os.Byte(i, a) == if d < ByteCount(Width(value)) then Slice(Eval(value, a), 8 * d, INT8) else old(os.Byte(i, a))
  {
    hide ObjectState.Byte, Eval, SubMod, Slice, WF, Width, Tase;
    os.WriteSymbolic(offset, value, true);
    label written:
    assert forall i :: 0 <= i < os.size ==> os.Status(i) == IN_UPDATES && !os.IsConcrete(i);
    PoisonAll(os);
  }

  /** Every byte of an unpoisoned word shows in the store, flushed or not. */
  ghost predicate AllStored(os: ObjectState)
    requires os.Valid() && Aligned(os)
    reads os, os.concreteStore
  {
    forall i :: 0 <= i < os.size ==> CleanIsStored(os, i)
  }

  twostate lemma StoredKept(os: ObjectState)
    requires old(os.Valid()) && os.Valid() && Aligned(os) && old(AllStored(os))
    requires forall i, a :: 0 <= i < os.size ==> os.Byte(i, a) == old(os.Byte(i, a))
    requires forall i :: 0 <= i < os.size ==> os.concreteStore[i] == old(os.concreteStore[i])
    ensures AllStored(os)
  {
    hide ObjectState.Byte;
    forall i | 0 <= i < os.size ensures CleanIsStored(os, i) { assert old(CleanIsStored(os, i)); }
  }

  /** After a read at a symbolic offset every byte is read and stored back as an expression, which
      restores the second invariant.  No poison is written, so the first holds exactly when every
      word was poisoned already; but what was readable stays so. */
  method ApplyPsnOnRead(os: ObjectState, offset: Expr)
    requires os.Valid() && Aligned(os)
    modifies os
    ensures os.Valid()
    ensures forall i, a :: 0 <= i < os.size ==> os.Byte(i, a) == old(os.Byte(i, a))
    ensures offset.Constant? ==> forall i :: 0 <= i < os.size ==> os.Status(i) == old(os.Status(i))
    ensures !offset.Constant? ==> Unflushed(os) && forall i :: 0 <= i < os.size ==> os.Status(i) == IN_SYMBOLS
    ensures !offset.Constant? ==> (Tase(os) <==> forall w: nat :: IsWord(os, w) ==> PoisonedWord(os, w))
    ensures !offset.Constant? && old(AllStored(os)) ==> Readable(os)
  {
    hide ByteOf, ByteOkOf;
    if offset.Constant? { return; }
    var i := 0;
    while i < os.size
      invariant i <= os.size && os.Valid()
      invariant forall j, a :: 0 <= j < os.size ==> os.Byte(j, a) == old(os.Byte(j, a))
      invariant forall j :: 0 <= j < i ==> os.Status(j) == IN_SYMBOLS
    {
      var b := os.Read8(i);
      os.Write8AsExpr(i, b);
      i := i + 1;
    }
    assert forall j :: 0 <= j < os.size ==> os.Status(j) == IN_SYMBOLS && ConcreteIsUnflushed(os, j);
    if old(AllStored(os)) { StoredKept(os); }
    AllSettled(os);
    assert forall w: nat :: IsWord(os, w) ==> (Settled(os, w) <==> PoisonedWord(os, w)) by {
      assert forall j :: 0 <= j < os.size ==> os.Status(j) != IN_STORE;
    }
  }

  /** A read at a symbolic offset followed by `applyPsnOnRead`. */
  method LoadSymbolic(os: ObjectState, offset: Expr, width: nat) returns (e: Expr)
    requires os.Valid() && Readable(os) && StorableWidth(width) && ByteCount(width) < Pow2(INT32)
    requires WF(offset) && Width(offset) == INT32 && !offset.Constant?
    requires forall k :: 0 <= k < ByteCount(width) ==> !SumIndex(offset, k).Constant?
    modifies os
    ensures os.Valid() && Readable(os) && WF(e) && Width(e) == width
    ensures width != BOOL ==> forall k, a :: 0 <= k < width / 8 ==>
      var i := AddMod(INT32, Eval(offset, a), k);
      i < os.size ==> Slice(Eval(e, a), 8 * k, INT8) == old(os.Byte(i, a))
    ensures width == BOOL ==> forall a :: Eval(offset, a) < os.size ==>
      Eval(e, a) == Slice(old(os.Byte(Eval(offset, a), a)), 0, BOOL)
    ensures forall i, a :: 0 <= i < os.size ==> os.Byte(i, a) == old(os.Byte(i, a))
  {
    hide ObjectState.Byte, ObjectState.ByteOk, ObjectState.Status, Eval, AddMod, Slice, WF, Width, Pow2, SumIndex,
      CleanIsStored, Unflushed, Tase;
    e := os.ReadSymbolic(offset, width, true);
    if width != BOOL {
      forall k, a | 0 <= k < width / 8
        ensures var i := AddMod(INT32, Eval(offset, a), k);
          i < os.size ==> Slice(Eval(e, a), 8 * k, INT8) == old(os.Byte(i, a))
      {
        assert Place(k, width / 8, true) == k;
      }
    }
    StoredKept(os);
    ApplyPsnOnRead(os, offset);
  }

  // ----- native stores -----

  /** Both bytes of the word of `i` are plainly concrete. */
  predicate PlainWord(os: ObjectState, i: nat)
    requires os.MasksSized() && Aligned(os) && i < os.size
    reads os
  {
    os.Status(WordOf(i)) == os.Status(WordOf(i) + 1) == IN_STORE
  }

  /** The word of `i` holds the poison. */
  predicate PoisonedAt(os: ObjectState, i: nat)
    requires os.concreteStore.Length == os.size && Aligned(os) && i < os.size
    reads os.concreteStore
  {
    PoisonedWord(os, WordOf(i))
  }

  /** Native code writes a byte of the store without telling the caches. The byte then reads as written if
      it was concrete, and as before otherwise; no other byte changes. Under the invariants the object
      stays consistent, a byte of a word that is not poisoned is always seen, and the invariants hold
      again exactly if the word was plainly concrete or keeps its poison. */
  method NativeStore(os: ObjectState, i: nat, v: nat)
    requires os.Valid() && Aligned(os) && i < os.size && v < Pow2(INT8)
    modifies os.concreteStore
    ensures os.MasksSized() && os.concreteStore[i] == v
    ensures forall j :: 0 <= j < os.size ==> os.Status(j) == old(os.Status(j))
    ensures forall j, a :: 0 <= j < os.size && j != i ==> os.Byte(j, a) == old(os.Byte(j, a))
    ensures forall a :: os.Byte(i, a) == if old(os.IsConcrete(i)) then v else old(os.Byte(i, a))
    ensures old(Tase(os)) ==> os.Valid() && (Tase(os) <==> old(PlainWord(os, i)) || v == PoisonByte(i))
    ensures old(Tase(os) && !PoisonedAt(os, i)) ==> Tase(os) && forall a :: os.Byte(i, a) == v
  {
    hide Eval, EvalRead, Pow2, WF;
    os.concreteStore[i] := v;
    if old(Tase(os)) {
      forall j | 0 <= j < os.size ensures os.ByteOk(j) {
        assert old(os.ByteOk(j)) && old(ConcreteIsUnflushed(os, j));
      }
      forall j | 0 <= j < os.size
        ensures ConcreteIsUnflushed(os, j) && (WordOf(j) != WordOf(i) ==> CleanIsConcrete(os, j))
      {
        assert old(CleanIsConcrete(os, j)) && old(ConcreteIsUnflushed(os, j));
      }
      var w := WordOf(i);
      assert WordOf(w) == WordOf(w + 1) == w && WordOf(i) == w;
      assert old(CleanIsConcrete(os, w)) && old(CleanIsConcrete(os, w + 1)) && old(CleanIsConcrete(os, i));
      if old(PlainWord(os, i)) || v == PoisonByte(i) {
        forall j | 0 <= j < os.size && WordOf(j) == w ensures CleanIsConcrete(os, j) { assert j == w || j == w + 1; }
      } else {
        assert !(CleanIsConcrete(os, w) && CleanIsConcrete(os, w + 1));
      }
    }
  }

  /** After a read at a symbolic offset a native store goes unseen in every word, poisoned or not; after
      any other read exactly where the byte was not concrete. */
  method NativeStoreAfterRead(os: ObjectState, offset: Expr, i: nat, v: nat)
    requires os.Valid() && Aligned(os) && i < os.size && v < Pow2(INT8)
    modifies os, os.concreteStore
    ensures os.MasksSized()
    ensures forall a :: os.Byte(i, a) == if offset.Constant? && old(os.IsConcrete(i)) then v else old(os.Byte(i, a))
  {
    hide ByteOf, ByteOkOf, ObjectState.Byte, Pow2;
    ApplyPsnOnRead(os, offset);
    assert os.Status(i).concrete == os.IsConcrete(i);
    NativeStore(os, i, v);
  }
}
