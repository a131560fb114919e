/** Symbolic memory objects.  Each byte is cached as a concrete value, as a known symbolic value, or
    lives only in the list of flushed updates; together the three must behave as a plain map from
    offset to byte value. */
module Memory {
  import opened Options
  import opened Bits
  import opened Exprs
  import opened Create
  import opened Meaning

  const INT8: nat := 8
  const INT32: nat := 32

  predicate IsByte(e: Expr) {
    WF(e) && Width(e) == INT8
  }

  function ByteConstant(v: nat): Expr { Constant(v, INT8) }

  function IndexConstant(i: nat): Expr { Constant(i, INT32) }

  // ----- update lists -----

  /** Constant indices stay inside the object, as the creation of a constant array relies on. */
  predicate IndicesBelow(u: Updates, n: nat) {
    match u
    case NoUpdate => true
    case Update(next, i, _) => IndicesBelow(next, n) && (i.Constant? ==> i.value < n)
  }

  type Write = (Expr, Expr)

  /** `u` with further writes applied, oldest first. */
  function Extend(u: Updates, writes: seq<Write>): Updates {
    if writes == [] then u
    else Update(Extend(u, writes[..|writes| - 1]), writes[|writes| - 1].0, writes[|writes| - 1].1)
  }

  lemma {:induction false} ExtendFront(u: Updates, w: Write, ws: seq<Write>)
    ensures Extend(u, [w] + ws) == Extend(Update(u, w.0, w.1), ws)
  {
    if ws == [] {
      assert [w] + ws == [w] && [w][..0] == [];
      assert Extend(u, [w]) == Update(Extend(u, []), w.0, w.1);
    } else {
      assert ([w] + ws)[..|ws|] == [w] + ws[..|ws| - 1];
      ExtendFront(u, w, ws[..|ws| - 1]);
    }
  }

  lemma {:induction false} ExtendWF(root: Array, root': Array, u: Updates, u': Updates, ws: seq<Write>, n: nat)
    requires WFUpdates(root, Extend(u, ws)) && IndicesBelow(Extend(u, ws), n)
    requires root.domain == root'.domain && root.range == root'.range
    ensures WFUpdates(root, u) && IndicesBelow(u, n)
    ensures WFUpdates(root', u') && IndicesBelow(u', n) ==>
      WFUpdates(root', Extend(u', ws)) && IndicesBelow(Extend(u', ws), n)
  {
    if ws != [] { ExtendWF(root, root', u, u', ws[..|ws| - 1], n); }
  }

  /** Two stacks of equal later writes read alike where their bottoms do. */
  lemma {:induction false} ExtendCongruent(root: Array, u: Updates, root': Array, u': Updates, ws: seq<Write>, i: nat,
                                           a: Assignment)
    requires EvalRead(root, u, i, a) == EvalRead(root', u', i, a)
    ensures EvalRead(root, Extend(u, ws), i, a) == EvalRead(root', Extend(u', ws), i, a)
  {
    if ws != [] { ExtendCongruent(root, u, root', u', ws[..|ws| - 1], i, a); }
  }

  function ConstantArray(id: nat, contents: seq<nat>): Array {
    Array("const_arr", id, |contents|, contents, INT32, INT8)
  }

  function Zeros(n: nat): seq<nat> {
    seq(n, i => 0)
  }

  predicate WFContents(contents: seq<nat>) {
    forall i :: 0 <= i < |contents| ==> contents[i] < Pow2(INT8)
  }

  /** A constant write at the bottom of the list can move into the array itself. */
  lemma MoveIntoArray(id: nat, contents: seq<nat>, w: Write, ws: seq<Write>, i: nat, a: Assignment)
    requires w.0.Constant? && w.1.Constant? && w.0.value < |contents| && i < |contents|
    ensures EvalRead(ConstantArray(id, contents), Extend(NoUpdate, [w] + ws), i, a)
         == EvalRead(ConstantArray(id, contents[w.0.value := w.1.value]), Extend(NoUpdate, ws), i, a)
  {
    ExtendFront(NoUpdate, w, ws);
    ExtendCongruent(ConstantArray(id, contents), Update(NoUpdate, w.0, w.1),
                    ConstantArray(id, contents[w.0.value := w.1.value]), NoUpdate, ws, i, a);
  }

  /** The array below the updates; before it exists it reads as zeros. */
  function BaseOf(root: Option<Array>, size: nat): Array {
    if root.Some? then root.value else ConstantArray(0, Zeros(size))
  }

  predicate WFList(root: Option<Array>, u: Updates, size: nat) {
    var base := BaseOf(root, size);
    && WFArray(base) && base.domain == INT32 && base.range == INT8
    && WFUpdates(base, u)
    && (root.None? ==> IndicesBelow(u, size))
  }

  /** Where a byte is cached. */
  datatype Caches = Caches(concrete: bool, known: bool, flushed: bool)

  const IN_STORE := Caches(true, false, false)
  const IN_SYMBOLS := Caches(false, true, false)
  const IN_UPDATES := Caches(false, false, true)

  /** The value of byte `i` given its caches and the update list. */
  ghost function ByteOf(c: Caches, stored: nat, known: Option<Expr>, base: Array, u: Updates, i: nat,
                        a: Assignment): nat {
    if c.concrete then stored
    else if known.Some? then Eval(known.value, a)
    else EvalRead(base, u, i, a)
  }

  /** The source's cache invariants, and that a flushed byte still cached agrees with the updates. */
  ghost predicate ByteOkOf(c: Caches, stored: nat, known: Option<Expr>, base: Array, u: Updates, i: nat) {
    && stored < Pow2(INT8)
    && c.known == known.Some?
    && (known.Some? ==> !c.concrete && IsByte(known.value))
    && (!c.flushed ==> c.concrete || known.Some?)
    && (c.flushed ==> forall a :: ByteOf(c, stored, known, base, u, i, a) == EvalRead(base, u, i, a))
  }

  // ----- splitting a value into bytes -----

  /** The widths that can be stored: a Boolean, or whole bytes. */
  predicate StorableWidth(w: nat) {
    w == BOOL || (w > 0 && w % 8 == 0)
  }

  function ByteCount(w: nat): nat {
    if w == BOOL then 1 else w / 8
  }

  /** The position of byte `k` of `n`. */
  function Place(k: nat, n: nat, littleEndian: bool): nat
    requires k < n
  {
    if littleEndian then k else n - k - 1
  }

  function Part(value: Expr, k: nat): (e: Expr)
    requires WF(value) && StorableWidth(Width(value)) && k < ByteCount(Width(value))
    ensures IsByte(e)
  {
    if Width(value) == BOOL then ZExtCreate(value, INT8) else ExtractCreate(value, 8 * k, INT8)
  }

  lemma {:induction false} PartMeaning(value: Expr, k: nat, a: Assignment)
    requires WF(value) && StorableWidth(Width(value)) && k < ByteCount(Width(value))
    ensures Eval(Part(value, k), a) == Slice(Eval(value, a), 8 * k, INT8)
  {
    hide ExtractCreate;
    if Width(value) == BOOL {
      CastMeaning(value, INT8, a);
      LowSlice(Eval(value, a), INT8);
    } else {
      ExtractMeaning(value, 8 * k, INT8, a);
    }
  }

  lemma PartOfConstant(value: Expr)
    requires WF(value) && StorableWidth(Width(value)) && value.Constant?
    ensures forall k :: 0 <= k < ByteCount(Width(value)) ==> Part(value, k).Constant?
    ensures forall a :: Eval(value, a) == value.value
  {
    forall k | 0 <= k < ByteCount(Width(value)) ensures Part(value, k).Constant? {
      if Width(value) != BOOL { ExtractOfConstant(value, 8 * k, INT8); }
    }
  }

  lemma ExtractOfConstant(x: Expr, off: nat, w: nat)
    requires WF(x) && w > 0 && off + w <= Width(x)
    ensures x.Constant? ==> ExtractCreate(x, off, w).Constant?
  {
  }

  /** Putting a further byte above `v` leaves the bytes of `v` in place. */
  lemma JoinBytes(b: nat, v: nat, n: nat, k: nat)
    requires b < Pow2(INT8) && v < Pow2(8 * n) && k <= n
    ensures Slice(Join(b, v, 8 * n), 8 * k, INT8) == if k == n then b else Slice(v, 8 * k, INT8)
  {
    if k == n {
      SliceHigh(b, v, 8 * n, 8 * n, INT8);
      SliceFull(b, INT8);
    } else {
      SliceLow(b, v, 8 * n, 8 * k, INT8);
    }
  }

  /** One more byte on top of `n` bytes. */
  lemma PrependByte(b: Expr, e: Expr, n: nat, k: nat, a: Assignment)
    requires IsByte(b) && WF(e) && Width(e) == 8 * n && k <= n
    ensures Slice(Eval(ConcatCreate(b, e), a), 8 * k, INT8) ==
      if k == n then Eval(b, a)
      else Slice(Eval(e, a), 8 * k, INT8)
  {
    hide ConcatCreate, Slice, Eval, Pow2;
    ConcatMeaning(b, e, a);
    EvalBound(b, a);
    EvalBound(e, a);
    JoinBytes(Eval(b, a), Eval(e, a), n, k);
  }

  // ----- object states -----

  class ObjectState {
    const size: nat
    /** Address of the object; its bytes are backed by `concreteStore`. */
    const address: nat
    const concreteStore: array<nat>
    /** A missing mask means that every byte is concrete, respectively that none is flushed. */
    var concreteMask: Option<seq<bool>>
    var flushMask: Option<seq<bool>>
    var knownSymbolics: Option<seq<Option<Expr>>>
    /** A missing root is a constant array that has not been created yet. */
    var root: Option<Array>
    var updates: Updates
    var arrayCount: nat

    constructor (address: nat, size: nat)
      requires size < Pow2(INT32)
      ensures Valid() && fresh(concreteStore) && this.size == size && this.address == address
      ensures forall i :: 0 <= i < size ==> IsConcrete(i) && !IsFlushed(i)
      ensures forall i, a :: 0 <= i < size ==> Byte(i, a) == 0
    {
      this.size, this.address := size, address;
      concreteStore := new nat[size](i => 0);
      concreteMask, flushMask, knownSymbolics := None, None, None;
      root, updates, arrayCount := None, NoUpdate, 0;
    }

    // ----- the three caches -----

    predicate IsConcrete(i: nat)
      requires MasksSized() && i < size
      reads this
    {
      concreteMask.None? || concreteMask.value[i]
    }

    predicate IsFlushed(i: nat)
      requires MasksSized() && i < size
      reads this
    {
      flushMask.Some? && !flushMask.value[i]
    }

    predicate IsKnownSymbolic(i: nat)
      requires MasksSized() && i < size
      reads this
    {
      knownSymbolics.Some? && knownSymbolics.value[i].Some?
    }

    predicate MasksSized()
      reads this
    {
      && (concreteMask.Some? ==> |concreteMask.value| == size)
      && (flushMask.Some? ==> |flushMask.value| == size)
      && (knownSymbolics.Some? ==> |knownSymbolics.value| == size)
    }

    function Base(): Array
      reads this`root
    {
      BaseOf(root, size)
    }

    function KnownAt(i: nat): Option<Expr>
      requires MasksSized() && i < size
      reads this
    {
      if knownSymbolics.Some? then knownSymbolics.value[i] else None
    }

    /** The caches of byte `i`. */
    function Status(i: nat): Caches
      requires MasksSized() && i < size
      reads this
    {
      Caches(IsConcrete(i), IsKnownSymbolic(i), IsFlushed(i))
    }

    ghost function Byte(i: nat, a: Assignment): nat
      requires MasksSized() && i < size && concreteStore.Length == size
      reads this, concreteStore
    {
      ByteOf(Status(i), concreteStore[i], KnownAt(i), Base(), updates, i, a)
    }

    ghost predicate ByteOk(i: nat)
      requires MasksSized() && i < size && concreteStore.Length == size
      reads this, concreteStore
    {
      ByteOkOf(Status(i), concreteStore[i], KnownAt(i), Base(), updates, i)
    }

    ghost predicate Valid()
      reads this, concreteStore
    {
      && MasksSized() && concreteStore.Length == size < Pow2(INT32)
      && WFList(root, updates, size)
      && forall i :: 0 <= i < size ==> ByteOk(i)
    }

    // ----- flushing -----

    /** Appends one unflushed byte to the updates. */
    method FlushByte(offset: nat)
      requires Valid() && offset < size && flushMask.Some? && !IsFlushed(offset)
      modifies this`updates, this`flushMask
      ensures Valid() && flushMask.Some?
      ensures forall i, a :: 0 <= i < size ==> Byte(i, a) == old(Byte(i, a))
      ensures forall i :: 0 <= i < size ==> IsFlushed(i) == (old(IsFlushed(i)) || i == offset)
      ensures forall i :: 0 <= i < size && i != offset ==> Status(i) == old(Status(i))
    {
      assert ByteOk(offset);
      var value :=
        if IsConcrete(offset) then ByteConstant(concreteStore[offset]) else knownSymbolics.value[offset].value;
      var before := updates;
      updates := Update(updates, IndexConstant(offset), value);
      flushMask := Some(flushMask.value[offset := false]);
      assert IsByte(value) && WF(IndexConstant(offset));
      forall i, a | 0 <= i < size && i != offset
        ensures EvalRead(Base(), updates, i, a) == EvalRead(Base(), before, i, a)
      {
      }
      forall i | 0 <= i < size ensures ByteOk(i) {
        assert old(ByteOk(i));
      }
    }

    /** No mask means that nothing is flushed. */
    method NeedFlushMask()
      requires Valid()
      modifies this`flushMask
      ensures Valid() && flushMask.Some?
      ensures forall i, a :: 0 <= i < size ==> Byte(i, a) == old(Byte(i, a))
      ensures forall i :: 0 <= i < size ==> Status(i) == old(Status(i)) && IsFlushed(i) == old(IsFlushed(i))
    {
      if flushMask.None? {
        flushMask := Some(seq(size, i => true));
        assert forall i :: 0 <= i < size ==> old(ByteOk(i)) ==> ByteOk(i);
      }
    }

    /** Appends every unflushed byte of the range to the updates; no byte changes its value. */
    method FlushRangeForRead(rangeBase: nat, rangeSize: nat)
      requires Valid() && rangeBase + rangeSize <= size
      modifies this`updates, this`flushMask
      ensures Valid()
      ensures forall i, a :: 0 <= i < size ==> Byte(i, a) == old(Byte(i, a))
      ensures forall i :: 0 <= i < size ==>
        IsFlushed(i) == (old(IsFlushed(i)) || rangeBase <= i < rangeBase + rangeSize)
    {
      hide Pow2, WF;
      NeedFlushMask();
      var offset := rangeBase;
      while offset < rangeBase + rangeSize
        invariant rangeBase <= offset <= rangeBase + rangeSize
        invariant Valid() && flushMask.Some?
        invariant forall i, a :: 0 <= i < size ==> Byte(i, a) == old(Byte(i, a))
        invariant forall i :: 0 <= i < size ==> IsFlushed(i) == (old(IsFlushed(i)) || rangeBase <= i < offset)
      {
        if !IsFlushed(offset) { FlushByte(offset); }
        offset := offset + 1;
      }
    }

    /** Flushes the range and drops both caches for it, so that the updates alone hold it. */
    method FlushRangeForWrite(rangeBase: nat, rangeSize: nat)
      requires Valid() && rangeBase + rangeSize <= size
      modifies this
      ensures Valid() && root == old(root) && arrayCount == old(arrayCount)
      ensures forall i, a :: 0 <= i < size ==> Byte(i, a) == old(Byte(i, a))
      ensures forall i :: rangeBase <= i < rangeBase + rangeSize ==> Status(i) == IN_UPDATES
      ensures forall i :: 0 <= i < size && !(rangeBase <= i < rangeBase + rangeSize) ==> Status(i) == old(Status(i))
    {
      hide Pow2, WF;
      NeedFlushMask();
      hide Byte, ByteOk, IsFlushed;
      var offset := rangeBase;
      while offset < rangeBase + rangeSize
        invariant rangeBase <= offset <= rangeBase + rangeSize
        invariant Valid() && flushMask.Some? && root == old(root) && arrayCount == old(arrayCount)
        invariant forall i, a :: 0 <= i < size ==> Byte(i, a) == old(Byte(i, a))
        invariant forall i :: rangeBase <= i < offset ==> Status(i) == IN_UPDATES
        invariant forall i :: 0 <= i < size && !(rangeBase <= i < offset) ==> Status(i) == old(Status(i))
      {
        if !IsFlushed(offset) { FlushByte(offset); }
        assert forall i :: 0 <= i < size && i > offset ==> Status(i) == old(Status(i));
        DropCaches(offset);
        offset := offset + 1;
      }
    }

    /** `markByteSymbolic` and `setKnownSymbolic(offset, 0)` on a flushed byte. */
    method DropCaches(offset: nat)
      requires Valid() && offset < size && IsFlushed(offset)
      modifies this`concreteMask, this`knownSymbolics
      ensures Valid()
      ensures forall i, a :: 0 <= i < size ==> Byte(i, a) == old(Byte(i, a))
      ensures Status(offset) == IN_UPDATES
      ensures forall i :: 0 <= i < size && i != offset ==> Status(i) == old(Status(i))
    {
      hide Pow2, WF, Eval, EvalRead, WFList;
      assert ByteOk(offset);
      var isConcrete, isKnown := IsConcrete(offset), IsKnownSymbolic(offset);
      if isConcrete {
        concreteMask := Some(Mask(concreteMask)[offset := false]);
      } else if isKnown {
        knownSymbolics := Some(knownSymbolics.value[offset := None]);
      }
      forall i | 0 <= i < size ensures ByteOk(i) && forall a :: Byte(i, a) == old(Byte(i, a)) {
        assert old(ByteOk(i));
      }
    }

    /** A mask, allocated all set when missing. */
    function Mask(mask: Option<seq<bool>>): (bits: seq<bool>)
      requires mask.Some? ==> |mask.value| == size
      ensures |bits| == size
      ensures forall i :: 0 <= i < size ==> bits[i] == (mask.None? || mask.value[i])
    {
      if mask.Some? then mask.value else seq(size, i => true)
    }

    // ----- the lazily created constant array -----

    /** Creates the constant array: the oldest writes, as long as index and value are constant, become
        its contents and the others are applied on top.  Every byte reads as before. */
    method GetUpdates()
      requires Valid()
      modifies this`root, this`updates, this`arrayCount
      ensures Valid() && root.Some? && (old(root).Some? ==> root == old(root) && updates == old(updates))
      ensures forall i, a :: 0 <= i < size ==> EvalRead(Base(), updates, i, a) == old(EvalRead(Base(), updates, i, a))
      ensures forall i, a :: 0 <= i < size ==> Byte(i, a) == old(Byte(i, a))
      ensures forall i :: 0 <= i < size ==> Status(i) == old(Status(i))
    {
      if root.Some? { return; }
      arrayCount := arrayCount + 1;
      var created, list := BuildConstantArray(Base(), updates, arrayCount);
      root, updates := Some(created), list;
      forall i | 0 <= i < size
        ensures ByteOk(i) && Status(i) == old(Status(i)) && forall a :: Byte(i, a) == old(Byte(i, a))
      {
        assert old(ByteOk(i));
      }
    }

    // ----- reading and writing single bytes -----

    method Read8(offset: nat) returns (e: Expr)
      requires Valid() && offset < size
      modifies this`root, this`updates, this`arrayCount
      ensures Valid() && IsByte(e)
      ensures forall a :: Eval(e, a) == Byte(offset, a)
      ensures IsConcrete(offset) ==> e == ByteConstant(concreteStore[offset])
      ensures forall i, a :: 0 <= i < size ==> Byte(i, a) == old(Byte(i, a))
      ensures forall i :: 0 <= i < size ==> Status(i) == old(Status(i))
    {
      assert ByteOk(offset);
      if IsConcrete(offset) {
        e := ByteConstant(concreteStore[offset]);
      } else if IsKnownSymbolic(offset) {
        e := knownSymbolics.value[offset].value;
      } else {
        GetUpdates();
        assert ByteOk(offset) && Status(offset) == old(Status(offset));
        e := ReadCreate(Base(), updates, IndexConstant(offset));
        forall a ensures Eval(e, a) == Byte(offset, a) {
          ReadMeaning(Base(), updates, IndexConstant(offset), a);
        }
      }
    }

    /** A read at a symbolic offset flushes the object and reads through the update list. */
    method Read8Symbolic(offset: Expr) returns (e: Expr)
      requires Valid() && WF(offset) && !offset.Constant?
      modifies this`root, this`updates, this`arrayCount, this`flushMask
      ensures Valid() && IsByte(e)
      ensures forall a :: Eval(offset, a) % Pow2(INT32) < size ==> Eval(e, a) == Byte(Eval(offset, a) % Pow2(INT32), a)
      ensures forall i, a :: 0 <= i < size ==> Byte(i, a) == old(Byte(i, a))
      ensures forall i :: 0 <= i < size ==> Status(i) == old(Status(i)).(flushed := true)
    {
      hide ZExtCreate, ReadCreate, Eval, EvalRead;
      FlushRangeForRead(0, size);
      label flushed:
      assert forall i :: 0 <= i < size ==> Status(i) == old(Status(i)).(flushed := true);
      GetUpdates();
      var index := ZExtCreate(offset, INT32);
      e := ReadCreate(Base(), updates, index);
      forall a | Eval(offset, a) % Pow2(INT32) < size ensures Eval(e, a) == Byte(Eval(offset, a) % Pow2(INT32), a) {
        var i := Eval(offset, a) % Pow2(INT32);
        CastMeaning(offset, INT32, a);
        ReadMeaning(Base(), updates, index, a);
        assert ByteOk(i) && Status(i) == old@flushed(Status(i));
      }
    }

    method Write8(offset: nat, value: nat)
      requires Valid() && offset < size && value < Pow2(INT8)
      modifies this`concreteMask, this`flushMask, this`knownSymbolics, concreteStore
      ensures Valid()
      ensures forall i, a :: 0 <= i < size ==> Byte(i, a) == if i == offset then value else old(Byte(i, a))
      ensures Status(offset) == IN_STORE && concreteStore[offset] == value
      ensures forall i :: 0 <= i < size && i != offset ==>
        Status(i) == old(Status(i)) && concreteStore[i] == old(concreteStore[i])
    {
      hide Eval, EvalRead, WFList, WF, Width, BaseOf;
      assert ByteOk(offset);
      concreteStore[offset] := value;
      if knownSymbolics.Some? { knownSymbolics := Some(knownSymbolics.value[offset := None]); }
      if concreteMask.Some? { concreteMask := Some(concreteMask.value[offset := true]); }
      if flushMask.Some? { flushMask := Some(flushMask.value[offset := true]); }
      OthersKeep(offset);
    }

    /** A byte whose caches are untouched keeps its value and its invariant. */
    twostate lemma OthersKeep(offset: nat)
      requires old(Valid()) && MasksSized() && concreteStore.Length == size && root == old(root)
      requires updates == old(updates)
      requires forall i :: 0 <= i < size && i != offset ==>
        Status(i) == old(Status(i)) && KnownAt(i) == old(KnownAt(i)) && concreteStore[i] == old(concreteStore[i])
      ensures forall i :: 0 <= i < size && i != offset ==> ByteOk(i)
      ensures forall i, a :: 0 <= i < size && i != offset ==> Byte(i, a) == old(Byte(i, a))
    {
      hide ByteOkOf, ByteOf;
      forall i | 0 <= i < size && i != offset ensures ByteOk(i) { assert old(ByteOk(i)); }
    }

    /** Stores an expression, even a constant one, in the symbolic cache. */
    method Write8AsExpr(offset: nat, value: Expr)
      requires Valid() && offset < size && IsByte(value)
      modifies this`concreteMask, this`flushMask, this`knownSymbolics
      ensures Valid()
      ensures forall i, a :: 0 <= i < size ==> Byte(i, a) == if i == offset then Eval(value, a) else old(Byte(i, a))
      ensures Status(offset) == IN_SYMBOLS
      ensures forall i :: 0 <= i < size && i != offset ==> Status(i) == old(Status(i))
    {
      hide Eval, EvalRead, WFList, WF, Width, BaseOf;
      assert ByteOk(offset);
      var known: seq<Option<Expr>> := if knownSymbolics.Some? then knownSymbolics.value else seq(size, i => None);
      knownSymbolics := Some(known[offset := Some(value)]);
      concreteMask := Some(Mask(concreteMask)[offset := false]);
      if flushMask.Some? { flushMask := Some(flushMask.value[offset := true]); }
      OthersKeep(offset);
    }

    method Write8Expr(offset: nat, value: Expr)
      requires Valid() && offset < size && IsByte(value)
      modifies this`concreteMask, this`flushMask, this`knownSymbolics, concreteStore
      ensures Valid()
      ensures forall i, a :: 0 <= i < size ==> Byte(i, a) == if i == offset then Eval(value, a) else old(Byte(i, a))
      ensures Status(offset) == if value.Constant? then IN_STORE else IN_SYMBOLS
      ensures concreteStore[offset] == if value.Constant? then value.value else old(concreteStore[offset])
      ensures forall i :: 0 <= i < size && i != offset ==>
        Status(i) == old(Status(i)) && concreteStore[i] == old(concreteStore[i])
    {
      if value.Constant? {
        Write8(offset, value.value);
      } else {
        Write8AsExpr(offset, value);
      }
    }

    /** A write at a symbolic offset flushes the object and drops every cache. */
    method Write8Symbolic(offset: Expr, value: Expr)
      requires Valid() && WF(offset) && IsByte(value) && !ZExtCreate(offset, INT32).Constant?
      modifies this
      ensures Valid()
      ensures forall i, a :: 0 <= i < size ==>
        Byte(i, a) == if Eval(offset, a) % Pow2(INT32) == i then Eval(value, a) else old(Byte(i, a))
      ensures forall i :: 0 <= i < size ==> Status(i) == IN_UPDATES
    {
      hide ZExtCreate, WF, Width, Eval, ByteOk, Byte;
      FlushRangeForWrite(0, size);
      label flushed:
      PushUpdate(ZExtCreate(offset, INT32), value);
      forall i, a | 0 <= i < size
        ensures Byte(i, a) == if Eval(offset, a) % Pow2(INT32) == i then Eval(value, a) else old(Byte(i, a))
      {
        CastMeaning(offset, INT32, a);
        assert old@flushed(Byte(i, a)) == old(Byte(i, a));
      }
    }

    /** Extends the update list of an object that is nothing but its update list. */
    method PushUpdate(index: Expr, value: Expr)
      requires Valid() && WF(index) && Width(index) == INT32 && !index.Constant? && IsByte(value)
      requires forall i :: 0 <= i < size ==> Status(i) == IN_UPDATES
      modifies this`updates
      ensures Valid()
      ensures forall i, a :: 0 <= i < size ==>
        Byte(i, a) == if Eval(index, a) == i then Eval(value, a) else old(Byte(i, a))
      ensures forall i :: 0 <= i < size ==> Status(i) == IN_UPDATES
    {
      hide WF, Width, Eval;
      updates := Update(updates, index, value);
      forall i | 0 <= i < size ensures Status(i) == IN_UPDATES && ByteOk(i) {
        assert old(ByteOk(i)) && old(Status(i)) == IN_UPDATES;
      }
      forall i, a | 0 <= i < size
        ensures Byte(i, a) == if Eval(index, a) == i then Eval(value, a) else old(Byte(i, a))
      {
        assert Status(i) == IN_UPDATES && old(Status(i)) == IN_UPDATES;
      }
    }

    // ----- multi-byte reads and writes at a constant offset -----

    /** `write16`, `write32` and `write64`: the low `n` bytes of a constant. */
    method WriteConstant(offset: nat, value: nat, n: nat, littleEndian: bool)
      requires Valid() && offset + n <= size
      modifies this`concreteMask, this`flushMask, this`knownSymbolics, concreteStore
      ensures Valid()
      ensures forall i, a :: 0 <= i < size ==>
        Byte(i, a) ==
          if offset <= i < offset + n then Slice(value, 8 * Place(i - offset, n, littleEndian), INT8)
          else old(Byte(i, a))
      ensures forall i :: offset <= i < offset + n ==> Status(i) == IN_STORE
      ensures forall i :: 0 <= i < size && !(offset <= i < offset + n) ==>
        Status(i) == old(Status(i)) && concreteStore[i] == old(concreteStore[i])
    {
      hide Byte, ByteOk, Status;
      var k := 0;
      while k < n
        invariant k <= n && Valid()
        invariant forall i, a :: 0 <= i < size ==>
          Byte(i, a) ==
            if Done(i, offset, k, n, littleEndian) then Slice(value, 8 * Place(i - offset, n, littleEndian), INT8)
            else old(Byte(i, a))
        invariant forall i :: 0 <= i < size && Done(i, offset, k, n, littleEndian) ==> Status(i) == IN_STORE
        invariant forall i :: 0 <= i < size && !Done(i, offset, k, n, littleEndian) ==>
          Status(i) == old(Status(i)) && concreteStore[i] == old(concreteStore[i])
      {
        Write8(offset + Place(k, n, littleEndian), Slice(value, 8 * k, INT8));
        k := k + 1;
      }
    }

    /** Position `i` is among the first `k` written. */
    static predicate Done(i: nat, offset: nat, k: nat, n: nat, littleEndian: bool)
      requires k <= n
    {
      if littleEndian then offset <= i < offset + k else offset + (n - k) <= i < offset + n
    }

    method Write(offset: nat, value: Expr, littleEndian: bool)
      requires Valid() && WF(value) && StorableWidth(Width(value)) && offset + ByteCount(Width(value)) <= size
      modifies this`concreteMask, this`flushMask, this`knownSymbolics, concreteStore
      ensures Valid()
      ensures forall i, a :: 0 <= i < size ==>
        Byte(i, a) == if offset <= i < offset + ByteCount(Width(value))
                      then Slice(Eval(value, a), 8 * Place(i - offset, ByteCount(Width(value)), littleEndian), INT8)
                      else old(Byte(i, a))
      ensures forall i :: offset <= i < offset + ByteCount(Width(value)) ==>
        Status(i) ==
          if Part(value, Place(i - offset, ByteCount(Width(value)), littleEndian)).Constant? then IN_STORE
          else IN_SYMBOLS
      ensures forall i :: 0 <= i < size && !(offset <= i < offset + ByteCount(Width(value))) ==>
        Status(i) == old(Status(i)) && concreteStore[i] == old(concreteStore[i])
      ensures forall i :: offset <= i < offset + ByteCount(Width(value)) && Status(i) != IN_STORE ==>
        concreteStore[i] == old(concreteStore[i])
    {
      hide Byte, ByteOk, Status, Part, Slice, Eval, WF, Width, Pow2;
      var n := ByteCount(Width(value));
      forall k, a | 0 <= k < n ensures Eval(Part(value, k), a) == Slice(Eval(value, a), 8 * k, INT8) {
        PartMeaning(value, k, a);
      }
      if value.Constant? {
        PartOfConstant(value);
        WriteConstant(offset, value.value, n, littleEndian);
      } else {
        var k := 0;
        while k < n
          invariant k <= n && Valid()
          invariant forall i, a :: 0 <= i < size ==>
            Byte(i, a) ==
              if Done(i, offset, k, n, littleEndian)
              then Slice(Eval(value, a), 8 * Place(i - offset, n, littleEndian), INT8)
              else old(Byte(i, a))
          invariant forall i :: 0 <= i < size && Done(i, offset, k, n, littleEndian) ==>
            Status(i) == if Part(value, Place(i - offset, n, littleEndian)).Constant? then IN_STORE else IN_SYMBOLS
          invariant forall i :: 0 <= i < size && Done(i, offset, k, n, littleEndian) && Status(i) != IN_STORE ==>
            concreteStore[i] == old(concreteStore[i])
          invariant forall i :: 0 <= i < size && !Done(i, offset, k, n, littleEndian) ==>
            Status(i) == old(Status(i)) && concreteStore[i] == old(concreteStore[i])
        {
          Write8Expr(offset + Place(k, n, littleEndian), Part(value, k));
          k := k + 1;
        }
      }
    }

    /** The byte-by-byte read. */
    method ReadBytes(offset: nat, width: nat, littleEndian: bool) returns (e: Expr)
      requires Valid() && StorableWidth(width) && offset + ByteCount(width) <= size
      modifies this`root, this`updates, this`arrayCount
      ensures Valid() && WF(e) && Width(e) == width
      ensures width != BOOL ==> forall k, a :: 0 <= k < width / 8 ==>
        Slice(Eval(e, a), 8 * k, INT8) == Byte(offset + Place(k, width / 8, littleEndian), a)
      ensures width == BOOL ==> forall a :: Eval(e, a) == Slice(Byte(offset, a), 0, BOOL)
      ensures forall i, a :: 0 <= i < size ==> Byte(i, a) == old(Byte(i, a))
      ensures forall i :: 0 <= i < size ==> Status(i) == old(Status(i))
    {
      hide Byte, ByteOk, Status, ExtractCreate, ConcatCreate, Slice, Eval, WF, Pow2;
      if width == BOOL {
        var b := Read8(offset);
        e := ExtractCreate(b, 0, BOOL);
        forall a ensures Eval(e, a) == Slice(Byte(offset, a), 0, BOOL) { ExtractMeaning(b, 0, BOOL, a); }
        return;
      }
      var n := width / 8;
      e := Read8(offset + Place(0, n, littleEndian));
      forall a ensures Slice(Eval(e, a), 0, INT8) == Byte(offset + Place(0, n, littleEndian), a) {
        EvalBound(e, a);
        SliceFull(Eval(e, a), INT8);
      }
      var i := 1;
      while i < n
        invariant 1 <= i <= n && Valid() && WF(e) && Width(e) == 8 * i
        invariant forall k, a :: 0 <= k < i ==>
          Slice(Eval(e, a), 8 * k, INT8) == Byte(offset + Place(k, n, littleEndian), a)
        invariant forall j, a :: 0 <= j < size ==> Byte(j, a) == old(Byte(j, a))
        invariant forall j :: 0 <= j < size ==> Status(j) == old(Status(j))
      {
        var b := Read8(offset + Place(i, n, littleEndian));
        var r := ConcatCreate(b, e);
        forall k, a | 0 <= k <= i
          ensures Slice(Eval(r, a), 8 * k, INT8) == Byte(offset + Place(k, n, littleEndian), a)
        {
          PrependByte(b, e, i, k, a);
        }
        e := r;
        i := i + 1;
      }
    }

    // ----- multi-byte reads and writes at a symbolic offset -----

    /** Each byte lands at the offset plus its place, modulo 2^32. */
    method WriteSymbolic(offset: Expr, value: Expr, littleEndian: bool)
      requires Valid() && WF(value) && StorableWidth(Width(value)) && ByteCount(Width(value)) < Pow2(INT32)
      requires WF(offset) && Width(offset) == INT32
      requires forall k :: 0 <= k < ByteCount(Width(value)) ==> !SumIndex(offset, k).Constant?
      modifies this
      ensures Valid()
      ensures var n := ByteCount(Width(value)); forall i, a :: 0 <= i < size ==>
        var d := SubMod(INT32, i, Eval(offset, a));
        Byte(i, a) == if d < n then Slice(Eval(value, a), 8 * Place(d, n, littleEndian), INT8) else old(Byte(i, a))
      ensures forall i :: 0 <= i < size ==> Status(i) == IN_UPDATES
    {
      hide Byte, ByteOk, Status, Part, Slice, Eval, WF, Width, AddMod, SubMod, ZExtCreate, Pow2, SumIndex;
      var n := ByteCount(Width(value));
      var k := 0;
      while k < n
        invariant k <= n && Valid()
        invariant forall i, a :: 0 <= i < size ==>
          var d := SubMod(INT32, i, Eval(offset, a));
          Byte(i, a) ==
            if Done(d, 0, k, n, littleEndian) then Slice(Eval(value, a), 8 * Place(d, n, littleEndian), INT8)
            else old(Byte(i, a))
        invariant k > 0 ==> forall i :: 0 <= i < size ==> Status(i) == IN_UPDATES
      {
        WritePart(offset, value, k, Place(k, n, littleEndian));
        k := k + 1;
      }
    }

    /** Byte `k` of the value, at `place` bytes past the offset. */
    method WritePart(offset: Expr, value: Expr, k: nat, place: nat)
      requires Valid() && WF(value) && StorableWidth(Width(value)) && k < ByteCount(Width(value))
      requires WF(offset) && Width(offset) == INT32 && place < Pow2(INT32) && !SumIndex(offset, place).Constant?
      modifies this
      ensures Valid()
      ensures forall i, a :: 0 <= i < size ==>
        Byte(i, a) ==
          if SubMod(INT32, i, Eval(offset, a)) == place then Slice(Eval(value, a), 8 * k, INT8)
          else old(Byte(i, a))
      ensures forall i :: 0 <= i < size ==> Status(i) == IN_UPDATES
    {
      hide Byte, ByteOk, Status, Part, Slice, Eval, WF, Width, AddMod, SubMod, ZExtCreate;
      SumIndexMeaning(offset, place);
      Write8Symbolic(SumIndex(offset, place), Part(value, k));
      forall i, a | 0 <= i < size
        ensures Byte(i, a) ==
          if SubMod(INT32, i, Eval(offset, a)) == place then Slice(Eval(value, a), 8 * k, INT8)
          else old(Byte(i, a))
      {
        EvalBound(offset, a);
        SolveSum(INT32, i, Eval(offset, a), place);
        PartMeaning(value, k, a);
      }
    }

    method ReadSymbolic(offset: Expr, width: nat, littleEndian: bool) returns (e: Expr)
      requires Valid() && StorableWidth(width) && ByteCount(width) < Pow2(INT32)
      requires WF(offset) && Width(offset) == INT32 && !offset.Constant?
      requires forall k :: 0 <= k < ByteCount(width) ==> !SumIndex(offset, k).Constant?
      modifies this`root, this`updates, this`arrayCount, this`flushMask
      ensures Valid() && WF(e) && Width(e) == width
      ensures width != BOOL ==> forall k, a :: 0 <= k < width / 8 ==>
        var i := AddMod(INT32, Eval(offset, a), Place(k, width / 8, littleEndian));
        i < size ==> Slice(Eval(e, a), 8 * k, INT8) == Byte(i, a)
      ensures width == BOOL ==> forall a :: Eval(offset, a) < size ==>
        Eval(e, a) == Slice(Byte(Eval(offset, a), a), 0, BOOL)
      ensures forall i, a :: 0 <= i < size ==> Byte(i, a) == old(Byte(i, a))
      ensures forall i :: 0 <= i < size ==> Status(i) == old(Status(i)).(flushed := true)
    {
      hide Byte, ByteOk, Status, ExtractCreate, ConcatCreate, Slice, Eval, WF, Width, AddMod, ZExtCreate, Pow2;
      if width == BOOL {
        var b := Read8Symbolic(offset);
        e := ExtractCreate(b, 0, BOOL);
        forall a | Eval(offset, a) < size ensures Eval(e, a) == Slice(Byte(Eval(offset, a), a), 0, BOOL) {
          ExtractMeaning(b, 0, BOOL, a);
          EvalBound(offset, a);
          Reduced(INT32, Eval(offset, a));
        }
        return;
      }
      var n := width / 8;
      e := False();
      var i := 0;
      while i < n
        invariant i <= n && Valid()
        invariant i > 0 ==> WF(e) && Width(e) == 8 * i
        invariant forall k, a :: 0 <= k < i ==>
          var j := AddMod(INT32, Eval(offset, a), Place(k, n, littleEndian));
          j < size ==> Slice(Eval(e, a), 8 * k, INT8) == Byte(j, a)
        invariant forall j, a :: 0 <= j < size ==> Byte(j, a) == old(Byte(j, a))
        invariant forall j :: 0 <= j < size ==>
          Status(j) == if i == 0 then old(Status(j)) else old(Status(j)).(flushed := true)
      {
        var place := Place(i, n, littleEndian);
        SumIndexMeaning(offset, place);
        var b := Read8Symbolic(SumIndex(offset, place));
        var r := if i == 0 then b else ConcatCreate(b, e);
        forall k, a | 0 <= k <= i
          ensures var j := AddMod(INT32, Eval(offset, a), Place(k, n, littleEndian));
            j < size ==> Slice(Eval(r, a), 8 * k, INT8) == Byte(j, a)
        {
          if i == 0 {
            EvalBound(b, a);
            SliceFull(Eval(b, a), INT8);
          } else {
            PrependByte(b, e, i, k, a);
          }
        }
        e := r;
        i := i + 1;
      }
    }

    // ----- objects with symbolic contents -----

    /** A fresh symbolic object: every byte is an element of `contents`. */
    constructor Symbolic(address: nat, size: nat, contents: Array)
      requires size < Pow2(INT32) && WFArray(contents) && contents.domain == INT32 && contents.range == INT8
      ensures Valid() && fresh(concreteStore) && this.size == size && this.address == address
      ensures forall i :: 0 <= i < size ==> Status(i) == IN_UPDATES
      ensures forall i, a :: 0 <= i < size ==> Byte(i, a) == InitialValue(contents, i, a)
    {
      this.size, this.address := size, address;
      concreteStore := new nat[size](i => 0);
      concreteMask, flushMask, knownSymbolics := None, None, None;
      root, updates, arrayCount := Some(contents), NoUpdate, 0;
      new;
      MakeSymbolic();
    }

    /** Marks every byte symbolic, unknown and flushed; only allowed before any update. */
    method MakeSymbolic()
      requires MasksSized() && concreteStore.Length == size < Pow2(INT32) && WFList(root, updates, size)
      requires updates.NoUpdate?
      requires forall i :: 0 <= i < size ==> concreteStore[i] < Pow2(INT8)
      modifies this`concreteMask, this`flushMask, this`knownSymbolics
      ensures Valid()
      ensures forall i :: 0 <= i < size ==> Status(i) == IN_UPDATES
      ensures forall i, a :: 0 <= i < size ==> Byte(i, a) == InitialValue(Base(), i, a)
    {
      hide WFList, Pow2;
      var i := 0;
      while i < size
        invariant i <= size && MasksSized()
        invariant i > 0 ==> concreteMask.Some? && flushMask.Some?
        invariant i > 0 ==> forall j :: 0 <= j < i ==> !concreteMask.value[j] && !flushMask.value[j]
        invariant knownSymbolics.Some? ==> forall j :: 0 <= j < i ==> knownSymbolics.value[j].None?
      {
        concreteMask := Some(Mask(concreteMask)[i := false]);
        if knownSymbolics.Some? { knownSymbolics := Some(knownSymbolics.value[i := None]); }
        flushMask := if flushMask.None? then Some(seq(size, j => false)) else Some(flushMask.value[i := false]);
        i := i + 1;
      }
    }
  }

  /** The index of byte `k` of an access at `offset`. */
  function SumIndex(offset: Expr, k: nat): (e: Expr)
    requires WF(offset) && Width(offset) == INT32 && k < Pow2(INT32)
    ensures WF(e) && Width(e) == INT32
  {
    AddCreate(offset, IndexConstant(k))
  }

  lemma SumIndexMeaning(offset: Expr, k: nat)
    requires WF(offset) && Width(offset) == INT32 && k < Pow2(INT32)
    ensures ZExtCreate(SumIndex(offset, k), INT32) == SumIndex(offset, k)
    ensures forall a :: Eval(SumIndex(offset, k), a) % Pow2(INT32) == AddMod(INT32, Eval(offset, a), k)
  {
    hide AddMod, AddCreate, Eval;
    forall a ensures Eval(SumIndex(offset, k), a) % Pow2(INT32) == AddMod(INT32, Eval(offset, a), k) {
      AddMeaning(offset, IndexConstant(k), a);
      IndexValue(k, a);
      Reduced(INT32, AddMod(INT32, Eval(offset, a), k));
    }
  }

  lemma IndexValue(k: nat, a: Assignment)
    ensures Eval(IndexConstant(k), a) == k
  {
  }

  method BuildConstantArray(zero: Array, u: Updates, id: nat) returns (created: Array, list: Updates)
    requires zero == ConstantArray(0, Zeros(zero.size)) && WFUpdates(zero, u) && IndicesBelow(u, zero.size)
    ensures created.size == zero.size && created.domain == INT32 && created.range == INT8
    ensures WFArray(created) && WFUpdates(created, list)
    ensures forall i, a :: 0 <= i < zero.size ==> EvalRead(created, list, i, a) == EvalRead(zero, u, i, a)
  {
    var writes := CollectWrites(u);
    var contents, begin := PullConstants(zero, writes);
    var rest := writes[begin..];
    created, list := ConstantArray(id, contents), Extend(NoUpdate, rest);
    ExtendWF(zero, created, NoUpdate, NoUpdate, rest, zero.size);
    forall i, a | 0 <= i < zero.size ensures EvalRead(created, list, i, a) == EvalRead(zero, u, i, a) {
      ExtendCongruent(created, NoUpdate, ConstantArray(0, contents), NoUpdate, rest, i, a);
    }
  }

  /** The writes of a list, oldest first. */
  method CollectWrites(u: Updates) returns (writes: seq<Write>)
    ensures Extend(NoUpdate, writes) == u && |writes| == UpdatesLength(u)
  {
    writes := [];
    var un := u;
    while un.Update?
      invariant Extend(un, writes) == u && |writes| + UpdatesLength(un) == UpdatesLength(u)
      decreases un
    {
      ExtendFront(un.next, (un.index, un.value), writes);
      writes := [(un.index, un.value)] + writes;
      un := un.next;
    }
  }

  /** Moves the leading constant writes into the contents of an array of zeros. */
  method PullConstants(zero: Array, writes: seq<Write>) returns (contents: seq<nat>, begin: nat)
    requires zero == ConstantArray(0, Zeros(zero.size))
    requires WFUpdates(zero, Extend(NoUpdate, writes)) && IndicesBelow(Extend(NoUpdate, writes), zero.size)
    ensures |contents| == zero.size && WFContents(contents) && begin <= |writes|
    ensures WFUpdates(zero, Extend(NoUpdate, writes[begin..]))
    ensures IndicesBelow(Extend(NoUpdate, writes[begin..]), zero.size)
    ensures forall i, a :: 0 <= i < zero.size ==>
      EvalRead(ConstantArray(0, contents), Extend(NoUpdate, writes[begin..]), i, a) ==
      EvalRead(zero, Extend(NoUpdate, writes), i, a)
    ensures begin < |writes| ==> !(writes[begin].0.Constant? && writes[begin].1.Constant?)
  {
    contents, begin := Zeros(zero.size), 0;
    assert writes[0..] == writes;
    while begin < |writes| && writes[begin].0.Constant? && writes[begin].1.Constant?
      invariant begin <= |writes| && |contents| == zero.size && WFContents(contents)
      invariant WFUpdates(zero, Extend(NoUpdate, writes[begin..]))
      invariant IndicesBelow(Extend(NoUpdate, writes[begin..]), zero.size)
      invariant forall i, a :: 0 <= i < zero.size ==>
        EvalRead(ConstantArray(0, contents), Extend(NoUpdate, writes[begin..]), i, a) ==
        EvalRead(zero, Extend(NoUpdate, writes), i, a)
    {
      var w, rest := writes[begin], writes[begin + 1..];
      assert writes[begin..] == [w] + rest;
      ExtendFront(NoUpdate, w, rest);
      ExtendWF(zero, zero, Update(NoUpdate, w.0, w.1), NoUpdate, rest, zero.size);
      forall i, a | 0 <= i < zero.size
        ensures EvalRead(ConstantArray(0, contents), Extend(NoUpdate, [w] + rest), i, a)
             == EvalRead(ConstantArray(0, contents[w.0.value := w.1.value]), Extend(NoUpdate, rest), i, a)
      {
        MoveIntoArray(0, contents, w, rest, i, a);
      }
      contents := contents[w.0.value := w.1.value];
      begin := begin + 1;
    }
  }
}
