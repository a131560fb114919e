/** Whole runs over one object, as the program makes them: every write is followed by `applyPsnOnWrite`, every
    read tries the fast path first, and a read at a symbolic offset is followed by `applyPsnOnRead`. Whatever
    the caches and the poison did meanwhile, a read sees the last write to each byte, at offsets as they
    evaluate. */
module MemoryRuns {
  import opened Options
  import opened Bits
  import opened Exprs
  import opened Create
  import opened Memory
  import opened NormalForm
  import opened Poison

  datatype Op =
    | WriteAt(offset: nat, value: Expr)
    | WriteSym(index: Expr, value: Expr)
    | ReadAt(offset: nat, width: nat)
    | ReadSym(index: Expr, width: nat)

  /** A symbolic offset as the constructors build it. */
  predicate WFIndex(index: Expr, n: nat) {
    WF(index) && Width(index) == INT32 && !index.Constant? && Normal(index) && n < Pow2(INT32)
  }

  /** It stays symbolic when byte positions are added. */
  lemma IndexStaysSymbolic(index: Expr, n: nat)
    requires WFIndex(index, n)
    ensures forall k :: 0 <= k < n ==> !SumIndex(index, k).Constant?
  {
    hide Pow2;
    forall k | 0 <= k < n ensures !SumIndex(index, k).Constant? {
      BuiltOffsetStaysSymbolic(index, IndexConstant(k));
    }
  }

  predicate WFOp(op: Op, size: nat) {
    match op
    case WriteAt(o, v) => WF(v) && PoisonWidth(Width(v)) && o + ByteCount(Width(v)) <= size
    case WriteSym(x, v) => WF(v) && PoisonWidth(Width(v)) && WFIndex(x, ByteCount(Width(v)))
    case ReadAt(o, w) => StorableWidth(w) && o + ByteCount(w) <= size
    case ReadSym(x, w) => StorableWidth(w) && WFIndex(x, ByteCount(w))
  }

  // ----- what a run means -----

  /** The plain byte map: what byte `i` holds after one operation. */
  ghost function Effect(op: Op, i: nat, before: nat, a: Assignment): nat {
    match op
    case WriteAt(o, v) => Written(o, v, i, before, a)
    case WriteSym(x, v) =>
      var d := SubMod(INT32, i, Eval(x, a));
      if d < ByteCount(Width(v)) then Slice(Eval(v, a), 8 * d, INT8) else before
    case ReadAt(_, _) => before
    case ReadSym(_, _) => before
  }

  /** The same for what the code does: bytes of a bare-poisoned word that folded to constants are lost. */
  ghost function Outcome(op: Op, size: nat, i: nat, before: nat, a: Assignment): nat
    requires WFOp(op, size)
  {
    if op.WriteAt? then StoreResult(op.offset, op.value, i, before, a) else Effect(op, i, before, a)
  }

  predicate LosslessOp(op: Op, size: nat)
    requires WFOp(op, size)
  {
    op.WriteAt? ==> Lossless(op.offset, op.value)
  }

  predicate WFRun(ops: seq<Op>, size: nat) {
    forall k :: 0 <= k < |ops| ==> WFOp(ops[k], size)
  }

  /** What byte `i` holds after a run: the last write that covers it, or what was there at first. */
  ghost function LastWrite(ops: seq<Op>, i: nat, first: nat, a: Assignment): nat {
    if ops == [] then first
    else Effect(ops[|ops| - 1], i, LastWrite(ops[..|ops| - 1], i, first, a), a)
  }

  ghost function RunByte(ops: seq<Op>, size: nat, i: nat, first: nat, a: Assignment): nat
    requires WFRun(ops, size)
  {
    if ops == [] then first
    else Outcome(ops[|ops| - 1], size, i, RunByte(ops[..|ops| - 1], size, i, first, a), a)
  }

  /** A run whose writes are lossless leaves the last writes. */
  lemma {:induction false} LosslessRun(ops: seq<Op>, size: nat, i: nat, first: nat, a: Assignment)
    requires WFRun(ops, size) && forall k :: 0 <= k < |ops| ==> LosslessOp(ops[k], size)
    ensures RunByte(ops, size, i, first, a) == LastWrite(ops, i, first, a)
  {
    hide WFOp, Written, StoreResult, Lossless;
    if ops != [] {
      var op := ops[|ops| - 1];
      LosslessRun(ops[..|ops| - 1], size, i, first, a);
      assert WFOp(op, size) && LosslessOp(op, size);
      LosslessOutcome(op, size, i, LastWrite(ops[..|ops| - 1], i, first, a), a);
    }
  }

  lemma LosslessOutcome(op: Op, size: nat, i: nat, before: nat, a: Assignment)
    requires WFOp(op, size) && LosslessOp(op, size)
    ensures Outcome(op, size, i, before, a) == Effect(op, i, before, a)
  {
    hide StoreResult, Written, Lossless;
    if op.WriteAt? { LosslessResult(op.offset, op.value, i, before, a); }
  }

  type Bytes = (nat, Assignment) -> nat

  /** A read returns an expression made of the bytes it covers; if it missed one, that is the last of two,
      four or eight bytes at an odd offset, and poison stands in its place. */
  ghost predicate Answers(op: Op, r: Option<Expr>, missed: bool, size: nat, bytes: Bytes) {
    match op
    case ReadAt(o, w) =>
      && r.Some? && WF(r.value) && Width(r.value) == w
      && (missed ==> o % 2 == 1 && w / 8 in {2, 4, 8})
      && (w == BOOL ==> forall a :: Eval(r.value, a) == Slice(bytes(o, a), 0, BOOL))
      && (w != BOOL ==> forall k, a :: 0 <= k < w / 8 ==>
        Slice(Eval(r.value, a), 8 * k, INT8) == if missed && k == w / 8 - 1 then POISON_LOW else bytes(o + k, a))
    case ReadSym(x, w) =>
      && !missed && r.Some? && WF(r.value) && Width(r.value) == w
      && (w == BOOL ==> forall a :: Eval(x, a) < size ==> Eval(r.value, a) == Slice(bytes(Eval(x, a), a), 0, BOOL))
      && (w != BOOL ==> forall k, a :: 0 <= k < w / 8 ==>
        var i := AddMod(INT32, Eval(x, a), k);
        i < size ==> Slice(Eval(r.value, a), 8 * k, INT8) == bytes(i, a))
    case WriteAt(_, _) => r.None? && !missed
    case WriteSym(_, _) => r.None? && !missed
  }

  lemma AnswersSame(op: Op, r: Option<Expr>, missed: bool, size: nat, bytes: Bytes, bytes': Bytes)
    requires Answers(op, r, missed, size, bytes) && forall i, a :: bytes(i, a) == bytes'(i, a)
    ensures Answers(op, r, missed, size, bytes')
  {
    hide Slice, Eval, WF, Width, AddMod;
  }

  // ----- running -----

  method Step(os: ObjectState, op: Op, ghost bytes: Bytes) returns (r: Option<Expr>, ghost missed: bool)
    requires os.Valid() && Readable(os) && WFOp(op, os.size)
    requires forall i, a :: 0 <= i < os.size ==> os.Byte(i, a) == bytes(i, a)
    modifies os, os.concreteStore
    ensures os.Valid() && Readable(os) && Answers(op, r, missed, os.size, bytes)
    ensures op.ReadAt? ==> missed == (op.width != BOOL && old(Poison.Missed(os, op.offset, op.width / 8)))
    ensures forall i, a :: 0 <= i < os.size ==> os.Byte(i, a) == Outcome(op, os.size, i, bytes(i, a), a)
  {
    hide ObjectState.Byte, ObjectState.ByteOk, ObjectState.Status, Slice, Eval, WF, Width, AddMod, SubMod, Pow2,
      SumIndex,
      Readable, Tase, Poison.Missed, StoreResult;
    r, missed := None, false;
    match op {
      case WriteAt(o, v) => Store(os, o, v);
      case WriteSym(x, v) =>
        IndexStaysSymbolic(x, ByteCount(Width(v)));
        ReadableAligned(os);
        StoreSymbolic(os, x, v);
        TaseIsReadable(os);
      case ReadAt(o, w) =>
        ReadableAligned(os);
        missed := w != BOOL && Poison.Missed(os, o, w / 8);
        OddMissed(os, o, w);
        var e := Poison.Read(os, o, w);
        r := Some(e);
      case ReadSym(x, w) =>
        IndexStaysSymbolic(x, ByteCount(w));
        var e := LoadSymbolic(os, x, w);
        r := Some(e);
    }
  }

  lemma ReadableAligned(os: ObjectState)
    requires os.Valid() && Readable(os)
    ensures Aligned(os)
  {
  }

  lemma OddMissed(os: ObjectState, offset: nat, width: nat)
    requires os.Valid() && Aligned(os)
    ensures width != BOOL && offset + width / 8 <= os.size && Poison.Missed(os, offset, width / 8) ==>
      offset % 2 == 1 && width / 8 in {2, 4, 8}
  {
  }

  lemma LosslessAnswers(ops: seq<Op>, k: nat, r: Option<Expr>, missed: bool, size: nat, first: Bytes)
    requires WFRun(ops, size) && k < |ops| && forall j :: 0 <= j < |ops| ==> LosslessOp(ops[j], size)
    requires Answers(ops[k], r, missed, size, (i, a) => RunByte(ops[..k], size, i, first(i, a), a))
    ensures Answers(ops[k], r, missed, size, (i, a) => LastWrite(ops[..k], i, first(i, a), a))
  {
    hide Answers, WFOp, LosslessOp;
    var ran: Bytes, last: Bytes :=
      (i, a) => RunByte(ops[..k], size, i, first(i, a), a), (i, a) => LastWrite(ops[..k], i, first(i, a), a);
    forall i, a ensures ran(i, a) == last(i, a) { LosslessRun(ops[..k], size, i, first(i, a), a); }
    AnswersSame(ops[k], r, missed, size, ran, last);
  }

  /** Over any run, every read answers with what the operations before it left, and a read at an even offset
      misses nothing; if the writes are lossless, that is the last write to each byte. */
  method Execute(os: ObjectState, ops: seq<Op>, ghost first: Bytes)
    returns (answers: seq<Option<Expr>>, ghost missed: seq<bool>)
    requires os.Valid() && Readable(os) && WFRun(ops, os.size)
    requires forall i, a :: 0 <= i < os.size ==> os.Byte(i, a) == first(i, a)
    modifies os, os.concreteStore
    ensures os.Valid() && Readable(os) && |answers| == |missed| == |ops|
    ensures forall k :: 0 <= k < |ops| ==>
      Answers(ops[k], answers[k], missed[k], os.size, (i, a) => RunByte(ops[..k], os.size, i, first(i, a), a))
    ensures forall i, a :: 0 <= i < os.size ==> os.Byte(i, a) == RunByte(ops, os.size, i, first(i, a), a)
    ensures (forall k :: 0 <= k < |ops| ==> LosslessOp(ops[k], os.size)) ==>
      && (forall i, a :: 0 <= i < os.size ==> os.Byte(i, a) == LastWrite(ops, i, first(i, a), a))
      && (forall k :: 0 <= k < |ops| ==>
        Answers(ops[k], answers[k], missed[k], os.size, (i, a) => LastWrite(ops[..k], i, first(i, a), a)))
  {
    hide ObjectState.Byte, Outcome, Answers, WFOp, Readable;
    answers, missed := [], [];
    for n := 0 to |ops|
      invariant os.Valid() && Readable(os) && |answers| == |missed| == n
      invariant forall k :: 0 <= k < n ==>
        Answers(ops[k], answers[k], missed[k], os.size, (i, a) => RunByte(ops[..k], os.size, i, first(i, a), a))
      invariant forall i, a :: 0 <= i < os.size ==> os.Byte(i, a) == RunByte(ops[..n], os.size, i, first(i, a), a)
    {
      var r, m := Step(os, ops[n], (i, a) => RunByte(ops[..n], os.size, i, first(i, a), a));
      assert ops[..n + 1][..n] == ops[..n];
      answers, missed := answers + [r], missed + [m];
    }
    assert ops[..|ops|] == ops;
    if forall k :: 0 <= k < |ops| ==> LosslessOp(ops[k], os.size) {
      forall i, a | 0 <= i < os.size ensures os.Byte(i, a) == LastWrite(ops, i, first(i, a), a) {
        LosslessRun(ops, os.size, i, first(i, a), a);
      }
      forall k | 0 <= k < |ops|
        ensures Answers(ops[k], answers[k], missed[k], os.size, (i, a) => LastWrite(ops[..k], i, first(i, a), a))
      {
        LosslessAnswers(ops, k, answers[k], missed[k], os.size, first);
      }
    }
  }
}
