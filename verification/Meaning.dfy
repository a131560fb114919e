/** Every smart constructor preserves meaning: under every assignment the expression it returns
    has the value of the operator applied to the operands' values. */
module Meaning {
  import opened Bits
  import opened Exprs
  import opened Create

  lemma BoolValue(e: Expr, a: Assignment)
    requires WF(e) && Width(e) == BOOL
    ensures Eval(e, a) < 2
  {
    EvalBound(e, a);
    assert Pow2(1) == 2 * Pow2(0);
  }

  lemma {:induction false} BoolBits(k: BitOp, x: nat, y: nat)
    requires x < 2 && y < 2
    ensures Bitwise(k, x, y) == Bit(k, x, y)
  {
    assert x / 2 == 0 && y / 2 == 0 && Bitwise(k, 0, 0) == 0;
    BitwiseStep(k, x, y);
  }

  // ----- Concat and Extract -----

  lemma {:induction false} ConcatMeaning(l: Expr, r: Expr, a: Assignment)
    requires WF(l) && WF(r)
    ensures Eval(ConcatCreate(l, r), a) == Join(Eval(l, a), Eval(r, a), Width(r))
    decreases Weight(l) + Weight(r), 1
  {
    if l.Constant? && r.Constant? {
    } else if l.Unary? && l.uop.Extract? && r.Unary? && r.uop.Extract? &&
              l.src == r.src && r.uop.off + r.uop.w == l.uop.off {
      ExtractMeaning(l.src, r.uop.off, Width(l) + Width(r), a);
      SliceJoin(Eval(l.src, a), r.uop.off, r.uop.w, l.uop.w);
    }
  }

  lemma {:induction false} ExtractMeaning(x: Expr, off: nat, w: nat, a: Assignment)
    requires WF(x) && w > 0 && off + w <= Width(x)
    ensures Eval(ExtractCreate(x, off, w), a) == Slice(Eval(x, a), off, w)
    decreases ExtractCost(off, w, Width(x)) + Weight(x), 1
  {
    hide ExtractCreate, Pow2, Slice, SignExtend;
    if w == Width(x) || !x.Binary? || !x.op.Concat? {
      PlainExtract(x, off, w, a);
    } else {
      ExtractOfConcat(x.left, x.right, off, w);
      SeamMeaning(x.left, x.right, off, w, a);
    }
  }

  /** Nothing to look through. */
  lemma PlainExtract(x: Expr, off: nat, w: nat, a: Assignment)
    requires WF(x) && w > 0 && off + w <= Width(x) && (w == Width(x) || !x.Binary? || !x.op.Concat?)
    ensures Eval(ExtractCreate(x, off, w), a) == Slice(Eval(x, a), off, w)
  {
    hide Slice, Pow2, Weight;
    EvalBound(x, a);
    if w == Width(x) {
      SliceFull(Eval(x, a), w);
    } else if x.Constant? {
      hide Width;
      AShrSlice(x.width, x.value, off, w);
    }
  }

  /** How an extract looks through a concatenation. */
  lemma ExtractOfConcat(l: Expr, r: Expr, off: nat, w: nat)
    requires WF(l) && WF(r) && w > 0 && off + w <= Width(l) + Width(r) && w != Width(l) + Width(r)
    ensures ExtractCreate(Binary(Concat, l, r), off, w) ==
      if off >= Width(r) then ExtractCreate(l, off - Width(r), w)
      else if off + w <= Width(r) then ExtractCreate(r, off, w)
      else ConcatCreate(ExtractCreate(l, 0, w - Width(r) + off), ExtractCreate(r, off, Width(r) - off))
  {
    hide ConcatCreate, Pow2, Weight;
  }

  lemma {:induction false} SeamMeaning(l: Expr, r: Expr, off: nat, w: nat, a: Assignment)
    requires WF(l) && WF(r) && w > 0 && off + w <= Width(l) + Width(r) && w != Width(l) + Width(r)
    ensures var e :=
        if off >= Width(r) then ExtractCreate(l, off - Width(r), w)
        else if off + w <= Width(r) then ExtractCreate(r, off, w)
        else ConcatCreate(ExtractCreate(l, 0, w - Width(r) + off), ExtractCreate(r, off, Width(r) - off));
      Eval(e, a) == Slice(Join(Eval(l, a), Eval(r, a), Width(r)), off, w)
    decreases ExtractCost(off, w, Width(l) + Width(r)) + BinaryCost(Concat) + Weight(l) + Weight(r), 0
  {
    hide Eval, WF, Width, ExtractCreate, ConcatCreate, Pow2, Slice, Join, Weight;
    var wr, vl, vr := Width(r), Eval(l, a), Eval(r, a);
    EvalBound(r, a);
    if off >= wr {
      ExtractMeaning(l, off - wr, w, a);
      SliceHigh(vl, vr, wr, off, w);
    } else if off + w <= wr {
      ExtractMeaning(r, off, w, a);
      SliceLow(vl, vr, wr, off, w);
    } else {
      ExtractMeaning(l, 0, w - wr + off, a);
      ExtractMeaning(r, off, wr - off, a);
      ConcatMeaning(ExtractCreate(l, 0, w - wr + off), ExtractCreate(r, off, wr - off), a);
      SliceStraddle(vl, vr, wr, off, w);
    }
  }

  lemma {:induction false} UnaryMeaning(uop: UnaryOp, x: Expr, a: Assignment)
    requires WF(x) && WFUnary(uop, Width(x))
    ensures Eval(UnaryCreate(uop, x), a) == UnaryEval(uop, Width(x), Eval(x, a))
  {
    EvalBound(x, a);
    match uop
    case Extract(off, w) => ExtractMeaning(x, off, w, a);
    case ZExt(w) => if x.Constant? { Pow2Mono(x.width, w); SliceFull(x.value, w); }
    case _ =>
  }

  /** Below the source width the casts truncate. */
  lemma {:induction false} CastMeaning(x: Expr, w: nat, a: Assignment)
    requires WF(x) && w > 0
    ensures Eval(ZExtCreate(x, w), a) == Eval(x, a) % Pow2(w)
    ensures Eval(SExtCreate(x, w), a) ==
      if w <= Width(x) then Eval(x, a) % Pow2(w)
      else SignExtend(Eval(x, a), Width(x), w)
  {
    hide ExtractCreate, SignExtend;
    EvalBound(x, a);
    var v, k := Eval(x, a), Width(x);
    if w <= k {
      ExtractMeaning(x, 0, w, a);
      LowSlice(v, w);
    } else {
      UnaryMeaning(ZExt(w), x, a);
      UnaryMeaning(SExt(w), x, a);
      Pow2Mono(k, w);
      Reduced(w, v);
    }
    if w == k { Reduced(w, v); }
  }

  lemma LowSlice(v: nat, w: nat)
    ensures Slice(v, 0, w) == v % Pow2(w)
  {
    assert Pow2(0) == 1;
  }

  // ----- bitwise constructors -----

  lemma {:induction false} AndMeaning(l: Expr, r: Expr, a: Assignment)
    requires Operands(l, r)
    ensures Eval(AndCreate(l, r), a) == Bitwise(BitAnd, Eval(l, a), Eval(r, a))
  {
    PartialBits(BitAnd, l, r, a);
    PartialBits(BitAnd, r, l, a);
  }

  lemma {:induction false} OrMeaning(l: Expr, r: Expr, a: Assignment)
    requires Operands(l, r)
    ensures Eval(OrCreate(l, r), a) == Bitwise(BitOr, Eval(l, a), Eval(r, a))
  {
    PartialBits(BitOr, l, r, a);
    PartialBits(BitOr, r, l, a);
  }

  lemma {:induction false} BoolAnd(l: Expr, r: Expr, a: Assignment)
    requires Operands(l, r) && Width(l) == BOOL
    ensures Eval(AndCreate(l, r), a) == Truth(Eval(l, a) == 1 && Eval(r, a) == 1)
  {
    hide AndCreate, Bitwise;
    AndMeaning(l, r, a);
    BoolValue(l, a); BoolValue(r, a);
    BoolBits(BitAnd, Eval(l, a), Eval(r, a));
  }

  lemma {:induction false} BoolOr(l: Expr, r: Expr, a: Assignment)
    requires Operands(l, r) && Width(l) == BOOL
    ensures Eval(OrCreate(l, r), a) == Truth(Eval(l, a) == 1 || Eval(r, a) == 1)
  {
    hide OrCreate, Bitwise;
    OrMeaning(l, r, a);
    BoolValue(l, a); BoolValue(r, a);
    BoolBits(BitOr, Eval(l, a), Eval(r, a));
  }

  lemma {:induction false} PartialBits(k: BitOp, l: Expr, c: Expr, a: Assignment)
    requires Operands(l, c) && k != BitXor
    ensures Bitwise(k, Eval(l, a), Eval(c, a)) == Bitwise(k, Eval(c, a), Eval(l, a))
    ensures c.Constant? ==>
              Eval(if k == BitAnd then AndPartial(l, c) else OrPartial(l, c), a) == Bitwise(k, Eval(l, a), c.value)
  {
    EvalBound(l, a);
    BitwiseComm(k, Eval(l, a), Eval(c, a));
    BitwiseZero(k, Eval(l, a));
    BitwiseOnes(k, Eval(l, a), Width(l));
  }

  // ----- equality -----

  lemma {:induction false} IsZeroMeaning(x: Expr, a: Assignment)
    requires WF(x)
    ensures Eval(IsZero(x), a) == Truth(Eval(x, a) == 0)
    decreases Weight(x) + 1, 3
  {
    EqMeaning(x, Constant(0, Width(x)), a);
  }

  lemma {:induction false} EqMeaning(l: Expr, r: Expr, a: Assignment)
    requires Operands(l, r)
    ensures Eval(EqCreate(l, r), a) == Truth(Eval(l, a) == Eval(r, a))
    decreases Weight(l) + Weight(r), 2
  {
    if l.Constant? && r.Constant? {
    } else if l.Constant? {
      EqPartialMeaning(l, r, a);
    } else if r.Constant? {
      EqPartialMeaning(r, l, a);
    }
  }

  lemma {:induction false} EqPartialMeaning(c: Expr, r: Expr, a: Assignment)
    requires Operands(c, r) && c.Constant?
    ensures Eval(EqPartialR(c, r), a) == Truth(c.value == Eval(r, a))
    decreases Weight(c) + Weight(r), 1
  {
    hide AddMod, SubMod, Bitwise, SignExtend, AndCreate, FoldZExt, FoldSExt, IsZero;
    if c.width == BOOL {
      EqBoolMeaning(c, r, a);
    } else if r.Unary? && r.uop.SExt? {
      var trunc := FoldZExt(c, Width(r.src));
      ThroughSExt(c, r, a);
      if c == FoldSExt(trunc, c.width) { EqMeaning(r.src, trunc, a); }
    } else if r.Unary? && r.uop.ZExt? {
      var trunc := FoldZExt(c, Width(r.src));
      ThroughZExt(c, r, a);
      if c == FoldZExt(trunc, c.width) { EqMeaning(r.src, trunc, a); }
    } else if r.Binary? && r.op.Add? && r.left.Constant? {
      EvalBound(r.right, a);
      assert WF(r.left);
      SolveSum(c.width, c.value, r.left.value, Eval(r.right, a));
      EqPartialMeaning(Fold(Sub, c, r.left), r.right, a);
    } else if r.Binary? && r.op.Sub? && r.left.Constant? {
      EvalBound(r.right, a);
      assert WF(r.left);
      SolveDifference(c.width, c.value, r.left.value, Eval(r.right, a));
      EqPartialMeaning(Fold(Sub, r.left, c), r.right, a);
    }
  }

  /** Double negation and De Morgan. */
  lemma {:induction false} EqBoolMeaning(c: Expr, r: Expr, a: Assignment)
    requires Operands(c, r) && c.Constant? && c.width == BOOL
    ensures Eval(EqPartialR(c, r), a) == Truth(c.value == Eval(r, a))
    decreases Weight(c) + Weight(r), 0
  {
    hide Bitwise, AndCreate, IsZero;
    BoolValue(r, a); BoolValue(c, a);
    if c.value == 1 {
    } else if r.Binary? && r.op.Eq? && r.left == False() {
      BoolValue(r.right, a);
    } else if r.Binary? && r.op.Or? {
      IsZeroMeaning(r.left, a); IsZeroMeaning(r.right, a);
      DeMorgan(r.left, r.right, a);
    }
  }

  lemma {:induction false} DeMorgan(l: Expr, r: Expr, a: Assignment)
    requires Operands(l, r) && Width(l) == BOOL
    requires Eval(IsZero(l), a) == Truth(Eval(l, a) == 0) && Eval(IsZero(r), a) == Truth(Eval(r, a) == 0)
    ensures Eval(AndCreate(IsZero(l), IsZero(r)), a) == Truth(Bitwise(BitOr, Eval(l, a), Eval(r, a)) == 0)
  {
    hide AndCreate, IsZero, Bitwise;
    BoolAnd(IsZero(l), IsZero(r), a);
    BoolValue(l, a); BoolValue(r, a);
    BoolBits(BitOr, Eval(l, a), Eval(r, a));
  }

  /** A constant is a sign extension of the source exactly when it survives the round trip
      through the narrow width and the source equals its truncation. */
  lemma {:induction false} ThroughSExt(c: Expr, r: Expr, a: Assignment)
    requires Operands(c, r) && c.Constant? && r.Unary? && r.uop.SExt?
    ensures var trunc := FoldZExt(c, Width(r.src));
      c.value == Eval(r, a) <==> c == FoldSExt(trunc, c.width) && Eval(r.src, a) == trunc.value
  {
    EvalBound(r.src, a);
    SignExtendTrunc(Eval(r.src, a), Width(r.src), c.width);
  }

  lemma {:induction false} ThroughZExt(c: Expr, r: Expr, a: Assignment)
    requires Operands(c, r) && c.Constant? && r.Unary? && r.uop.ZExt?
    ensures var trunc := FoldZExt(c, Width(r.src));
      c.value == Eval(r, a) <==> c == FoldZExt(trunc, c.width) && Eval(r.src, a) == trunc.value
  {
    EvalBound(r.src, a);
    Reduced(Width(r.src), Eval(r.src, a));
    Pow2Mono(Width(r.src), c.width);
    Reduced(c.width, FoldZExt(c, Width(r.src)).value);
  }

  lemma {:induction false} XorPartialMeaning(c: Expr, r: Expr, a: Assignment)
    requires Operands(c, r) && c.Constant?
    ensures Eval(XorPartialR(c, r), a) == Bitwise(BitXor, c.value, Eval(r, a))
  {
    BitwiseZero(BitXor, Eval(r, a));
    if c.width == BOOL {
      BoolValue(r, a); BoolValue(c, a);
      EqPartialMeaning(False(), r, a);
      BoolBits(BitXor, c.value, Eval(r, a));
    }
  }

  lemma {:induction false} XorMeaning(l: Expr, r: Expr, a: Assignment)
    requires Operands(l, r)
    ensures Eval(XorCreate(l, r), a) == Bitwise(BitXor, Eval(l, a), Eval(r, a))
  {
    BitwiseComm(BitXor, Eval(l, a), Eval(r, a));
    if l.Constant? { XorPartialMeaning(l, r, a); }
    if r.Constant? { XorPartialMeaning(r, l, a); }
  }

  // ----- addition and subtraction -----

  lemma BoolSum(l: Expr, r: Expr, a: Assignment)
    requires Operands(l, r) && Width(l) == BOOL
    ensures Bitwise(BitXor, Eval(l, a), Eval(r, a)) == AddMod(1, Eval(l, a), Eval(r, a))
    ensures AddMod(1, Eval(l, a), Eval(r, a)) == SubMod(1, Eval(l, a), Eval(r, a))
  {
    BoolValue(l, a); BoolValue(r, a);
    BoolBits(BitXor, Eval(l, a), Eval(r, a));
    OneBitSum(Eval(l, a), Eval(r, a));
  }

  lemma {:induction false} AddPartialMeaning(c: Expr, r: Expr, a: Assignment)
    requires Operands(c, r) && c.Constant?
    ensures Eval(AddPartialR(c, r), a) == AddMod(c.width, c.value, Eval(r, a))
    decreases Weight(c) + Weight(r), 0, 0
  {
    hide AddMod, SubMod, Bitwise;
    if c.width == BOOL {
      XorPartialMeaning(c, r, a);
      BoolSum(c, r, a);
    } else if c.value == 0 {
      EvalBound(r, a);
      Reduced(c.width, Eval(r, a));
    } else if ConstantHeaded(r, Add) {
      AddMeaning(c, r.left, a);
      AddMeaning(AddCreate(c, r.left), r.right, a);
      AddAdd(c.width, c.value, r.left.value, Eval(r.right, a));
    } else if ConstantHeaded(r, Sub) {
      AddMeaning(c, r.left, a);
      SubMeaning(AddCreate(c, r.left), r.right, a);
      AddSub(c.width, c.value, r.left.value, Eval(r.right, a));
    }
  }

  lemma {:induction false} AddMeaning(l: Expr, r: Expr, a: Assignment)
    requires Operands(l, r)
    ensures Eval(AddCreate(l, r), a) == AddMod(Width(l), Eval(l, a), Eval(r, a))
    decreases Weight(l) + Weight(r), BothVariable(l, r), 1
  {
    hide AddMod, SubMod, Bitwise;
    var w, vl, vr := Width(l), Eval(l, a), Eval(r, a);
    AddComm(w, vl, vr);
    if l.Constant? && r.Constant? {
    } else if l.Constant? {
      AddPartialMeaning(l, r, a);
    } else if r.Constant? {
      AddPartialMeaning(r, l, a);
    } else if w == BOOL {
      XorMeaning(l, r, a);
      BoolSum(l, r, a);
    } else if ConstantHeaded(l, Add) {
      AddMeaning(l.right, r, a);
      AddMeaning(l.left, AddCreate(l.right, r), a);
      AddAdd(w, l.left.value, Eval(l.right, a), vr);
    } else if ConstantHeaded(l, Sub) {
      SubMeaning(r, l.right, a);
      AddMeaning(l.left, SubCreate(r, l.right), a);
      SubAdd(w, l.left.value, Eval(l.right, a), vr);
    } else if ConstantHeaded(r, Add) {
      var k, x := r.left.value, Eval(r.right, a);
      AddMeaning(l, r.right, a);
      AddMeaning(r.left, AddCreate(l, r.right), a);
      AddAdd(w, vl, k, x); AddAdd(w, k, vl, x); AddComm(w, vl, k);
    } else if ConstantHeaded(r, Sub) {
      var k, x := r.left.value, Eval(r.right, a);
      SubMeaning(l, r.right, a);
      AddMeaning(r.left, SubCreate(l, r.right), a);
      AddSub(w, vl, k, x); AddSub(w, k, vl, x); AddComm(w, vl, k);
    }
  }

  lemma {:induction false} SubPartialMeaning(c: Expr, r: Expr, a: Assignment)
    requires Operands(c, r) && c.Constant?
    ensures Eval(SubPartialR(c, r), a) == SubMod(c.width, c.value, Eval(r, a))
    decreases Weight(c) + Weight(r), 0, 0
  {
    hide AddMod, SubMod, Bitwise;
    if c.width == BOOL {
      XorPartialMeaning(c, r, a);
      BoolSum(c, r, a);
    } else if ConstantHeaded(r, Add) {
      SubMeaning(c, r.left, a);
      SubMeaning(SubCreate(c, r.left), r.right, a);
      SubSub(c.width, c.value, r.left.value, Eval(r.right, a));
    } else if ConstantHeaded(r, Sub) {
      SubMeaning(c, r.left, a);
      AddMeaning(SubCreate(c, r.left), r.right, a);
      SubAdd(c.width, c.value, r.left.value, Eval(r.right, a));
    }
  }

  lemma {:induction false} SubMeaning(l: Expr, r: Expr, a: Assignment)
    requires Operands(l, r)
    ensures Eval(SubCreate(l, r), a) == SubMod(Width(l), Eval(l, a), Eval(r, a))
    decreases Weight(l) + Weight(r), BothVariable(l, r), 2
  {
    hide AddMod, SubMod, Bitwise, Pow2, XorCreate, AddCreate, SubPartialR, AddPartialR;
    var w, vl, vr := Width(l), Eval(l, a), Eval(r, a);
    EvalBound(l, a);
    Reduced(w, vl);
    if l.Constant? && r.Constant? {
    } else if l.Constant? {
      SubPartialMeaning(l, r, a);
    } else if r.Constant? {
      AddPartialMeaning(Fold(Sub, Constant(0, r.width), r), l, a);
      SubAdd(w, 0, vr, vl); AddSub(w, 0, vl, vr);
    } else if w == BOOL {
      XorMeaning(l, r, a);
      BoolSum(l, r, a);
    } else if l == r {
    } else if ConstantHeaded(l, Add) || ConstantHeaded(l, Sub) {
      SubHeadedLeft(l, r, a);
    } else if ConstantHeaded(r, Add) || ConstantHeaded(r, Sub) {
      SubHeadedRight(l, r, a);
    }
  }

  /** `(c + x) - r` and `(c - x) - r`. */
  lemma {:induction false} SubHeadedLeft(l: Expr, r: Expr, a: Assignment)
    requires Operands(l, r) && Width(l) > BOOL && !r.Constant? && l != r
    requires (ConstantHeaded(l, Add) || ConstantHeaded(l, Sub))
    ensures Eval(SubCreate(l, r), a) == SubMod(Width(l), Eval(l, a), Eval(r, a))
    decreases Weight(l) + Weight(r), BothVariable(l, r), 1
  {
    hide AddMod, SubMod, Bitwise, Pow2, XorCreate, SubPartialR, AddPartialR;
    var c, x := l.left, l.right;
    if l.op.Add? {
      SubMeaning(x, r, a);
      AddMeaning(c, SubCreate(x, r), a);
      AddSub(Width(l), c.value, Eval(x, a), Eval(r, a));
    } else {
      AddMeaning(x, r, a);
      SubMeaning(c, AddCreate(x, r), a);
      SubSub(Width(l), c.value, Eval(x, a), Eval(r, a));
    }
  }

  /** `l - (c + x)` and `l - (c - x)`. */
  lemma {:induction false} SubHeadedRight(l: Expr, r: Expr, a: Assignment)
    requires Operands(l, r) && Width(l) > BOOL && !l.Constant? && l != r
    requires !ConstantHeaded(l, Add) && !ConstantHeaded(l, Sub) && (ConstantHeaded(r, Add) || ConstantHeaded(r, Sub))
    ensures Eval(SubCreate(l, r), a) == SubMod(Width(l), Eval(l, a), Eval(r, a))
    decreases Weight(l) + Weight(r), BothVariable(l, r), 1
  {
    hide AddMod, SubMod, Bitwise, Pow2, XorCreate, SubPartialR, AddPartialR;
    var w, v, c, x := Width(l), Eval(l, a), r.left, r.right;
    if r.op.Add? {
      SubMeaning(l, x, a);
      SubMeaning(SubCreate(l, x), c, a);
      SubSub(w, v, Eval(x, a), c.value); AddComm(w, c.value, Eval(x, a));
    } else {
      AddMeaning(l, x, a);
      SubMeaning(AddCreate(l, x), c, a);
      SubAdd(w, v, c.value, Eval(x, a)); AddSub(w, v, Eval(x, a), c.value);
    }
  }

  // ----- the remaining binary constructors -----

  lemma {:induction false} MulMeaning(l: Expr, r: Expr, a: Assignment)
    requires Operands(l, r)
    ensures Eval(MulCreate(l, r), a) == MulMod(Width(l), Eval(l, a), Eval(r, a))
  {
    hide MulMod, Bitwise;
    var w, vl, vr := Width(l), Eval(l, a), Eval(r, a);
    MulComm(w, vl, vr);
    if w == BOOL {
      BoolValue(l, a); BoolValue(r, a);
      PartialBits(BitAnd, l, r, a); PartialBits(BitAnd, r, l, a);
      BoolBits(BitAnd, vl, vr);
      OneBitSum(vl, vr);
    } else {
      EvalBound(l, a); EvalBound(r, a);
      MulOne(w, vl); MulOne(w, vr);
    }
  }

  lemma {:induction false} DivMeaning(op: BinaryOp, l: Expr, r: Expr, a: Assignment)
    requires Operands(l, r) && (op.UDiv? || op.SDiv? || op.URem? || op.SRem?)
    ensures Eval(DivCreate(op, l, r), a) == BinaryEval(op, Width(l), Width(r), Eval(l, a), Eval(r, a))
  {
    hide UDivOf, SDivOf, URemOf, SRemOf;
    if Width(l) == BOOL {
      BoolValue(l, a); BoolValue(r, a);
      OneBitQuotient(Eval(l, a), Eval(r, a));
    }
  }

  lemma {:induction false} ShiftMeaning(op: BinaryOp, l: Expr, r: Expr, a: Assignment)
    requires Operands(l, r) && (op.Shl? || op.LShr? || op.AShr?)
    ensures Eval(ShiftCreate(op, l, r), a) == BinaryEval(op, Width(l), Width(r), Eval(l, a), Eval(r, a))
  {
    hide ShlOf, LShrOf, Bits.AShr, AndCreate, EqCreate, IsZero;
    if Width(l) == BOOL {
      BoolValue(l, a); BoolValue(r, a);
      IsZeroMeaning(r, a);
      BoolAnd(l, IsZero(r), a);
      OneBitShift(Eval(l, a), Eval(r, a));
    }
  }

  lemma {:induction false} CompareMeaning(op: BinaryOp, l: Expr, r: Expr, a: Assignment)
    requires Operands(l, r) && (op.Ult? || op.Ule? || op.Slt? || op.Sle?)
    ensures Eval(CompareCreate(op, l, r), a) == BinaryEval(op, Width(l), Width(r), Eval(l, a), Eval(r, a))
  {
    hide AndCreate, OrCreate, EqCreate, IsZero, WF, Weight, ToSigned, Pow2, Builds;
    if l.Constant? && r.Constant? {
      hide BinaryEval;
    } else if Width(l) == BOOL {
      BoolCompare(l, r, a);
      hide Eval, Width, CompareCreate;
      BoolCompareCreate(op, l, r);
    } else {
      hide Width, BinaryEval;
    }
  }

  lemma BoolCompareCreate(op: BinaryOp, l: Expr, r: Expr)
    requires Operands(l, r) && (op.Ult? || op.Ule? || op.Slt? || op.Sle?) && Width(l) == BOOL
    requires !(l.Constant? && r.Constant?)
    ensures CompareCreate(op, l, r) ==
      if op.Ult? then AndCreate(IsZero(l), r)
      else if op.Ule? then OrCreate(IsZero(l), r)
      else if op.Slt? then AndCreate(l, IsZero(r))
      else OrCreate(l, IsZero(r))
  {
    hide AndCreate, OrCreate, EqCreate, IsZero, WF, Weight;
  }

  lemma {:induction false} BoolCompare(l: Expr, r: Expr, a: Assignment)
    requires Operands(l, r) && Width(l) == BOOL
    ensures Eval(AndCreate(IsZero(l), r), a) == Truth(Eval(l, a) < Eval(r, a))
    ensures Eval(OrCreate(IsZero(l), r), a) == Truth(Eval(l, a) <= Eval(r, a))
    ensures Eval(AndCreate(l, IsZero(r)), a) == Truth(ToSigned(1, Eval(l, a)) < ToSigned(1, Eval(r, a)))
    ensures Eval(OrCreate(l, IsZero(r)), a) == Truth(ToSigned(1, Eval(l, a)) <= ToSigned(1, Eval(r, a)))
  {
    hide AndCreate, OrCreate, EqCreate, IsZero, WF, Weight, Width;
    BoolValue(l, a); BoolValue(r, a);
    assert ToSigned(1, 0) == 0 && ToSigned(1, 1) == -1 by { assert Pow2(1) == 2 && Pow2(0) == 1; }
    IsZeroMeaning(l, a);
    IsZeroMeaning(r, a);
    BoolAnd(IsZero(l), r, a); BoolOr(IsZero(l), r, a);
    BoolAnd(l, IsZero(r), a); BoolOr(l, IsZero(r), a);
  }

  lemma {:induction false} NeMeaning(l: Expr, r: Expr, a: Assignment)
    requires Operands(l, r)
    ensures Eval(BinaryCreate(Ne, l, r), a) == Truth(Eval(l, a) != Eval(r, a))
  {
    hide EqCreate;
    EqMeaning(l, r, a);
    EqMeaning(False(), EqCreate(l, r), a);
  }

  /** Main result for the binary kinds. */
  lemma {:induction false} BinaryMeaning(op: BinaryOp, l: Expr, r: Expr, a: Assignment)
    requires WF(l) && WF(r) && (op.Concat? || Width(l) == Width(r))
    ensures Eval(BinaryCreate(op, l, r), a) == BinaryEval(op, Width(l), Width(r), Eval(l, a), Eval(r, a))
  {
    if IsCompare(op) {
      CompareKindMeaning(op, l, r, a);
    } else {
      ArithmeticKindMeaning(op, l, r, a);
    }
  }

  lemma {:induction false} CompareKindMeaning(op: BinaryOp, l: Expr, r: Expr, a: Assignment)
    requires Operands(l, r) && IsCompare(op)
    ensures Eval(BinaryCreate(op, l, r), a) == BinaryEval(op, Width(l), Width(r), Eval(l, a), Eval(r, a))
  {
    hide EqCreate, CompareCreate, WF, Weight, Width, ToSigned, Pow2, Eval;
    if op.Eq? {
      EqMeaning(l, r, a);
    } else if op.Ne? {
      NeMeaning(l, r, a);
    } else if op.Ult? || op.Ule? || op.Slt? || op.Sle? {
      CompareMeaning(op, l, r, a);
    } else {
      CompareMeaning(if op.Ugt? then Ult else if op.Uge? then Ule else if op.Sgt? then Slt else Sle, r, l, a);
    }
  }

  lemma {:induction false} ArithmeticKindMeaning(op: BinaryOp, l: Expr, r: Expr, a: Assignment)
    requires WF(l) && WF(r) && (op.Concat? || Width(l) == Width(r)) && !IsCompare(op)
    ensures Eval(BinaryCreate(op, l, r), a) == BinaryEval(op, Width(l), Width(r), Eval(l, a), Eval(r, a))
  {
    hide ConcatCreate, AddCreate, SubCreate, MulCreate, AndCreate, OrCreate, XorCreate, DivCreate, ShiftCreate,
      WF, Weight, Width, AddMod, SubMod, MulMod, UDivOf, SDivOf, URemOf, SRemOf, ShlOf, LShrOf, Bits.AShr, Bitwise,
      Join;
    if op.Concat? {
      ConcatMeaning(l, r, a);
    } else if op.Add? {
      AddMeaning(l, r, a);
    } else if op.Sub? {
      SubMeaning(l, r, a);
    } else if op.Mul? {
      MulMeaning(l, r, a);
    } else if op.And? {
      AndMeaning(l, r, a);
    } else if op.Or? {
      OrMeaning(l, r, a);
    } else if op.Xor? {
      XorMeaning(l, r, a);
    } else if op.UDiv? || op.SDiv? || op.URem? || op.SRem? {
      DivMeaning(op, l, r, a);
    } else {
      ShiftMeaning(op, l, r, a);
    }
  }

  // ----- Select and Read -----

  lemma {:induction false} SelectMeaning(c: Expr, t: Expr, f: Expr, a: Assignment)
    requires WF(c) && Width(c) == BOOL && Operands(t, f)
    ensures Eval(SelectCreate(c, t, f), a) == if Eval(c, a) == 1 then Eval(t, a) else Eval(f, a)
  {
    hide AndCreate, OrCreate, EqCreate, IsZero, WF, Weight, Width;
    BoolValue(c, a);
    if Width(t) == BOOL {
      BoolValue(t, a); BoolValue(f, a);
      IsZeroMeaning(c, a);
      BoolOr(c, f, a); BoolAnd(IsZero(c), f, a);
      BoolOr(IsZero(c), t, a); BoolAnd(c, t, a);
    }
  }

  lemma {:induction false} ScanMeaning(root: Array, u: Updates, index: Expr, a: Assignment)
    requires WFUpdates(root, u) && WF(index) && Width(index) == root.domain
    ensures var s := ScanUpdates(root, u, index);
      && (s.Hit? ==> Eval(s.value, a) == EvalRead(root, u, Eval(index, a), a))
      && (s.Missed? ==> EvalRead(root, u, Eval(index, a), a) == InitialValue(root, Eval(index, a), a))
    decreases u
  {
    match u
    case NoUpdate =>
    case Update(next, i, v) => EqMeaning(index, i, a); ScanMeaning(root, next, index, a);
  }

  /** A read through an update list has the value of the last write to the index read. */
  lemma {:induction false} ReadMeaning(root: Array, u: Updates, index: Expr, a: Assignment)
    requires WFArray(root) && WFUpdates(root, u) && WF(index) && Width(index) == root.domain
    ensures Eval(ReadCreate(root, u, index), a) == EvalRead(root, u, Eval(index, a), a)
  {
    ScanMeaning(root, u, index, a);
  }

  /** The loop of `ReadExpr::create` over the update list, which stops at the first write whose index
      cannot be told apart from the one read. */
  method CreateRead(root: Array, u: Updates, index: Expr) returns (e: Expr)
    requires WFArray(root) && WFUpdates(root, u) && WF(index) && Width(index) == root.domain
    ensures e == ReadCreate(root, u, index)
    ensures WF(e) && Width(e) == root.range && forall a :: Eval(e, a) == EvalRead(root, u, Eval(index, a), a)
  {
    forall a ensures Eval(ReadCreate(root, u, index), a) == EvalRead(root, u, Eval(index, a), a) {
      ReadMeaning(root, u, index, a);
    }
    hide Eval, EvalRead, EqCreate;
    var un := u;
    var symbolicWrites := false;
    while un.Update? && !symbolicWrites
      invariant WFUpdates(root, un)
      invariant ScanUpdates(root, u, index) == ScanUpdates(root, un, index)
      invariant symbolicWrites ==> ScanUpdates(root, un, index).Unknown?
      decreases un, !symbolicWrites
    {
      var cond := EqCreate(index, un.index);
      if cond.Constant? {
        if cond.value == 1 { return un.value; }
        un := un.next;
      } else {
        symbolicWrites := true;
      }
    }
    if root.constantValues != [] && !symbolicWrites && index.Constant? && index.value < root.size {
      return Constant(root.constantValues[index.value], root.range);
    }
    e := Read(root, u, index);
  }

  /** The kids of a concatenation side by side, the first one most significant. */
  function JoinAll(kids: seq<Expr>, a: Assignment): nat {
    if kids == [] then 0 else Join(Eval(kids[0], a), JoinAll(kids[1..], a), WidthAll(kids[1..]))
  }

  function WidthAll(kids: seq<Expr>): nat {
    if kids == [] then 0 else Width(kids[0]) + WidthAll(kids[1..])
  }

  /** `ConcatExpr::createN`. */
  method ConcatN(kids: seq<Expr>) returns (r: Expr)
    requires kids != [] && forall k :: 0 <= k < |kids| ==> WF(kids[k])
    ensures WF(r) && Width(r) == WidthAll(kids) && forall a :: Eval(r, a) == JoinAll(kids, a)
  {
    hide Eval, ConcatCreate;
    var n := |kids|;
    r := kids[n - 1];
    assert kids[n - 1..] == [r] && [r][1..] == [];
    assert forall a :: JoinAll([r], a) == Join(Eval(r, a), 0, 0) == Eval(r, a);
    var i := n - 1;
    while i > 0
      invariant 0 <= i < n && WF(r) && Width(r) == WidthAll(kids[i..])
      invariant forall a :: Eval(r, a) == JoinAll(kids[i..], a)
    {
      i := i - 1;
      assert kids[i..][1..] == kids[i + 1..];
      var r' := ConcatCreate(kids[i], r);
      forall a ensures Eval(r', a) == JoinAll(kids[i..], a) { ConcatMeaning(kids[i], r, a); }
      r := r';
    }
    assert kids[0..] == kids;
  }
}
