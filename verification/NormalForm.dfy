/** Everything the constructors build is in linear normal form at every node, inside update lists too.
    So a symbolic offset stays symbolic when a byte position is added to it, and the assertions that
    guard accesses at symbolic offsets cannot fail. */
module NormalForm {
  import opened Bits
  import opened Exprs
  import opened Create
  import opened LinearForm
  import opened Meaning

  /** Every sum and difference anywhere in the expression is in linear normal form. */
  predicate Normal(e: Expr) {
    match e
    case Constant(_, _) => true
    case Read(_, u, i) => NormalUpdates(u) && Normal(i)
    case Select(c, t, f) => Normal(c) && Normal(t) && Normal(f)
    case Unary(_, x) => Normal(x)
    case Binary(_, l, r) => Linear(e) && Normal(l) && Normal(r)
  }

  predicate NormalUpdates(u: Updates) {
    match u
    case NoUpdate => true
    case Update(next, i, v) => NormalUpdates(next) && Normal(i) && Normal(v)
  }

  lemma NormalIsLinear(e: Expr)
    requires Normal(e)
    ensures Linear(e)
  {
  }

  // ----- casts, concatenation and extraction -----

  lemma {:induction false} ConcatNormal(l: Expr, r: Expr)
    requires WF(l) && WF(r) && Normal(l) && Normal(r)
    ensures Normal(ConcatCreate(l, r))
    decreases Weight(l) + Weight(r), 1
  {
    if l.Constant? && r.Constant? {
    } else if l.Unary? && l.uop.Extract? && r.Unary? && r.uop.Extract? &&
              l.src == r.src && r.uop.off + r.uop.w == l.uop.off {
      ExtractNormal(l.src, r.uop.off, Width(l) + Width(r));
    }
  }

  lemma {:induction false} ExtractNormal(x: Expr, off: nat, w: nat)
    requires WF(x) && w > 0 && off + w <= Width(x) && Normal(x)
    ensures Normal(ExtractCreate(x, off, w))
    decreases ExtractCost(off, w, Width(x)) + Weight(x), 1
  {
    hide ExtractCreate, ConcatCreate, Pow2, Normal, ExtractCost;
    if w != Width(x) && x.Binary? && x.op.Concat? {
      NormalKids(x);
      ExtractOfConcat(x.left, x.right, off, w);
      SeamNormal(x.left, x.right, off, w);
    } else {
      PlainExtractNormal(x, off, w);
    }
  }

  lemma NormalKids(x: Expr)
    requires x.Binary? && Normal(x)
    ensures Normal(x.left) && Normal(x.right)
  {
  }

  lemma PlainExtractNormal(x: Expr, off: nat, w: nat)
    requires WF(x) && w > 0 && off + w <= Width(x) && Normal(x) && (w == Width(x) || !x.Binary? || !x.op.Concat?)
    ensures Normal(ExtractCreate(x, off, w))
  {
    hide Pow2, Weight;
  }

  /** An extract that looks through a concatenation. */
  lemma {:induction false} SeamNormal(l: Expr, r: Expr, off: nat, w: nat)
    requires WF(l) && WF(r) && Normal(l) && Normal(r) && w > 0 && off + w <= Width(l) + Width(r)
    requires w != Width(l) + Width(r)
    ensures Normal(
      if off >= Width(r) then ExtractCreate(l, off - Width(r), w)
      else if off + w <= Width(r) then ExtractCreate(r, off, w)
      else ConcatCreate(ExtractCreate(l, 0, w - Width(r) + off), ExtractCreate(r, off, Width(r) - off)))
    decreases ExtractCost(off, w, Width(l) + Width(r)) + BinaryCost(Concat) + Weight(l) + Weight(r), 0
  {
    hide Normal, ConcatCreate, ExtractCreate, WF, Width, Weight;
    if off >= Width(r) {
      ExtractNormal(l, off - Width(r), w);
    } else if off + w <= Width(r) {
      ExtractNormal(r, off, w);
    } else {
      ExtractNormal(l, 0, w - Width(r) + off);
      ExtractNormal(r, off, Width(r) - off);
      ConcatNormal(ExtractCreate(l, 0, w - Width(r) + off), ExtractCreate(r, off, Width(r) - off));
    }
  }

  lemma {:induction false} UnaryNormal(uop: UnaryOp, x: Expr)
    requires WF(x) && WFUnary(uop, Width(x)) && Normal(x)
    ensures Normal(UnaryCreate(uop, x))
  {
    if uop.Extract? { ExtractNormal(x, uop.off, uop.w); }
  }

  lemma {:induction false} CastNormal(x: Expr, w: nat)
    requires WF(x) && w > 0 && Normal(x)
    ensures Normal(ZExtCreate(x, w)) && Normal(SExtCreate(x, w))
  {
    if w < Width(x) { ExtractNormal(x, 0, w); }
  }

  // ----- Boolean and bitwise constructors -----

  lemma {:induction false} AndOrNormal(l: Expr, r: Expr)
    requires Operands(l, r) && Normal(l) && Normal(r)
    ensures Normal(AndCreate(l, r)) && Normal(OrCreate(l, r))
  {
  }

  lemma {:induction false} EqNormal(l: Expr, r: Expr)
    requires Operands(l, r) && Normal(l) && Normal(r)
    ensures Normal(EqCreate(l, r))
    decreases Weight(l) + Weight(r), 1
  {
    if l.Constant? && !r.Constant? {
      EqPartialNormal(l, r);
    } else if r.Constant? && !l.Constant? {
      EqPartialNormal(r, l);
    }
  }

  lemma {:induction false} IsZeroNormal(x: Expr)
    requires WF(x) && Normal(x)
    ensures Normal(IsZero(x))
    decreases Weight(x) + 1, 2
  {
    EqNormal(x, Constant(0, Width(x)));
  }

  lemma {:induction false} EqPartialNormal(c: Expr, r: Expr)
    requires Operands(c, r) && c.Constant? && Normal(r)
    ensures Normal(EqPartialR(c, r))
    decreases Weight(c) + Weight(r), 0
  {
    hide Linear, Pow2, AndCreate;
    if c.width == BOOL {
      if c.value != 1 && r.Binary? && r.op.Or? {
        IsZeroNormal(r.left);
        IsZeroNormal(r.right);
        AndOrNormal(IsZero(r.left), IsZero(r.right));
      } else {
        EqAllocNormal(c, r);
      }
    } else if r.Unary? && (r.uop.SExt? || r.uop.ZExt?) {
      EqNormal(r.src, FoldZExt(c, Width(r.src)));
    } else if r.Binary? && r.op.Add? && r.left.Constant? {
      EqPartialNormal(Fold(Sub, c, r.left), r.right);
    } else if r.Binary? && r.op.Sub? && r.left.Constant? {
      EqPartialNormal(Fold(Sub, r.left, c), r.right);
    } else {
      EqAllocNormal(c, r);
    }
  }

  lemma EqAllocNormal(l: Expr, r: Expr)
    requires Operands(l, r) && Normal(l) && Normal(r)
    ensures Normal(EqAlloc(l, r))
  {
  }

  lemma {:induction false} XorNormal(l: Expr, r: Expr)
    requires Operands(l, r) && Normal(l) && Normal(r)
    ensures Normal(XorCreate(l, r))
  {
    hide EqPartialR;
    if l.Constant? && !r.Constant? {
      XorPartialNormal(l, r);
    } else if r.Constant? && !l.Constant? {
      XorPartialNormal(r, l);
    }
  }

  lemma {:induction false} XorPartialNormal(c: Expr, r: Expr)
    requires Operands(c, r) && c.Constant? && Normal(r)
    ensures Normal(XorPartialR(c, r))
  {
    hide EqPartialR;
    if c.width == BOOL { EqPartialNormal(False(), r); }
  }

  // ----- sums and differences -----

  lemma {:induction false} PlainNormal(op: BinaryOp, l: Expr, r: Expr)
    requires !ConstantHeaded(l, Add) && !ConstantHeaded(l, Sub) && !ConstantHeaded(r, Add) && !ConstantHeaded(r, Sub)
    requires (op.Add? || op.Sub?) && !r.Constant? && (l.Constant? && op.Add? ==> l.value != 0) && Normal(l) && Normal(r)
    ensures Normal(Binary(op, l, r))
  {
    hide Linear;
    NormalIsLinear(l);
    NormalIsLinear(r);
    PlainNode(op, l, r);
  }

  lemma {:induction false} AddPartialNormal(c: Expr, r: Expr)
    requires Operands(c, r) && c.Constant? && !r.Constant? && Normal(r)
    ensures Normal(AddPartialR(c, r))
    decreases Weight(c) + Weight(r), 0, 0
  {
    hide Linear, XorPartialR;
    if c.width == BOOL {
      XorPartialNormal(c, r);
    } else if c.value == 0 {
    } else if ConstantHeaded(r, Add) {
      AddNormal(AddCreate(c, r.left), r.right);
    } else if ConstantHeaded(r, Sub) {
      SubNormal(AddCreate(c, r.left), r.right);
    } else {
      PlainNormal(Add, c, r);
    }
  }

  lemma {:induction false} AddNormal(l: Expr, r: Expr)
    requires Operands(l, r) && Normal(l) && Normal(r)
    ensures Normal(AddCreate(l, r))
    decreases Weight(l) + Weight(r), BothVariable(l, r), 1
  {
    hide Linear, XorCreate, AddPartialR, SubCreate;
    if l.Constant? && r.Constant? {
    } else if l.Constant? {
      AddPartialNormal(l, r);
    } else if r.Constant? {
      AddPartialNormal(r, l);
    } else if Width(l) == BOOL {
      XorNormal(l, r);
    } else if ConstantHeaded(l, Add) {
      AddNormal(l.right, r);
      AddNormal(l.left, AddCreate(l.right, r));
    } else if ConstantHeaded(l, Sub) {
      SubNormal(r, l.right);
      AddNormal(l.left, SubCreate(r, l.right));
    } else if ConstantHeaded(r, Add) {
      AddNormal(l, r.right);
      AddNormal(r.left, AddCreate(l, r.right));
    } else if ConstantHeaded(r, Sub) {
      SubNormal(l, r.right);
      AddNormal(r.left, SubCreate(l, r.right));
    } else {
      PlainNormal(Add, l, r);
    }
  }

  lemma {:induction false} SubPartialNormal(c: Expr, r: Expr)
    requires Operands(c, r) && c.Constant? && !r.Constant? && Normal(r)
    ensures Normal(SubPartialR(c, r))
    decreases Weight(c) + Weight(r), 0, 0
  {
    hide Linear, XorPartialR;
    if c.width == BOOL {
      XorPartialNormal(c, r);
    } else if ConstantHeaded(r, Add) {
      SubNormal(SubCreate(c, r.left), r.right);
    } else if ConstantHeaded(r, Sub) {
      AddNormal(SubCreate(c, r.left), r.right);
    } else {
      PlainNormal(Sub, c, r);
    }
  }

  lemma {:induction false} SubNormal(l: Expr, r: Expr)
    requires Operands(l, r) && Normal(l) && Normal(r)
    ensures Normal(SubCreate(l, r))
    decreases Weight(l) + Weight(r), BothVariable(l, r), 2
  {
    hide Linear, XorCreate, AddPartialR, SubPartialR, AddCreate, SubMod, Pow2, BinaryEval;
    if l.Constant? && r.Constant? {
    } else if l.Constant? {
      SubPartialNormal(l, r);
    } else if r.Constant? {
      AddPartialNormal(Fold(Sub, Constant(0, r.width), r), l);
    } else if Width(l) == BOOL {
      XorNormal(l, r);
    } else if l == r {
    } else if ConstantHeaded(l, Add) {
      SubNormal(l.right, r);
      AddNormal(l.left, SubCreate(l.right, r));
    } else if ConstantHeaded(l, Sub) {
      AddNormal(l.right, r);
      SubNormal(l.left, AddCreate(l.right, r));
    } else if ConstantHeaded(r, Add) {
      SubNormal(l, r.right);
      SubNormal(SubCreate(l, r.right), r.left);
    } else if ConstantHeaded(r, Sub) {
      AddNormal(l, r.right);
      SubNormal(AddCreate(l, r.right), r.left);
    } else {
      PlainNormal(Sub, l, r);
    }
  }

  // ----- all constructors -----

  lemma {:induction false} CompareNormal(op: BinaryOp, l: Expr, r: Expr)
    requires Operands(l, r) && (op.Ult? || op.Ule? || op.Slt? || op.Sle?) && Normal(l) && Normal(r)
    ensures Normal(CompareCreate(op, l, r))
  {
    hide AndCreate, OrCreate, IsZero, Pow2;
    if Width(l) == BOOL {
      IsZeroNormal(l);
      IsZeroNormal(r);
      AndOrNormal(IsZero(l), r);
      AndOrNormal(l, IsZero(r));
    }
  }

  lemma {:induction false} ShiftNormal(op: BinaryOp, l: Expr, r: Expr)
    requires Operands(l, r) && (op.Shl? || op.LShr? || op.AShr?) && Normal(l) && Normal(r)
    ensures Normal(ShiftCreate(op, l, r))
  {
    hide AndCreate, IsZero, Pow2;
    if Width(l) == BOOL {
      IsZeroNormal(r);
      AndOrNormal(l, IsZero(r));
    }
  }

  lemma {:induction false} BinaryNormal(op: BinaryOp, l: Expr, r: Expr)
    requires WF(l) && WF(r) && (op.Concat? || Width(l) == Width(r)) && Normal(l) && Normal(r)
    ensures Normal(BinaryCreate(op, l, r))
  {
    hide ConcatCreate, AddCreate, SubCreate, AndCreate, OrCreate, XorCreate, EqCreate, ShiftCreate, CompareCreate,
      WF, Weight, Width, Pow2, BinaryEval;
    if op.Concat? {
      ConcatNormal(l, r);
    } else if op.Add? {
      AddNormal(l, r);
    } else if op.Sub? {
      SubNormal(l, r);
    } else if op.And? || op.Or? {
      AndOrNormal(l, r);
    } else if op.Xor? {
      XorNormal(l, r);
    } else if op.Eq? || op.Ne? {
      EqNormal(l, r);
      NotEqualNormal(EqCreate(l, r));
    } else if op.Shl? || op.LShr? || op.AShr? {
      ShiftNormal(op, l, r);
    } else if op.Ult? || op.Ule? || op.Slt? || op.Sle? {
      CompareNormal(op, l, r);
    } else if op.Ugt? || op.Uge? || op.Sgt? || op.Sge? {
      CompareNormal(if op.Ugt? then Ult else if op.Uge? then Ule else if op.Sgt? then Slt else Sle, r, l);
    } else {
      MulDivNormal(op, l, r);
    }
  }

  lemma NotEqualNormal(e: Expr)
    requires WF(e) && Width(e) == BOOL && Normal(e)
    ensures WF(False()) && Width(False()) == BOOL && Normal(EqCreate(False(), e))
  {
    EqNormal(False(), e);
  }

  lemma {:induction false} MulDivNormal(op: BinaryOp, l: Expr, r: Expr)
    requires Operands(l, r) && (op.Mul? || op.UDiv? || op.SDiv? || op.URem? || op.SRem?) && Normal(l) && Normal(r)
    ensures Normal(BinaryCreate(op, l, r))
  {
    hide Pow2, BinaryEval;
  }

  lemma {:induction false} SelectNormal(c: Expr, t: Expr, f: Expr)
    requires WF(c) && Width(c) == BOOL && Operands(t, f) && Normal(c) && Normal(t) && Normal(f)
    ensures Normal(SelectCreate(c, t, f))
  {
    hide AndCreate, OrCreate, IsZero, Pow2;
    IsZeroNormal(c);
    if Width(t) == BOOL {
      AndOrNormal(c, f);
      AndOrNormal(IsZero(c), f);
      AndOrNormal(IsZero(c), t);
      AndOrNormal(c, t);
    }
  }

  lemma {:induction false} ReadNormal(root: Array, u: Updates, index: Expr)
    requires WFArray(root) && WFUpdates(root, u) && WF(index) && Width(index) == root.domain
    requires NormalUpdates(u) && Normal(index)
    ensures Normal(ReadCreate(root, u, index))
  {
    hide EqCreate, Pow2;
    ScanNormal(root, u, index);
  }

  lemma {:induction false} ScanNormal(root: Array, u: Updates, index: Expr)
    requires WFUpdates(root, u) && WF(index) && Width(index) == root.domain && NormalUpdates(u)
    ensures var s := ScanUpdates(root, u, index); s.Hit? ==> Normal(s.value)
    decreases u
  {
    hide EqCreate, Pow2;
    if u.Update? { ScanNormal(root, u.next, index); }
  }

  /** Hence the offset of any byte of an access at a symbolic offset is symbolic. */
  lemma {:induction false} BuiltOffsetStaysSymbolic(x: Expr, c: Expr)
    requires Operands(x, c) && Normal(x) && !x.Constant? && c.Constant? && Width(x) > 1
    ensures !AddCreate(x, c).Constant?
  {
    NormalIsLinear(x);
    OffsetStaysSymbolic(x, c);
  }
}
