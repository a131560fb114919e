/** Above width one, building sums and differences keeps linear formulas in normal form and never
    makes the tree larger than the node it was asked for. */
module LinearForm {
  import opened Bits
  import opened Exprs
  import opened Create

  predicate IsLinearOp(e: Expr) {
    e.Binary? && (e.op.Add? || e.op.Sub?)
  }

  /** A chain of sums and differences without any constant in it. */
  predicate ConstantFree(e: Expr) {
    !e.Constant? && (IsLinearOp(e) ==> ConstantFree(e.left) && ConstantFree(e.right))
  }

  /** The normal form: a constant appears only as the left operand of the root of the chain,
      and adding zero never appears. */
  predicate Linear(e: Expr) {
    || e.Constant?
    || ConstantFree(e)
    || (IsLinearOp(e) && e.left.Constant? && (e.op.Add? ==> e.left.value != 0) && ConstantFree(e.right))
  }

  function Size(e: Expr): nat {
    match e
    case Constant(_, _) => 1
    case Read(_, u, i) => 1 + Size(i) + UpdatesSize(u)
    case Select(c, t, f) => 1 + Size(c) + Size(t) + Size(f)
    case Unary(_, src) => 1 + Size(src)
    case Binary(_, l, r) => 1 + Size(l) + Size(r)
  }

  function UpdatesSize(u: Updates): nat {
    match u
    case NoUpdate => 0
    case Update(next, i, v) => 1 + UpdatesSize(next) + Size(i) + Size(v)
  }

  /** `e` is a good result for operands `l` and `r`. */
  predicate Bounded(e: Expr, l: Expr, r: Expr) {
    Size(e) <= 1 + Size(l) + Size(r) && (Linear(l) && Linear(r) ==> Linear(e))
  }

  /** Below a constant head there are no constants. */
  lemma {:induction false} HeadedTail(e: Expr)
    requires ConstantHeaded(e, Add) || ConstantHeaded(e, Sub)
    ensures Size(e) == 2 + Size(e.right)
    ensures Linear(e.left) && (Linear(e) ==> Linear(e.right))
  {
  }

  /** Without a constant head on either side, the node itself is in normal form. */
  lemma {:induction false} PlainNode(op: BinaryOp, l: Expr, r: Expr)
    requires !ConstantHeaded(l, Add) && !ConstantHeaded(l, Sub) && !ConstantHeaded(r, Add) && !ConstantHeaded(r, Sub)
    requires (op.Add? || op.Sub?) && !r.Constant? && (l.Constant? && op.Add? ==> l.value != 0)
    ensures Bounded(Binary(op, l, r), l, r)
  {
  }

  lemma {:induction false} AddPartialLinear(c: Expr, r: Expr)
    requires Operands(c, r) && c.Constant? && c.width > BOOL && !r.Constant?
    ensures Bounded(AddPartialR(c, r), c, r)
    decreases Weight(c) + Weight(r), 0, 0
  {
    hide Linear, ConstantFree, XorPartialR;
    if c.value == 0 {
    } else if ConstantHeaded(r, Add) {
      HeadedTail(r);
      HeadConstant(AddCreate(c, r.left));
      AddLinear(AddCreate(c, r.left), r.right);
    } else if ConstantHeaded(r, Sub) {
      HeadedTail(r);
      HeadConstant(AddCreate(c, r.left));
      SubLinear(AddCreate(c, r.left), r.right);
    } else {
      PlainNode(Add, c, r);
    }
  }

  lemma HeadConstant(c: Expr)
    ensures c.Constant? ==> Linear(c) && Size(c) == 1
  {
  }

  lemma {:induction false} AddLinear(l: Expr, r: Expr)
    requires Operands(l, r) && Width(l) > BOOL
    ensures Bounded(AddCreate(l, r), l, r)
    decreases Weight(l) + Weight(r), BothVariable(l, r), 1
  {
    hide Linear, ConstantFree, XorCreate, AddPartialR, SubCreate;
    if l.Constant? && r.Constant? {
      HeadConstant(AddCreate(l, r));
    } else if l.Constant? {
      AddPartialLinear(l, r);
    } else if r.Constant? {
      AddPartialLinear(r, l);
    } else if ConstantHeaded(l, Add) {
      HeadedTail(l);
      AddLinear(l.right, r);
      AddLinear(l.left, AddCreate(l.right, r));
    } else if ConstantHeaded(l, Sub) {
      HeadedTail(l);
      SubLinear(r, l.right);
      AddLinear(l.left, SubCreate(r, l.right));
    } else if ConstantHeaded(r, Add) {
      HeadedTail(r);
      AddLinear(l, r.right);
      AddLinear(r.left, AddCreate(l, r.right));
    } else if ConstantHeaded(r, Sub) {
      HeadedTail(r);
      SubLinear(l, r.right);
      AddLinear(r.left, SubCreate(l, r.right));
    } else {
      PlainNode(Add, l, r);
    }
  }

  lemma {:induction false} SubPartialLinear(c: Expr, r: Expr)
    requires Operands(c, r) && c.Constant? && c.width > BOOL && !r.Constant?
    ensures Bounded(SubPartialR(c, r), c, r)
    decreases Weight(c) + Weight(r), 0, 0
  {
    hide Linear, ConstantFree, XorPartialR;
    if ConstantHeaded(r, Add) {
      HeadedTail(r);
      HeadConstant(SubCreate(c, r.left));
      SubLinear(SubCreate(c, r.left), r.right);
    } else if ConstantHeaded(r, Sub) {
      HeadedTail(r);
      HeadConstant(SubCreate(c, r.left));
      AddLinear(SubCreate(c, r.left), r.right);
    } else {
      PlainNode(Sub, c, r);
    }
  }

  lemma {:induction false} SubLinear(l: Expr, r: Expr)
    requires Operands(l, r) && Width(l) > BOOL
    ensures Bounded(SubCreate(l, r), l, r)
    decreases Weight(l) + Weight(r), BothVariable(l, r), 2
  {
    hide Linear, ConstantFree, XorCreate, AddPartialR, SubPartialR, AddCreate, SubMod, Pow2, Eval, BinaryEval;
    if l.Constant? && r.Constant? {
      HeadConstant(SubCreate(l, r));
    } else if l.Constant? {
      SubPartialLinear(l, r);
    } else if r.Constant? {
      var k := Fold(Sub, Constant(0, r.width), r);
      HeadConstant(k); HeadConstant(r);
      AddPartialLinear(k, l);
    } else if l == r {
      HeadConstant(SubCreate(l, r));
    } else if ConstantHeaded(l, Add) {
      HeadedTail(l);
      SubLinear(l.right, r);
      AddLinear(l.left, SubCreate(l.right, r));
    } else if ConstantHeaded(l, Sub) {
      HeadedTail(l);
      AddLinear(l.right, r);
      SubLinear(l.left, AddCreate(l.right, r));
    } else if ConstantHeaded(r, Add) {
      HeadedTail(r);
      SubLinear(l, r.right);
      SubLinear(SubCreate(l, r.right), r.left);
    } else if ConstantHeaded(r, Sub) {
      HeadedTail(r);
      AddLinear(l, r.right);
      SubLinear(AddCreate(l, r.right), r.left);
    } else {
      PlainNode(Sub, l, r);
    }
  }

  /** The sum or difference of true and this disjunction is built by negating both disjuncts, and that is
      larger than the node asked for. */
  predicate Grows(l: Expr, r: Expr)
    requires WF(r) && Width(r) == BOOL
  {
    && l == True() && r.Binary? && r.op.Or?
    && Size(AndCreate(IsZero(r.left), IsZero(r.right))) > 2 + Size(r)
  }

  /** At width one the size bound fails exactly for true and such a disjunction, in either order. */
  lemma {:induction false} BoolBound(l: Expr, r: Expr)
    requires Operands(l, r) && Width(l) == BOOL
    ensures Size(AddCreate(l, r)) > 1 + Size(l) + Size(r) <==> Grows(l, r) || Grows(r, l)
    ensures Size(SubCreate(l, r)) > 1 + Size(l) + Size(r) <==> Grows(l, r) || Grows(r, l)
  {
    assert Pow2(1) == 2;
    hide AndCreate, IsZero;
    if l.Constant? && r.Constant? {
    } else if l.Constant? {
      NegatedSize(l, r);
    } else if r.Constant? {
      NegatedSize(r, l);
    }
  }

  /** Exclusive or with a constant: the operand, its negation, or the growing case. */
  lemma NegatedSize(c: Expr, r: Expr)
    requires Operands(c, r) && c.Constant? && c.width == BOOL && !r.Constant?
    ensures Size(XorPartialR(c, r)) > 2 + Size(r) <==> Grows(c, r)
  {
    hide AndCreate, IsZero;
    assert Pow2(1) == 2;
  }

  /** A comparison as the constructors build it above width one. */
  predicate IsComparison(p: Expr) {
    WF(p) && p.Binary? && p.op.Ult?
  }

  /** At width one the size bound fails: subtracting the disjunction of two comparisons from true negates
      both. */
  lemma {:induction false} BoolGrows(p: Expr, q: Expr)
    requires IsComparison(p) && IsComparison(q)
    ensures var l, r := True(), OrCreate(p, q);
      Operands(l, r) && r == Binary(Or, p, q) && Size(SubCreate(l, r)) == 2 + (1 + Size(l) + Size(r))
  {
    assert Pow2(1) == 2;
    NotComparison(p);
    NotComparison(q);
    var np, nq := Binary(Eq, False(), p), Binary(Eq, False(), q);
    assert SubCreate(True(), Binary(Or, p, q)) == AndCreate(np, nq) == Binary(And, np, nq);
    assert Size(np) == 1 + Size(False()) + Size(p) && Size(nq) == 1 + Size(False()) + Size(q);
  }

  lemma {:induction false} NotComparison(p: Expr)
    requires IsComparison(p)
    ensures IsZero(p) == Binary(Eq, False(), p)
  {
    assert EqPartialR(False(), p) == EqAlloc(False(), p);
  }

  /** Adding a constant to a symbolic expression in normal form leaves it symbolic, so the bytes of a
      multi-byte access at a symbolic offset are never at constant ones. */
  lemma {:induction false} OffsetStaysSymbolic(x: Expr, c: Expr)
    requires Operands(x, c) && Linear(x) && !x.Constant? && c.Constant? && Width(x) > 1
    ensures !AddCreate(x, c).Constant?
  {
    if ConstantHeaded(x, Add) {
      TailStaysSymbolic(AddCreate(c, x.left), x.right);
    } else if ConstantHeaded(x, Sub) {
      TailStaysSymbolic(AddCreate(c, x.left), x.right);
    }
  }

  lemma {:induction false} TailStaysSymbolic(c: Expr, x: Expr)
    requires Operands(c, x) && ConstantFree(x) && c.Constant? && Width(x) > 1
    ensures !AddCreate(c, x).Constant? && !SubCreate(c, x).Constant?
  {
    assert !ConstantHeaded(x, Add) && !ConstantHeaded(x, Sub);
  }
}
