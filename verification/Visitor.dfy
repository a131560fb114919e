/** `ExprVisitor` and the five visitors the constraint manager applies.  A visitor replaces a node
    on the way down, or rebuilds it from its visited children through the smart constructors and
    replaces the result on the way up. */
module Visitor {
  import opened Options
  import opened Bits
  import opened Exprs
  import opened Create
  import opened Meaning

  datatype Visitor =
    | Replace(src: Expr, dst: Expr)           // ExprReplaceVisitor
    | ReplaceMap(replacements: map<Expr, Expr>) // ExprReplaceVisitor2, which revisits what it rebuilds
    | XorExtract                               // ExtractExprVisitor
    | XorLift                                  // XorLiftVisitor
    | XorPropagate                             // XorPropagateVisitor

  /** What a replacement may put in place of `k`. */
  predicate ConstantFor(k: Expr, c: Expr) {
    WF(k) && WF(c) && c.Constant? && Width(k) == Width(c)
  }

  predicate WFVisitor(v: Visitor) {
    match v
    case Replace(src, dst) => ConstantFor(src, dst)
    case ReplaceMap(m) => forall k :: k in m ==> ConstantFor(k, m[k])
    case _ => true
  }

  predicate Shrinks(v: Visitor) {
    v.Replace? || v.ReplaceMap?
  }

  /** A visited expression: same width, and if the visitor only replaces by constants, strictly
      lighter unless unchanged. */
  predicate Visited(v: Visitor, e: Expr, r: Expr) {
    WF(r) && Width(r) == Width(e) && (Shrinks(v) ==> r == e || Weight(r) < Weight(e))
  }

  /** The replacement made before the children are visited, if any. */
  function PreAction(v: Visitor, e: Expr): (r: Option<Expr>)
    requires WF(e) && WFVisitor(v) && !e.Constant?
    ensures r.Some? ==> Visited(v, e, r.value)
  {
    match v
    case Replace(src, dst) => if e == src then Some(dst) else None
    case ReplaceMap(_) => None
    case XorExtract =>
      if e.Unary? && e.uop.Extract? && e.src.Binary? && e.src.op.Xor? then
        var off, w := e.uop.off, e.uop.w;
        assert WF(e.src);
        Some(XorCreate(ExtractCreate(e.src.left, off, w), ExtractCreate(e.src.right, off, w)))
      else None
    case XorLift =>
      if e.Binary? && e.op.Eq? && e.left.Constant? && e.right.Binary? && e.right.op.Xor? && e.right.left.Constant? then
        var k := e.right.left;
        assert WF(e.right);
        Some(EqCreate(XorCreate(k, e.left), XorCreate(k, e.right)))
      else None
    case XorPropagate =>
      if e.Binary? && e.op.Xor? && e.left.Constant? && e.right.Binary? && e.right.op.Xor? && e.right.left == e.left then
        assert WF(e.right);
        Some(e.right.right)
      else None
  }

  /** The replacement made after the children have been visited. */
  function PostAction(v: Visitor, e: Expr): (r: Expr)
    requires WF(e) && WFVisitor(v)
    ensures Visited(v, e, r)
  {
    if e.Constant? then e
    else match v
      case Replace(src, dst) => if e == src then dst else e
      case ReplaceMap(m) => if e in m then m[e] else e
      case _ => e
  }

  function Visit(v: Visitor, e: Expr): (r: Expr)
    requires WF(e) && WFVisitor(v)
    ensures Visited(v, e, r)
    decreases Weight(e), 1
  {
    if e.Constant? then e
    else match PreAction(v, e)
      case Some(x) => x
      case None =>
        var d := VisitChildren(v, e);
        PostAction(v, if v.ReplaceMap? && d != e then Visit(v, d) else d)
  }

  /** Visits the children and rebuilds the node if one of them changed. */
  function VisitChildren(v: Visitor, e: Expr): (r: Expr)
    requires WF(e) && WFVisitor(v) && !e.Constant?
    ensures Visited(v, e, r)
    decreases Weight(e), 0
  {
    match e
    case Read(root, u, i) =>
      var i' := Visit(v, i);
      if i' == i then e else ReadCreate(root, u, i')
    case Select(c, t, f) =>
      var c', t', f' := Visit(v, c), Visit(v, t), Visit(v, f);
      if c' == c && t' == t && f' == f then e else SelectCreate(c', t', f')
    case Unary(uop, x) =>
      var x' := Visit(v, x);
      if x' == x then e else UnaryCreate(uop, x')
    case Binary(op, l, r) =>
      var l', r' := Visit(v, l), Visit(v, r);
      if l' == l && r' == r then e else BinaryCreate(op, l', r')
  }

  // ----- meaning -----

  /** The replacements hold under `a`; the Xor visitors need nothing. */
  predicate Sound(v: Visitor, a: Assignment) {
    match v
    case Replace(src, dst) => Eval(src, a) == Eval(dst, a)
    case ReplaceMap(m) => forall k :: k in m ==> Eval(k, a) == Eval(m[k], a)
    case _ => true
  }

  lemma {:induction false} PreActionMeaning(v: Visitor, e: Expr, a: Assignment)
    requires WF(e) && WFVisitor(v) && !e.Constant? && Sound(v, a)
    ensures PreAction(v, e).Some? ==> Eval(PreAction(v, e).value, a) == Eval(e, a)
  {
    hide Bitwise, XorCreate, EqCreate, ExtractCreate;
    match v
    case XorExtract =>
      if e.Unary? && e.uop.Extract? && e.src.Binary? && e.src.op.Xor? {
        var off, w, l, r := e.uop.off, e.uop.w, e.src.left, e.src.right;
        assert WF(e.src);
        ExtractMeaning(l, off, w, a);
        ExtractMeaning(r, off, w, a);
        XorMeaning(ExtractCreate(l, off, w), ExtractCreate(r, off, w), a);
        BitwiseSlice(BitXor, Eval(l, a), Eval(r, a), off, w);
      }
    case XorLift =>
      if e.Binary? && e.op.Eq? && e.left.Constant? && e.right.Binary? && e.right.op.Xor? && e.right.left.Constant? {
        var k := e.right.left;
        assert WF(e.right);
        XorMeaning(k, e.left, a);
        XorMeaning(k, e.right, a);
        EqMeaning(XorCreate(k, e.left), XorCreate(k, e.right), a);
        XorCancel(k.value, e.left.value);
        XorCancel(k.value, Eval(e.right, a));
      }
    case XorPropagate =>
      if e.Binary? && e.op.Xor? && e.left.Constant? && e.right.Binary? && e.right.op.Xor? && e.right.left == e.left {
        XorCancel(e.left.value, Eval(e.right.right, a));
      }
    case _ =>
  }

  /** Main result: where the replacements hold, the visited expression has the old value. */
  lemma {:induction false} VisitMeaning(v: Visitor, e: Expr, a: Assignment)
    requires WF(e) && WFVisitor(v) && Sound(v, a)
    ensures Eval(Visit(v, e), a) == Eval(e, a)
    decreases Weight(e), 1
  {
    if !e.Constant? {
      PreActionMeaning(v, e, a);
      if PreAction(v, e).None? {
        VisitChildrenMeaning(v, e, a);
        var d := VisitChildren(v, e);
        if v.ReplaceMap? && d != e { VisitMeaning(v, d, a); }
      }
    }
  }

  lemma {:induction false} VisitChildrenMeaning(v: Visitor, e: Expr, a: Assignment)
    requires WF(e) && WFVisitor(v) && Sound(v, a) && !e.Constant?
    ensures Eval(VisitChildren(v, e), a) == Eval(e, a)
    decreases Weight(e), 0
  {
    hide Sound, WFVisitor, Eval, ReadCreate, SelectCreate, UnaryCreate, BinaryCreate, Pow2;
    match e
    case Read(root, u, i) =>
      VisitMeaning(v, i, a);
      RebuildRead(root, u, i, Visit(v, i), a);
    case Select(c, t, f) =>
      VisitMeaning(v, c, a); VisitMeaning(v, t, a); VisitMeaning(v, f, a);
      RebuildSelect(c, t, f, Visit(v, c), Visit(v, t), Visit(v, f), a);
    case Unary(uop, x) =>
      VisitMeaning(v, x, a);
      RebuildUnary(uop, x, Visit(v, x), a);
    case Binary(op, l, r) =>
      VisitMeaning(v, l, a); VisitMeaning(v, r, a);
      RebuildBinary(op, l, r, Visit(v, l), Visit(v, r), a);
  }

  /** Rebuilding a node from kids of equal width and value keeps its value. */
  predicate SameValue(e: Expr, e': Expr, a: Assignment) {
    WF(e) && WF(e') && Width(e') == Width(e) && Eval(e', a) == Eval(e, a)
  }

  lemma RebuildRead(root: Array, u: Updates, i: Expr, i': Expr, a: Assignment)
    requires WF(Read(root, u, i)) && SameValue(i, i', a)
    ensures Eval(ReadCreate(root, u, i'), a) == Eval(Read(root, u, i), a)
  {
    hide ReadCreate, EvalRead;
    ReadMeaning(root, u, i', a);
  }

  lemma RebuildSelect(c: Expr, t: Expr, f: Expr, c': Expr, t': Expr, f': Expr, a: Assignment)
    requires WF(Select(c, t, f)) && SameValue(c, c', a) && SameValue(t, t', a) && SameValue(f, f', a)
    ensures Eval(SelectCreate(c', t', f'), a) == Eval(Select(c, t, f), a)
  {
    hide SelectCreate;
    SelectMeaning(c', t', f', a);
  }

  lemma RebuildUnary(uop: UnaryOp, x: Expr, x': Expr, a: Assignment)
    requires WF(Unary(uop, x)) && SameValue(x, x', a)
    ensures Eval(UnaryCreate(uop, x'), a) == Eval(Unary(uop, x), a)
  {
    hide UnaryCreate, UnaryEval;
    UnaryMeaning(uop, x', a);
  }

  lemma RebuildBinary(op: BinaryOp, l: Expr, r: Expr, l': Expr, r': Expr, a: Assignment)
    requires WF(Binary(op, l, r)) && SameValue(l, l', a) && SameValue(r, r', a)
    ensures Eval(BinaryCreate(op, l', r'), a) == Eval(Binary(op, l, r), a)
  {
    hide BinaryCreate, BinaryEval;
    BinaryMeaning(op, l', r', a);
  }
}
