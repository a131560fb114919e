/** `ExprEvaluator` over an assignment that leaves unbound bytes free: a partial evaluation. */
module Evaluator {
  import opened Bits
  import opened Exprs
  import opened Create
  import opened Meaning

  /** The bytes a seed gives to arrays. */
  type Bindings = map<Array, seq<nat>>

  predicate WFBindings(b: Bindings) {
    forall arr :: arr in b ==>
      WFArray(arr) && |b[arr]| == arr.size && forall i :: 0 <= i < |b[arr]| ==> b[arr][i] < Pow2(arr.range)
  }

  /** `a` gives every bound byte its bound value. */
  predicate Agrees(b: Bindings, a: Assignment) {
    forall arr, i {:trigger b[arr][i]} :: arr in b && 0 <= i < |b[arr]| ==> InitialValue(arr, i, a) == b[arr][i]
  }

  /** `Assignment::evaluate` on one byte: the bound value, or the byte itself. */
  function InitialByte(b: Bindings, root: Array, i: nat): (e: Expr)
    requires WFBindings(b) && WFArray(root) && i < Pow2(root.domain)
    ensures WF(e) && Width(e) == root.range
  {
    if root in b && i < |b[root]| then Constant(b[root][i], root.range)
    else ReadCreate(root, NoUpdate, Constant(i, root.domain))
  }

  predicate ConstantChildren(e: Expr) {
    match e
    case Select(c, t, f) => c.Constant? && t.Constant? && f.Constant?
    case Unary(_, x) => x.Constant?
    case Binary(_, l, r) => l.Constant? && r.Constant?
    case _ => false
  }

  /** `visitExprPost`: a node that resists optimization gives way. */
  function DropNotOptimized(e: Expr): (r: Expr)
    requires WF(e)
    ensures WF(r) && Width(r) == Width(e)
  {
    if e.Unary? && e.uop.NotOptimized? then e.src else e
  }

  predicate IsDivision(op: BinaryOp) {
    op.UDiv? || op.SDiv? || op.URem? || op.SRem?
  }

  function Evaluate(b: Bindings, e: Expr): (r: Expr)
    requires WFBindings(b) && WF(e)
    ensures WF(r) && Width(r) == Width(e)
    decreases e
  {
    match e
    case Constant(_, _) => e
    case Read(root, u, i) =>
      var i' := Evaluate(b, i);
      if i'.Constant? then EvaluateRead(b, root, u, i'.value)
      else DropNotOptimized(if i' == i then e else ReadCreate(root, u, i'))
    case Select(c, t, f) =>
      if ConstantChildren(e) then SelectCreate(c, t, f)
      else
        var c', t', f' := Evaluate(b, c), Evaluate(b, t), Evaluate(b, f);
        DropNotOptimized(if c' == c && t' == t && f' == f then e else SelectCreate(c', t', f'))
    case Unary(uop, x) =>
      if ConstantChildren(e) then UnaryCreate(uop, x)
      else
        var x' := Evaluate(b, x);
        DropNotOptimized(if x' == x then e else UnaryCreate(uop, x'))
    case Binary(op, l, r) =>
      if ConstantChildren(e) then BinaryCreate(op, l, r)
      else
        var l', r' := Evaluate(b, l), Evaluate(b, r);
        if IsDivision(op) then // a divisor that evaluates to zero is left alone
          var d := if r'.Constant? && r'.value == 0 then r else r';
          if l' == l && d == r then e else BinaryCreate(op, l', d)
        else DropNotOptimized(if l' == l && r' == r then e else BinaryCreate(op, l', r'))
  }

  /** `evalRead`: walks the updates until an index matches or cannot be decided. */
  function EvaluateRead(b: Bindings, root: Array, u: Updates, i: nat): (r: Expr)
    requires WFBindings(b) && WFArray(root) && WFUpdates(root, u) && i < Pow2(root.domain)
    ensures WF(r) && Width(r) == root.range
    decreases u
  {
    match u
    case NoUpdate =>
      if i < |root.constantValues| then Constant(root.constantValues[i], root.range) else InitialByte(b, root, i)
    case Update(next, index, value) =>
      var ui := Evaluate(b, index);
      if !ui.Constant? then ReadCreate(root, u, Constant(i, root.domain))
      else if ui.value == i then Evaluate(b, value)
      else EvaluateRead(b, root, next, i)
  }

  lemma DropMeaning(e: Expr, a: Assignment)
    requires WF(e)
    ensures Eval(DropNotOptimized(e), a) == Eval(e, a)
  {
  }

  /** Under every assignment that agrees with the bindings, evaluation changes no value. */
  lemma {:induction false} EvaluateMeaning(b: Bindings, e: Expr, a: Assignment)
    requires WFBindings(b) && WF(e) && Agrees(b, a)
    ensures Eval(Evaluate(b, e), a) == Eval(e, a)
    decreases e, 1
  {
    hide ReadCreate, SelectCreate, UnaryCreate, BinaryCreate, BinaryEval, UnaryEval, WFBindings, Agrees,
      DropNotOptimized;
    match e
    case Constant(_, _) =>
    case Read(root, u, i) =>
      EvaluateMeaning(b, i, a);
      var i' := Evaluate(b, i);
      if i'.Constant? {
        EvaluateReadMeaning(b, root, u, i'.value, a);
      } else {
        ReadMeaning(root, u, i', a);
        DropMeaning(if i' == i then e else ReadCreate(root, u, i'), a);
      }
    case Select(c, t, f) =>
      SelectMeaning(c, t, f, a);
      EvaluateMeaning(b, c, a); EvaluateMeaning(b, t, a); EvaluateMeaning(b, f, a);
      var c', t', f' := Evaluate(b, c), Evaluate(b, t), Evaluate(b, f);
      SelectMeaning(c', t', f', a);
      DropMeaning(if c' == c && t' == t && f' == f then e else SelectCreate(c', t', f'), a);
    case Unary(uop, x) =>
      UnaryMeaning(uop, x, a);
      EvaluateMeaning(b, x, a);
      var x' := Evaluate(b, x);
      UnaryMeaning(uop, x', a);
      DropMeaning(if x' == x then e else UnaryCreate(uop, x'), a);
    case Binary(op, l, r) =>
      BinaryMeaning(op, l, r, a);
      EvaluateMeaning(b, l, a); EvaluateMeaning(b, r, a);
      var l', r' := Evaluate(b, l), Evaluate(b, r);
      BinaryMeaning(op, l', r', a);
      BinaryMeaning(op, l', r, a);
      DropMeaning(if l' == l && r' == r then e else BinaryCreate(op, l', r'), a);
  }

  lemma {:induction false} EvaluateReadMeaning(b: Bindings, root: Array, u: Updates, i: nat, a: Assignment)
    requires WFBindings(b) && WFArray(root) && WFUpdates(root, u) && i < Pow2(root.domain) && Agrees(b, a)
    ensures Eval(EvaluateRead(b, root, u, i), a) == EvalRead(root, u, i, a)
    decreases u, 0
  {
    hide ReadCreate;
    match u
    case NoUpdate => ReadMeaning(root, NoUpdate, Constant(i, root.domain), a);
    case Update(next, index, value) =>
      EvaluateMeaning(b, index, a);
      EvaluateMeaning(b, value, a);
      ReadMeaning(root, u, Constant(i, root.domain), a);
      EvaluateReadMeaning(b, root, next, i, a);
  }
}
