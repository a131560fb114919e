/** Symbolic expressions, their widths, their meaning under an assignment of bytes to arrays,
    and the weight by which every rewriting in the project terminates. */
module Exprs {
  import opened Bits

  /** An array of `size` elements; `constantValues` is empty exactly for a symbolic array.
      `id` stands for the address of the array object. */
  datatype Array = Array(name: string, id: nat, size: nat, constantValues: seq<nat>, domain: nat, range: nat)

  datatype UnaryOp = NotOptimized | Not | Extract(off: nat, w: nat) | ZExt(w: nat) | SExt(w: nat)

  datatype BinaryOp =
    | Concat
    | Add | Sub | Mul | UDiv | SDiv | URem | SRem
    | And | Or | Xor | Shl | LShr | AShr
    | Eq | Ne | Ult | Ule | Ugt | Uge | Slt | Sle | Sgt | Sge

  datatype Expr =
    | Constant(value: nat, width: nat)
    | Read(root: Array, updates: Updates, index: Expr)
    | Select(cond: Expr, onTrue: Expr, onFalse: Expr)
    | Unary(uop: UnaryOp, src: Expr)
    | Binary(op: BinaryOp, left: Expr, right: Expr)

  /** The writes applied to an array, most recent first. */
  datatype Updates = NoUpdate | Update(next: Updates, index: Expr, value: Expr)

  // ----- widths -----

  predicate IsCompare(op: BinaryOp) {
    op.Eq? || op.Ne? || op.Ult? || op.Ule? || op.Ugt? || op.Uge? || op.Slt? || op.Sle? || op.Sgt? || op.Sge?
  }

  function UnaryWidth(uop: UnaryOp, w: nat): nat {
    if uop.Extract? || uop.ZExt? || uop.SExt? then uop.w else w
  }

  function BinaryWidth(op: BinaryOp, wl: nat, wr: nat): nat {
    if op.Concat? then wl + wr else if IsCompare(op) then 1 else wl
  }

  function Width(e: Expr): nat {
    match e
    case Constant(_, w) => w
    case Read(root, _, _) => root.range
    case Select(_, t, _) => Width(t)
    case Unary(uop, src) => UnaryWidth(uop, Width(src))
    case Binary(op, l, r) => BinaryWidth(op, Width(l), Width(r))
  }

  // ----- well-formed expressions -----

  predicate WFArray(a: Array) {
    a.domain > 0 && a.range > 0 &&
    (a.constantValues != [] ==> |a.constantValues| == a.size) &&
    forall i :: 0 <= i < |a.constantValues| ==> a.constantValues[i] < Pow2(a.range)
  }

  predicate WFUnary(uop: UnaryOp, w: nat) {
    match uop
    case Extract(off, k) => 0 < k < w && off + k <= w
    case ZExt(k) => w < k
    case SExt(k) => w < k
    case _ => true
  }

  predicate WF(e: Expr)
    ensures WF(e) ==> Width(e) > 0
  {
    match e
    case Constant(v, w) => w > 0 && v < Pow2(w)
    case Read(root, u, i) => WFArray(root) && WFUpdates(root, u) && WF(i) && Width(i) == root.domain
    case Select(c, t, f) => WF(c) && WF(t) && WF(f) && Width(c) == 1 && Width(t) == Width(f)
    case Unary(uop, src) => WF(src) && WFUnary(uop, Width(src))
    case Binary(op, l, r) => WF(l) && WF(r) && (op.Concat? || Width(l) == Width(r))
  }

  predicate WFUpdates(root: Array, u: Updates)
    decreases u
  {
    match u
    case NoUpdate => true
    case Update(next, i, v) =>
      WFUpdates(root, next) && WF(i) && WF(v) && Width(i) == root.domain && Width(v) == root.range
  }

  // ----- meaning -----

  /** The byte each array holds at each index before any update. */
  type Assignment = (Array, nat) -> nat

  function InitialValue(root: Array, i: nat, a: Assignment): nat {
    if i < |root.constantValues| then root.constantValues[i] else a(root, i) % Pow2(root.range)
  }

  function UnaryEval(uop: UnaryOp, w: nat, x: nat): nat {
    match uop
    case NotOptimized => x
    case Not => (Pow2(w) - 1 - x) % Pow2(w)
    case Extract(off, k) => Slice(x, off, k)
    case ZExt(k) => x
    case SExt(k) => SignExtend(x, w, k)
  }

  function Truth(b: bool): nat {
    if b then 1 else 0
  }

  /** `wl` and `wr` are the operand widths; they differ only for a concatenation. */
  function BinaryEval(op: BinaryOp, wl: nat, wr: nat, x: nat, y: nat): nat {
    match op
    case Concat => Join(x, y, wr)
    case Add => AddMod(wl, x, y)
    case Sub => SubMod(wl, x, y)
    case Mul => MulMod(wl, x, y)
    case UDiv => UDivOf(x, y)
    case SDiv => SDivOf(wl, x, y)
    case URem => URemOf(x, y)
    case SRem => SRemOf(wl, x, y)
    case And => Bitwise(BitAnd, x, y)
    case Or => Bitwise(BitOr, x, y)
    case Xor => Bitwise(BitXor, x, y)
    case Shl => ShlOf(wl, x, y)
    case LShr => LShrOf(wl, x, y)
    case AShr => Bits.AShr(wl, x, y)
    case Eq => Truth(x == y)
    case Ne => Truth(x != y)
    case Ult => Truth(x < y)
    case Ule => Truth(x <= y)
    case Ugt => Truth(x > y)
    case Uge => Truth(x >= y)
    case Slt => Truth(ToSigned(wl, x) < ToSigned(wl, y))
    case Sle => Truth(ToSigned(wl, x) <= ToSigned(wl, y))
    case Sgt => Truth(ToSigned(wl, x) > ToSigned(wl, y))
    case Sge => Truth(ToSigned(wl, x) >= ToSigned(wl, y))
  }

  function Eval(e: Expr, a: Assignment): nat {
    match e
    case Constant(v, _) => v
    case Read(root, u, i) => EvalRead(root, u, Eval(i, a), a)
    case Select(c, t, f) => if Eval(c, a) == 1 then Eval(t, a) else Eval(f, a)
    case Unary(uop, src) => UnaryEval(uop, Width(src), Eval(src, a))
    case Binary(op, l, r) => BinaryEval(op, Width(l), Width(r), Eval(l, a), Eval(r, a))
  }

  /** The value at index `i` after the updates `u`: that of the most recent write to `i`. */
  function EvalRead(root: Array, u: Updates, i: nat, a: Assignment): nat
    decreases u
  {
    match u
    case NoUpdate => InitialValue(root, i, a)
    case Update(next, index, value) =>
      if Eval(index, a) == i then Eval(value, a) else EvalRead(root, next, i, a)
  }

  lemma UnaryBound(uop: UnaryOp, w: nat, x: nat)
    requires x < Pow2(w) && WFUnary(uop, w)
    ensures UnaryEval(uop, w, x) < Pow2(UnaryWidth(uop, w))
  {
    if uop.ZExt? { Pow2Mono(w, uop.w); }
  }

  lemma BinaryBound(op: BinaryOp, wl: nat, wr: nat, x: nat, y: nat)
    requires wl > 0 && x < Pow2(wl) && y < Pow2(wr) && (op.Concat? || wl == wr)
    ensures BinaryEval(op, wl, wr, x, y) < Pow2(BinaryWidth(op, wl, wr))
  {
    match op
    case Concat => JoinBound(x, wl, y, wr);
    case And => BitwiseBound(BitAnd, x, y, wl);
    case Or => BitwiseBound(BitOr, x, y, wl);
    case Xor => BitwiseBound(BitXor, x, y, wl);
    case _ =>
  }

  lemma {:induction false} EvalBound(e: Expr, a: Assignment)
    requires WF(e)
    ensures Eval(e, a) < Pow2(Width(e))
  {
    match e
    case Constant(_, _) =>
    case Read(root, u, i) => EvalReadBound(root, u, Eval(i, a), a);
    case Select(_, t, f) => EvalBound(t, a); EvalBound(f, a);
    case Unary(uop, src) => EvalBound(src, a); UnaryBound(uop, Width(src), Eval(src, a));
    case Binary(op, l, r) =>
      EvalBound(l, a); EvalBound(r, a);
      BinaryBound(op, Width(l), Width(r), Eval(l, a), Eval(r, a));
  }

  lemma {:induction false} EvalReadBound(root: Array, u: Updates, i: nat, a: Assignment)
    requires WFArray(root) && WFUpdates(root, u)
    ensures EvalRead(root, u, i, a) < Pow2(root.range)
    decreases u
  {
    match u
    case NoUpdate =>
    case Update(next, _, value) => EvalBound(value, a); EvalReadBound(root, next, i, a);
  }

  // ----- weight -----

  /** An extract pays for each end at which it drops bits, so splitting one at the seam of a
      concatenation costs nothing. */
  function ExtractCost(off: nat, k: nat, w: nat): nat {
    (if off > 0 then 1 else 0) + (if off + k < w then 1 else 0)
  }

  function UnaryCost(uop: UnaryOp, w: nat): nat {
    if uop.Extract? then ExtractCost(uop.off, uop.w, w) else 1
  }

  /** Chosen so that no constructor's rewrite weighs more than the node it stands for. */
  function BinaryCost(op: BinaryOp): (c: nat)
    ensures c > 0
  {
    match op
    case Or => 3
    case Shl => 3
    case LShr => 3
    case Ne => 3
    case Ult => 3
    case Ugt => 3
    case Slt => 3
    case Sgt => 3
    case Ule => 5
    case Uge => 5
    case Sle => 5
    case Sge => 5
    case _ => 1
  }

  const SELECT_COST: nat := 5

  function Weight(e: Expr): (n: nat)
    ensures n > 0
  {
    match e
    case Constant(_, _) => 1
    case Read(_, u, i) => 1 + Weight(i) + UpdatesWeight(u)
    case Select(c, t, f) => SELECT_COST + Weight(c) + Weight(t) + Weight(f)
    case Unary(uop, src) => UnaryCost(uop, Width(src)) + Weight(src)
    case Binary(op, l, r) => BinaryCost(op) + Weight(l) + Weight(r)
  }

  function UpdatesWeight(u: Updates): nat {
    match u
    case NoUpdate => 0
    case Update(next, i, v) => UpdatesWeight(next) + Weight(i) + Weight(v)
  }

  /** The number of writes in a list. */
  function UpdatesLength(u: Updates): nat {
    match u
    case NoUpdate => 0
    case Update(next, _, _) => 1 + UpdatesLength(next)
  }
}
