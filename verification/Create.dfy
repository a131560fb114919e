/** The smart constructors: the only way the program builds an expression.
    Each function mirrors one `create` of the source; its postcondition carries what the
    termination of the whole cluster rests on (well-formedness, width, weight). */
module Create {
  import opened Bits
  import opened Exprs

  const BOOL: nat := 1

  function False(): Expr { Constant(0, BOOL) }

  function True(): Expr { Constant(1, BOOL) }

  /** A constructor result for `op` on `l` and `r`. */
  predicate Builds(e: Expr, op: BinaryOp, l: Expr, r: Expr) {
    WF(e) && Width(e) == BinaryWidth(op, Width(l), Width(r)) && Weight(e) <= BinaryCost(op) + Weight(l) + Weight(r)
  }

  predicate Operands(l: Expr, r: Expr) {
    WF(l) && WF(r) && Width(l) == Width(r)
  }

  // ----- folding of constants -----

  function Fold(op: BinaryOp, l: Expr, r: Expr): (e: Expr)
    requires l.Constant? && r.Constant? && WF(l) && WF(r) && (op.Concat? || Width(l) == Width(r))
    ensures e.Constant? && Builds(e, op, l, r)
  {
    BinaryBound(op, l.width, r.width, l.value, r.value);
    Constant(BinaryEval(op, l.width, r.width, l.value, r.value), BinaryWidth(op, l.width, r.width))
  }

  /** `ConstantExpr::Extract`: an arithmetic shift, then a truncation. */
  function FoldExtract(c: Expr, off: nat, w: nat): (e: Expr)
    requires c.Constant? && WF(c) && w > 0
    ensures e.Constant? && WF(e) && e.width == w
  {
    Constant(Bits.AShr(c.width, c.value, off) % Pow2(w), w)
  }

  /** `ConstantExpr::ZExt` also truncates. */
  function FoldZExt(c: Expr, w: nat): (e: Expr)
    requires c.Constant? && WF(c) && w > 0
    ensures e.Constant? && WF(e) && e.width == w
  {
    Constant(c.value % Pow2(w), w)
  }

  function FoldSExt(c: Expr, w: nat): (e: Expr)
    requires c.Constant? && WF(c) && w > 0
    ensures e.Constant? && WF(e) && e.width == w
  {
    Constant(SignExtend(c.value, c.width, w), w)
  }

  // ----- Concat and Extract -----

  function ConcatCreate(l: Expr, r: Expr): (e: Expr)
    requires WF(l) && WF(r)
    ensures Builds(e, Concat, l, r)
    decreases Weight(l) + Weight(r)
  {
    if l.Constant? && r.Constant? then Fold(Concat, l, r)
    else if l.Unary? && l.uop.Extract? && r.Unary? && r.uop.Extract? &&
            l.src == r.src && r.uop.off + r.uop.w == l.uop.off then
      ExtractCreate(l.src, r.uop.off, Width(l) + Width(r))
    else Binary(Concat, l, r)
  }

  function ExtractCreate(x: Expr, off: nat, w: nat): (e: Expr)
    requires WF(x) && w > 0 && off + w <= Width(x)
    ensures WF(e) && Width(e) == w && Weight(e) <= ExtractCost(off, w, Width(x)) + Weight(x)
    ensures w == Width(x) ==> e == x
    decreases ExtractCost(off, w, Width(x)) + Weight(x)
  {
    if w == Width(x) then x
    else if x.Constant? then FoldExtract(x, off, w)
    else if x.Binary? && x.op.Concat? then
      var wr := Width(x.right);
      if off >= wr then ExtractCreate(x.left, off - wr, w)
      else if off + w <= wr then ExtractCreate(x.right, off, w)
      else ConcatCreate(ExtractCreate(x.left, 0, w - wr + off), ExtractCreate(x.right, off, wr - off))
    else Unary(Extract(off, w), x)
  }

  // ----- unary constructors -----

  function NotCreate(x: Expr): (e: Expr)
    requires WF(x)
    ensures WF(e) && Width(e) == Width(x) && Weight(e) <= 1 + Weight(x)
  {
    if x.Constant? then Constant((Pow2(x.width) - 1 - x.value) % Pow2(x.width), x.width)
    else Unary(Not, x)
  }

  function ZExtCreate(x: Expr, w: nat): (e: Expr)
    requires WF(x) && w > 0
    ensures WF(e) && Width(e) == w && Weight(e) <= 1 + Weight(x)
  {
    if w == Width(x) then x
    else if w < Width(x) then ExtractCreate(x, 0, w)
    else if x.Constant? then FoldZExt(x, w)
    else Unary(ZExt(w), x)
  }

  function SExtCreate(x: Expr, w: nat): (e: Expr)
    requires WF(x) && w > 0
    ensures WF(e) && Width(e) == w && Weight(e) <= 1 + Weight(x)
  {
    if w == Width(x) then x
    else if w < Width(x) then ExtractCreate(x, 0, w)
    else if x.Constant? then FoldSExt(x, w)
    else Unary(SExt(w), x)
  }

  // ----- bitwise constructors -----

  function AndPartial(l: Expr, c: Expr): (e: Expr)
    requires Operands(l, c) && c.Constant?
    ensures Builds(e, And, l, c)
  {
    if c.value == Pow2(c.width) - 1 then l
    else if c.value == 0 then c
    else Binary(And, l, c)
  }

  function AndCreate(l: Expr, r: Expr): (e: Expr)
    requires Operands(l, r)
    ensures Builds(e, And, l, r)
  {
    if l.Constant? && r.Constant? then Fold(And, l, r)
    else if l.Constant? then AndPartial(r, l)
    else if r.Constant? then AndPartial(l, r)
    else Binary(And, l, r)
  }

  function OrPartial(l: Expr, c: Expr): (e: Expr)
    requires Operands(l, c) && c.Constant?
    ensures Builds(e, Or, l, c)
  {
    if c.value == Pow2(c.width) - 1 then c
    else if c.value == 0 then l
    else Binary(Or, l, c)
  }

  function OrCreate(l: Expr, r: Expr): (e: Expr)
    requires Operands(l, r)
    ensures Builds(e, Or, l, r)
  {
    if l.Constant? && r.Constant? then Fold(Or, l, r)
    else if l.Constant? then OrPartial(r, l)
    else if r.Constant? then OrPartial(l, r)
    else Binary(Or, l, r)
  }

  // ----- equality -----

  function EqAlloc(l: Expr, r: Expr): (e: Expr)
    requires Operands(l, r)
    ensures Builds(e, Eq, l, r)
  {
    if l == r then True() else Binary(Eq, l, r)
  }

  function IsZero(x: Expr): (e: Expr)
    requires WF(x)
    ensures WF(e) && Width(e) == BOOL && Weight(e) <= 2 + Weight(x)
    decreases Weight(x) + 1, 2
  {
    EqCreate(x, Constant(0, Width(x)))
  }

  function EqCreate(l: Expr, r: Expr): (e: Expr)
    requires Operands(l, r)
    ensures Builds(e, Eq, l, r)
    decreases Weight(l) + Weight(r), 1
  {
    if l.Constant? && r.Constant? then Fold(Eq, l, r)
    else if l.Constant? then EqPartialR(l, r)
    else if r.Constant? then EqPartialR(r, l)
    else EqAlloc(l, r)
  }

  function EqPartialR(c: Expr, r: Expr): (e: Expr)
    requires Operands(c, r) && c.Constant?
    ensures Builds(e, Eq, c, r)
    decreases Weight(c) + Weight(r), 0
  {
    if c.width == BOOL then
      if c.value == 1 then r
      else if r.Binary? && r.op.Eq? && r.left == False() then r.right
      else if r.Binary? && r.op.Or? then AndCreate(IsZero(r.left), IsZero(r.right))
      else EqAlloc(c, r)
    else if r.Unary? && r.uop.SExt? then
      var trunc := FoldZExt(c, Width(r.src));
      if c == FoldSExt(trunc, c.width) then EqCreate(r.src, trunc) else False()
    else if r.Unary? && r.uop.ZExt? then
      var trunc := FoldZExt(c, Width(r.src));
      if c == FoldZExt(trunc, c.width) then EqCreate(r.src, trunc) else False()
    else if r.Binary? && r.op.Add? && r.left.Constant? then EqPartialR(Fold(Sub, c, r.left), r.right)
    else if r.Binary? && r.op.Sub? && r.left.Constant? then EqPartialR(Fold(Sub, r.left, c), r.right)
    else EqAlloc(c, r)
  }

  function XorPartialR(c: Expr, r: Expr): (e: Expr)
    requires Operands(c, r) && c.Constant?
    ensures Builds(e, Xor, c, r)
  {
    if c.value == 0 then r
    else if c.width == BOOL then EqPartialR(False(), r)
    else Binary(Xor, c, r)
  }

  function XorCreate(l: Expr, r: Expr): (e: Expr)
    requires Operands(l, r)
    ensures Builds(e, Xor, l, r)
  {
    if l.Constant? && r.Constant? then Fold(Xor, l, r)
    else if l.Constant? then XorPartialR(l, r)
    else if r.Constant? then XorPartialR(r, l)
    else Binary(Xor, l, r)
  }

  // ----- addition and subtraction -----

  /** A sum or difference whose left operand is a constant. */
  predicate ConstantHeaded(e: Expr, op: BinaryOp) {
    e.Binary? && e.op == op && e.left.Constant?
  }

  function BothVariable(l: Expr, r: Expr): nat {
    if l.Constant? || r.Constant? then 0 else 1
  }

  function AddPartialR(c: Expr, r: Expr): (e: Expr)
    requires Operands(c, r) && c.Constant?
    ensures Builds(e, Add, c, r)
    decreases Weight(c) + Weight(r), 0, 0
  {
    if c.width == BOOL then XorPartialR(c, r)
    else if c.value == 0 then r
    else if ConstantHeaded(r, Add) then AddCreate(AddCreate(c, r.left), r.right)
    else if ConstantHeaded(r, Sub) then SubCreate(AddCreate(c, r.left), r.right)
    else Binary(Add, c, r)
  }

  function AddCreate(l: Expr, r: Expr): (e: Expr)
    requires Operands(l, r)
    ensures Builds(e, Add, l, r)
    ensures l.Constant? && r.Constant? ==> e.Constant?
    decreases Weight(l) + Weight(r), BothVariable(l, r), 1
  {
    if l.Constant? && r.Constant? then Fold(Add, l, r)
    else if l.Constant? then AddPartialR(l, r)
    else if r.Constant? then AddPartialR(r, l)
    else if Width(l) == BOOL then XorCreate(l, r)
    else if ConstantHeaded(l, Add) then AddCreate(l.left, AddCreate(l.right, r))
    else if ConstantHeaded(l, Sub) then AddCreate(l.left, SubCreate(r, l.right))
    else if ConstantHeaded(r, Add) then AddCreate(r.left, AddCreate(l, r.right))
    else if ConstantHeaded(r, Sub) then AddCreate(r.left, SubCreate(l, r.right))
    else Binary(Add, l, r)
  }

  function SubPartialR(c: Expr, r: Expr): (e: Expr)
    requires Operands(c, r) && c.Constant?
    ensures Builds(e, Sub, c, r)
    decreases Weight(c) + Weight(r), 0, 0
  {
    if c.width == BOOL then XorPartialR(c, r)
    else if ConstantHeaded(r, Add) then SubCreate(SubCreate(c, r.left), r.right)
    else if ConstantHeaded(r, Sub) then AddCreate(SubCreate(c, r.left), r.right)
    else Binary(Sub, c, r)
  }

  function SubCreate(l: Expr, r: Expr): (e: Expr)
    requires Operands(l, r)
    ensures Builds(e, Sub, l, r)
    ensures l.Constant? && r.Constant? ==> e.Constant?
    decreases Weight(l) + Weight(r), BothVariable(l, r), 2
  {
    if l.Constant? && r.Constant? then Fold(Sub, l, r)
    else if l.Constant? then SubPartialR(l, r)
    else if r.Constant? then AddPartialR(Fold(Sub, Constant(0, r.width), r), l)
    else if Width(l) == BOOL then XorCreate(l, r)
    else if l == r then Constant(0, Width(l))
    else if ConstantHeaded(l, Add) then AddCreate(l.left, SubCreate(l.right, r))
    else if ConstantHeaded(l, Sub) then SubCreate(l.left, AddCreate(l.right, r))
    else if ConstantHeaded(r, Add) then SubCreate(SubCreate(l, r.right), r.left)
    else if ConstantHeaded(r, Sub) then SubCreate(AddCreate(l, r.right), r.left)
    else Binary(Sub, l, r)
  }

  // ----- the remaining binary constructors -----

  function MulPartialR(c: Expr, r: Expr): (e: Expr)
    requires Operands(c, r) && c.Constant?
    ensures Builds(e, Mul, c, r)
  {
    if c.width == BOOL then AndPartial(r, c)
    else if c.value == 1 then r
    else if c.value == 0 then c
    else Binary(Mul, c, r)
  }

  function MulCreate(l: Expr, r: Expr): (e: Expr)
    requires Operands(l, r)
    ensures Builds(e, Mul, l, r)
  {
    if l.Constant? && r.Constant? then Fold(Mul, l, r)
    else if l.Constant? then MulPartialR(l, r)
    else if r.Constant? then MulPartialR(r, l)
    else if Width(l) == BOOL then Binary(And, l, r)
    else Binary(Mul, l, r)
  }

  /** The four divisions: a Boolean divisor can only be one. */
  function DivCreate(op: BinaryOp, l: Expr, r: Expr): (e: Expr)
    requires Operands(l, r) && (op.UDiv? || op.SDiv? || op.URem? || op.SRem?)
    ensures Builds(e, op, l, r)
  {
    if l.Constant? && r.Constant? then Fold(op, l, r)
    else if Width(l) == BOOL then (if op.UDiv? || op.SDiv? then l else False())
    else Binary(op, l, r)
  }

  function ShiftCreate(op: BinaryOp, l: Expr, r: Expr): (e: Expr)
    requires Operands(l, r) && (op.Shl? || op.LShr? || op.AShr?)
    ensures Builds(e, op, l, r)
  {
    if l.Constant? && r.Constant? then Fold(op, l, r)
    else if Width(l) == BOOL then (if op.AShr? then l else AndCreate(l, IsZero(r)))
    else Binary(op, l, r)
  }

  function CompareCreate(op: BinaryOp, l: Expr, r: Expr): (e: Expr)
    requires Operands(l, r) && (op.Ult? || op.Ule? || op.Slt? || op.Sle?)
    ensures Builds(e, op, l, r)
  {
    if l.Constant? && r.Constant? then Fold(op, l, r)
    else if Width(l) != BOOL then Binary(op, l, r)
    else if op.Ult? then AndCreate(IsZero(l), r)
    else if op.Ule? then OrCreate(IsZero(l), r)
    else if op.Slt? then AndCreate(l, IsZero(r))
    else OrCreate(l, IsZero(r))
  }

  /** `createFromKind` restricted to the binary kinds; also how a node is rebuilt. */
  function BinaryCreate(op: BinaryOp, l: Expr, r: Expr): (e: Expr)
    requires WF(l) && WF(r) && (op.Concat? || Width(l) == Width(r))
    ensures Builds(e, op, l, r)
  {
    match op
    case Concat => ConcatCreate(l, r)
    case Add => AddCreate(l, r)
    case Sub => SubCreate(l, r)
    case Mul => MulCreate(l, r)
    case And => AndCreate(l, r)
    case Or => OrCreate(l, r)
    case Xor => XorCreate(l, r)
    case Eq => EqCreate(l, r)
    case Ne => EqCreate(False(), EqCreate(l, r))
    case Ugt => CompareCreate(Ult, r, l)
    case Uge => CompareCreate(Ule, r, l)
    case Sgt => CompareCreate(Slt, r, l)
    case Sge => CompareCreate(Sle, r, l)
    case UDiv => DivCreate(op, l, r)
    case SDiv => DivCreate(op, l, r)
    case URem => DivCreate(op, l, r)
    case SRem => DivCreate(op, l, r)
    case Shl => ShiftCreate(op, l, r)
    case LShr => ShiftCreate(op, l, r)
    case AShr => ShiftCreate(op, l, r)
    case _ => CompareCreate(op, l, r)
  }

  function UnaryCreate(uop: UnaryOp, x: Expr): (e: Expr)
    requires WF(x) && WFUnary(uop, Width(x))
    ensures WF(e) && Width(e) == UnaryWidth(uop, Width(x)) && Weight(e) <= UnaryCost(uop, Width(x)) + Weight(x)
  {
    match uop
    case NotOptimized => Unary(NotOptimized, x)
    case Not => NotCreate(x)
    case Extract(off, w) => ExtractCreate(x, off, w)
    case ZExt(w) => ZExtCreate(x, w)
    case SExt(w) => SExtCreate(x, w)
  }

  // ----- Select and Read -----

  function SelectCreate(c: Expr, t: Expr, f: Expr): (e: Expr)
    requires WF(c) && Width(c) == BOOL && Operands(t, f)
    ensures WF(e) && Width(e) == Width(t) && Weight(e) <= SELECT_COST + Weight(c) + Weight(t) + Weight(f)
  {
    if c.Constant? then (if c.value == 1 then t else f)
    else if t == f then t
    else if Width(t) == BOOL && t.Constant? then
      if t.value == 1 then OrCreate(c, f) else AndCreate(IsZero(c), f)
    else if Width(t) == BOOL && f.Constant? then
      if f.value == 1 then OrCreate(IsZero(c), t) else AndCreate(c, t)
    else Select(c, t, f)
  }

  /** What scanning the update list for `index` finds: a value certainly written there, an update
      whose index cannot be told apart, or the end of the list. */
  datatype Scan = Hit(value: Expr) | Unknown | Missed

  function ScanUpdates(root: Array, u: Updates, index: Expr): (s: Scan)
    requires WFUpdates(root, u) && WF(index) && Width(index) == root.domain
    ensures s.Hit? ==> WF(s.value) && Width(s.value) == root.range && Weight(s.value) <= UpdatesWeight(u)
    decreases u
  {
    match u
    case NoUpdate => Missed
    case Update(next, i, v) =>
      var cond := EqCreate(index, i);
      if !cond.Constant? then Unknown
      else if cond.value == 1 then Hit(v)
      else ScanUpdates(root, next, index)
  }

  function ReadCreate(root: Array, u: Updates, index: Expr): (e: Expr)
    requires WFArray(root) && WFUpdates(root, u) && WF(index) && Width(index) == root.domain
    ensures WF(e) && Width(e) == root.range && Weight(e) <= 1 + Weight(index) + UpdatesWeight(u)
  {
    match ScanUpdates(root, u, index)
    case Hit(v) => v
    case Unknown => Read(root, u, index)
    case Missed =>
      if index.Constant? && index.value < |root.constantValues|
      then Constant(root.constantValues[index.value], root.range)
      else Read(root, u, index)
  }
}
