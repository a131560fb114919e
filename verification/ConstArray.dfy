/** The optional rewriting of an equality between a constant and a read of an all-constant array into a
    disjunction over the positions that hold the constant. */
module ConstArray {
  import opened Bits
  import opened Exprs
  import opened Create
  import opened Meaning

  /** A constant compared with a read. */
  predicate Plain(c: Expr, rd: Expr) {
    c.Constant? && rd.Read? && Operands(c, rd) && rd.root.size <= Pow2(rd.root.domain)
  }

  /** The read is of a constant array, without updates. */
  predicate Rewritable(rd: Expr)
    requires rd.Read?
  {
    rd.root.constantValues != [] && rd.updates.NoUpdate?
  }

  const MAX_MATCHES: nat := 100

  /** How many of the first `n` positions hold `v`. */
  function Matches(values: seq<nat>, v: nat, n: nat): nat
    requires n <= |values|
  {
    if n == 0 then 0 else Matches(values, v, n - 1) + if values[n - 1] == v then 1 else 0
  }

  /** The disjunction over the matching positions among the first `n`. */
  function Disjunction(c: Expr, rd: Expr, n: nat): (e: Expr)
    requires Plain(c, rd) && n <= |rd.root.constantValues|
    ensures WF(e) && Width(e) == BOOL
  {
    if n == 0 then False()
    else
      var res := Disjunction(c, rd, n - 1);
      if rd.root.constantValues[n - 1] == c.value
      then OrCreate(res, EqCreate(rd.index, Constant(n - 1, rd.root.domain)))
      else res
  }

  function Optimised(c: Expr, rd: Expr): (e: Expr)
    requires Plain(c, rd)
    ensures WF(e) && Width(e) == BOOL
  {
    if Rewritable(rd) && Matches(rd.root.constantValues, c.value, rd.root.size) <= MAX_MATCHES
    then Disjunction(c, rd, rd.root.size)
    else EqAlloc(c, rd)
  }

  /** The loop of `TryConstArrayOpt`. */
  method TryConstArrayOpt(c: Expr, rd: Expr) returns (res: Expr)
    requires Plain(c, rd)
    ensures res == Optimised(c, rd)
  {
    hide OrCreate, EqCreate, Pow2;
    if !Rewritable(rd) { return EqAlloc(c, rd); }
    var numMatches := 0;
    res := False();
    var values := rd.root.constantValues;
    for i := 0 to rd.root.size
      invariant res == Disjunction(c, rd, i) && numMatches == Matches(values, c.value, i) <= MAX_MATCHES
    {
      if c.value == values[i] {
        numMatches := numMatches + 1;
        if numMatches > MAX_MATCHES {
          MatchesGrow(values, c.value, i + 1, rd.root.size);
          return EqAlloc(c, rd);
        }
        res := OrCreate(res, EqCreate(rd.index, Constant(i, rd.root.domain)));
      }
    }
  }

  lemma {:induction false} MatchesGrow(values: seq<nat>, v: nat, m: nat, n: nat)
    requires m <= n <= |values|
    ensures Matches(values, v, m) <= Matches(values, v, n)
  {
    if m < n { MatchesGrow(values, v, m, n - 1); }
  }

  /** The disjunction says that the index is one of the positions that hold the constant. */
  lemma {:induction false} DisjunctionMeaning(c: Expr, rd: Expr, n: nat, a: Assignment)
    requires Plain(c, rd) && n <= |rd.root.constantValues|
    ensures var i := Eval(rd.index, a);
      Eval(Disjunction(c, rd, n), a) == Truth(i < n && rd.root.constantValues[i] == c.value)
  {
    hide OrCreate, EqCreate, Pow2;
    if n > 0 {
      DisjunctionMeaning(c, rd, n - 1, a);
      if rd.root.constantValues[n - 1] == c.value {
        var res, k := Disjunction(c, rd, n - 1), Constant(n - 1, rd.root.domain);
        EqMeaning(rd.index, k, a);
        OrMeaning(res, EqCreate(rd.index, k), a);
        OrTruth(Eval(res, a), Eval(EqCreate(rd.index, k), a));
      }
    }
  }

  lemma OrTruth(x: nat, y: nat)
    requires x < 2 && y < 2
    ensures Bitwise(BitOr, x, y) == Truth(x == 1 || y == 1)
  {
    BoolBits(BitOr, x, y);
  }

  /** The rewriting keeps the meaning exactly if the index is in range, or what lies out of range is not
      the constant, or nothing was rewritten. */
  lemma {:induction false} OptimisedMeaning(c: Expr, rd: Expr, a: Assignment)
    requires Plain(c, rd)
    ensures Eval(Optimised(c, rd), a) == Truth(c.value == Eval(rd, a)) <==>
      || !Rewritable(rd) || Matches(rd.root.constantValues, c.value, rd.root.size) > MAX_MATCHES
      || Eval(rd.index, a) < rd.root.size || Eval(rd, a) != c.value
  {
    hide Disjunction, OrCreate, EqCreate, Pow2;
    if Rewritable(rd) && Matches(rd.root.constantValues, c.value, rd.root.size) <= MAX_MATCHES {
      DisjunctionMeaning(c, rd, rd.root.size, a);
    }
  }

  /** It does not in general: a one-element array read at a symbolic byte, under an assignment in which that
      byte and what lies out of range are both 5. */
  lemma {:induction false} OutOfRangeLost(root: Array, sym: Array)
    requires root == Array("constant", 0, 1, [0], 32, 8) && sym == Array("symbolic", 1, 1, [], 32, 8)
    ensures var c, rd := Constant(5, 8), Read(root, NoUpdate, Unary(ZExt(32), Read(sym, NoUpdate, Constant(0, 32))));
      var a: Assignment := (r, i) => 5;
      Plain(c, rd) && Rewritable(rd) && Eval(rd, a) == c.value && Eval(Optimised(c, rd), a) == 0
  {
    var index := Unary(ZExt(32), Read(sym, NoUpdate, Constant(0, 32)));
    var c, rd := Constant(5, 8), Read(root, NoUpdate, index);
    var a: Assignment := (r, i) => 5;
    Powers();
    SymbolicIndex(sym, a);
    hide Pow2, Disjunction, OrCreate, EqCreate, BinaryEval, UnaryEval;
    assert WF(rd) && Eval(rd, a) == InitialValue(root, 5, a) == 5;
    assert Matches(root.constantValues, 5, 1) == 0;
    DisjunctionMeaning(c, rd, 1, a);
  }

  lemma Powers()
    ensures Pow2(8) == 256 < Pow2(32)
  {
    assert Pow2(9) == 512;
    Pow2Mono(9, 32);
  }

  lemma SymbolicIndex(sym: Array, a: Assignment)
    requires sym == Array("symbolic", 1, 1, [], 32, 8) && a(sym, 0) == 5
    ensures var e := Unary(ZExt(32), Read(sym, NoUpdate, Constant(0, 32))); WF(e) && Width(e) == 32 && Eval(e, a) == 5
  {
    Powers();
    hide Pow2;
    var byte := Read(sym, NoUpdate, Constant(0, 32));
    assert WF(Constant(0, 32)) && WF(byte);
    assert Eval(byte, a) == InitialValue(sym, 0, a) == 5;
  }
}
