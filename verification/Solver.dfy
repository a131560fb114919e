/** The solver as an oracle that answers exactly or reports failure, and the `TimingSolver` wrappers
    the rest of the program asks. */
module Solver {
  import opened Options
  import opened Exprs
  import opened Create
  import opened Meaning
  import opened Constraints

  /** The core solver: `None` is a failed query. */
  datatype CoreSolver = CoreSolver(
    mustBeTrue: (seq<Expr>, Expr) -> Option<bool>,
    getValue: (seq<Expr>, Expr) -> Option<nat>)

  ghost predicate Satisfiable(cs: seq<Expr>) {
    exists a :: Holds(cs, a)
  }

  /** Some model of `cs` makes `e` true. */
  ghost predicate May(cs: seq<Expr>, e: Expr) {
    exists a :: Holds(cs, a) && IsTrue(e, a)
  }

  ghost predicate Must(cs: seq<Expr>, e: Expr) {
    forall a :: Holds(cs, a) ==> IsTrue(e, a)
  }

  ghost predicate Possible(cs: seq<Expr>, e: Expr, v: nat) {
    exists a :: Holds(cs, a) && Eval(e, a) == v
  }

  /** Every answer the solver does give is right. */
  ghost predicate Exact(s: CoreSolver) {
    && (forall cs, e :: WFConstraints(cs) && WFConstraint(e) && s.mustBeTrue(cs, e).Some? ==>
          s.mustBeTrue(cs, e).value == Must(cs, e))
    && (forall cs, e :: WFConstraints(cs) && WF(e) && Satisfiable(cs) && s.getValue(cs, e).Some? ==>
          Possible(cs, e, s.getValue(cs, e).value))
  }

  /** A solver that never fails. */
  ghost predicate Total(s: CoreSolver) {
    && (forall cs, e :: s.mustBeTrue(cs, e).Some?)
    && (forall cs, e :: s.getValue(cs, e).Some?)
  }

  /** Asks the core solver about `e`, after simplifying it under the constraints. */
  method MustBeTrue(s: CoreSolver, cs: seq<Expr>, e: Expr, simplify: bool) returns (r: Option<bool>)
    requires Exact(s) && WFConstraints(cs) && Satisfiable(cs) && WFConstraint(e)
    ensures r.Some? ==> r.value == Must(cs, e)
    ensures Total(s) ==> r.Some?
  {
    hide Exact, WF, Width, Weight, Irreducible, Equalities;
    if e.Constant? {
      ConstantMust(cs, e);
      return Some(e.value == 1);
    }
    var q := e;
    if simplify {
      var cm := new ConstraintManager(cs);
      q := cm.SimplifyExpr(e);
      SameMust(cs, e, q);
    }
    r := s.mustBeTrue(cs, q);
    ExactMust(s, cs, q);
  }

  lemma ConstantMust(cs: seq<Expr>, e: Expr)
    requires Satisfiable(cs) && e.Constant?
    ensures Must(cs, e) == (e.value == 1)
  {
    var a :| Holds(cs, a);
    if Must(cs, e) { assert IsTrue(e, a); }
  }

  lemma SameMust(cs: seq<Expr>, e: Expr, q: Expr)
    requires forall a :: Holds(cs, a) ==> Eval(q, a) == Eval(e, a)
    ensures Must(cs, q) == Must(cs, e)
  {
    if Must(cs, q) { forall a | Holds(cs, a) ensures IsTrue(e, a) { assert IsTrue(q, a); } }
    if Must(cs, e) { forall a | Holds(cs, a) ensures IsTrue(q, a) { assert IsTrue(e, a); } }
  }

  lemma ExactMust(s: CoreSolver, cs: seq<Expr>, q: Expr)
    requires Exact(s) && WFConstraints(cs) && WFConstraint(q)
    ensures s.mustBeTrue(cs, q).Some? ==> s.mustBeTrue(cs, q).value == Must(cs, q)
  {
  }

  method MustBeFalse(s: CoreSolver, cs: seq<Expr>, e: Expr, simplify: bool) returns (r: Option<bool>)
    requires Exact(s) && WFConstraints(cs) && Satisfiable(cs) && WFConstraint(e)
    ensures r.Some? ==> r.value == !May(cs, e)
    ensures Total(s) ==> r.Some?
  {
    hide IsZero, WF, Width;
    r := MustBeTrue(s, cs, IsZero(e), simplify);
    forall a ensures IsTrue(IsZero(e), a) <==> !IsTrue(e, a) {
      IsZeroMeaning(e, a);
      BoolValue(e, a);
    }
  }

  method MayBeTrue(s: CoreSolver, cs: seq<Expr>, e: Expr, simplify: bool) returns (r: Option<bool>)
    requires Exact(s) && WFConstraints(cs) && Satisfiable(cs) && WFConstraint(e)
    ensures r.Some? ==> r.value == May(cs, e)
    ensures Total(s) ==> r.Some?
  {
    var res := MustBeFalse(s, cs, e, simplify);
    r := if res.None? then None else Some(!res.value);
  }

  method GetValue(s: CoreSolver, cs: seq<Expr>, e: Expr, simplify: bool) returns (r: Option<nat>)
    requires Exact(s) && WFConstraints(cs) && Satisfiable(cs) && WF(e)
    ensures r.Some? ==> Possible(cs, e, r.value)
    ensures Total(s) ==> r.Some?
  {
    hide Exact, WF, Width, Weight, Irreducible, Equalities;
    if e.Constant? {
      var a :| Holds(cs, a);
      assert Eval(e, a) == e.value;
      return Some(e.value);
    }
    var q := e;
    if simplify {
      var cm := new ConstraintManager(cs);
      q := cm.SimplifyExpr(e);
    }
    r := s.getValue(cs, q);
    ExactValue(s, cs, q);
  }

  lemma ExactValue(s: CoreSolver, cs: seq<Expr>, q: Expr)
    requires Exact(s) && WFConstraints(cs) && Satisfiable(cs) && WF(q)
    ensures s.getValue(cs, q).Some? ==> Possible(cs, q, s.getValue(cs, q).value)
  {
  }
}
