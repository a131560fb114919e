/** The path condition: adding a constraint, rewriting the others with what it says, and
    simplifying an expression under the path condition. */
module Constraints {
  import opened Bits
  import opened Exprs
  import opened Create
  import opened Meaning
  import opened Visitor

  // ----- models of a constraint list -----

  predicate IsTrue(e: Expr, a: Assignment) {
    Eval(e, a) == 1
  }

  /** `a` is a model of `cs`. */
  predicate Holds(cs: seq<Expr>, a: Assignment) {
    forall i :: 0 <= i < |cs| ==> IsTrue(cs[i], a)
  }

  predicate WFConstraint(e: Expr) {
    WF(e) && Width(e) == BOOL
  }

  predicate WFConstraints(cs: seq<Expr>) {
    forall i :: 0 <= i < |cs| ==> WFConstraint(cs[i])
  }

  /** No conjunction and no constant is stored: both are taken apart on the way in. */
  predicate Atomic(e: Expr) {
    !e.Constant? && !(e.Binary? && e.op.And?)
  }

  predicate AllAtomic(cs: seq<Expr>) {
    forall i :: 0 <= i < |cs| ==> Atomic(cs[i])
  }

  function TotalWeight(cs: seq<Expr>): nat {
    if cs == [] then 0 else TotalWeight(cs[..|cs| - 1]) + Weight(cs[|cs| - 1])
  }

  lemma {:induction false} TotalWeightConcat(xs: seq<Expr>, ys: seq<Expr>)
    ensures TotalWeight(xs + ys) == TotalWeight(xs) + TotalWeight(ys)
  {
    if ys == [] {
      assert xs + ys == xs;
    } else {
      assert (xs + ys)[..|xs + ys| - 1] == xs + ys[..|ys| - 1];
      TotalWeightConcat(xs, ys[..|ys| - 1]);
    }
  }

  lemma TotalWeightPush(cs: seq<Expr>, e: Expr)
    ensures TotalWeight(cs + [e]) == TotalWeight(cs) + Weight(e) && TotalWeight([]) == 0
  {
    assert (cs + [e])[..|cs|] == cs;
  }

  lemma TotalWeightSplit(cs: seq<Expr>, i: nat)
    requires i < |cs|
    ensures TotalWeight(cs[..i + 1]) == TotalWeight(cs[..i]) + Weight(cs[i])
  {
    assert cs[..i + 1][..i] == cs[..i];
  }

  lemma HoldsPush(cs: seq<Expr>, e: Expr, a: Assignment)
    ensures Holds(cs + [e], a) <==> Holds(cs, a) && IsTrue(e, a)
  {
    if Holds(cs + [e], a) {
      assert (cs + [e])[|cs|] == e;
      assert forall i :: 0 <= i < |cs| ==> cs[i] == (cs + [e])[i];
    }
  }

  lemma HoldsTake(cs: seq<Expr>, i: nat, a: Assignment)
    requires i < |cs|
    ensures Holds(cs[..i + 1], a) <==> Holds(cs[..i], a) && IsTrue(cs[i], a)
  {
    assert cs[..i + 1] == cs[..i] + [cs[i]];
    HoldsPush(cs[..i], cs[i], a);
  }

  lemma {:induction false} AndTrue(e: Expr, a: Assignment)
    requires WFConstraint(e) && e.Binary? && e.op.And?
    ensures IsTrue(e, a) <==> IsTrue(e.left, a) && IsTrue(e.right, a)
  {
    hide Bitwise;
    BoolValue(e.left, a); BoolValue(e.right, a);
    BoolBits(BitAnd, Eval(e.left, a), Eval(e.right, a));
  }

  /** Adding `e` to `before` gave `after`; when `ok` is false the source's assertion against a false
      constraint fired, and then there is no common model. */
  ghost predicate Added(before: seq<Expr>, e: Expr, after: seq<Expr>, ok: bool) {
    && (ok ==> forall a :: Holds(after, a) <==> Holds(before, a) && IsTrue(e, a))
    && (!ok ==> forall a :: !(Holds(before, a) && IsTrue(e, a)))
  }

  /** Rewriting the first `n` constraints of `before` gave `after`, where the visitor is sound. */
  ghost predicate Rewritten(v: Visitor, before: seq<Expr>, n: nat, after: seq<Expr>, ok: bool)
    requires n <= |before|
  {
    && (ok ==> forall a :: Sound(v, a) ==> (Holds(after, a) <==> Holds(before[..n], a)))
    && (!ok ==> forall a :: Sound(v, a) ==> !Holds(before[..n], a))
  }

  lemma RewrittenStep(v: Visitor, before: seq<Expr>, n: nat, mid: seq<Expr>, after: seq<Expr>, ok: bool)
    requires WFVisitor(v) && n < |before| && WFConstraint(before[n])
    requires Rewritten(v, before, n, mid, true)
    requires Added(mid, Visit(v, before[n]), after, ok)
    ensures Rewritten(v, before, n + 1, after, ok)
  {
    forall a | Sound(v, a)
      ensures if ok then Holds(after, a) <==> Holds(before[..n + 1], a) else !Holds(before[..n + 1], a)
    {
      HoldsTake(before, n, a);
      VisitMeaning(v, before[n], a);
    }
  }

  lemma AddedPush(cs: seq<Expr>, e: Expr)
    ensures Added(cs, e, cs + [e], true)
  {
    forall a ensures Holds(cs + [e], a) <==> Holds(cs, a) && IsTrue(e, a) { HoldsPush(cs, e, a); }
  }

  lemma {:induction false} AddedAnd(before: seq<Expr>, e: Expr, mid: seq<Expr>, ok1: bool, after: seq<Expr>, ok2: bool)
    requires WFConstraint(e) && e.Binary? && e.op.And?
    requires Added(before, e.left, mid, ok1) && (ok1 ==> Added(mid, e.right, after, ok2))
    ensures Added(before, e, after, ok1 && ok2)
  {
    forall a ensures IsTrue(e, a) <==> IsTrue(e.left, a) && IsTrue(e.right, a) { AndTrue(e, a); }
  }

  /** Rewriting with an equality and then storing the equality is the same as adding it. */
  lemma {:induction false} AddedEquality(before: seq<Expr>, e: Expr, mid: seq<Expr>, ok: bool)
    requires WFConstraint(e) && e.Binary? && e.op.Eq? && e.left.Constant?
    requires Rewritten(Replace(e.right, e.left), before, |before|, mid, ok)
    ensures Added(before, e, mid + [e], ok)
  {
    assert before[..|before|] == before;
    forall a ensures Holds(mid + [e], a) <==> Holds(mid, a) && IsTrue(e, a) { HoldsPush(mid, e, a); }
    assert forall a :: IsTrue(e, a) <==> Sound(Replace(e.right, e.left), a);
  }

  // ----- what the constraints fix to a constant -----

  function FixedExpr(c: Expr): Expr {
    if c.Binary? && c.op.Eq? && c.left.Constant? then c.right else c
  }

  function FixedValue(c: Expr): Expr {
    if c.Binary? && c.op.Eq? && c.left.Constant? then c.left else True()
  }

  /** `std::map::insert`: the first entry for a key stays. */
  function Insert(m: map<Expr, Expr>, k: Expr, v: Expr): map<Expr, Expr> {
    if k in m then m else m[k := v]
  }

  function Equalities(cs: seq<Expr>): map<Expr, Expr> {
    if cs == [] then map[]
    else
      var c := cs[|cs| - 1];
      Insert(Equalities(cs[..|cs| - 1]), FixedExpr(c), FixedValue(c))
  }

  /** Constraint `i` is the earliest one about `k`, and it fixes `k` to `v`. */
  predicate FirstAbout(cs: seq<Expr>, i: nat, k: Expr, v: Expr) {
    i < |cs| && FixedExpr(cs[i]) == k && FixedValue(cs[i]) == v &&
    forall j :: 0 <= j < i ==> FixedExpr(cs[j]) != k
  }

  /** Every constraint contributes its key, and the earliest constraint about a key decides. */
  lemma {:induction false} EqualitiesEntries(cs: seq<Expr>)
    ensures forall i :: 0 <= i < |cs| ==> FixedExpr(cs[i]) in Equalities(cs)
    ensures forall k :: k in Equalities(cs) ==> exists i: nat :: FirstAbout(cs, i, k, Equalities(cs)[k])
  {
    if cs != [] {
      var n := |cs| - 1;
      var init := cs[..n];
      EqualitiesEntries(init);
      forall k | k in Equalities(cs) ensures exists i: nat :: FirstAbout(cs, i, k, Equalities(cs)[k]) {
        if k in Equalities(init) {
          var i: nat :| FirstAbout(init, i, k, Equalities(init)[k]);
          assert FirstAbout(cs, i, k, Equalities(cs)[k]);
        } else {
          assert FirstAbout(cs, n, k, Equalities(cs)[k]) by {
            assert forall j :: 0 <= j < n ==> cs[j] == init[j];
          }
        }
      }
    }
  }

  lemma EqualitiesSound(cs: seq<Expr>)
    requires WFConstraints(cs)
    ensures WFVisitor(ReplaceMap(Equalities(cs)))
    ensures forall a :: Holds(cs, a) ==> Sound(ReplaceMap(Equalities(cs)), a)
  {
    var m := Equalities(cs);
    EqualitiesEntries(cs);
    forall k | k in m ensures ConstantFor(k, m[k]) {
      var i: nat :| FirstAbout(cs, i, k, m[k]);
      assert WFConstraint(cs[i]);
    }
    forall a, k | Holds(cs, a) && k in m ensures Eval(k, a) == Eval(m[k], a) {
      var i: nat :| FirstAbout(cs, i, k, m[k]);
      assert IsTrue(cs[i], a);
    }
  }

  /** No node of `e` outside its update lists is a key of `m`. */
  predicate Irreducible(m: map<Expr, Expr>, e: Expr) {
    e.Constant? || (e !in m &&
      match e
      case Read(_, _, i) => Irreducible(m, i)
      case Select(c, t, f) => Irreducible(m, c) && Irreducible(m, t) && Irreducible(m, f)
      case Unary(_, x) => Irreducible(m, x)
      case Binary(_, l, r) => Irreducible(m, l) && Irreducible(m, r))
  }

  /** The revisiting visitor leaves nothing it could still replace. */
  lemma {:induction false} VisitIrreducible(m: map<Expr, Expr>, e: Expr)
    requires WF(e) && WFVisitor(ReplaceMap(m))
    ensures Irreducible(m, Visit(ReplaceMap(m), e))
    decreases Weight(e)
  {
    hide ReadCreate, SelectCreate, UnaryCreate, BinaryCreate;
    var v := ReplaceMap(m);
    if !e.Constant? {
      var d := VisitChildren(v, e);
      if d != e {
        VisitIrreducible(m, d);
      } else {
        match e
        case Read(root, u, i) => ChangedNode(v, e); VisitIrreducible(m, i);
        case Select(c, t, f) =>
          ChangedNode(v, e);
          VisitIrreducible(m, c); VisitIrreducible(m, t); VisitIrreducible(m, f);
        case Unary(uop, x) => ChangedNode(v, e); VisitIrreducible(m, x);
        case Binary(op, l, r) => ChangedNode(v, e); VisitIrreducible(m, l); VisitIrreducible(m, r);
      }
    }
  }

  /** A node that comes back unchanged has unchanged children: a rebuilt node is lighter. */
  lemma {:induction false} ChangedNode(v: Visitor, e: Expr)
    requires WF(e) && WFVisitor(v) && Shrinks(v) && !e.Constant? && VisitChildren(v, e) == e
    ensures match e
      case Read(_, _, i) => Visit(v, i) == i
      case Select(c, t, f) => Visit(v, c) == c && Visit(v, t) == t && Visit(v, f) == f
      case Unary(_, x) => Visit(v, x) == x
      case Binary(_, l, r) => Visit(v, l) == l && Visit(v, r) == r
  {
    hide WFVisitor, Visit;
  }

  /** The three Xor passes of `simplifyWithXorOptimization`. */
  function XorPasses(e: Expr): (r: Expr)
    requires WF(e)
    ensures WF(r) && Width(r) == Width(e)
  {
    Visit(XorPropagate, Visit(XorLift, Visit(XorExtract, e)))
  }

  lemma {:induction false} XorPassesMeaning(e: Expr, a: Assignment)
    requires WF(e)
    ensures Eval(XorPasses(e), a) == Eval(e, a)
  {
    VisitMeaning(XorExtract, e, a);
    VisitMeaning(XorLift, Visit(XorExtract, e), a);
    VisitMeaning(XorPropagate, Visit(XorLift, Visit(XorExtract, e)), a);
  }

  // ----- the constraint manager -----

  class ConstraintManager {
    var constraints: seq<Expr>

    constructor (cs: seq<Expr>)
      ensures constraints == cs
    {
      constraints := cs;
    }

    /** Splits a conjunction, rewrites the stored constraints with an equality to a constant, and
        stores the rest.  Returns false where the source would fail its assertion. */
    method AddConstraint(e: Expr) returns (ok: bool)
      requires WFConstraints(constraints) && WFConstraint(e)
      modifies this
      ensures Added(old(constraints), e, constraints, ok)
      ensures ok ==> WFConstraints(constraints)
      ensures ok ==> TotalWeight(constraints) <= old(TotalWeight(constraints)) + Weight(e)
      ensures ok && old(AllAtomic(constraints)) ==> AllAtomic(constraints)
      ensures ok && Atomic(e) ==> constraints != [] && constraints[|constraints| - 1] == e
      decreases 0, TotalWeight(constraints) + Weight(e), 0
    {
      ghost var before := constraints;
      if e.Constant? {
        ok := e.value == 1;
      } else if e.Binary? && e.op.And? {
        ok := AddConstraint(e.left);
        ghost var mid, ok1, ok2 := constraints, ok, true;
        if ok {
          ok := AddConstraint(e.right);
          ok2 := ok;
        }
        AddedAnd(before, e, mid, ok1, constraints, ok2);
      } else if e.Binary? && e.op.Eq? && e.left.Constant? {
        var changed;
        changed, ok := RewriteConstraints(Replace(e.right, e.left));
        AddedEquality(before, e, constraints, ok);
        ghost var mid := constraints;
        constraints := constraints + [e];
        assert constraints[..|constraints| - 1] == mid;
      } else {
        AddedPush(constraints, e);
        constraints := constraints + [e];
        assert constraints[..|constraints| - 1] == before;
        ok := true;
      }
    }

    /** Visits every constraint; a changed one is added again, so that it may itself split or start
        a further rewriting of the list rebuilt so far. */
    method RewriteConstraints(v: Visitor) returns (changed: bool, ok: bool)
      requires WFConstraints(constraints) && WFVisitor(v)
      modifies this
      ensures Rewritten(v, old(constraints), old(|constraints|), constraints, ok)
      ensures ok ==> WFConstraints(constraints)
      ensures ok && Shrinks(v) ==> TotalWeight(constraints) <= old(TotalWeight(constraints))
      ensures ok && old(AllAtomic(constraints)) ==> AllAtomic(constraints)
      ensures ok ==>
        (changed <==> exists i :: 0 <= i < |old(constraints)| && Visit(v, old(constraints)[i]) != old(constraints)[i])
      ensures ok && !changed ==> constraints == old(constraints)
      decreases if Shrinks(v) then 0 else 1, TotalWeight(constraints), 1
    {
      hide Visit, Weight, TotalWeight, Added, Sound, WFVisitor, WF, Width;
      var before := constraints;
      constraints, changed, ok := [], false, true;
      TotalWeightPush([], False());
      assert Rewritten(v, before, 0, [], true) by { assert before[..0] == []; }
      var i := 0;
      while i < |before|
        invariant 0 <= i <= |before| && ok
        invariant WFConstraints(constraints)
        invariant Rewritten(v, before, i, constraints, true)
        invariant Shrinks(v) ==> TotalWeight(constraints) <= TotalWeight(before[..i])
        invariant AllAtomic(before) ==> AllAtomic(constraints)
        invariant changed <==> exists j :: 0 <= j < i && Visit(v, before[j]) != before[j]
        invariant !changed ==> constraints == before[..i]
      {
        var ce := before[i];
        var e := Visit(v, ce);
        ghost var mid := constraints;
        TotalWeightSplit(before, i);
        TotalWeightConcat(before[..i + 1], before[i + 1..]);
        assert before[..i + 1] + before[i + 1..] == before;
        if e != ce {
          ok := AddConstraint(e);
          RewrittenStep(v, before, i, mid, constraints, ok);
          if !ok {
            RewrittenAbort(v, before, i + 1, constraints);
            return;
          }
          changed := true;
        } else {
          AddedPush(constraints, e);
          TotalWeightPush(constraints, ce);
          constraints := constraints + [ce];
          RewrittenStep(v, before, i, mid, constraints, true);
          assert before[..i + 1] == before[..i] + [ce];
        }
        i := i + 1;
      }
      assert before[..|before|] == before;
    }

    /** Replaces what the constraints fix; under any model of them the value is unchanged. */
    method SimplifyExpr(e: Expr) returns (r: Expr)
      requires WFConstraints(constraints) && WF(e)
      ensures WF(r) && Width(r) == Width(e) && Weight(r) <= Weight(e)
      ensures forall a :: Holds(constraints, a) ==> Eval(r, a) == Eval(e, a)
      ensures Irreducible(Equalities(constraints), r)
    {
      hide Visit, Weight, WFVisitor, Sound, Eval;
      if e.Constant? {
        return e;
      }
      var equalities := map[];
      var i := 0;
      while i < |constraints|
        invariant 0 <= i <= |constraints|
        invariant equalities == Equalities(constraints[..i])
      {
        var it := constraints[i];
        equalities := Insert(equalities, FixedExpr(it), FixedValue(it));
        i := i + 1;
        assert constraints[..i][..i - 1] == constraints[..i - 1];
      }
      assert constraints[..i] == constraints;
      EqualitiesSound(constraints);
      r := Visit(ReplaceMap(equalities), e);
      VisitIrreducible(equalities, e);
      forall a | Holds(constraints, a) ensures Eval(r, a) == Eval(e, a) {
        VisitMeaning(ReplaceMap(equalities), e, a);
      }
    }

    /** Runs the Xor visitors over the stored constraints; the models stay the same. */
    method DoXorOptimization() returns (ok: bool)
      requires WFConstraints(constraints)
      modifies this
      ensures ok ==> WFConstraints(constraints)
      ensures ok ==> forall a :: Holds(constraints, a) <==> Holds(old(constraints), a)
      ensures !ok ==> forall a :: !Holds(old(constraints), a)
    {
      hide Visit, Visited;
      var passes := [XorExtract, XorLift, XorPropagate];
      ok := true;
      for k := 0 to 3
        invariant ok && WFConstraints(constraints)
        invariant forall a :: Holds(constraints, a) <==> Holds(old(constraints), a)
      {
        ghost var before := constraints;
        var changed;
        changed, ok := RewriteConstraints(passes[k]);
        assert before[..|before|] == before;
        assert forall a :: Sound(passes[k], a);
        if !ok { return; }
      }
    }
  }

  lemma RewrittenAbort(v: Visitor, before: seq<Expr>, n: nat, after: seq<Expr>)
    requires n <= |before| && Rewritten(v, before, n, after, false)
    ensures Rewritten(v, before, |before|, after, false)
  {
    forall a | Sound(v, a) ensures !Holds(before[..|before|], a) {
      assert forall i :: 0 <= i < n ==> before[..n][i] == before[..|before|][i];
    }
  }
}
