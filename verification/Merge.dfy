/** `ExecutionState::merge`: one state takes over another at the same program point, its values
    becoming choices between the two. */
module Merge {
  import opened Options
  import opened Bits
  import opened Exprs
  import opened Create
  import opened Meaning
  import opened Visitor
  import opened Constraints
  import opened Memory

  /** A stack frame; `kf` identifies the function and thereby the number of registers. */
  datatype Frame = Frame(caller: nat, kf: nat, locals: seq<Option<Expr>>)

  // ----- conjunctions -----

  predicate AllTrue(cs: set<Expr>, a: Assignment) {
    forall c :: c in cs ==> IsTrue(c, a)
  }

  predicate WFSet(cs: set<Expr>) {
    forall c :: c in cs ==> WFConstraint(c)
  }

  /** Folds a set of constraints into one, in any order. */
  method Conjoin(cs: set<Expr>) returns (e: Expr)
    requires WFSet(cs)
    ensures WFConstraint(e)
    ensures forall a :: IsTrue(e, a) <==> AllTrue(cs, a)
  {
    hide AndCreate, WF, Width, Eval;
    e := True();
    assert WFConstraint(e) by { TrueConstant(); }
    TrueConstant();
    var rest := cs;
    while rest != {}
      invariant rest <= cs && WFConstraint(e)
      invariant forall a :: IsTrue(e, a) <==> AllTrue(cs - rest, a)
    {
      var c :| c in rest;
      var r := AndCreate(e, c);
      forall a ensures IsTrue(r, a) <==> AllTrue(cs - (rest - {c}), a) {
        BoolAnd(e, c, a);
        assert cs - (rest - {c}) == (cs - rest) + {c};
        if AllTrue(cs - rest, a) && IsTrue(c, a) {
          forall x | x in (cs - rest) + {c} ensures IsTrue(x, a) { }
        }
      }
      e := r;
      rest := rest - {c};
    }
    assert cs - {} == cs;
  }

  lemma TrueConstant()
    ensures WFConstraint(True()) && forall a :: IsTrue(True(), a)
  {
    assert Pow2(1) == 2;
  }

  // ----- the stack -----

  /** A null register stays; otherwise the register becomes a choice. */
  predicate MergedLocal(first: bool, x: Option<Expr>, y: Option<Expr>, r: Option<Expr>, a: Assignment) {
    if x.None? || y.None? then r == x
    else r.Some? && Eval(r.value, a) == Eval(if first then x.value else y.value, a)
  }

  predicate WFLocals(xs: seq<Option<Expr>>) {
    forall i :: 0 <= i < |xs| && xs[i].Some? ==> WF(xs[i].value)
  }

  /** Registers of the same function: as many, and of equal widths where both are set. */
  predicate SameShape(xs: seq<Option<Expr>>, ys: seq<Option<Expr>>) {
    |xs| == |ys| && forall i :: 0 <= i < |xs| && xs[i].Some? && ys[i].Some? ==> Width(xs[i].value) == Width(ys[i].value)
  }

  method MergeLocals(inA: Expr, xs: seq<Option<Expr>>, ys: seq<Option<Expr>>) returns (rs: seq<Option<Expr>>)
    requires WFConstraint(inA) && WFLocals(xs) && WFLocals(ys) && SameShape(xs, ys)
    ensures |rs| == |xs| && WFLocals(rs)
    ensures forall i, a :: 0 <= i < |xs| ==> MergedLocal(IsTrue(inA, a), xs[i], ys[i], rs[i], a)
  {
    hide SelectCreate, WF, Width, Eval;
    rs := xs;
    var i := 0;
    while i < |xs|
      invariant 0 <= i <= |xs| == |rs| && WFLocals(rs)
      invariant forall j, a :: 0 <= j < i ==> MergedLocal(IsTrue(inA, a), xs[j], ys[j], rs[j], a)
      invariant forall j :: i <= j < |xs| ==> rs[j] == xs[j]
    {
      if xs[i].Some? && ys[i].Some? {
        var r := SelectCreate(inA, xs[i].value, ys[i].value);
        forall a ensures MergedLocal(IsTrue(inA, a), xs[i], ys[i], Some(r), a) {
          SelectMeaning(inA, xs[i].value, ys[i].value, a);
        }
        rs := rs[i := Some(r)];
      }
      i := i + 1;
    }
  }

  predicate MergedFrame(first: bool, x: Frame, y: Frame, r: Frame, a: Assignment) {
    && r.caller == x.caller && r.kf == x.kf && |r.locals| == |x.locals| == |y.locals|
    && forall i :: 0 <= i < |x.locals| ==> MergedLocal(first, x.locals[i], y.locals[i], r.locals[i], a)
  }

  predicate WFStack(xs: seq<Frame>) {
    forall i :: 0 <= i < |xs| ==> WFLocals(xs[i].locals)
  }

  predicate SameFrames(xs: seq<Frame>, ys: seq<Frame>) {
    |xs| == |ys| && forall i :: 0 <= i < |xs| ==> xs[i].caller == ys[i].caller && xs[i].kf == ys[i].kf
  }

  method MergeStack(inA: Expr, xs: seq<Frame>, ys: seq<Frame>) returns (rs: seq<Frame>)
    requires WFConstraint(inA) && WFStack(xs) && WFStack(ys) && SameFrames(xs, ys)
    requires forall i :: 0 <= i < |xs| ==> SameShape(xs[i].locals, ys[i].locals)
    ensures |rs| == |xs| && WFStack(rs)
    ensures forall i, a :: 0 <= i < |xs| ==> MergedFrame(IsTrue(inA, a), xs[i], ys[i], rs[i], a)
  {
    hide WF, Width, Eval, IsTrue, MergedLocal;
    rs := [];
    var i := 0;
    while i < |xs|
      invariant 0 <= i <= |xs| && |rs| == i && WFStack(rs)
      invariant forall j, a :: 0 <= j < i ==> MergedFrame(IsTrue(inA, a), xs[j], ys[j], rs[j], a)
    {
      var locals := MergeLocals(inA, xs[i].locals, ys[i].locals);
      rs := rs + [xs[i].(locals := locals)];
      i := i + 1;
    }
  }

  // ----- the constraints -----

  function AsSet(cs: seq<Expr>): set<Expr> {
    set c | c in cs
  }

  lemma HoldsAsSet(cs: seq<Expr>, a: Assignment)
    ensures Holds(cs, a) <==> AllTrue(AsSet(cs), a)
  {
    if AllTrue(AsSet(cs), a) {
      forall i | 0 <= i < |cs| ensures IsTrue(cs[i], a) { assert cs[i] in AsSet(cs); }
    }
  }

  /** A path condition rebuilt from the common constraints and the disjunction of the two suffixes. */
  method MergeConstraints(common: set<Expr>, inA: Expr, inB: Expr) returns (cm: ConstraintManager, ok: bool)
    requires WFSet(common) && WFConstraint(inA) && WFConstraint(inB)
    ensures fresh(cm) && (ok ==> WFConstraints(cm.constraints))
    ensures ok ==> forall a :: Holds(cm.constraints, a) <==> AllTrue(common, a) && (IsTrue(inA, a) || IsTrue(inB, a))
    ensures !ok ==> forall a :: !(AllTrue(common, a) && (IsTrue(inA, a) || IsTrue(inB, a)))
  {
    hide WF, Width, Eval, OrCreate, Visit;
    cm := new ConstraintManager([]);
    ok := true;
    var rest := common;
    while rest != {}
      invariant rest <= common && WFConstraints(cm.constraints) && ok && fresh(cm)
      invariant forall a :: Holds(cm.constraints, a) <==> AllTrue(common - rest, a)
    {
      var c :| c in rest;
      ghost var before := cm.constraints;
      ok := cm.AddConstraint(c);
      forall a ensures AllTrue(common - (rest - {c}), a) <==> AllTrue(common - rest, a) && IsTrue(c, a) {
        assert common - (rest - {c}) == (common - rest) + {c};
        if AllTrue(common - rest, a) && IsTrue(c, a) {
          forall x | x in (common - rest) + {c} ensures IsTrue(x, a) { }
        }
      }
      if !ok {
        forall a ensures !AllTrue(common, a) {
          assert common - (rest - {c}) <= common;
        }
        return;
      }
      rest := rest - {c};
    }
    assert common - {} == common;
    var either := OrCreate(inA, inB);
    forall a ensures IsTrue(either, a) <==> IsTrue(inA, a) || IsTrue(inB, a) { BoolOr(inA, inB, a); }
    ok := cm.AddConstraint(either);
  }

  // ----- one object -----

  /** The value of byte `i`, or 0 outside the object. */
  ghost function ByteAt(os: ObjectState, i: nat, a: Assignment): nat
    reads os, os.concreteStore
  {
    if os.Valid() && i < os.size then os.Byte(i, a) else 0
  }

  /** Byte `i` lives in the symbolic cache, and the store still holds `stored`. */
  predicate SymbolicAt(os: ObjectState, i: nat, stored: nat)
    requires os.MasksSized() && i < os.size == os.concreteStore.Length
    reads os, os.concreteStore
  {
    os.Status(i) == IN_SYMBOLS && os.concreteStore[i] == stored
  }

  /** Writes into `wos` the choice between its bytes and those of `other`. */
  method MergeObject(inA: Expr, wos: ObjectState, other: ObjectState)
    requires WFConstraint(inA) && wos.Valid() && other.Valid() && wos.size == other.size
    requires wos != other && wos.concreteStore != other.concreteStore
    modifies wos, wos.concreteStore, other
    ensures wos.Valid() && other.Valid()
    ensures forall i, a ::
      ByteAt(wos, i, a) == if IsTrue(inA, a) then old(ByteAt(wos, i, a)) else old(ByteAt(other, i, a))
    ensures forall i, a :: ByteAt(other, i, a) == old(ByteAt(other, i, a))
    ensures forall i :: 0 <= i < wos.size ==> wos.Status(i) == IN_STORE || SymbolicAt(wos, i, old(wos.concreteStore[i]))
  {
    hide ObjectState.Byte, ObjectState.ByteOk, ObjectState.Status, SelectCreate, Eval, Pow2;
    var i := 0;
    while i < wos.size
      invariant 0 <= i <= wos.size && wos.Valid() && other.Valid()
      invariant forall j, a :: 0 <= j < wos.size ==>
        wos.Byte(j, a) == if j < i && !IsTrue(inA, a) then old(other.Byte(j, a)) else old(wos.Byte(j, a))
      invariant forall j, a :: 0 <= j < other.size ==> other.Byte(j, a) == old(other.Byte(j, a))
      invariant forall j :: 0 <= j < i ==> wos.Status(j) == IN_STORE || SymbolicAt(wos, j, old(wos.concreteStore[j]))
      invariant forall j :: i <= j < wos.size ==> wos.concreteStore[j] == old(wos.concreteStore[j])
    {
      var av := wos.Read8(i);
      var bv := other.Read8(i);
      label before:
      var e := SelectCreate(inA, av, bv);
      wos.Write8Expr(i, e);
      forall j, a | 0 <= j < wos.size
        ensures wos.Byte(j, a) == if j < i + 1 && !IsTrue(inA, a) then old(other.Byte(j, a)) else old(wos.Byte(j, a))
      {
        SelectMeaning(inA, av, bv, a);
        assert old@before(wos.Byte(j, a)) ==
          if j < i && !IsTrue(inA, a) then old(other.Byte(j, a))
          else old(wos.Byte(j, a));
      }
      i := i + 1;
    }
  }

  // ----- whole states -----

  /** An entry of the address space: a memory object and the state bound to it. */
  datatype Binding = Binding(mo: nat, os: ObjectState)

  ghost function States(objects: seq<Binding>): set<object> {
    set i | 0 <= i < |objects| :: objects[i].os
  }

  ghost function Stores(objects: seq<Binding>): set<object> {
    set i | 0 <= i < |objects| :: objects[i].os.concreteStore
  }

  ghost predicate AllValid(objects: seq<Binding>)
    reads States(objects), Stores(objects)
  {
    forall i :: 0 <= i < |objects| ==> objects[i].os.Valid()
  }

  /** Two address spaces bind the same memory objects; a state bound in both is bound to the same
      memory object, and no storage is shared otherwise. */
  ghost predicate Separate(xs: seq<Binding>, ys: seq<Binding>) {
    && (forall i, j :: 0 <= i < |xs| && 0 <= j < |xs| && i != j ==>
          xs[i].os != xs[j].os && xs[i].os.concreteStore != xs[j].os.concreteStore)
    && (forall i, j :: 0 <= i < |xs| && 0 <= j < |ys| && (i != j || xs[i].os != ys[j].os) ==>
          xs[i].os != ys[j].os && xs[i].os.concreteStore != ys[j].os.concreteStore)
    && (forall i :: 0 <= i < |xs| && i < |ys| && xs[i].mo == ys[i].mo ==> xs[i].os.size == ys[i].os.size)
  }

  predicate SameObjects(xs: seq<Binding>, ys: seq<Binding>) {
    |xs| == |ys| && forall i :: 0 <= i < |xs| ==> xs[i].mo == ys[i].mo
  }

  /** Merges every object whose state differs. */
  method MergeObjects(inA: Expr, xs: seq<Binding>, ys: seq<Binding>)
    requires WFConstraint(inA) && SameObjects(xs, ys) && AllValid(xs) && AllValid(ys) && Separate(xs, ys)
    modifies States(xs), Stores(xs), States(ys)
    ensures AllValid(xs)
    ensures forall k, i, a :: 0 <= k < |xs| ==>
      ByteAt(xs[k].os, i, a) == if IsTrue(inA, a) then old(ByteAt(xs[k].os, i, a)) else old(ByteAt(ys[k].os, i, a))
  {
    hide ObjectState.Valid, ByteAt, IsTrue, WFConstraint;
    var k := 0;
    while k < |xs|
      invariant 0 <= k <= |xs| && AllValid(xs) && AllValid(ys)
      invariant forall j, i, a :: 0 <= j < k ==>
        ByteAt(xs[j].os, i, a) == if IsTrue(inA, a) then old(ByteAt(xs[j].os, i, a)) else old(ByteAt(ys[j].os, i, a))
      invariant forall j, i, a :: k <= j < |xs| ==> ByteAt(xs[j].os, i, a) == old(ByteAt(xs[j].os, i, a))
      invariant forall j, i, a :: k <= j < |xs| ==> ByteAt(ys[j].os, i, a) == old(ByteAt(ys[j].os, i, a))
    {
      if xs[k].os != ys[k].os {
        MergeObject(inA, xs[k].os, ys[k].os);
      }
      k := k + 1;
    }
  }

  class ExecutionState {
    var pc: nat
    var symbolics: seq<(nat, Array)>
    var stack: seq<Frame>
    var objects: seq<Binding>
    var constraints: ConstraintManager

    constructor (pc: nat, symbolics: seq<(nat, Array)>, stack: seq<Frame>, objects: seq<Binding>,
                 constraints: ConstraintManager)
      ensures this.pc == pc && this.symbolics == symbolics && this.stack == stack && this.objects == objects
      ensures this.constraints == constraints
    {
      this.pc, this.symbolics, this.stack, this.objects, this.constraints := pc, symbolics, stack, objects, constraints;
    }

    ghost predicate WFState()
      reads this, constraints, States(objects), Stores(objects)
    {
      WFConstraints(constraints.constraints) && WFStack(stack) && AllValid(objects)
    }

    /** What `merge` checks before it changes anything. */
    predicate CanMerge(b: ExecutionState)
      reads this, b
    {
      pc == b.pc && symbolics == b.symbolics && SameFrames(stack, b.stack) && SameObjects(objects, b.objects)
    }

    /** Takes over `b`.  Under an assignment that satisfies the constraints only this state has, every
        register and byte keeps its value; under any other it gets the value it has in `b`.
        `ok` is false where adding a constraint would fail the source's assertion. */
    method Merge(b: ExecutionState) returns (merged: bool, ok: bool)
      requires this != b && WFState() && b.WFState() && Separate(objects, b.objects)
      requires SameFrames(stack, b.stack) ==> forall i :: 0 <= i < |stack| ==>
        SameShape(stack[i].locals, b.stack[i].locals)
      modifies this, States(objects), Stores(objects), States(b.objects)
      ensures merged == old(CanMerge(b))
      ensures pc == old(pc) && symbolics == old(symbolics) && objects == old(objects) && |stack| == old(|stack|)
      ensures !merged ==> ok && stack == old(stack) && constraints == old(constraints)
      ensures !merged ==> forall k, i, a :: 0 <= k < |objects| ==>
        ByteAt(objects[k].os, i, a) == old(ByteAt(objects[k].os, i, a))
      ensures merged && ok ==> WFState()
      ensures merged && ok ==> forall a ::
        Holds(constraints.constraints, a) <==>
        Holds(old(constraints.constraints), a) || Holds(old(b.constraints.constraints), a)
      ensures merged && !ok ==> forall a ::
        !Holds(old(constraints.constraints), a) && !Holds(old(b.constraints.constraints), a)
      ensures merged ==> forall k, i, a :: 0 <= k < |objects| ==>
        ByteAt(objects[k].os, i, a) ==
          if InSuffix(old(constraints.constraints), old(b.constraints.constraints), a)
          then old(ByteAt(objects[k].os, i, a)) else old(ByteAt(b.objects[k].os, i, a))
      ensures merged ==> forall i, a :: 0 <= i < |stack| ==>
        MergedFrame(InSuffix(old(constraints.constraints), old(b.constraints.constraints), a),
          old(stack[i]), old(b.stack[i]), stack[i], a)
    {
      hide ByteAt, IsTrue, MergedFrame, ObjectState.Valid, WFStack, WF, Width;
      if !CanMerge(b) { return false, true; }
      merged := true;
      ghost var acs, bcs := constraints.constraints, b.constraints.constraints;
      var aSet, bSet := AsSet(constraints.constraints), AsSet(b.constraints.constraints);
      var common := aSet * bSet;
      assert WFSet(aSet) && WFSet(bSet);
      var inA := Conjoin(aSet - common);
      var inB := Conjoin(bSet - common);
      forall a
        ensures IsTrue(inA, a) == InSuffix(acs, bcs, a)
        ensures AllTrue(common, a) && (IsTrue(inA, a) || IsTrue(inB, a)) <==> Holds(acs, a) || Holds(bcs, a)
      {
        SplitModels(acs, bcs, a);
      }
      stack := MergeStack(inA, stack, b.stack);
      MergeObjects(inA, objects, b.objects);
      constraints, ok := MergeConstraints(common, inA, inB);
    }
  }

  /** The constraints only `xs` has hold. */
  predicate InSuffix(xs: seq<Expr>, ys: seq<Expr>, a: Assignment) {
    AllTrue(AsSet(xs) - AsSet(xs) * AsSet(ys), a)
  }

  /** The union of the models of two constraint lists, from their common part and their suffixes. */
  lemma SplitModels(xs: seq<Expr>, ys: seq<Expr>, a: Assignment)
    ensures var common := AsSet(xs) * AsSet(ys);
      AllTrue(common, a) && (AllTrue(AsSet(xs) - common, a) || AllTrue(AsSet(ys) - common, a)) <==>
      Holds(xs, a) || Holds(ys, a)
  {
    var common := AsSet(xs) * AsSet(ys);
    HoldsAsSet(xs, a);
    HoldsAsSet(ys, a);
    assert AsSet(xs) == common + (AsSet(xs) - common);
    assert AsSet(ys) == common + (AsSet(ys) - common);
    AllTrueUnion(common, AsSet(xs) - common, a);
    AllTrueUnion(common, AsSet(ys) - common, a);
  }

  lemma AllTrueUnion(xs: set<Expr>, ys: set<Expr>, a: Assignment)
    ensures AllTrue(xs + ys, a) <==> AllTrue(xs, a) && AllTrue(ys, a)
  {
    if AllTrue(xs, a) && AllTrue(ys, a) {
      forall c | c in xs + ys ensures IsTrue(c, a) { }
    }
  }

  /** A model of the first state satisfies its suffix, so there the merged state is the first; a model
      of the second alone fails it only where the first's suffix fails. */
  lemma ModelsChoose(xs: seq<Expr>, ys: seq<Expr>, a: Assignment)
    ensures Holds(xs, a) ==> InSuffix(xs, ys, a)
    ensures Holds(ys, a) ==> (Holds(xs, a) <==> InSuffix(xs, ys, a))
  {
    var common := AsSet(xs) * AsSet(ys);
    HoldsAsSet(xs, a);
    HoldsAsSet(ys, a);
    assert AsSet(xs) == common + (AsSet(xs) - common);
    AllTrueUnion(common, AsSet(xs) - common, a);
  }
}
