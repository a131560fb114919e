/** Patching a seed so that it satisfies a branch condition. */
module SeedInfo {
  import opened Bits
  import opened Exprs
  import opened Create
  import opened Meaning
  import opened Visitor
  import opened Constraints
  import opened Solver
  import opened Evaluator

  type ByteRef = (Array, nat)

  /** Arrays of bytes indexed by 32 bits. */
  predicate ByteBindings(b: Bindings) {
    WFBindings(b) && forall arr :: arr in b ==> arr.domain == 32 && arr.range == 8 && arr.size <= Pow2(32)
  }

  predicate Bound(b: Bindings, x: ByteRef) {
    x.0 in b && x.1 < |b[x.0]|
  }

  function Lookup(b: Bindings, x: ByteRef): nat
    requires Bound(b, x)
  {
    b[x.0][x.1]
  }

  function Rebind(b: Bindings, x: ByteRef, v: nat): (r: Bindings)
    requires Bound(b, x)
    ensures forall y: ByteRef :: Bound(r, y) <==> Bound(b, y)
    ensures forall y: ByteRef :: Bound(b, y) ==> Lookup(r, y) == if y == x then v else Lookup(b, y)
  {
    var bytes: seq<nat> := b[x.0][x.1 := v];
    b[x.0 := bytes]
  }

  /** The byte `x` has value `v` under `a`. */
  predicate Is(x: ByteRef, v: nat, a: Assignment) {
    InitialValue(x.0, x.1, a) == v
  }

  function ReadOf(x: ByteRef): (e: Expr)
    requires WFArray(x.0) && x.0.domain == 32 && x.1 < Pow2(32)
    ensures WF(e) && Width(e) == x.0.range
  {
    ReadCreate(x.0, NoUpdate, Constant(x.1, 32))
  }

  function IsSeed(x: ByteRef, v: nat): (e: Expr)
    requires WFArray(x.0) && x.0.domain == 32 && x.0.range == 8 && x.1 < Pow2(32) && v < Pow2(8)
    ensures WFConstraint(e)
  {
    EqCreate(ReadOf(x), Constant(v, 8))
  }

  lemma IsSeedMeaning(x: ByteRef, v: nat, a: Assignment)
    requires WFArray(x.0) && x.0.domain == 32 && x.0.range == 8 && x.1 < Pow2(32) && v < Pow2(8)
    ensures IsTrue(IsSeed(x, v), a) <==> Is(x, v, a)
    ensures Eval(ReadOf(x), a) == InitialValue(x.0, x.1, a)
  {
    hide EqCreate, ReadCreate;
    ReadMeaning(x.0, NoUpdate, Constant(x.1, 32), a);
    EqMeaning(ReadOf(x), Constant(v, 8), a);
  }

  /** The reads of `e` at constant indices, not looking into update lists: `findReads`. */
  function DirectReads(e: Expr): set<ByteRef> {
    match e
    case Constant(_, _) => {}
    case Read(root, _, i) => if i.Constant? then {(root, i.value)} else DirectReads(i)
    case Select(c, t, f) => DirectReads(c) + DirectReads(t) + DirectReads(f)
    case Unary(_, x) => DirectReads(x)
    case Binary(_, l, r) => DirectReads(l) + DirectReads(r)
  }

  /** The first `n` bytes of `order` have their bound values under `a`. */
  predicate FixedUpTo(order: seq<ByteRef>, n: nat, b: Bindings, a: Assignment)
    requires n <= |order|
  {
    forall k :: 0 <= k < n ==> Bound(b, order[k]) && Is(order[k], Lookup(b, order[k]), a)
  }

  /** Byte `k` of `order` kept its old value, or that value was impossible together with the path
      condition, the new condition and the bytes fixed before it. */
  ghost predicate Justified(cs: seq<Expr>, cond: Expr, order: seq<ByteRef>, k: nat, before: Bindings, b: Bindings)
    requires k < |order| && Bound(b, order[k]) && Bound(before, order[k])
  {
    Lookup(b, order[k]) != Lookup(before, order[k]) ==>
      forall a :: Holds(cs, a) && IsTrue(cond, a) && FixedUpTo(order, k, b, a) ==>
        !Is(order[k], Lookup(before, order[k]), a)
  }

  /** A patch: what changed is on the list, and each change on it is justified. */
  ghost predicate Patch(cs: seq<Expr>, cond: Expr, order: seq<ByteRef>, before: Bindings, b: Bindings) {
    && (forall x: ByteRef :: Bound(b, x) <==> Bound(before, x))
    && (forall k :: 0 <= k < |order| ==> Bound(b, order[k]) && Justified(cs, cond, order, k, before, b))
    && (forall x: ByteRef :: Bound(b, x) && x !in order ==> Lookup(b, x) == Lookup(before, x))
  }

  /** The working constraints say exactly: the path condition, the new condition, and every byte fixed
      so far at its value. */
  ghost predicate Tracks(ts: seq<Expr>, cs: seq<Expr>, cond: Expr, order: seq<ByteRef>, b: Bindings) {
    forall a :: Holds(ts, a) <==> Holds(cs, a) && IsTrue(cond, a) && FixedUpTo(order, |order|, b, a)
  }

  /** Fixing one more byte extends a patch. */
  lemma PatchStep(ts: seq<Expr>, cs: seq<Expr>, cond: Expr, order: seq<ByteRef>, x: ByteRef, before: Bindings,
                  b: Bindings, b': Bindings, ts': seq<Expr>)
    requires Satisfiable(ts) && Tracks(ts, cs, cond, order, b) && Patch(cs, cond, order, before, b) && Bound(b, x)
    requires forall y: ByteRef :: Bound(b', y) <==> Bound(b, y)
    requires forall y: ByteRef :: Bound(b, y) && y != x ==> Lookup(b', y) == Lookup(b, y)
    requires forall a :: Holds(ts', a) <==> Holds(ts, a) && Is(x, Lookup(b', x), a)
    requires Lookup(b', x) != Lookup(b, x) ==> forall a :: Holds(ts, a) ==> !Is(x, Lookup(b, x), a)
    ensures Tracks(ts', cs, cond, order + [x], b') && Patch(cs, cond, order + [x], before, b')
  {
    hide Holds, IsTrue, Is;
    var n, longer := |order|, order + [x];
    if x in order {
      var k :| 0 <= k < n && order[k] == x;
      var m :| Holds(ts, m);
      assert Is(x, Lookup(b, x), m);
    }
    assert forall k :: 0 <= k < n ==> longer[k] == order[k] && Lookup(b', order[k]) == Lookup(b, order[k]);
    forall a ensures FixedUpTo(longer, n + 1, b', a) <==> FixedUpTo(order, n, b, a) && Is(x, Lookup(b', x), a) {
      assert longer[n] == x;
    }
    forall k | 0 <= k < n ensures Justified(cs, cond, longer, k, before, b') {
      assert Justified(cs, cond, order, k, before, b);
      assert forall a :: FixedUpTo(longer, k, b', a) <==> FixedUpTo(order, k, b, a);
    }
    LastJustified(ts, cs, cond, order, x, before, b, b');
  }

  lemma LastJustified(ts: seq<Expr>, cs: seq<Expr>, cond: Expr, order: seq<ByteRef>, x: ByteRef, before: Bindings,
                      b: Bindings, b': Bindings)
    requires Tracks(ts, cs, cond, order, b) && Patch(cs, cond, order, before, b) && Bound(b, x)
    requires forall y: ByteRef :: Bound(b', y) <==> Bound(b, y)
    requires forall k :: 0 <= k < |order| ==> Lookup(b', order[k]) == Lookup(b, order[k])
    requires Lookup(b', x) != Lookup(b, x) ==> forall a :: Holds(ts, a) ==> !Is(x, Lookup(b, x), a)
    ensures Justified(cs, cond, order + [x], |order|, before, b')
  {
    hide Holds, IsTrue;
    var n, longer := |order|, order + [x];
    assert longer[n] == x && forall k :: 0 <= k < n ==> longer[k] == order[k];
    if Lookup(b', x) != Lookup(before, x) {
      forall a | Holds(cs, a) && IsTrue(cond, a) && FixedUpTo(longer, n, b', a) ensures !Is(x, Lookup(before, x), a) {
        assert FixedUpTo(order, n, b, a);
        if x in order {
          var k :| 0 <= k < n && order[k] == x;
          assert Is(longer[k], Lookup(b', longer[k]), a);
        }
      }
    }
  }

  lemma PatchStart(cs: seq<Expr>, cond: Expr, ts: seq<Expr>, b: Bindings)
    requires May(cs, cond) && Added(cs, cond, ts, true)
    ensures Tracks(ts, cs, cond, [], b) && Patch(cs, cond, [], b, b) && Satisfiable(ts)
  {
    var a :| Holds(cs, a) && IsTrue(cond, a);
    assert Holds(ts, a);
  }

  /** Once every byte is fixed, any model of the working constraints witnesses the patched seed. */
  lemma PatchedSeedWorks(ts: seq<Expr>, cs: seq<Expr>, cond: Expr, order: seq<ByteRef>, b: Bindings)
    requires Satisfiable(ts) && Tracks(ts, cs, cond, order, b) && WFBindings(b) && WFConstraint(cond)
    requires forall x: ByteRef :: Bound(b, x) ==> x in order
    ensures May(cs, Evaluate(b, cond))
  {
    hide Evaluate;
    var m :| Holds(ts, m);
    forall arr, i | arr in b && 0 <= i < |b[arr]| ensures InitialValue(arr, i, m) == b[arr][i] {
      assert Bound(b, (arr, i));
      var k :| 0 <= k < |order| && order[k] == (arr, i);
      assert Is(order[k], Lookup(b, order[k]), m);
    }
    EvaluateMeaning(b, cond, m);
    assert IsTrue(Evaluate(b, cond), m);
  }

  class SeedInfo {
    var bindings: Bindings

    constructor (b: Bindings)
      ensures bindings == b
    {
      bindings := b;
    }

    /** Fixes one byte: keeps the seed's value if the constraints so far allow it and otherwise takes a
        value they do allow. */
    method FixByte(s: CoreSolver, tmp: ConstraintManager, x: ByteRef)
      requires Exact(s) && Total(s) && ByteBindings(bindings) && Bound(bindings, x)
      requires WFConstraints(tmp.constraints) && Satisfiable(tmp.constraints)
      modifies this, tmp
      ensures ByteBindings(bindings) && WFConstraints(tmp.constraints) && Satisfiable(tmp.constraints)
      ensures bindings.Keys == old(bindings).Keys && forall y: ByteRef :: Bound(bindings, y) <==>
        Bound(old(bindings), y)
      ensures forall y: ByteRef :: Bound(bindings, y) && y != x ==> Lookup(bindings, y) == Lookup(old(bindings), y)
      ensures forall a :: Holds(tmp.constraints, a) <==> Holds(old(tmp.constraints), a) && Is(x, Lookup(bindings, x), a)
      ensures Lookup(bindings, x) != Lookup(old(bindings), x) ==>
        forall a :: Holds(old(tmp.constraints), a) ==> !Is(x, Lookup(old(bindings), x), a)
    {
      hide Exact, WF, Width, Eval, IsSeed, ReadOf, InitialValue, Visit, Pow2;
      var seed := Lookup(bindings, x);
      ghost var cs := tmp.constraints;
      forall v, a | 0 <= v < Pow2(8) ensures IsTrue(IsSeed(x, v), a) <==> Is(x, v, a) { IsSeedMeaning(x, v, a); }
      var never := MustBeFalse(s, tmp.constraints, IsSeed(x, seed), true);
      var value := seed;
      if never.value {
        var found := GetValue(s, tmp.constraints, ReadOf(x), true);
        value := found.value;
        ghost var a :| Holds(cs, a) && Eval(ReadOf(x), a) == value;
        EvalBound(ReadOf(x), a);
        IsSeedMeaning(x, value, a);
        assert Holds(cs, a) && IsTrue(IsSeed(x, value), a);
      }
      assert May(cs, IsSeed(x, value));
      bindings := Rebind(bindings, x, value);
      var ok := tmp.AddConstraint(IsSeed(x, value));
      ghost var m :| Holds(cs, m) && IsTrue(IsSeed(x, value), m);
      assert Holds(tmp.constraints, m);
    }

    /** Fixes every bound byte. */
    method FixAll(s: CoreSolver, tmp: ConstraintManager, ghost cs: seq<Expr>, ghost cond: Expr,
                  ghost done: seq<ByteRef>, ghost before: Bindings)
      returns (ghost order: seq<ByteRef>)
      requires Exact(s) && Total(s) && ByteBindings(bindings)
      requires WFConstraints(tmp.constraints) && Satisfiable(tmp.constraints)
      requires Tracks(tmp.constraints, cs, cond, done, bindings) && Patch(cs, cond, done, before, bindings)
      modifies this, tmp
      ensures ByteBindings(bindings) && Satisfiable(tmp.constraints)
      ensures Tracks(tmp.constraints, cs, cond, order, bindings) && Patch(cs, cond, order, before, bindings)
      ensures forall x: ByteRef :: Bound(bindings, x) ==> x in order
    {
      hide Exact, Total, Tracks, Patch, Satisfiable, WFConstraints;
      order := done;
      var rest := bindings.Keys;
      while rest != {}
        invariant ByteBindings(bindings) && WFConstraints(tmp.constraints) && Satisfiable(tmp.constraints)
        invariant Tracks(tmp.constraints, cs, cond, order, bindings) && Patch(cs, cond, order, before, bindings)
        invariant rest <= bindings.Keys
        invariant forall x: ByteRef :: Bound(bindings, x) && x.0 !in rest ==> x in order
      {
        var arr :| arr in rest;
        order := FixArray(s, tmp, cs, cond, order, before, arr);
        rest := rest - {arr};
      }
    }

    method FixArray(s: CoreSolver, tmp: ConstraintManager, ghost cs: seq<Expr>, ghost cond: Expr,
                    ghost done: seq<ByteRef>, ghost before: Bindings, arr: Array)
      returns (ghost order: seq<ByteRef>)
      requires Exact(s) && Total(s) && ByteBindings(bindings) && arr in bindings
      requires WFConstraints(tmp.constraints) && Satisfiable(tmp.constraints)
      requires Tracks(tmp.constraints, cs, cond, done, bindings) && Patch(cs, cond, done, before, bindings)
      modifies this, tmp
      ensures ByteBindings(bindings) && WFConstraints(tmp.constraints) && Satisfiable(tmp.constraints)
      ensures bindings.Keys == old(bindings).Keys && forall x: ByteRef :: Bound(bindings, x) <==>
        Bound(old(bindings), x)
      ensures Tracks(tmp.constraints, cs, cond, order, bindings) && Patch(cs, cond, order, before, bindings)
      ensures forall x: ByteRef :: x in done || (Bound(bindings, x) && x.0 == arr) ==> x in order
    {
      hide Exact, Total, Tracks, Patch, Satisfiable, WFConstraints, Holds, Is;
      order := done;
      var i := 0;
      while i < arr.size
        invariant arr in bindings && i <= arr.size == |bindings[arr]|
        invariant ByteBindings(bindings) && WFConstraints(tmp.constraints) && Satisfiable(tmp.constraints)
        invariant bindings.Keys == old(bindings).Keys && forall x: ByteRef :: Bound(bindings, x) <==>
          Bound(old(bindings), x)
        invariant Tracks(tmp.constraints, cs, cond, order, bindings) && Patch(cs, cond, order, before, bindings)
        invariant forall x: ByteRef :: x in done || (Bound(bindings, x) && x.0 == arr && x.1 < i) ==> x in order
      {
        ghost var x, ts, b := (arr, i), tmp.constraints, bindings;
        FixByte(s, tmp, (arr, i));
        PatchStep(ts, cs, cond, order, x, before, b, bindings, tmp.constraints);
        order := order + [x];
        i := i + 1;
      }
    }

    /** Patches the bytes the condition reads directly, and all bytes if that was not enough.  In the
        end the condition may hold under the patched seed, so the source's final assertion cannot
        fail, and no byte changed without need.  `order` lists the bytes as they were fixed. */
    method PatchSeed(s: CoreSolver, cs: seq<Expr>, cond: Expr) returns (ghost order: seq<ByteRef>)
      requires Exact(s) && Total(s) && ByteBindings(bindings) && WFConstraints(cs) && WFConstraint(cond)
      requires May(cs, cond)
      requires forall x :: x in DirectReads(cond) && x.0 in bindings ==> x.1 < |bindings[x.0]|
      modifies this
      ensures ByteBindings(bindings)
      ensures May(cs, Evaluate(bindings, cond))
      ensures Patch(cs, cond, order, old(bindings), bindings)
    {
      hide Exact, WF, Width, Eval, Evaluate, Visit, Justified, Is, Holds, IsTrue;
      var tmp := new ConstraintManager(cs);
      var ok := tmp.AddConstraint(cond);
      order := [];
      PatchStart(cs, cond, tmp.constraints, bindings);
      var rest := DirectReads(cond);
      while rest != {}
        invariant ByteBindings(bindings) && WFConstraints(tmp.constraints) && Satisfiable(tmp.constraints) && fresh(tmp)
        invariant Tracks(tmp.constraints, cs, cond, order, bindings) && Patch(cs, cond, order, old(bindings), bindings)
        invariant bindings.Keys == old(bindings).Keys
        invariant forall x :: x in rest && x.0 in old(bindings) ==> Bound(old(bindings), x)
      {
        var x :| x in rest;
        if x.0 in bindings {
          assert Bound(bindings, x);
          ghost var ts, b := tmp.constraints, bindings;
          FixByte(s, tmp, x);
          PatchStep(ts, cs, cond, order, x, old(bindings), b, bindings, tmp.constraints);
          order := order + [x];
        }
        rest := rest - {x};
      }
      var enough := MayBeTrue(s, cs, Evaluate(bindings, cond), true);
      if enough.value { return; }
      order := FixAll(s, tmp, cs, cond, order, old(bindings));
      PatchedSeedWorks(tmp.constraints, cs, cond, order, bindings);
    }
  }
}
