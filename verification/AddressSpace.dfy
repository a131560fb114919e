/** Resolving a pointer to the memory objects it may point into. */
module AddressSpace {
  import opened Options
  import opened Bits
  import opened Exprs
  import opened Create
  import opened Meaning
  import opened Constraints
  import opened Solver

  const POINTER_WIDTH: nat := 64

  datatype MemoryObject = MemoryObject(address: nat, size: nat)

  /** The pointer value `v` points into `mo`; an empty object owns its own address. */
  predicate Contains(mo: MemoryObject, v: nat) {
    if mo.size == 0 then v == mo.address else mo.address <= v < mo.address + mo.size
  }

  /** The address space: disjoint objects in address order, none of them wrapping around. */
  ghost predicate WFSpace(objects: seq<MemoryObject>) {
    && (forall i :: 0 <= i < |objects| ==> objects[i].address + objects[i].size < Pow2(POINTER_WIDTH))
    && (forall i, j :: 0 <= i < j < |objects| ==>
          objects[i].address < objects[j].address && objects[i].address + objects[i].size <= objects[j].address)
  }

  lemma ContainsUnique(objects: seq<MemoryObject>, i: nat, j: nat, v: nat)
    requires WFSpace(objects) && i < |objects| && j < |objects|
    requires Contains(objects[i], v) && Contains(objects[j], v)
    ensures i == j
  {
  }

  // ----- bounds checks -----

  function PointerConstant(v: nat): Expr { Constant(v, POINTER_WIDTH) }

  lemma PointerConstantMeaning(v: nat, a: Assignment)
    requires v < Pow2(POINTER_WIDTH)
    ensures IsPointer(PointerConstant(v)) && Eval(PointerConstant(v), a) == v
  {
    hide Pow2;
  }

  predicate IsPointer(p: Expr) {
    WF(p) && Width(p) == POINTER_WIDTH
  }

  /** `getBoundsCheckPointer`. */
  function InBounds(mo: MemoryObject, p: Expr): (e: Expr)
    requires IsPointer(p) && mo.address + mo.size < Pow2(POINTER_WIDTH)
    ensures WFConstraint(e)
  {
    var offset := SubCreate(p, PointerConstant(mo.address));
    if mo.size == 0 then EqCreate(offset, PointerConstant(0)) else CompareCreate(Ult, offset, PointerConstant(mo.size))
  }

  /** `getBoundsCheckPointer` for an access of several bytes. */
  function InBoundsFor(mo: MemoryObject, p: Expr, bytes: nat): (e: Expr)
    requires IsPointer(p) && mo.address + mo.size < Pow2(POINTER_WIDTH) && (bytes == 0 ==> mo.address > 0)
    ensures WFConstraint(e)
  {
    if bytes <= mo.size
    then CompareCreate(Ult, SubCreate(p, PointerConstant(mo.address)), PointerConstant(mo.size - bytes + 1))
    else False()
  }

  /** `UgeExpr::create(p, base)`. */
  function AtOrAbove(p: Expr, mo: MemoryObject): (e: Expr)
    requires IsPointer(p) && mo.address < Pow2(POINTER_WIDTH)
    ensures WFConstraint(e)
  {
    CompareCreate(Ule, PointerConstant(mo.address), p)
  }

  /** `UltExpr::create(p, base)`. */
  function Below(p: Expr, mo: MemoryObject): (e: Expr)
    requires IsPointer(p) && mo.address < Pow2(POINTER_WIDTH)
    ensures WFConstraint(e)
  {
    CompareCreate(Ult, p, PointerConstant(mo.address))
  }

  /** Subtracting the base wraps around exactly when the pointer is below it, and then the offset is
      too large to be in bounds. */
  lemma WrappedOffset(v: nat, base: nat, size: nat)
    requires v < Pow2(POINTER_WIDTH) && base + size <= Pow2(POINTER_WIDTH) && base < Pow2(POINTER_WIDTH)
    ensures var d := SubMod(POINTER_WIDTH, v, base);
      && (d == 0 <==> v == base)
      && (d < size <==> base <= v < base + size)
  {
    var m := Pow2(POINTER_WIDTH);
    if v >= base {
      DivUnique(v - base, m, 0, v - base);
    } else {
      DivUnique(v - base, m, -1, v - base + m);
    }
  }

  lemma InBoundsMeaning(mo: MemoryObject, p: Expr, a: Assignment)
    requires IsPointer(p) && mo.address + mo.size < Pow2(POINTER_WIDTH)
    ensures IsTrue(InBounds(mo, p), a) <==> Contains(mo, Eval(p, a))
  {
    hide SubCreate, EqCreate, CompareCreate, SubMod, Pow2, WF, Eval, Width;
    PointerConstantMeaning(mo.address, a); PointerConstantMeaning(0, a); PointerConstantMeaning(mo.size, a);
    var base, zero, size := PointerConstant(mo.address), PointerConstant(0), PointerConstant(mo.size);
    var offset := SubCreate(p, base);
    EvalBound(p, a);
    SubMeaning(p, base, a);
    EqMeaning(offset, zero, a);
    CompareMeaning(Ult, offset, size, a);
    WrappedOffset(Eval(p, a), mo.address, mo.size);
  }

  /** True exactly if the whole access lies in the object. */
  lemma {:induction false} InBoundsForMeaning(mo: MemoryObject, p: Expr, bytes: nat, a: Assignment)
    requires IsPointer(p) && mo.address + mo.size < Pow2(POINTER_WIDTH) && (bytes == 0 ==> mo.address > 0)
    ensures IsTrue(InBoundsFor(mo, p, bytes), a) <==>
      mo.address <= Eval(p, a) && Eval(p, a) + bytes <= mo.address + mo.size
  {
    hide SubCreate, EqCreate, CompareCreate, SubMod, Pow2, WF, Width;
    if bytes <= mo.size {
      PointerConstantMeaning(mo.address, a);
      PointerConstantMeaning(mo.size - bytes + 1, a);
      hide Eval;
      var offset := SubCreate(p, PointerConstant(mo.address));
      EvalBound(p, a);
      SubMeaning(p, PointerConstant(mo.address), a);
      CompareMeaning(Ult, offset, PointerConstant(mo.size - bytes + 1), a);
      WrappedOffset(Eval(p, a), mo.address, mo.size - bytes + 1);
    }
  }

  lemma OrderMeaning(mo: MemoryObject, p: Expr, a: Assignment)
    requires IsPointer(p) && mo.address < Pow2(POINTER_WIDTH)
    ensures IsTrue(AtOrAbove(p, mo), a) <==> mo.address <= Eval(p, a)
    ensures IsTrue(Below(p, mo), a) <==> Eval(p, a) < mo.address
  {
    hide CompareCreate, Pow2, WF, Eval, Width;
    PointerConstantMeaning(mo.address, a);
    var base := PointerConstant(mo.address);
    CompareMeaning(Ule, base, p, a);
    CompareMeaning(Ult, p, base, a);
  }

  // ----- ordered lookups -----

  /** The number of objects that start at or below `v`: `upper_bound` as an index. */
  method UpperBound(objects: seq<MemoryObject>, v: nat) returns (n: nat)
    requires WFSpace(objects)
    ensures n <= |objects|
    ensures forall i :: 0 <= i < n ==> objects[i].address <= v
    ensures forall i :: n <= i < |objects| ==> v < objects[i].address
  {
    n := 0;
    while n < |objects| && objects[n].address <= v
      invariant n <= |objects|
      invariant forall i :: 0 <= i < n ==> objects[i].address <= v
    {
      n := n + 1;
    }
  }

  /** `lookup_previous` and the containment check: the object of a concrete address, if any. */
  method ResolveConstant(objects: seq<MemoryObject>, address: nat) returns (r: Option<nat>)
    requires WFSpace(objects)
    ensures r.Some? ==> r.value < |objects| && Contains(objects[r.value], address)
    ensures r.None? ==> forall i :: 0 <= i < |objects| ==> !Contains(objects[i], address)
  {
    var n := UpperBound(objects, address);
    r := None;
    if n > 0 {
      var mo := objects[n - 1];
      if (mo.size == 0 && address == mo.address) || address - mo.address < mo.size {
        r := Some(n - 1);
      } else {
        assert forall i :: 0 <= i < n - 1 ==> objects[i].address + objects[i].size <= mo.address;
      }
    }
  }

  // ----- symbolic resolution -----

  /** Some model lets `p` point into `mo`. */
  ghost predicate MayContain(cs: seq<Expr>, p: Expr, mo: MemoryObject) {
    exists a :: Holds(cs, a) && Contains(mo, Eval(p, a))
  }

  ghost predicate MustBeAtOrAbove(cs: seq<Expr>, p: Expr, v: nat) {
    forall a :: Holds(cs, a) ==> v <= Eval(p, a)
  }

  ghost predicate MustBeBelow(cs: seq<Expr>, p: Expr, v: nat) {
    forall a :: Holds(cs, a) ==> Eval(p, a) < v
  }

  /** The common setting of the symbolic queries. */
  ghost predicate Queryable(s: CoreSolver, objects: seq<MemoryObject>, cs: seq<Expr>, p: Expr) {
    Exact(s) && WFSpace(objects) && WFConstraints(cs) && Satisfiable(cs) && IsPointer(p)
  }

  method AskInBounds(s: CoreSolver, objects: seq<MemoryObject>, cs: seq<Expr>, p: Expr, i: nat)
    returns (r: Option<bool>)
    requires Queryable(s, objects, cs, p) && i < |objects|
    ensures r.Some? ==> r.value == MayContain(cs, p, objects[i])
    ensures Total(s) ==> r.Some?
  {
    hide Exact, InBounds, Contains;
    r := MayBeTrue(s, cs, InBounds(objects[i], p), true);
    forall a
      ensures IsTrue(InBounds(objects[i], p), a) <==> Contains(objects[i], Eval(p, a))
    {
      InBoundsMeaning(objects[i], p, a);
    }
  }

  method AskAlwaysInBounds(s: CoreSolver, objects: seq<MemoryObject>, cs: seq<Expr>, p: Expr, i: nat)
    returns (r: Option<bool>)
    requires Queryable(s, objects, cs, p) && i < |objects|
    ensures r.Some? ==> r.value == forall a :: Holds(cs, a) ==> Contains(objects[i], Eval(p, a))
    ensures Total(s) ==> r.Some?
  {
    hide Exact, InBounds, Contains;
    r := MustBeTrue(s, cs, InBounds(objects[i], p), true);
    forall a
      ensures IsTrue(InBounds(objects[i], p), a) <==> Contains(objects[i], Eval(p, a))
    {
      InBoundsMeaning(objects[i], p, a);
    }
  }

  method AskAtOrAbove(s: CoreSolver, objects: seq<MemoryObject>, cs: seq<Expr>, p: Expr, i: nat)
    returns (r: Option<bool>)
    requires Queryable(s, objects, cs, p) && i < |objects|
    ensures r.Some? ==> r.value == MustBeAtOrAbove(cs, p, objects[i].address)
    ensures Total(s) ==> r.Some?
  {
    hide Exact, AtOrAbove;
    r := MustBeTrue(s, cs, AtOrAbove(p, objects[i]), true);
    forall a
      ensures IsTrue(AtOrAbove(p, objects[i]), a) <==> objects[i].address <= Eval(p, a)
    {
      OrderMeaning(objects[i], p, a);
    }
  }

  method AskBelow(s: CoreSolver, objects: seq<MemoryObject>, cs: seq<Expr>, p: Expr, i: nat) returns (r: Option<bool>)
    requires Queryable(s, objects, cs, p) && i < |objects|
    ensures r.Some? ==> r.value == MustBeBelow(cs, p, objects[i].address)
    ensures Total(s) ==> r.Some?
  {
    hide Exact, Below;
    r := MustBeTrue(s, cs, Below(p, objects[i]), true);
    forall a
      ensures IsTrue(Below(p, objects[i]), a) <==> Eval(p, a) < objects[i].address
    {
      OrderMeaning(objects[i], p, a);
    }
  }

  /** A pointer never below an object cannot fall into an earlier one. */
  lemma NothingBefore(objects: seq<MemoryObject>, cs: seq<Expr>, p: Expr, i: nat)
    requires WFSpace(objects) && i < |objects| && MustBeAtOrAbove(cs, p, objects[i].address)
    ensures forall j :: 0 <= j < i ==> !MayContain(cs, p, objects[j])
  {
  }

  lemma NothingAfter(objects: seq<MemoryObject>, cs: seq<Expr>, p: Expr, i: nat)
    requires WFSpace(objects) && i < |objects| && MustBeBelow(cs, p, objects[i].address)
    ensures forall j :: i <= j < |objects| ==> !MayContain(cs, p, objects[j])
  {
  }

  /** Finds one object a symbolic address may point into.  `done` is false when a query failed. */
  method ResolveOne(s: CoreSolver, objects: seq<MemoryObject>, cs: seq<Expr>, p: Expr)
    returns (done: bool, r: Option<nat>)
    requires Queryable(s, objects, cs, p)
    ensures done && r.Some? ==> r.value < |objects| && MayContain(cs, p, objects[r.value])
    ensures done && r.None? ==> forall i :: 0 <= i < |objects| ==> !MayContain(cs, p, objects[i])
    ensures Total(s) ==> done
  {
    hide Exact, WFSpace, WF, Width, Contains;
    if p.Constant? {
      r := ResolveConstantPointer(objects, cs, p);
      return true, r;
    }
    var example := GetValue(s, cs, p, true);
    if example.None? { return false, None; }
    var start := UpperBound(objects, example.value);
    if start > 0 && example.value - objects[start - 1].address < objects[start - 1].size {
      var a :| Holds(cs, a) && Eval(p, a) == example.value;
      assert Contains(objects[start - 1], Eval(p, a)) by { InsidePrevious(objects[start - 1], example.value); }
      return true, Some(start - 1);
    }
    var i := start;
    while i != 0
      invariant 0 <= i <= start
      invariant forall j :: i <= j < start ==> !MayContain(cs, p, objects[j])
    {
      i := i - 1;
      var may := AskInBounds(s, objects, cs, p, i);
      if may.None? { return false, None; }
      if may.value { return true, Some(i); }
      var must := AskAtOrAbove(s, objects, cs, p, i);
      if must.None? { return false, None; }
      if must.value {
        NothingBefore(objects, cs, p, i);
        break;
      }
    }
    assert forall j :: 0 <= j < start ==> !MayContain(cs, p, objects[j]);
    i := start;
    while i != |objects|
      invariant start <= i <= |objects|
      invariant forall j :: 0 <= j < i ==> !MayContain(cs, p, objects[j])
    {
      var must := AskBelow(s, objects, cs, p, i);
      if must.None? { return false, None; }
      if must.value {
        NothingAfter(objects, cs, p, i);
        break;
      }
      var may := AskInBounds(s, objects, cs, p, i);
      if may.None? { return false, None; }
      if may.value { return true, Some(i); }
      i := i + 1;
    }
    return true, None;
  }

  lemma InsidePrevious(mo: MemoryObject, v: nat)
    requires mo.address <= v && v - mo.address < mo.size
    ensures Contains(mo, v)
  {
  }

  /** What a resolution list always satisfies: the objects on it may be hit, and none is listed twice. */
  ghost predicate Hits(objects: seq<MemoryObject>, cs: seq<Expr>, p: Expr, rl: seq<nat>) {
    && (forall k :: 0 <= k < |rl| ==> rl[k] < |objects| && MayContain(cs, p, objects[rl[k]]))
    && (forall k, l :: 0 <= k < l < |rl| ==> rl[k] != rl[l])
  }

  /** Every object of the range that may be hit is on the list, and nothing else is. */
  ghost predicate Lists(objects: seq<MemoryObject>, cs: seq<Expr>, p: Expr, rl: seq<nat>, lo: nat, hi: nat)
    requires lo <= hi <= |objects|
  {
    && (forall i :: lo <= i < hi && MayContain(cs, p, objects[i]) ==> i in rl)
    && (forall k :: 0 <= k < |rl| ==> lo <= rl[k] < hi)
  }

  /** The range grows by object `i`, which joins the list if it may be hit. */
  lemma ListDown(objects: seq<MemoryObject>, cs: seq<Expr>, p: Expr, rl: seq<nat>, i: nat, hi: nat)
    requires i < hi <= |objects| && Lists(objects, cs, p, rl, i + 1, hi)
    ensures i !in rl
    ensures Lists(objects, cs, p, if MayContain(cs, p, objects[i]) then rl + [i] else rl, i, hi)
  {
    hide MayContain;
  }

  lemma ListUp(objects: seq<MemoryObject>, cs: seq<Expr>, p: Expr, rl: seq<nat>, i: nat)
    requires i < |objects| && Lists(objects, cs, p, rl, 0, i)
    ensures i !in rl
    ensures Lists(objects, cs, p, if MayContain(cs, p, objects[i]) then rl + [i] else rl, 0, i + 1)
  {
    hide MayContain;
  }

  /** What happens once object `i` joins the list: the first hit ends the search if it is certain, a
      later one if it reaches the limit. */
  method CheckHit(s: CoreSolver, objects: seq<MemoryObject>, cs: seq<Expr>, p: Expr, rl: seq<nat>, i: nat,
                  maxResolutions: nat)
    returns (stop: bool, incomplete: bool)
    requires Queryable(s, objects, cs, p) && Hits(objects, cs, p, rl) && i !in rl
    requires i < |objects| && MayContain(cs, p, objects[i]) && (maxResolutions >= 2 ==> |rl| < maxResolutions)
    ensures Hits(objects, cs, p, rl + [i])
    ensures stop && !incomplete ==> forall j :: 0 <= j < |objects| && MayContain(cs, p, objects[j]) ==> j in rl + [i]
    ensures stop && incomplete && Total(s) ==> maxResolutions >= 2 && |rl| + 1 == maxResolutions
    ensures !stop ==> maxResolutions >= 2 ==> |rl| + 1 < maxResolutions
  {
    hide Exact, WFSpace, WF, Width, Contains, MayContain, Total;
    var n := |rl| + 1;
    if n == 1 {
      var always := AskAlwaysInBounds(s, objects, cs, p, i);
      if always.None? { return true, true; }
      if always.value { OnlyOne(objects, cs, p, i); }
      return always.value, false;
    }
    return n == maxResolutions, true;
  }

  /** What both scans promise: if they stop early, the list is complete or said not to be. */
  ghost predicate Ended(s: CoreSolver, objects: seq<MemoryObject>, cs: seq<Expr>, p: Expr, rl: seq<nat>,
                        maxResolutions: nat, incomplete: bool) {
    && (!incomplete ==> forall j :: 0 <= j < |objects| && MayContain(cs, p, objects[j]) ==> j in rl)
    && (maxResolutions >= 2 ==> |rl| <= maxResolutions)
    && (Total(s) && incomplete ==> maxResolutions >= 2 && |rl| == maxResolutions)
  }

  /** Backward from `start`, until the pointer must be at or above an object. */
  method ScanDown(s: CoreSolver, objects: seq<MemoryObject>, cs: seq<Expr>, p: Expr, start: nat, maxResolutions: nat)
    returns (rl: seq<nat>, stop: bool, incomplete: bool)
    requires Queryable(s, objects, cs, p) && start <= |objects|
    ensures Hits(objects, cs, p, rl)
    ensures stop ==> Ended(s, objects, cs, p, rl, maxResolutions, incomplete)
    ensures !stop ==> Lists(objects, cs, p, rl, 0, start) && (maxResolutions >= 2 ==> |rl| < maxResolutions)
  {
    hide Exact, WFSpace, WF, Width, Contains, MayContain, Total;
    rl, stop, incomplete := [], false, false;
    var i := start;
    while i != 0
      invariant 0 <= i <= start
      invariant Hits(objects, cs, p, rl) && Lists(objects, cs, p, rl, i, start)
      invariant maxResolutions >= 2 ==> |rl| < maxResolutions
    {
      i := i - 1;
      ListDown(objects, cs, p, rl, i, start);
      var may := AskInBounds(s, objects, cs, p, i);
      if may.None? { return rl, true, true; }
      if may.value {
        stop, incomplete := CheckHit(s, objects, cs, p, rl, i, maxResolutions);
        rl := rl + [i];
        if stop { return; }
      }
      var must := AskAtOrAbove(s, objects, cs, p, i);
      if must.None? { return rl, true, true; }
      if must.value {
        NothingBefore(objects, cs, p, i);
        return rl, false, false;
      }
    }
    stop := false;
  }

  /** Forward from `start`, until the pointer must be below an object. */
  method ScanUp(s: CoreSolver, objects: seq<MemoryObject>, cs: seq<Expr>, p: Expr, start: nat, maxResolutions: nat,
                below: seq<nat>)
    returns (rl: seq<nat>, incomplete: bool)
    requires Queryable(s, objects, cs, p) && start <= |objects|
    requires Hits(objects, cs, p, below) && Lists(objects, cs, p, below, 0, start)
    requires (maxResolutions >= 2 ==> |below| < maxResolutions)
    ensures Hits(objects, cs, p, rl) && Ended(s, objects, cs, p, rl, maxResolutions, incomplete)
  {
    hide Exact, WFSpace, WF, Width, Contains, MayContain, Total;
    rl := below;
    var i := start;
    while i != |objects|
      invariant start <= i <= |objects|
      invariant Hits(objects, cs, p, rl) && Lists(objects, cs, p, rl, 0, i)
      invariant maxResolutions >= 2 ==> |rl| < maxResolutions
    {
      var must := AskBelow(s, objects, cs, p, i);
      if must.None? { return rl, true; }
      if must.value {
        NothingAfter(objects, cs, p, i);
        return rl, false;
      }
      ListUp(objects, cs, p, rl, i);
      var may := AskInBounds(s, objects, cs, p, i);
      if may.None? { return rl, true; }
      if may.value {
        var stop;
        stop, incomplete := CheckHit(s, objects, cs, p, rl, i, maxResolutions);
        rl := rl + [i];
        if stop { return; }
      }
      i := i + 1;
    }
    return rl, false;
  }

  /** Lists every object the pointer may fall in.  A false `incomplete` promises that none is missing.
      The limit is respected when it is at least two; a limit of one is never noticed, because the
      first hit is checked for being the only one instead. */
  method Resolve(s: CoreSolver, objects: seq<MemoryObject>, cs: seq<Expr>, p: Expr, maxResolutions: nat)
    returns (rl: seq<nat>, incomplete: bool)
    requires Queryable(s, objects, cs, p)
    ensures Hits(objects, cs, p, rl)
    ensures !incomplete ==> forall i :: 0 <= i < |objects| && MayContain(cs, p, objects[i]) ==> i in rl
    ensures maxResolutions >= 2 ==> |rl| <= maxResolutions
    ensures Total(s) && incomplete ==> maxResolutions >= 2 && |rl| == maxResolutions
    ensures Total(s) && maxResolutions == 1 ==> (|rl| <= 1 <==> !TwoHits(objects, cs, p))
  {
    hide TwoHits;
    rl, incomplete := ResolveAll(s, objects, cs, p, maxResolutions);
    if !incomplete { LimitOne(objects, cs, p, rl); }
  }

  /** Two different objects may be hit. */
  ghost predicate TwoHits(objects: seq<MemoryObject>, cs: seq<Expr>, p: Expr) {
    exists i, j :: 0 <= i < j < |objects| && MayContain(cs, p, objects[i]) && MayContain(cs, p, objects[j])
  }

  /** A complete list has at most one entry exactly when no two objects may be hit. */
  lemma LimitOne(objects: seq<MemoryObject>, cs: seq<Expr>, p: Expr, rl: seq<nat>)
    requires Hits(objects, cs, p, rl)
    requires forall i :: 0 <= i < |objects| && MayContain(cs, p, objects[i]) ==> i in rl
    ensures |rl| <= 1 <==> !TwoHits(objects, cs, p)
  {
    hide MayContain;
    if |rl| > 1 {
      var i, j := if rl[0] < rl[1] then rl[0] else rl[1], if rl[0] < rl[1] then rl[1] else rl[0];
      assert 0 <= i < j < |objects| && MayContain(cs, p, objects[i]) && MayContain(cs, p, objects[j]);
    }
  }

  /** A pointer that is any byte, and two one-byte objects at addresses 0 and 8: both may be hit, so a
      limit of one is exceeded. */
  lemma {:induction false} LimitOneExceeded(root: Array)
    requires WFArray(root) && root.range == 8 && root.domain == 32 && root.constantValues == []
    ensures var p := Unary(ZExt(POINTER_WIDTH), Read(root, NoUpdate, Constant(0, 32)));
      IsPointer(p) && TwoHits([MemoryObject(0, 1), MemoryObject(8, 1)], [], p)
  {
    var objects := [MemoryObject(0, 1), MemoryObject(8, 1)];
    var p := Unary(ZExt(POINTER_WIDTH), Read(root, NoUpdate, Constant(0, 32)));
    assert WF(Constant(0, 32)) && WF(Read(root, NoUpdate, Constant(0, 32)));
    AnyByte(root, 0);
    AnyByte(root, 8);
    var zero: Assignment, eight: Assignment := (r, i) => 0, (r, i) => 8;
    assert Holds([], zero) && Contains(objects[0], Eval(p, zero));
    assert Holds([], eight) && Contains(objects[1], Eval(p, eight));
  }

  lemma AnyByte(root: Array, v: nat)
    requires root.range == 8 && root.constantValues == [] && v < 256
    ensures Eval(Unary(ZExt(POINTER_WIDTH), Read(root, NoUpdate, Constant(0, 32))), (r, i) => v) == v
  {
    assert Pow2(8) == 256;
    var a: Assignment := (r, i) => v;
    assert Eval(Read(root, NoUpdate, Constant(0, 32)), a) == InitialValue(root, 0, a) == v;
  }

  method ResolveAll(s: CoreSolver, objects: seq<MemoryObject>, cs: seq<Expr>, p: Expr, maxResolutions: nat)
    returns (rl: seq<nat>, incomplete: bool)
    requires Queryable(s, objects, cs, p)
    ensures Hits(objects, cs, p, rl) && Ended(s, objects, cs, p, rl, maxResolutions, incomplete)
  {
    hide Exact, WFSpace, WF, Width, Contains, MayContain, Total;
    rl := [];
    if p.Constant? {
      var r := ResolveConstantPointer(objects, cs, p);
      if r.Some? { rl := [r.value]; }
      return rl, false;
    }
    var example := GetValue(s, cs, p, true);
    if example.None? { return rl, true; }
    var start := UpperBound(objects, example.value);
    var stop;
    rl, stop, incomplete := ScanDown(s, objects, cs, p, start, maxResolutions);
    if !stop { rl, incomplete := ScanUp(s, objects, cs, p, start, maxResolutions, rl); }
  }

  lemma OnlyOne(objects: seq<MemoryObject>, cs: seq<Expr>, p: Expr, i: nat)
    requires WFSpace(objects) && i < |objects| && forall a :: Holds(cs, a) ==> Contains(objects[i], Eval(p, a))
    ensures forall j :: 0 <= j < |objects| && MayContain(cs, p, objects[j]) ==> j == i
  {
    forall j | 0 <= j < |objects| && MayContain(cs, p, objects[j]) ensures j == i {
      var a :| Holds(cs, a) && Contains(objects[j], Eval(p, a));
      ContainsUnique(objects, i, j, Eval(p, a));
    }
  }

  method ResolveConstantPointer(objects: seq<MemoryObject>, cs: seq<Expr>, p: Expr) returns (r: Option<nat>)
    requires WFSpace(objects) && Satisfiable(cs) && p.Constant?
    ensures r.Some? ==> r.value < |objects| && MayContain(cs, p, objects[r.value])
    ensures forall i :: 0 <= i < |objects| ==> (MayContain(cs, p, objects[i]) <==> r == Some(i))
  {
    r := ResolveConstant(objects, p.value);
    var a :| Holds(cs, a);
    assert forall a :: Eval(p, a) == p.value;
    forall i | 0 <= i < |objects| ensures MayContain(cs, p, objects[i]) <==> r == Some(i) {
      if r.Some? && MayContain(cs, p, objects[i]) { ContainsUnique(objects, i, r.value, p.value); }
    }
  }
}
