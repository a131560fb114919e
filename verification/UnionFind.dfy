/** The union-find over arrays that keeps, for each class of arrays, the constraints that mention them. */
module UnionFind {
  import opened Exprs

  datatype Element = Element(arr: Array, parent: nat, rank: nat, constraints: seq<Expr>)

  // ----- forests -----

  /** `level` rises along every parent edge, so following parents ends at a root. */
  predicate Forest(p: seq<nat>, level: seq<nat>) {
    |level| == |p| && forall k :: 0 <= k < |p| ==> p[k] < |p| && (p[k] != k ==> level[k] < level[p[k]])
  }

  function Top(level: seq<nat>): (t: nat)
    ensures forall k :: 0 <= k < |level| ==> level[k] <= t
  {
    if level == [] then 0
    else
      var t := Top(level[1..]);
      assert forall k :: 1 <= k < |level| ==> level[k] == level[1..][k - 1];
      if t < level[0] then level[0] else t
  }

  /** The representative of `k`. */
  function Root(p: seq<nat>, level: seq<nat>, k: nat): (r: nat)
    requires Forest(p, level) && k < |p|
    ensures r < |p| && p[r] == r && (r != k ==> level[k] < level[r])
    decreases Top(level) - level[k]
  {
    if p[k] == k then k else Root(p, level, p[k])
  }

  /** The parents after `find(i)` compressed the path from `i`. */
  function Compressed(p: seq<nat>, level: seq<nat>, i: nat): (q: seq<nat>)
    requires Forest(p, level) && i < |p|
    ensures |q| == |p|
    decreases Top(level) - level[i]
  {
    if p[i] == i then p else Compressed(p, level, p[i])[i := Root(p, level, i)]
  }

  /** The representative does not depend on how the levels are chosen. */
  lemma {:induction false} RootUnique(p: seq<nat>, level: seq<nat>, level': seq<nat>, k: nat)
    requires Forest(p, level) && Forest(p, level') && k < |p|
    ensures Root(p, level, k) == Root(p, level', k)
    decreases Top(level) - level[k]
  {
    if p[k] != k { RootUnique(p, level, level', p[k]); }
  }

  lemma {:induction false} ShortcutRoot(p: seq<nat>, level: seq<nat>, i: nat, k: nat)
    requires Forest(p, level) && i < |p| && k < |p|
    ensures Forest(p[i := Root(p, level, i)], level)
    ensures Root(p[i := Root(p, level, i)], level, k) == Root(p, level, k)
    decreases Top(level) - level[k]
  {
    if p[k] != k && k != i { ShortcutRoot(p, level, i, p[k]); }
  }

  /** Path compression moves no element to another class. */
  lemma {:induction false} CompressedRoots(p: seq<nat>, level: seq<nat>, i: nat)
    requires Forest(p, level) && i < |p|
    ensures Forest(Compressed(p, level, i), level)
    ensures forall k :: 0 <= k < |p| ==> Root(Compressed(p, level, i), level, k) == Root(p, level, k)
    ensures Compressed(p, level, i)[i] == Root(p, level, i)
    ensures forall k :: 0 <= k < |p| ==>
      Compressed(p, level, i)[k] == p[k] || Compressed(p, level, i)[k] == Root(p, level, k)
    decreases Top(level) - level[i]
  {
    if p[i] != i {
      CompressedRoots(p, level, p[i]);
      var q := Compressed(p, level, p[i]);
      assert Root(q, level, i) == Root(p, level, i);
      forall k | 0 <= k < |p|
        ensures Forest(q[i := Root(p, level, i)], level)
        ensures Root(q[i := Root(p, level, i)], level, k) == Root(p, level, k)
      {
        ShortcutRoot(q, level, i, k);
      }
    }
  }

  // ----- hanging one element below another root -----

  /** The path from `k` to its root visits `b`. */
  predicate Through(p: seq<nat>, level: seq<nat>, k: nat, b: nat)
    requires Forest(p, level) && k < |p|
    decreases Top(level) - level[k]
  {
    k == b || (p[k] != k && Through(p, level, p[k], b))
  }

  /** Levels that fit once `b` hangs below the root `r`. */
  function Raised(level: seq<nat>, r: nat, b: nat): seq<nat>
    requires r < |level| && b < |level|
  {
    level[r := level[r] + level[b] + 1]
  }

  lemma HungForest(p: seq<nat>, level: seq<nat>, r: nat, b: nat)
    requires Forest(p, level) && r < |p| && b < |p| && p[r] == r && r != b
    ensures Forest(p[b := r], Raised(level, r, b))
  {
  }

  /** Exactly the elements below `b` move to the class of `r`. */
  lemma {:induction false} HungRoots(p: seq<nat>, level: seq<nat>, r: nat, b: nat, k: nat)
    requires Forest(p, level) && r < |p| && b < |p| && k < |p| && p[r] == r && Root(p, level, b) != r
    ensures Forest(p[b := r], Raised(level, r, b))
    ensures Root(p[b := r], Raised(level, r, b), k) == if Through(p, level, k, b) then r else Root(p, level, k)
    decreases Top(level) - level[k]
  {
    HungForest(p, level, r, b);
    if k != b && p[k] != k { HungRoots(p, level, r, b, p[k]); }
  }

  /** A root is on the path of its whole class; anything else is not on its root's path. */
  lemma {:induction false} ThroughRoot(p: seq<nat>, level: seq<nat>, k: nat, b: nat)
    requires Forest(p, level) && k < |p| && b < |p|
    ensures Through(p, level, k, b) ==> Root(p, level, k) == Root(p, level, b)
    ensures p[b] == b ==> (Through(p, level, k, b) <==> Root(p, level, k) == b)
    decreases Top(level) - level[k]
  {
    if k != b && p[k] != k { ThroughRoot(p, level, p[k], b); }
  }

  // ----- stored constraints -----

  function Parents(es: seq<Element>): (p: seq<nat>)
    ensures |p| == |es| && forall k :: 0 <= k < |es| ==> p[k] == es[k].parent
  {
    seq(|es|, k requires 0 <= k < |es| => es[k].parent)
  }

  /** All constraints stored anywhere. */
  function Stored(es: seq<Element>): multiset<Expr> {
    if es == [] then multiset{} else multiset(es[0].constraints) + Stored(es[1..])
  }

  lemma {:induction false} StoredUpdate(es: seq<Element>, i: nat, e: Element, x: Expr)
    requires i < |es|
    ensures Stored(es[i := e])[x] + multiset(es[i].constraints)[x] == Stored(es)[x] + multiset(e.constraints)[x]
  {
    if i == 0 {
      assert es[i := e][1..] == es[1..];
    } else {
      assert es[i := e][1..] == es[1..][i - 1 := e];
      StoredUpdate(es[1..], i - 1, e, x);
    }
  }

  lemma {:induction false} StoredSnoc(es: seq<Element>, e: Element)
    ensures Stored(es + [e]) == Stored(es) + multiset(e.constraints)
  {
    if es == [] {
      assert [e][1..] == [];
      assert es + [e] == [e];
    } else {
      assert (es + [e])[1..] == es[1..] + [e];
      StoredSnoc(es[1..], e);
    }
  }

  /** Same elements up to their parents. */
  predicate SameData(es: seq<Element>, fs: seq<Element>) {
    |es| == |fs| && forall k :: 0 <= k < |es| ==> es[k] == fs[k].(parent := es[k].parent)
  }

  lemma {:induction false} SameDataStored(es: seq<Element>, fs: seq<Element>)
    requires SameData(es, fs)
    ensures Stored(es) == Stored(fs)
  {
    if es != [] { SameDataStored(es[1..], fs[1..]); }
  }

  class UFManager {
    var elements: seq<Element>
    ghost var level: seq<nat>

    ghost predicate Valid()
      reads this
    {
      && |level| == |elements| && Forest(Parents(elements), level)
      && forall k :: 0 <= k < |elements| ==> elements[k].rank == 0
    }

    /** The representative of every element. */
    ghost function Reps(): seq<nat>
      requires Valid()
      reads this
    {
      Roots(elements, level)
    }

    /** Constraints are kept only where a representative would be looked up. */
    ghost predicate AtRepresentatives()
      requires Valid()
      reads this
    {
      AtRoots(Cons(elements), Reps())
    }

    constructor ()
      ensures Valid() && elements == []
    {
      elements, level := [], [];
    }

    /** A new array is alone in its class. */
    method Create(arr: Array) returns (i: nat)
      requires Valid()
      modifies this
      ensures Valid() && i == old(|elements|) && elements == old(elements) + [Element(arr, i, 0, [])]
      ensures Reps() == old(Reps()) + [i] && Stored(elements) == old(Stored(elements))
      ensures old(AtRepresentatives()) ==> AtRepresentatives()
    {
      hide Stored, Top;
      i := |elements|;
      StoredSnoc(elements, Element(arr, i, 0, []));
      elements := elements + [Element(arr, i, 0, [])];
      level := level + [0];
      assert Parents(elements) == old(Parents(elements)) + [i];
      forall k | 0 <= k < i ensures Root(Parents(elements), level, k) == old(Reps())[k] {
        GrownRoot(old(Parents(elements)), old(level), k);
      }
    }

    /** Returns the representative and changes nobody's. */
    method Find(i: nat) returns (r: nat)
      requires Valid() && i < |elements|
      modifies this`elements
      ensures Valid() && Parents(elements) == Compressed(old(Parents(elements)), level, i)
      ensures SameData(elements, old(elements))
      ensures r == old(Reps())[i] == elements[i].parent && Reps() == old(Reps())
      ensures forall k :: 0 <= k < |elements| ==>
        elements[k].parent == old(elements)[k].parent || elements[k].parent == Reps()[k]
      decreases Top(level) - level[i]
    {
      CompressedRoots(Parents(elements), level, i);
      if elements[i].parent != i {
        r := Find(elements[i].parent);
        elements := elements[i := elements[i].(parent := r)];
        assert Parents(elements) == Compressed(old(Parents(elements)), level, i);
      }
      r := elements[i].parent;
    }

    /** Joins the two arguments: `b`, with everything below it, goes under the representative of `a`,
        and its constraints go to `a`. The rest of `b`'s class stays behind unless `b` is its
        representative, and the constraints are found again only if `a` is one. */
    method Join(a: nat, b: nat) returns (r: nat)
      requires Valid() && a < |elements| && b < |elements|
      modifies this
      ensures Valid() && |elements| == old(|elements|) && r == old(Reps())[a]
      ensures Stored(elements) == old(Stored(elements))
      ensures Moved(old(Reps()), Reps(), a, b)
      ensures Merged(old(Reps()), Reps(), a, b) <==> old(Reps())[b] == b || old(Reps())[a] == old(Reps())[b]
      ensures Cons(elements) ==
        if old(Reps())[a] == old(Reps())[b] then old(Cons(elements)) else HandOver(old(Cons(elements)), a, b)
      ensures old(AtRepresentatives()) ==>
        (AtRepresentatives() <==>
          old(Reps())[a] == a || old(elements)[b].constraints == [] || old(Reps())[a] == old(Reps())[b])
    {
      hide Forest, Root, Stored, Merged, Moved, AtRoots, Compressed, Top;
      r := Find(a);
      var j := Find(b);
      ghost var q := Reps();
      SameDataStored(elements, old(elements));
      SameCons(elements, old(elements));
      SameClass(q, a, b);
      if r == j { return; }
      var x, y := elements[a], elements[b];
      HungRootsAll(elements, level, a, b);
      HungStored(elements, a, b);
      HungCons(elements, a, b);
      if AtRoots(Cons(elements), q) {
        HungAtRoots(Cons(elements), q, Roots(Hung(elements, a, b), Raised(level, r, b)), a, b);
      }
      if x.rank >= y.rank {
        level := Raised(level, r, b);
        elements := Hung(elements, a, b);
      }
    }

    /** Files constraint `e`, which mentions the arrays `ufes`: they end in one class, whose
        representative stores it. Only elements of their classes move, and only there. If constraints
        were kept at representatives, they still are exactly if no array that hands its constraints
        over hands them to one that is not the representative. */
    method UpdateStructures(ufes: seq<nat>, e: Expr)
      requires Valid() && forall k :: 0 <= k < |ufes| ==> ufes[k] < |elements|
      modifies this
      ensures Valid() && |elements| == old(|elements|)
      ensures ufes == [] ==> elements == old(elements)
      ensures ufes != [] ==> Stored(elements) == old(Stored(elements)) + multiset{e}
      ensures ufes != [] ==> e in elements[old(Reps())[ufes[0]]].constraints
      ensures ufes != [] ==> Gathered(old(Reps()), ufes, |ufes|, Reps())
      ensures ufes != [] && old(AtRepresentatives()) ==>
        (AtRepresentatives() <==> Kept(old(Reps()), old(Cons(elements)), ufes, |ufes|))
    {
      hide Forest, Root, Stored, Merged, AtRoots, Compressed, Top, Gathered, Chained, Moved, Kept;
      if |ufes| == 0 { return; }
      var rep := 0;
      if |ufes| == 1 {
        rep := Find(ufes[0]);
        SameDataStored(elements, old(elements));
        SameCons(elements, old(elements));
      }
      RootInside(elements, level);
      ChainStart(Reps(), Cons(elements), ufes);
      var it := 1;
      while it < |ufes|
        invariant 1 <= it <= |ufes| && Valid() && |elements| == old(|elements|)
        invariant it > 1 || |ufes| == 1 ==> rep == old(Reps())[ufes[0]] < |elements|
        invariant Stored(elements) == old(Stored(elements))
        invariant Chained(old(Reps()), old(Cons(elements)), ufes, it, Reps(), Cons(elements))
      {
        ghost var q, c := Reps(), Cons(elements);
        RootInside(elements, level);
        ChainRep(old(Reps()), old(Cons(elements)), ufes, it, q, c);
        rep := Join(ufes[it - 1], ufes[it]);
        ChainStep(old(Reps()), old(Cons(elements)), ufes, it, q, c, Reps(), Cons(elements));
        it := it + 1;
      }
      ghost var c := Cons(elements);
      RootInside(elements, level);
      ChainEnd(old(Reps()), old(Cons(elements)), ufes, Reps(), c, e);
      Push(rep, e);
    }

    method Push(i: nat, e: Expr)
      requires Valid() && i < |elements|
      modifies this`elements
      ensures Valid() && |elements| == old(|elements|) && Reps() == old(Reps())
      ensures Stored(elements) == old(Stored(elements)) + multiset{e}
      ensures Cons(elements) == old(Cons(elements))[i := old(Cons(elements))[i] + [e]]
    {
      var x := elements[i].(constraints := elements[i].constraints + [e]);
      forall y ensures Stored(elements[i := x])[y] == (Stored(elements) + multiset{e})[y] {
        hide Stored;
        StoredUpdate(elements, i, x, y);
      }
      assert Parents(elements[i := x]) == Parents(elements);
      elements := elements[i := x];
    }
  }

  lemma RootInside(es: seq<Element>, level: seq<nat>)
    requires Forest(Parents(es), level)
    ensures IsReps(Roots(es, level))
  {
  }

  /** Representatives represent themselves. */
  predicate IsReps(q: seq<nat>) {
    forall k :: 0 <= k < |q| ==> q[k] < |q| && q[q[k]] == q[k]
  }

  // ----- joining a list of arrays, one with the next -----

  /** The first `n` arrays are in the class of the first one; an element has either not moved or was in
      the class of one of them and is there now; a representative has moved only if it is one of them. */
  ghost predicate Gathered(q0: seq<nat>, us: seq<nat>, n: nat, q: seq<nat>) {
    && 0 < n <= |us| && |q| == |q0| && (forall j :: 0 <= j < |us| ==> us[j] < |q|)
    && (forall j :: 0 <= j < n ==> q[us[j]] == q0[us[0]])
    && (forall k :: 0 <= k < |q| ==> q[k] == q0[k] || (q[k] == q0[us[0]] && ClassOf(q0, us, n, k)))
    && (forall k :: 0 <= k < |q| && q0[k] == k && k !in us[..n] ==> q[k] == k)
  }

  ghost predicate ClassOf(q0: seq<nat>, us: seq<nat>, n: nat, k: nat)
    requires k < |q0| && n <= |us| && forall j :: 0 <= j < |us| ==> us[j] < |q0|
  {
    exists j :: 0 <= j < n && q0[us[j]] == q0[k]
  }

  /** When array `t` is joined, its constraints stay findable: the array before it is the representative,
      or there is nothing to hand over, or it is in the class already. */
  predicate Hands(q0: seq<nat>, c0: seq<seq<Expr>>, us: seq<nat>, t: nat)
    requires 0 < t < |us| && |c0| == |q0| && forall j :: 0 <= j < |us| ==> us[j] < |q0|
  {
    us[t - 1] == q0[us[0]] || c0[us[t]] == [] || q0[us[t]] == q0[us[0]] || us[t] in us[..t]
  }

  predicate Kept(q0: seq<nat>, c0: seq<seq<Expr>>, us: seq<nat>, n: nat)
    requires n <= |us| && |c0| == |q0| && forall j :: 0 <= j < |us| ==> us[j] < |q0|
  {
    forall t :: 0 < t < n ==> Hands(q0, c0, us, t)
  }

  ghost predicate Chained(q0: seq<nat>, c0: seq<seq<Expr>>, us: seq<nat>, n: nat, q: seq<nat>, c: seq<seq<Expr>>) {
    && Gathered(q0, us, n, q) && |c0| == |q0| == |c|
    && (forall k :: 0 <= k < |c| && k !in us[..n] ==> c[k] == c0[k])
    && (AtRoots(c0, q0) ==> (AtRoots(c, q) <==> Kept(q0, c0, us, n)))
  }

  lemma ChainStart(q0: seq<nat>, c0: seq<seq<Expr>>, us: seq<nat>)
    requires us != [] && |c0| == |q0| && forall j :: 0 <= j < |us| ==> us[j] < |q0|
    ensures Chained(q0, c0, us, 1, q0, c0)
  {
  }

  lemma ChainRep(q0: seq<nat>, c0: seq<seq<Expr>>, us: seq<nat>, n: nat, q: seq<nat>, c: seq<seq<Expr>>)
    requires Chained(q0, c0, us, n, q, c)
    ensures q[us[n - 1]] == q0[us[0]]
  {
  }

  lemma GatherStep(q0: seq<nat>, us: seq<nat>, n: nat, q: seq<nat>, q': seq<nat>)
    requires Gathered(q0, us, n, q) && n < |us| && Moved(q, q', us[n - 1], us[n])
    ensures Gathered(q0, us, n + 1, q')
  {
    assert us[..n + 1] == us[..n] + [us[n]];
    var r := q0[us[0]];
    forall k | 0 <= k < |q| ensures q'[k] == q0[k] || (q'[k] == r && ClassOf(q0, us, n + 1, k)) {
      if q'[k] != q0[k] && q[k] == q0[k] {
        assert q[k] == q[us[n]] == q0[us[n]];
      }
    }
    forall j | 0 <= j < n + 1 ensures q'[us[j]] == r {
      assert q'[us[n - 1]] == q'[us[n]] == r;
    }
  }

  lemma SameMoved(q: seq<nat>, q': seq<nat>, a: nat, b: nat)
    requires a < |q| && b < |q| && Moved(q, q', a, b)
    ensures q[a] == q[b] ==> q' == q
  {
  }

  lemma ChainStep(q0: seq<nat>, c0: seq<seq<Expr>>, us: seq<nat>, n: nat,
                  q: seq<nat>, c: seq<seq<Expr>>, q': seq<nat>, c': seq<seq<Expr>>)
    requires Chained(q0, c0, us, n, q, c) && n < |us| && IsReps(q)
    requires Moved(q, q', us[n - 1], us[n])
    requires c' == if q[us[n - 1]] == q[us[n]] then c else HandOver(c, us[n - 1], us[n])
    ensures Chained(q0, c0, us, n + 1, q', c')
  {
    GatherStep(q0, us, n, q, q');
    var a, b := us[n - 1], us[n];
    SameMoved(q, q', a, b);
    ConsStep(c0, us, n, c, c');
    KeptStep(q0, c0, us, n);
    if AtRoots(c0, q0) {
      if AtRoots(c, q) {
        KeepStep(q0, c0, us, n, q, c);
        hide Gathered, Kept, Hands;
        if q[a] != q[b] {
          hide HandOver;
          HungAtRoots(c, q, q', a, b);
        }
      } else {
        FailStep(q0, c0, us, n, q, c, q', c');
        hide Gathered, Kept, Hands, AtRoots, HandOver, Moved;
      }
    }
  }

  lemma ConsStep(c0: seq<seq<Expr>>, us: seq<nat>, n: nat, c: seq<seq<Expr>>, c': seq<seq<Expr>>)
    requires 0 < n < |us| && us[n - 1] < |c| && us[n] < |c| == |c0|
    requires c' == c || c' == HandOver(c, us[n - 1], us[n])
    requires forall k :: 0 <= k < |c| && k !in us[..n] ==> c[k] == c0[k]
    ensures |c'| == |c| && forall k :: 0 <= k < |c| && k !in us[..n + 1] ==> c'[k] == c0[k]
  {
    assert us[..n + 1] == us[..n] + [us[n]] && us[n - 1] in us[..n];
  }

  lemma KeptStep(q0: seq<nat>, c0: seq<seq<Expr>>, us: seq<nat>, n: nat)
    requires 0 < n < |us| && |c0| == |q0| && forall j :: 0 <= j < |us| ==> us[j] < |q0|
    ensures Kept(q0, c0, us, n + 1) <==> Kept(q0, c0, us, n) && Hands(q0, c0, us, n)
  {
    hide Hands;
  }

  /** Said about the first state, or about the state the join meets: the same. */
  lemma KeepStep(q0: seq<nat>, c0: seq<seq<Expr>>, us: seq<nat>, n: nat, q: seq<nat>, c: seq<seq<Expr>>)
    requires Chained(q0, c0, us, n, q, c) && n < |us| && AtRoots(c0, q0)
    ensures Hands(q0, c0, us, n) <==> q[us[n - 1]] == us[n - 1] || c[us[n]] == [] || q[us[n - 1]] == q[us[n]]
  {
    var b := us[n];
    if b in us[..n] { var j :| 0 <= j < n && us[j] == b; }
  }

  /** A constraint once misplaced stays so. */
  lemma FailStep(q0: seq<nat>, c0: seq<seq<Expr>>, us: seq<nat>, n: nat,
                 q: seq<nat>, c: seq<seq<Expr>>, q': seq<nat>, c': seq<seq<Expr>>)
    requires Chained(q0, c0, us, n, q, c) && n < |us| && IsReps(q) && AtRoots(c0, q0) && !AtRoots(c, q)
    requires Moved(q, q', us[n - 1], us[n]) && |c'| == |c|
    requires c' == if q[us[n - 1]] == q[us[n]] then c else HandOver(c, us[n - 1], us[n])
    ensures !AtRoots(c', q')
  {
    var a, b := us[n - 1], us[n];
    SameMoved(q, q', a, b);
    var x :| 0 <= x < |c| && c[x] != [] && q[x] != x;
    if q[a] != q[b] {
      assert forall j :: 0 <= j < n ==> us[j] != b;
      assert x != b;
      assert c'[x] != [] && q'[x] != x;
    }
  }

  lemma ChainEnd(q0: seq<nat>, c0: seq<seq<Expr>>, us: seq<nat>, q: seq<nat>, c: seq<seq<Expr>>, e: Expr)
    requires us != [] && Chained(q0, c0, us, |us|, q, c) && IsReps(q)
    ensures var r := q0[us[0]];
      && Gathered(q0, us, |us|, q) && r < |c| && e in c[r := c[r] + [e]][r]
      && (AtRoots(c0, q0) ==> (AtRoots(c[r := c[r] + [e]], q) <==> Kept(q0, c0, us, |us|)))
  {
    var r := q0[us[0]];
    assert q[us[0]] == r && q[r] == r;
    var c' := c[r := c[r] + [e]];
    assert AtRoots(c', q) <==> AtRoots(c, q) by {
      assert forall k :: 0 <= k < |c| && k != r ==> c'[k] == c[k];
    }
  }

  /** Without the condition the classes really come apart: hanging 1, which is below 0, below 2 leaves
      0 behind. */
  lemma JoinSplits()
    ensures var p := [0, 0, 2]; var level := [1, 0, 0];
      && Forest(p, level) && Root(p, level, 0) == Root(p, level, 1)
      && Forest(p[1 := 2], Raised(level, 2, 1))
      && Root(p[1 := 2], Raised(level, 2, 1), 0) != Root(p[1 := 2], Raised(level, 2, 1), 1)
  {
    var p: seq<nat>, level: seq<nat> := [0, 0, 2], [1, 0, 0];
    HungForest(p, level, 2, 1);
    assert Root(p, level, 1) == 0;
    assert p[1 := 2] == [0, 2, 2];
  }

  lemma SameClass(q: seq<nat>, a: nat, b: nat)
    requires a < |q| && b < |q|
    ensures q[a] == q[b] ==> Moved(q, q, a, b) && Merged(q, q, a, b)
  {
  }

  lemma SameCons(es: seq<Element>, fs: seq<Element>)
    requires SameData(es, fs)
    ensures Cons(es) == Cons(fs)
  {
    forall k | 0 <= k < |es| ensures es[k].constraints == fs[k].constraints {
      assert es[k] == fs[k].(parent := es[k].parent);
    }
  }

  ghost function Roots(es: seq<Element>, level: seq<nat>): (q: seq<nat>)
    requires Forest(Parents(es), level)
    ensures |q| == |es| && forall k :: 0 <= k < |q| ==> q[k] == Root(Parents(es), level, k)
  {
    seq(|es|, k requires 0 <= k < |es| => Root(Parents(es), level, k))
  }

  /** The constraints stored at each element. */
  function Cons(es: seq<Element>): (c: seq<seq<Expr>>)
    ensures |c| == |es| && forall k :: 0 <= k < |c| ==> c[k] == es[k].constraints
  {
    seq(|es|, k requires 0 <= k < |es| => es[k].constraints)
  }

  predicate AtRoots(c: seq<seq<Expr>>, reps: seq<nat>)
    requires |reps| == |c|
  {
    forall k :: 0 <= k < |c| && c[k] != [] ==> reps[k] == k
  }

  /** What a join of different classes does with the constraints. */
  function HandOver(c: seq<seq<Expr>>, a: nat, b: nat): seq<seq<Expr>>
    requires a < |c| && b < |c|
  {
    c[b := []][a := c[a] + c[b]]
  }

  /** `a` and `b` end in one class, that of `a`; only elements of `b`'s class may have moved, and a
      representative other than `b` has not. */
  predicate Moved(q: seq<nat>, q': seq<nat>, a: nat, b: nat)
    requires a < |q| && b < |q|
  {
    && |q'| == |q| && q'[a] == q'[b] == q[a]
    && (forall k :: 0 <= k < |q| ==> q'[k] == q[k] || (q'[k] == q[a] && q[k] == q[b]))
    && (forall k :: 0 <= k < |q| && q[k] == k != b ==> q'[k] == k)
  }

  /** The two classes became one and every other class stayed. */
  predicate Merged(q: seq<nat>, q': seq<nat>, a: nat, b: nat)
    requires a < |q| && b < |q|
  {
    |q'| == |q| && forall k :: 0 <= k < |q| ==> q'[k] == if q[k] == q[b] then q[a] else q[k]
  }

  /** The effect of `join` on elements of different classes, once both paths are compressed. */
  function Hung(es: seq<Element>, a: nat, b: nat): (fs: seq<Element>)
    requires a < |es| && b < |es|
    ensures |fs| == |es|
  {
    es[b := es[b].(parent := es[a].parent, constraints := [])]
      [a := es[a].(constraints := es[a].constraints + es[b].constraints)]
  }

  lemma HungStored(es: seq<Element>, a: nat, b: nat)
    requires a < |es| && b < |es| && a != b
    ensures Stored(Hung(es, a, b)) == Stored(es)
  {
    var mid := es[b := es[b].(parent := es[a].parent, constraints := [])];
    var e := es[a].(constraints := es[a].constraints + es[b].constraints);
    assert Hung(es, a, b) == mid[a := e] && mid[a] == es[a];
    forall x ensures Stored(Hung(es, a, b))[x] == Stored(es)[x] {
      hide Stored;
      StoredUpdate(es, b, mid[b], x);
      StoredUpdate(mid, a, e, x);
    }
  }

  lemma HungParents(es: seq<Element>, level: seq<nat>, a: nat, b: nat)
    requires Forest(Parents(es), level) && a < |es| && b < |es|
    requires es[a].parent == Root(Parents(es), level, a) != Root(Parents(es), level, b)
    ensures Parents(Hung(es, a, b)) == Parents(es)[b := es[a].parent]
    ensures Forest(Parents(Hung(es, a, b)), Raised(level, es[a].parent, b))
  {
    HungForest(Parents(es), level, es[a].parent, b);
  }

  /** What hanging `b` below the root `r` does to one element's representative. */
  predicate HungAt(q: seq<nat>, q': seq<nat>, r: nat, b: nat, k: nat)
    requires k < |q| == |q'| && b < |q|
  {
    && (q'[k] == q[k] || (q'[k] == r && q[k] == q[b]))
    && (q[b] == b && q[k] == b ==> q'[k] == r)
    && (q[k] == k != b ==> q'[k] == k)
    && (k == b ==> q'[k] == r)
  }

  lemma HungClasses(q: seq<nat>, q': seq<nat>, a: nat, b: nat)
    requires a < |q| == |q'| && b < |q| && q[a] != q[b] && q[b] < |q| && q[q[b]] == q[b]
    requires forall k :: 0 <= k < |q| ==> HungAt(q, q', q[a], b, k)
    ensures Moved(q, q', a, b) && (Merged(q, q', a, b) <==> q[b] == b)
  {
    assert HungAt(q, q', q[a], b, q[b]) && HungAt(q, q', q[a], b, a) && HungAt(q, q', q[a], b, b);
    forall k | 0 <= k < |q|
      ensures q'[k] == q[k] || (q'[k] == q[a] && q[k] == q[b])
      ensures q[k] == k != b ==> q'[k] == k
      ensures q[b] == b ==> q'[k] == if q[k] == q[b] then q[a] else q[k]
    {
      assert HungAt(q, q', q[a], b, k);
    }
  }

  lemma HungRootsAll(es: seq<Element>, level: seq<nat>, a: nat, b: nat)
    requires Forest(Parents(es), level) && a < |es| && b < |es|
    requires es[a].parent == Root(Parents(es), level, a) != Root(Parents(es), level, b)
    ensures Forest(Parents(Hung(es, a, b)), Raised(level, es[a].parent, b))
    ensures Moved(Roots(es, level), Roots(Hung(es, a, b), Raised(level, es[a].parent, b)), a, b)
    ensures Merged(Roots(es, level), Roots(Hung(es, a, b), Raised(level, es[a].parent, b)), a, b)
      <==> Root(Parents(es), level, b) == b
  {
    hide Moved, Merged;
    HungParents(es, level, a, b);
    var r, p := es[a].parent, Parents(es);
    var q, q' := Roots(es, level), Roots(Hung(es, a, b), Raised(level, r, b));
    forall k | 0 <= k < |es| ensures HungAt(q, q', r, b, k) {
      HungRoots(p, level, r, b, k);
      ThroughRoot(p, level, k, b);
    }
    HungClasses(q, q', a, b);
  }

  lemma HungCons(es: seq<Element>, a: nat, b: nat)
    requires a < |es| && b < |es| && a != b
    ensures Cons(Hung(es, a, b)) == HandOver(Cons(es), a, b)
  {
  }

  lemma HungAtRoots(c: seq<seq<Expr>>, q: seq<nat>, q': seq<nat>, a: nat, b: nat)
    requires a < |c| == |q| && b < |c| && Moved(q, q', a, b) && q[a] != q[b] && AtRoots(c, q)
    ensures AtRoots(HandOver(c, a, b), q') <==> q[a] == a || c[b] == []
  {
    if q[a] != a && c[b] != [] {
      assert HandOver(c, a, b)[a] != [];
    }
  }

  lemma {:induction false} GrownRoot(p: seq<nat>, level: seq<nat>, k: nat)
    requires Forest(p, level) && k < |p|
    ensures Forest(p + [|p|], level + [0]) && Root(p + [|p|], level + [0], k) == Root(p, level, k)
    decreases Top(level) - level[k]
  {
    if p[k] != k { GrownRoot(p, level, p[k]); }
  }
}
