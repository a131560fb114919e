/** What deleting an update node sets off. A node refers to an index and a value, expressions refer to their
    kids, and a read holds an update list of its own: releasing one reference can delete nodes and
    expressions in turn, and `tryFreeNodes` is entered again while it walks. Counts stay exact throughout,
    because every call under way still owns the references it has yet to release. */
module Cascade {
  import opened Counting

  type Address = nat

  /** An update node or an expression, with the references it owns, in the order they are released: for a node
      its value, its index and the next node, for a read its index and the head of its update list, for any
      other expression its kids. */
  datatype Object = Object(refCount: nat, owns: seq<Address>)

  type Heap = map<Address, Object>

  // ----- counting references -----

  /** All references that objects own. */
  ghost function Edges(heap: Heap): multiset<Address> {
    if heap == map[] then multiset{}
    else
      var m :| m in heap;
      multiset(heap[m].owns) + Edges(heap - {m})
  }

  lemma {:induction false} EdgesRemove(heap: Heap, a: Address)
    requires a in heap
    ensures Edges(heap) == multiset(heap[a].owns) + Edges(heap - {a})
    decreases |heap|
  {
    var m :| m in heap && Edges(heap) == multiset(heap[m].owns) + Edges(heap - {m});
    if m != a {
      EdgesRemove(heap - {m}, a);
      EdgesRemove(heap - {a}, m);
      assert heap - {m} - {a} == heap - {a} - {m};
    }
  }

  function Recounted(heap: Heap, a: Address, c: nat): Heap
    requires a in heap
  {
    heap[a := heap[a].(refCount := c)]
  }

  lemma EdgesRecount(heap: Heap, a: Address, c: nat)
    requires a in heap
    ensures Edges(Recounted(heap, a, c)) == Edges(heap)
  {
    EdgesRemove(heap, a);
    EdgesRemove(Recounted(heap, a, c), a);
    assert Recounted(heap, a, c) - {a} == heap - {a};
  }

  /** `held` are the references from outside, and those that calls under way have yet to release. */
  ghost predicate Counted(heap: Heap, held: multiset<Address>) {
    forall n :: n in heap ==> heap[n].refCount == Edges(heap)[n] + held[n] > 0
  }

  /** References lead to objects, and downwards. */
  ghost predicate Linked(heap: Heap, rank: map<Address, nat>) {
    && heap.Keys <= rank.Keys
    && forall m, x :: m in heap && x in heap[m].owns ==> x in heap && rank[x] < rank[m]
  }

  ghost predicate Sound(heap: Heap, rank: map<Address, nat>, held: multiset<Address>) {
    Linked(heap, rank) && Counted(heap, held) && forall x :: x in held ==> x in heap
  }

  /** Objects are only ever removed whole, apart from their counts. */
  ghost predicate Within(small: Heap, large: Heap) {
    forall n :: n in small ==> n in large && small[n].owns == large[n].owns
  }

  // ----- single steps -----

  lemma RecountLinked(heap: Heap, rank: map<Address, nat>, a: Address, c: nat)
    requires Linked(heap, rank) && a in heap
    ensures Linked(Recounted(heap, a, c), rank) && Within(Recounted(heap, a, c), heap)
  {
  }

  lemma DropSound(heap: Heap, rank: map<Address, nat>, held: multiset<Address>, a: Address)
    requires Sound(heap, rank, held + multiset{a}) && a in heap && heap[a].refCount > 1
    ensures Sound(Recounted(heap, a, heap[a].refCount - 1), rank, held)
  {
    hide Edges, Linked, Within;
    var c := heap[a].refCount - 1;
    EdgesRecount(heap, a, c);
    RecountLinked(heap, rank, a, c);
    forall n | n in heap ensures Recounted(heap, a, c)[n].refCount == Edges(heap)[n] + held[n] > 0 {
      assert (held + multiset{a})[n] == held[n] + One(n == a);
    }
    forall x | x in held ensures x in heap { assert x in held + multiset{a}; }
  }

  lemma OwnedCounts(heap: Heap, m: Address, x: Address)
    requires m in heap && x in heap[m].owns
    ensures Edges(heap)[x] > 0
  {
    EdgesRemove(heap, m);
    assert x in multiset(heap[m].owns);
  }

  lemma DeleteLinked(heap: Heap, rank: map<Address, nat>, a: Address)
    requires Linked(heap, rank) && a in heap && Edges(heap)[a] == 0
    ensures Linked(heap - {a}, rank) && a !in heap[a].owns && Within(heap - {a}, heap)
  {
    hide Edges;
    forall m | m in heap ensures a !in heap[m].owns {
      if a in heap[m].owns { OwnedCounts(heap, m, a); }
    }
  }

  /** The last reference is gone: the object goes, and what it owned is held by the call that deletes it. */
  lemma DeleteSound(heap: Heap, rank: map<Address, nat>, held: multiset<Address>, a: Address)
    requires Sound(heap, rank, held + multiset{a}) && a in heap && heap[a].refCount == 1
    ensures Sound(heap - {a}, rank, held + multiset(heap[a].owns))
  {
    hide Edges;
    assert (held + multiset{a})[a] == held[a] + 1;
    assert Edges(heap)[a] == 0 && held[a] == 0;
    EdgesRemove(heap, a);
    DeleteLinked(heap, rank, a);
    forall x | x in held + multiset(heap[a].owns) ensures x in heap - {a} {
      if x in held { assert x in held + multiset{a}; }
    }
    hide Linked;
    forall n | n in heap - {a}
      ensures heap[n].refCount == Edges(heap - {a})[n] + (held + multiset(heap[a].owns))[n] > 0
    {
      assert (held + multiset{a})[n] == held[n];
    }
  }

  lemma WithinTrans(small: Heap, mid: Heap, large: Heap)
    ensures Within(mid, mid)
    ensures Within(small, mid) && Within(mid, large) ==> Within(small, large)
  {
  }

  lemma HeldExists(heap: Heap, rank: map<Address, nat>, held: multiset<Address>, a: Address)
    requires Sound(heap, rank, held + multiset{a})
    ensures a in heap && heap[a].refCount > 0
  {
    assert a in held + multiset{a};
  }

  /** Releases one reference, and all that only it kept alive. */
  method Release(heap: Heap, a: Address, ghost rank: map<Address, nat>, ghost held: multiset<Address>)
    returns (after: Heap)
    requires Sound(heap, rank, held + multiset{a})
    ensures Sound(after, rank, held) && Within(after, heap) && |after| <= |heap|
    decreases |heap|
  {
    hide Sound, Within, Edges;
    HeldExists(heap, rank, held, a);
    WithinTrans(heap, heap, heap);
    if heap[a].refCount > 1 {
      DropSound(heap, rank, held, a);
      after := Recounted(heap, a, heap[a].refCount - 1);
      RecountSize(heap, a, heap[a].refCount - 1);
      return;
    }
    DeleteSound(heap, rank, held, a);
    DeleteSize(heap, a);
    var owns := heap[a].owns;
    after := heap - {a};
    assert owns[0..] == owns;
    for k := 0 to |owns|
      invariant Sound(after, rank, held + multiset(owns[k..])) && Within(after, heap) && |after| < |heap|
    {
      assert owns[k..] == [owns[k]] + owns[k + 1..];
      assert held + multiset(owns[k..]) == held + multiset(owns[k + 1..]) + multiset{owns[k]};
      var next := Release(after, owns[k], rank, held + multiset(owns[k + 1..]));
      WithinTrans(next, after, heap);
      after := next;
    }
    assert owns[|owns|..] == [];
    assert held + multiset(owns[|owns|..]) == held;
  }

  lemma RecountSize(heap: Heap, a: Address, c: nat)
    requires a in heap
    ensures |Recounted(heap, a, c)| == |heap| && Within(Recounted(heap, a, c), heap)
  {
    assert Recounted(heap, a, c).Keys == heap.Keys;
    assert |heap| == |heap.Keys| && |Recounted(heap, a, c)| == |Recounted(heap, a, c).Keys|;
  }

  lemma DeleteSize(heap: Heap, a: Address)
    requires a in heap
    ensures |heap - {a}| < |heap| && Within(heap - {a}, heap)
  {
    assert (heap - {a}).Keys == heap.Keys - {a};
    assert |heap| == |heap.Keys| && |heap - {a}| == |(heap - {a}).Keys|;
  }

  // ----- nothing leaks, nothing dangles -----

  /** `n` is reached from `m` by following references. */
  ghost predicate Reaches(heap: Heap, rank: map<Address, nat>, m: Address, n: Address)
    requires Linked(heap, rank) && m in heap
    decreases rank[m]
  {
    m == n || exists x :: x in heap[m].owns && Reaches(heap, rank, x, n)
  }

  lemma {:induction false} ReachesStep(heap: Heap, rank: map<Address, nat>, m: Address, n: Address, x: Address)
    requires Linked(heap, rank) && m in heap && n in heap && Reaches(heap, rank, m, n) && x in heap[n].owns
    ensures Reaches(heap, rank, m, x)
    decreases rank[m]
  {
    if m == n {
      assert Reaches(heap, rank, x, x);
    } else {
      var y :| y in heap[m].owns && Reaches(heap, rank, y, n);
      ReachesStep(heap, rank, y, n, x);
    }
  }

  lemma {:induction false} Owner(heap: Heap, n: Address) returns (m: Address)
    requires Edges(heap)[n] > 0
    ensures m in heap && n in heap[m].owns
    decreases |heap|
  {
    var o :| o in heap && Edges(heap) == multiset(heap[o].owns) + Edges(heap - {o});
    if n in heap[o].owns { m := o; } else { m := Owner(heap - {o}, n); }
  }

  ghost function Ranks(heap: Heap, rank: map<Address, nat>): set<nat>
    requires heap.Keys <= rank.Keys
  {
    set m | m in heap :: rank[m]
  }

  lemma {:induction false} HeldReaches(heap: Heap, rank: map<Address, nat>, held: multiset<Address>, n: Address)
    returns (r: Address)
    requires Sound(heap, rank, held) && n in heap
    ensures r in held && r in heap && Reaches(heap, rank, r, n)
    decreases Bound(Ranks(heap, rank)) - rank[n]
  {
    assert rank[n] in Ranks(heap, rank);
    if n in held {
      r := n;
    } else {
      var m := Owner(heap, n);
      assert rank[m] in Ranks(heap, rank);
      r := HeldReaches(heap, rank, held, m);
      ReachesStep(heap, rank, r, m, n);
    }
  }

  /** What is reached from a survivor survives. */
  lemma {:induction false} SurvivorReaches(small: Heap, large: Heap, rank: map<Address, nat>, m: Address, n: Address)
    requires Linked(small, rank) && Linked(large, rank) && Within(small, large) && m in small
    ensures Reaches(small, rank, m, n) <==> Reaches(large, rank, m, n)
    ensures Reaches(large, rank, m, n) ==> n in small
    decreases rank[m]
  {
    forall x | x in small[m].owns
      ensures Reaches(small, rank, x, n) <==> Reaches(large, rank, x, n)
      ensures Reaches(large, rank, x, n) ==> n in small
    {
      SurvivorReaches(small, large, rank, x, n);
    }
  }

  ghost predicate Kept(heap: Heap, rank: map<Address, nat>, held: multiset<Address>, n: Address)
    requires Linked(heap, rank)
  {
    exists r :: r in held && r in heap && Reaches(heap, rank, r, n)
  }

  /** Once the calls under way have returned, exactly the objects that a held reference reached survive. */
  lemma SurvivorsExactly(before: Heap, after: Heap, rank: map<Address, nat>, held: multiset<Address>)
    requires Linked(before, rank) && Sound(after, rank, held) && Within(after, before)
    ensures forall n :: n in after <==> Kept(before, rank, held, n)
  {
    hide Reaches, Edges;
    forall n ensures n in after <==> Kept(before, rank, held, n) {
      if n in after {
        var r := HeldReaches(after, rank, held, n);
        SurvivorReaches(after, before, rank, r, n);
      }
      if r :| r in held && r in before && Reaches(before, rank, r, n) {
        SurvivorReaches(after, before, rank, r, n);
      }
    }
  }

  /** A list or an expression reference from outside goes away: exactly what the other references reach is
      left, with the references each object owns unchanged and all counts exact. */
  method Drop(heap: Heap, a: Address, ghost rank: map<Address, nat>, ghost held: multiset<Address>)
    returns (after: Heap)
    requires Sound(heap, rank, held + multiset{a})
    ensures Sound(after, rank, held) && Within(after, heap)
    ensures forall n :: n in after <==> Kept(heap, rank, held, n)
  {
    hide Edges, Counted, Kept;
    after := Release(heap, a, rank, held);
    SurvivorsExactly(heap, after, rank, held);
  }
}
