/** Update lists share their tails: nodes carry a reference count, and a list that goes away frees the
    nodes that only it could reach. The node store is explicit, so a node that was deleted is an
    address that is no longer there, and addresses can be reused. */
module UpdateLists {
  import opened Exprs
  import opened Options
  import opened Counting

  type Address = nat
  type Handle = nat

  datatype Node = Node(refCount: nat, next: Option<Address>, index: Expr, value: Expr, size: nat)

  datatype UpdateList = UpdateList(root: Option<Array>, head: Option<Address>)

  type Nodes = map<Address, Node>
  type Lists = map<Handle, UpdateList>

  // ----- who points where -----

  function Heads(lists: Lists, n: Address): set<Handle> {
    set l | l in lists && lists[l].head == Some(n)
  }

  function Before(nodes: Nodes, n: Address): set<Address> {
    set m | m in nodes && nodes[m].next == Some(n)
  }

  predicate Points(nodes: Nodes, a: Option<Address>) {
    a.Some? ==> a.value in nodes
  }

  function SizeAt(nodes: Nodes, a: Option<Address>): nat
    requires Points(nodes, a)
  {
    if a.None? then 0 else nodes[a.value].size
  }

  predicate Linked(nodes: Nodes) {
    forall m :: m in nodes ==> Points(nodes, nodes[m].next) && nodes[m].size == 1 + SizeAt(nodes, nodes[m].next)
  }

  predicate Held(nodes: Nodes, lists: Lists) {
    forall l :: l in lists ==> Points(nodes, lists[l].head)
  }

  /** Every count is the number of heads and next pointers to the node, plus a reference in flight. */
  ghost predicate Counted(nodes: Nodes, lists: Lists, flight: Option<Address>) {
    forall n :: n in nodes ==>
      nodes[n].refCount == |Heads(lists, n)| + |Before(nodes, n)| + One(flight == Some(n))
  }

  ghost predicate Sound(nodes: Nodes, lists: Lists, flight: Option<Address>) {
    && Linked(nodes) && Held(nodes, lists) && Points(nodes, flight) && Counted(nodes, lists, flight)
    && forall n :: n in nodes ==> nodes[n].refCount > 0
  }

  // ----- what a list contains -----

  function Contents(nodes: Nodes, a: Option<Address>): (u: Updates)
    requires Linked(nodes) && Points(nodes, a)
    decreases SizeAt(nodes, a)
  {
    match a
    case None => NoUpdate
    case Some(n) => Update(Contents(nodes, nodes[n].next), nodes[n].index, nodes[n].value)
  }

  function Chain(nodes: Nodes, a: Option<Address>): set<Address>
    requires Linked(nodes) && Points(nodes, a)
    decreases SizeAt(nodes, a)
  {
    match a
    case None => {}
    case Some(n) => {n} + Chain(nodes, nodes[n].next)
  }

  lemma {:induction false} SizeIsLength(nodes: Nodes, a: Option<Address>)
    requires Linked(nodes) && Points(nodes, a)
    ensures SizeAt(nodes, a) == UpdatesLength(Contents(nodes, a))
    decreases SizeAt(nodes, a)
  {
    if a.Some? { SizeIsLength(nodes, nodes[a.value].next); }
  }

  /** Nodes are only ever added or removed whole, apart from their counts. */
  ghost predicate Within(small: Nodes, large: Nodes) {
    forall n :: n in small ==> n in large && large[n].(refCount := small[n].refCount) == small[n]
  }

  lemma {:induction false} WithinContents(small: Nodes, large: Nodes, a: Option<Address>)
    requires Linked(small) && Linked(large) && Within(small, large) && Points(small, a)
    ensures Points(large, a) && Contents(large, a) == Contents(small, a) && Chain(large, a) == Chain(small, a)
    decreases SizeAt(small, a)
  {
    if a.Some? { WithinContents(small, large, small[a.value].next); }
  }

  // ----- counting -----

  lemma HeadsUpdate(lists: Lists, l: Handle, v: UpdateList, n: Address)
    ensures |Heads(lists[l := v], n)| + One(l in lists && lists[l].head == Some(n))
         == |Heads(lists, n)| + One(v.head == Some(n))
  {
    var rest := Heads(lists, n) - {l};
    assert Heads(lists, n) == if l in lists && lists[l].head == Some(n) then rest + {l} else rest;
    assert Heads(lists[l := v], n) == if v.head == Some(n) then rest + {l} else rest;
  }

  lemma HeadsRemove(lists: Lists, l: Handle, n: Address)
    requires l in lists
    ensures |Heads(lists - {l}, n)| + One(lists[l].head == Some(n)) == |Heads(lists, n)|
  {
    assert Heads(lists - {l}, n) == Heads(lists, n) - {l};
  }

  lemma BeforeAdd(nodes: Nodes, m: Address, v: Node, n: Address)
    requires m !in nodes
    ensures |Before(nodes[m := v], n)| == |Before(nodes, n)| + One(v.next == Some(n))
  {
    assert Before(nodes[m := v], n) == if v.next == Some(n) then Before(nodes, n) + {m} else Before(nodes, n);
  }

  function Recounted(nodes: Nodes, h: Address, c: nat): Nodes
    requires h in nodes
  {
    nodes[h := nodes[h].(refCount := c)]
  }

  /** A count is not part of the structure. */
  lemma RecountKeeps(nodes: Nodes, h: Address, c: nat)
    requires h in nodes && Linked(nodes)
    ensures Linked(Recounted(nodes, h, c)) && Within(nodes, Recounted(nodes, h, c))
    ensures Within(Recounted(nodes, h, c), nodes)
    ensures forall n :: Before(Recounted(nodes, h, c), n) == Before(nodes, n)
  {
    var after := Recounted(nodes, h, c);
    forall m | m in after
      ensures Points(after, after[m].next) && after[m].size == 1 + SizeAt(after, after[m].next)
    {
      assert Points(nodes, nodes[m].next);
    }
  }

  lemma BeforeRemove(nodes: Nodes, m: Address, n: Address)
    requires m in nodes
    ensures |Before(nodes - {m}, n)| + One(nodes[m].next == Some(n)) == |Before(nodes, n)|
  {
    assert Before(nodes - {m}, n) == Before(nodes, n) - {m};
  }

  // ----- nothing leaks -----

  ghost function Sizes(nodes: Nodes): set<nat> {
    set n | n in nodes :: nodes[n].size
  }

  lemma {:induction false} ChainStep(nodes: Nodes, a: Option<Address>, m: Address)
    requires Linked(nodes) && Points(nodes, a) && m in Chain(nodes, a)
    ensures m in nodes && nodes[m].next.Some? ==> nodes[m].next.value in Chain(nodes, a)
    decreases SizeAt(nodes, a)
  {
    if m != a.value { ChainStep(nodes, nodes[a.value].next, m); }
  }

  lemma {:induction false} Reached(nodes: Nodes, lists: Lists, n: Address) returns (l: Handle)
    requires Sound(nodes, lists, None) && n in nodes
    ensures l in lists && n in Chain(nodes, lists[l].head)
    decreases Bound(Sizes(nodes)) - nodes[n].size
  {
    assert nodes[n].size in Sizes(nodes);
    if Heads(lists, n) != {} {
      l :| l in Heads(lists, n);
    } else {
      assert Before(nodes, n) != {};
      var m :| m in Before(nodes, n);
      l := Reached(nodes, lists, m);
      ChainStep(nodes, lists[l].head, m);
    }
  }

  lemma {:induction false} ChainInside(nodes: Nodes, a: Option<Address>, n: Address)
    requires Linked(nodes) && Points(nodes, a) && n in Chain(nodes, a)
    ensures n in nodes
    decreases SizeAt(nodes, a)
  {
    if n != a.value { ChainInside(nodes, nodes[a.value].next, n); }
  }

  /** The nodes that exist are exactly those some list reaches. */
  lemma StoreIsReachable(nodes: Nodes, lists: Lists)
    requires Sound(nodes, lists, None)
    ensures forall n :: n in nodes <==> exists l :: l in lists && n in Chain(nodes, lists[l].head)
  {
    forall n ensures n in nodes <==> exists l :: l in lists && n in Chain(nodes, lists[l].head) {
      if n in nodes { var l := Reached(nodes, lists, n); }
      if l :| l in lists && n in Chain(nodes, lists[l].head) { ChainInside(nodes, lists[l].head, n); }
    }
  }

  // ----- single steps -----

  /** Taking a reference puts it in flight. */
  function Bumped(nodes: Nodes, a: Option<Address>): Nodes
    requires Points(nodes, a)
  {
    if a.None? then nodes else Recounted(nodes, a.value, nodes[a.value].refCount + 1)
  }

  lemma BumpSound(nodes: Nodes, lists: Lists, a: Option<Address>)
    requires Sound(nodes, lists, None) && Points(nodes, a)
    ensures Sound(Bumped(nodes, a), lists, a) && Within(nodes, Bumped(nodes, a)) && Within(Bumped(nodes, a), nodes)
  {
    hide Heads, Before;
    if a.Some? {
      hide Linked, Within;
      RecountKeeps(nodes, a.value, nodes[a.value].refCount + 1);
    }
  }

  /** Storing the reference in flight in a list that now has it as its head. */
  lemma StoreFlight(nodes: Nodes, lists: Lists, l: Handle, v: UpdateList)
    requires Sound(nodes, lists, v.head)
    ensures Sound(nodes, lists[l := v], if l in lists then lists[l].head else None)
  {
    forall n | n in nodes
      ensures nodes[n].refCount ==
        |Heads(lists[l := v], n)| + |Before(nodes, n)| + One(l in lists && lists[l].head == Some(n))
    {
      HeadsUpdate(lists, l, v, n);
    }
  }

  /** Dropping a reference that is not the last. */
  lemma DropSound(nodes: Nodes, lists: Lists, h: Address)
    requires Sound(nodes, lists, Some(h)) && nodes[h].refCount > 1
    ensures Sound(Recounted(nodes, h, nodes[h].refCount - 1), lists, None)
  {
    hide Heads, Before, Linked, Within;
    RecountKeeps(nodes, h, nodes[h].refCount - 1);
  }

  /** Dropping the last reference and deleting the node leaves its reference to the next in flight. */
  lemma DeleteSound(nodes: Nodes, lists: Lists, h: Address)
    requires Sound(nodes, lists, Some(h)) && nodes[h].refCount == 1
    ensures Sound(nodes - {h}, lists, nodes[h].next)
  {
    assert Heads(lists, h) == {} && Before(nodes, h) == {};
    assert forall l :: l in lists ==> l !in Heads(lists, h);
    assert forall m :: m in nodes ==> m !in Before(nodes, h);
    forall n | n in nodes - {h} ensures |Before(nodes - {h}, n)| + One(nodes[h].next == Some(n)) == |Before(nodes, n)| {
      BeforeRemove(nodes, h, n);
    }
  }

  lemma FlightExists(nodes: Nodes, lists: Lists, h: Address)
    requires Sound(nodes, lists, Some(h))
    ensures h in nodes && nodes[h].refCount > 0
  {
  }

  lemma WithinTrans(small: Nodes, mid: Nodes, large: Nodes)
    ensures Within(mid, mid)
    ensures Within(small, mid) && Within(mid, large) ==> Within(small, large)
  {
  }

  lemma Smaller(nodes: Nodes, h: Address)
    requires h in nodes
    ensures |nodes - {h}| < |nodes| && Within(nodes - {h}, nodes)
  {
    assert (nodes - {h}).Keys == nodes.Keys - {h};
    assert |nodes| == |nodes.Keys| && |nodes - {h}| == |(nodes - {h}).Keys|;
  }

  lemma RecountWithin(nodes: Nodes, h: Address, c: nat)
    requires h in nodes
    ensures Within(Recounted(nodes, h, c), nodes)
  {
  }

  function Extended(nodes: Nodes, head: Option<Address>, index: Expr, value: Expr, a: Address): Nodes
    requires Points(nodes, head)
  {
    nodes[a := Node(1, head, index, value, 1 + SizeAt(nodes, head))]
  }

  /** A new node in front of `head`: the list gives up its reference to the old head, the node takes
      one, and the list takes one to the node. The old head's count may touch zero in between, but
      nothing is freed, and in the end no old node has changed. */
  method NewNode(nodes: Nodes, head: Option<Address>, index: Expr, value: Expr, a: Address) returns (after: Nodes)
    requires Points(nodes, head) && a !in nodes && (head.Some? ==> nodes[head.value].refCount > 0)
    ensures after == Extended(nodes, head, index, value, a)
  {
    after := nodes;
    if head.Some? { after := Recounted(after, head.value, after[head.value].refCount - 1); }
    var size := 1 + SizeAt(after, head);
    if head.Some? { after := Recounted(after, head.value, after[head.value].refCount + 1); }
    after := after[a := Node(0, head, index, value, size)];
    after := Recounted(after, a, after[a].refCount + 1);
  }

  /** The store of nodes and the list objects alive. */
  class UpdateStore {
    var nodes: Nodes
    var lists: Lists

    constructor ()
      ensures Valid() && lists == map[]
    {
      nodes, lists := map[], map[];
    }

    ghost predicate Valid()
      reads this
    {
      Sound(nodes, lists, None)
    }

    /** What the list holds, most recent write first. */
    function ContentsOf(l: Handle): Updates
      requires Valid() && l in lists
      reads this
    {
      Contents(nodes, lists[l].head)
    }

    /** Drops the reference `head` and deletes every node that loses its last one. `owners` are the
        lists whose heads are counted meanwhile. */
    method TryFreeNodes(head: Option<Address>, ghost owners: Lists)
      requires Sound(nodes, owners, head)
      modifies this`nodes
      ensures Sound(nodes, owners, None) && Within(nodes, old(nodes))
    {
      hide Sound, Within;
      var h := head;
      WithinTrans(nodes, nodes, nodes);
      while h.Some?
        invariant Sound(nodes, owners, h) && Within(nodes, old(nodes))
        decreases |nodes|
      {
        FlightExists(nodes, owners, h.value);
        if nodes[h.value].refCount == 1 {
          DeleteSound(nodes, owners, h.value);
          Smaller(nodes, h.value);
          WithinTrans(nodes - {h.value}, nodes, old(nodes));
          var n := nodes[h.value].next;
          nodes := nodes - {h.value};
          h := n;
        } else {
          DropSound(nodes, owners, h.value);
          RecountWithin(nodes, h.value, nodes[h.value].refCount - 1);
          WithinTrans(Recounted(nodes, h.value, nodes[h.value].refCount - 1), nodes, old(nodes));
          nodes := Recounted(nodes, h.value, nodes[h.value].refCount - 1);
          return;
        }
      }
    }

    /** The copy constructor, and the constructor from a node of another list. */
    method Construct(l: Handle, root: Option<Array>, head: Option<Address>)
      requires Valid() && l !in lists && Points(nodes, head)
      modifies this
      ensures Valid() && lists == old(lists)[l := UpdateList(root, head)]
      ensures ContentsOf(l) == old(Contents(nodes, head))
      ensures forall k :: k in old(lists) ==> ContentsOf(k) == old(ContentsOf(k))
    {
      BumpSound(nodes, lists, head);
      StoreFlight(Bumped(nodes, head), lists, l, UpdateList(root, head));
      nodes := Bumped(nodes, head);
      lists := lists[l := UpdateList(root, head)];
      forall k | k in lists ensures Contents(nodes, lists[k].head) == Contents(old(nodes), lists[k].head) {
        WithinContents(nodes, old(nodes), lists[k].head);
      }
    }

    /** Destruction: the nodes left are exactly those another list reaches, which keep their contents. */
    method Destroy(l: Handle)
      requires Valid() && l in lists
      modifies this
      ensures Valid() && lists == old(lists) - {l}
      ensures forall k :: k in lists ==> ContentsOf(k) == old(ContentsOf(k))
      ensures forall n :: n in nodes <==>
        n in old(nodes) && exists k :: k in lists && n in Chain(old(nodes), lists[k].head)
    {
      forall n: Address ensures |Heads(lists - {l}, n)| + One(lists[l].head == Some(n)) == |Heads(lists, n)| {
        HeadsRemove(lists, l, n);
      }
      TryFreeNodes(lists[l].head, lists - {l});
      lists := lists - {l};
      Unaffected(old(nodes), nodes, lists);
    }

    /** Assignment, of a list to itself too. */
    method Assign(l: Handle, b: Handle)
      requires Valid() && l in lists && b in lists
      modifies this
      ensures Valid() && lists == old(lists)[l := old(lists)[b]]
      ensures ContentsOf(l) == old(ContentsOf(b))
      ensures forall k :: k in lists && k != l ==> ContentsOf(k) == old(ContentsOf(k))
      ensures forall n :: n in nodes <==>
        n in old(nodes) && exists k :: k in lists && n in Chain(old(nodes), lists[k].head)
    {
      var source := lists[b];
      BumpSound(nodes, lists, source.head);
      StoreFlight(Bumped(nodes, source.head), lists, l, source);
      nodes := Bumped(nodes, source.head);
      TryFreeNodes(lists[l].head, lists[l := source]);
      lists := lists[l := source];
      Unaffected(old(nodes), nodes, lists);
    }

    /** Prepends a write to one list; whoever shares its old nodes sees nothing. */
    method Extend(l: Handle, index: Expr, value: Expr, a: Address)
      requires Valid() && l in lists && a !in nodes
      requires lists[l].root.Some? ==>
        lists[l].root.value.domain == Width(index) && lists[l].root.value.range == Width(value)
      modifies this
      ensures Valid() && lists == old(lists)[l := old(lists)[l].(head := Some(a))]
      ensures ContentsOf(l) == Update(old(ContentsOf(l)), index, value)
      ensures forall k :: k in lists && k != l ==> ContentsOf(k) == old(ContentsOf(k))
    {
      ExtendSound(nodes, lists, l, index, value, a);
      ExtendContents(nodes, lists, l, index, value, a);
      hide Counted, Linked, Within, Width;
      nodes := NewNode(nodes, lists[l].head, index, value, a);
      lists := lists[l := lists[l].(head := Some(a))];
    }

    method GetSize(l: Handle) returns (n: nat)
      requires Valid() && l in lists
      ensures n == UpdatesLength(ContentsOf(l))
    {
      n := SizeAt(nodes, lists[l].head);
      SizeIsLength(nodes, lists[l].head);
    }
  }

  lemma ExtendSound(nodes: Nodes, lists: Lists, l: Handle, index: Expr, value: Expr, a: Address)
    requires Sound(nodes, lists, None) && l in lists && a !in nodes
    ensures Sound(Extended(nodes, lists[l].head, index, value, a), lists[l := lists[l].(head := Some(a))], None)
    ensures Within(nodes, Extended(nodes, lists[l].head, index, value, a))
  {
    var after, v := Extended(nodes, lists[l].head, index, value, a), lists[l].(head := Some(a));
    assert Linked(after);
    assert Heads(lists, a) == {} && Before(nodes, a) == {};
    forall n | n in after ensures after[n].refCount == |Heads(lists[l := v], n)| + |Before(after, n)| {
      HeadsUpdate(lists, l, v, n);
      BeforeAdd(nodes, a, after[a], n);
    }
  }

  lemma ExtendContents(nodes: Nodes, lists: Lists, l: Handle, index: Expr, value: Expr, a: Address)
    requires Sound(nodes, lists, None) && l in lists && a !in nodes
    requires var after := Extended(nodes, lists[l].head, index, value, a); Linked(after) && Within(nodes, after)
    ensures var after := Extended(nodes, lists[l].head, index, value, a);
      && Contents(after, Some(a)) == Update(Contents(nodes, lists[l].head), index, value)
      && forall k :: k in lists ==>
        Points(after, lists[k].head) && Contents(after, lists[k].head) == Contents(nodes, lists[k].head)
  {
    var after := Extended(nodes, lists[l].head, index, value, a);
    forall k | k in lists
      ensures Points(after, lists[k].head) && Contents(after, lists[k].head) == Contents(nodes, lists[k].head)
    {
      WithinContents(nodes, after, lists[k].head);
    }
  }

  /** After nodes were freed: what is left is what the lists reach, and they still hold what they held. */
  lemma Unaffected(before: Nodes, after: Nodes, lists: Lists)
    requires Linked(before) && Within(after, before) && Sound(after, lists, None)
    ensures forall k :: k in lists ==>
      Points(before, lists[k].head) && Contents(after, lists[k].head) == Contents(before, lists[k].head)
    ensures forall n :: n in after <==> n in before && exists k :: k in lists && n in Chain(before, lists[k].head)
  {
    StoreIsReachable(after, lists);
    forall k | k in lists
      ensures Points(before, lists[k].head) && Contents(after, lists[k].head) == Contents(before, lists[k].head)
      ensures Chain(after, lists[k].head) == Chain(before, lists[k].head)
    {
      WithinContents(after, before, lists[k].head);
    }
  }
}
