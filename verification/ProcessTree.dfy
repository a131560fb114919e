/** The process tree: which leaf belongs to which live state, how branching and termination reshape it,
    and the random walk that picks a state. Deleted nodes are addresses no longer in `nodes`. */
module ProcessTree {
  import opened Options
  import opened Counting
  import opened Bits

  type Address = nat
  type State = nat

  datatype Node = Node(parent: Option<Address>, left: Option<Address>, right: Option<Address>, data: Option<State>)

  type Nodes = map<Address, Node>

  predicate Leaf(n: Node) {
    n.left.None? && n.right.None?
  }

  predicate ChildOf(n: Node, c: Address) {
    n.left == Some(c) || n.right == Some(c)
  }

  /** Parent and child pointers agree, and depth grows by one along each edge. */
  ghost predicate Linked(nodes: Nodes, root: Address, depth: map<Address, nat>) {
    nodes.Keys <= depth.Keys && Down(nodes) && TwoSided(nodes) && Up(nodes, root, depth)
  }

  ghost predicate Down(nodes: Nodes) {
    forall n, c {:trigger ChildOf(nodes[n], c)} :: n in nodes && ChildOf(nodes[n], c) ==>
      c in nodes && nodes[c].parent == Some(n)
  }

  ghost predicate TwoSided(nodes: Nodes) {
    forall n :: n in nodes && nodes[n].left.Some? ==> nodes[n].left != nodes[n].right
  }

  ghost predicate Up(nodes: Nodes, root: Address, depth: map<Address, nat>)
    requires nodes.Keys <= depth.Keys
  {
    forall c {:trigger LinkedUp(nodes, root, depth, c)} :: c in nodes ==> LinkedUp(nodes, root, depth, c)
  }

  predicate LinkedUp(nodes: Nodes, root: Address, depth: map<Address, nat>, c: Address)
    requires nodes.Keys <= depth.Keys && c in nodes
  {
    match nodes[c].parent
    case None => c == root
    case Some(p) => c != root && p in nodes && ChildOf(nodes[p], c) && depth[c] == depth[p] + 1
  }

  /** Leaves are exactly the live states; an inner node carries none. `gap` is the address of a leaf
      whose state has gone, while it is being removed. */
  ghost predicate Labelled(nodes: Nodes, leafOf: map<State, Address>, gap: Option<Address>) {
    && (forall n :: n in nodes && gap != Some(n) ==> (Leaf(nodes[n]) <==> nodes[n].data.Some?))
    && (forall n :: n in nodes && gap != Some(n) && nodes[n].data.Some? ==>
      nodes[n].data.value in leafOf && leafOf[nodes[n].data.value] == n)
    && (forall s :: s in leafOf ==> leafOf[s] in nodes && gap != Some(leafOf[s]) && nodes[leafOf[s]].data == Some(s))
  }

  // ----- ancestors -----

  ghost predicate Above(nodes: Nodes, root: Address, depth: map<Address, nat>, m: Address, n: Address)
    requires Linked(nodes, root, depth) && n in nodes
    decreases depth[n]
  {
    assert LinkedUp(nodes, root, depth, n);
    m == n || (nodes[n].parent.Some? && Above(nodes, root, depth, m, nodes[n].parent.value))
  }

  /** A live state's leaf is below `m`. */
  ghost predicate Supports(nodes: Nodes, root: Address, depth: map<Address, nat>, leafOf: map<State, Address>,
                           m: Address)
    requires Linked(nodes, root, depth)
  {
    exists s :: s in leafOf && leafOf[s] in nodes && Above(nodes, root, depth, m, leafOf[s])
  }

  ghost function Deepest(nodes: Nodes, depth: map<Address, nat>): (b: nat)
    requires nodes.Keys <= depth.Keys
    ensures forall n :: n in nodes ==> depth[n] < b
  {
    var used := set n | n in nodes :: depth[n];
    assert forall n :: n in nodes ==> depth[n] in used;
    Bound(used)
  }

  /** Every node has a live state below it: nothing that remains could have been pruned. */
  lemma {:induction false} LiveBelow(nodes: Nodes, root: Address, depth: map<Address, nat>, leafOf: map<State, Address>,
                                     m: Address)
    returns (s: State)
    requires Linked(nodes, root, depth) && Labelled(nodes, leafOf, None) && m in nodes
    ensures s in leafOf && Above(nodes, root, depth, m, leafOf[s])
    decreases Deepest(nodes, depth) - depth[m]
  {
    if Leaf(nodes[m]) {
      s := nodes[m].data.value;
    } else {
      var c := if nodes[m].left.Some? then nodes[m].left.value else nodes[m].right.value;
      assert ChildOf(nodes[m], c) && LinkedUp(nodes, root, depth, c);
      s := LiveBelow(nodes, root, depth, leafOf, c);
      AboveTrans(nodes, root, depth, m, c, leafOf[s]);
    }
  }

  lemma {:induction false} AboveTrans(nodes: Nodes, root: Address, depth: map<Address, nat>, m: Address, c: Address,
                                      n: Address)
    requires Linked(nodes, root, depth) && n in nodes && c in nodes && nodes[c].parent == Some(m)
    requires Above(nodes, root, depth, c, n)
    ensures Above(nodes, root, depth, m, n)
    decreases depth[n]
  {
    assert LinkedUp(nodes, root, depth, n) && LinkedUp(nodes, root, depth, c);
    if c != n { AboveTrans(nodes, root, depth, m, c, nodes[n].parent.value); }
  }

  // ----- pruning -----

  /** The tree without the leaf `n`, whose parent forgets it. */
  function Pruned(nodes: Nodes, n: Address): (r: Nodes)
    requires n in nodes
  {
    (if nodes[n].parent.Some? && nodes[n].parent.value in nodes
     then nodes[nodes[n].parent.value := Forget(nodes[nodes[n].parent.value], n)] else nodes) - {n}
  }

  function Forget(p: Node, c: Address): Node {
    if p.left == Some(c) then p.(left := None) else p.(right := None)
  }

  lemma PrunedLinked(nodes: Nodes, root: Address, depth: map<Address, nat>, n: Address)
    requires Linked(nodes, root, depth) && n in nodes && Leaf(nodes[n])
    ensures Linked(Pruned(nodes, n), root, depth)
  {
    PrunedSides(nodes, root, depth, n);
    hide Pruned, LinkedUp, TwoSided;
    forall c | c in Pruned(nodes, n) ensures LinkedUp(Pruned(nodes, n), root, depth, c) {
      PrunedUp(nodes, root, depth, n, c);
    }
    assert Up(Pruned(nodes, n), root, depth);
    hide Up;
    forall m, c | m in Pruned(nodes, n) && ChildOf(Pruned(nodes, n)[m], c)
      ensures c in Pruned(nodes, n) && Pruned(nodes, n)[c].parent == Some(m)
    {
      PrunedChild(nodes, root, depth, n, m, c);
    }
  }

  lemma PrunedSides(nodes: Nodes, root: Address, depth: map<Address, nat>, n: Address)
    requires Linked(nodes, root, depth) && n in nodes
    ensures Pruned(nodes, n).Keys <= depth.Keys && TwoSided(Pruned(nodes, n))
  {
    hide Up, Down;
  }

  lemma PrunedChild(nodes: Nodes, root: Address, depth: map<Address, nat>, n: Address, m: Address, c: Address)
    requires Linked(nodes, root, depth) && n in nodes && m in Pruned(nodes, n) && ChildOf(Pruned(nodes, n)[m], c)
    ensures c in Pruned(nodes, n) && Pruned(nodes, n)[c].parent == Some(m)
  {
    assert LinkedUp(nodes, root, depth, n) && ChildOf(nodes[m], c);
  }

  lemma PrunedUp(nodes: Nodes, root: Address, depth: map<Address, nat>, n: Address, c: Address)
    requires Linked(nodes, root, depth) && n in nodes && Leaf(nodes[n]) && c in Pruned(nodes, n)
    ensures Pruned(nodes, n).Keys <= depth.Keys && LinkedUp(Pruned(nodes, n), root, depth, c)
  {
    assert LinkedUp(nodes, root, depth, n) && LinkedUp(nodes, root, depth, c);
  }

  /** Parents and data of whatever remains are as before. */
  ghost predicate Within(small: Nodes, large: Nodes) {
    forall n :: n in small ==> n in large && small[n].parent == large[n].parent && small[n].data == large[n].data
  }

  lemma {:induction false} WithinAbove(small: Nodes, large: Nodes, root: Address, depth: map<Address, nat>, m: Address,
                                       n: Address)
    requires Linked(small, root, depth) && Linked(large, root, depth) && Within(small, large) && n in small
    ensures Above(small, root, depth, m, n) <==> Above(large, root, depth, m, n)
    ensures Above(small, root, depth, m, n) ==> m in small
    decreases depth[n]
  {
    assert LinkedUp(small, root, depth, n);
    if small[n].parent.Some? { WithinAbove(small, large, root, depth, m, small[n].parent.value); }
  }

  /** Deletes the leaf `n`, then its parent if that has no children left, and so on upwards. */
  method PruneUp(start: Nodes, root: Address, ghost depth: map<Address, nat>, ghost leafOf: map<State, Address>,
                 n: Address)
    returns (nodes: Nodes)
    requires Linked(start, root, depth) && Labelled(start, leafOf, Some(n)) && n in start && Leaf(start[n])
    requires root in start
    ensures Linked(nodes, root, depth) && Labelled(nodes, leafOf, None) && (nodes != map[] ==> root in nodes)
    ensures Within(nodes, start)
  {
    hide Linked, Labelled, Within, Leaf, Pruned;
    nodes := start;
    WithinTrans(start, start, start);
    var at := Some(n);
    while at.Some?
      invariant at.Some? ==> at.value in nodes && Leaf(nodes[at.value])
      invariant Linked(nodes, root, depth) && Labelled(nodes, leafOf, at) && (nodes != map[] ==> root in nodes)
      invariant Within(nodes, start)
      decreases |nodes|
    {
      var p := nodes[at.value].parent;
      PruneStep(nodes, root, depth, leafOf, at.value);
      WithinTrans(Pruned(nodes, at.value), nodes, start);
      nodes := Pruned(nodes, at.value);
      at := if p.Some? && Leaf(nodes[p.value]) then p else None;
    }
  }

  class PTree {
    var nodes: Nodes
    var root: Address
    /** The leaf each live state points to. */
    var leafOf: map<State, Address>
    ghost var depth: map<Address, nat>

    ghost predicate Valid()
      reads this
    {
      && Linked(nodes, root, depth) && Labelled(nodes, leafOf, None)
      && (nodes != map[] ==> root in nodes)
    }

    constructor (s: State, a: Address)
      ensures Valid() && leafOf == map[s := a] && nodes.Keys == {a}
    {
      nodes, root, leafOf, depth := map[a := Node(None, None, None, Some(s))], a, map[s := a], map[a := 0];
    }

    /** A branch of state `es` into itself and the new state `ns`: the leaf of `es` becomes an inner
        node with a leaf for each. `l` and `r` are where the two nodes are allocated. */
    method Branch(es: State, ns: State, l: Address, r: Address)
      requires Valid() && es in leafOf && ns !in leafOf && l !in nodes && r !in nodes && l != r
      modifies this
      ensures Valid() && leafOf == old(leafOf)[ns := l][es := r]
      ensures nodes.Keys == old(nodes.Keys) + {l, r} && !Leaf(nodes[old(leafOf[es])])
    {
      BranchLabels(nodes, leafOf, es, ns, l, r);
      BranchLinked(nodes, root, depth, leafOf[es], ns, es, l, r);
      hide Linked, Labelled;
      var n := leafOf[es];
      nodes := nodes[n := nodes[n].(data := None)];
      nodes := Split(nodes, n, ns, es, l, r);
      depth := depth[l := depth[n] + 1][r := depth[n] + 1];
      leafOf := leafOf[ns := l][es := r];
    }

    /** Termination of state `s`: its leaf goes, and with it every node left without children. What
        remains is exactly what lies above some state that is still alive. */
    method Remove(s: State)
      requires Valid() && s in leafOf
      modifies this
      ensures Valid() && leafOf == old(leafOf) - {s}
      ensures Linked(old(nodes), root, old(depth)) && Within(nodes, old(nodes))
      ensures forall m :: m in nodes <==> m in old(nodes) && Supports(old(nodes), root, old(depth), leafOf, m)
    {
      var n := leafOf[s];
      OpenGap(nodes, leafOf, s);
      leafOf := leafOf - {s};
      nodes := PruneUp(nodes, root, depth, leafOf, n);
      hide Linked, Labelled, Within, Supports;
      Exactly(old(nodes), nodes, root, depth, leafOf);
    }

    /** The random walk from the root, drawing 32 coin flips at a time from `rng`, highest bit first. */
    method SelectState(rng: nat -> nat) returns (s: State)
      requires Valid() && leafOf != map[]
      ensures s in leafOf && root in nodes && s == Walk(nodes, root, depth, leafOf, root, Coins(rng), 0)
    {
      SomeNode(nodes, leafOf);
      s := WalkDown(nodes, root, depth, leafOf, rng);
    }
  }

  // ----- what the random walk can reach -----

  /** The `k`-th coin of a generator of 32-bit words. */
  function Coins(rng: nat -> nat): nat -> bool {
    (k: nat) => Shr(rng(k / 32), 31 - k % 32) % 2 == 1
  }

  lemma CoinIndex(rng: nat -> nat, draws: nat, bits: nat, k: nat)
    requires draws > 0 && bits < 32 && k + bits + 1 == 32 * draws
    ensures Coins(rng)(k) == (Shr(rng(draws - 1), bits) % 2 == 1)
  {
    assert k / 32 == draws - 1 && k % 32 == 31 - bits;
  }

  /** The bits left of the last word drawn are the next coins. */
  predicate Drawn(rng: nat -> nat, draws: nat, flips: nat, bits: nat, tossed: nat) {
    tossed + bits == 32 * draws && (bits > 0 ==> draws > 0 && bits <= 32 && flips == rng(draws - 1))
  }

  lemma StartDrawing(rng: nat -> nat)
    ensures Drawn(rng, 0, 0, 0, 0)
  {
  }

  method Toss(rng: nat -> nat, draws: nat, flips: nat, bits: nat, ghost tossed: nat)
    returns (draws': nat, flips': nat, bits': nat, coin: bool)
    requires Drawn(rng, draws, flips, bits, tossed)
    ensures Drawn(rng, draws', flips', bits', tossed + 1) && coin == Coins(rng)(tossed)
  {
    draws', flips', bits' := draws, flips, bits;
    if bits' == 0 {
      flips', draws' := rng(draws'), draws' + 1;
      bits' := 32;
    }
    bits' := bits' - 1;
    CoinIndex(rng, draws', bits', tossed);
    coin := Shr(flips', bits') % 2 == 1;
  }

  lemma SomeNode(nodes: Nodes, leafOf: map<State, Address>)
    requires Labelled(nodes, leafOf, None) && leafOf != map[]
    ensures nodes != map[]
  {
    var t :| t in leafOf;
    assert leafOf[t] in nodes;
  }

  /** The state reached from `n` when the `k`-th coin is tossed at the next real choice. */
  ghost function Walk(nodes: Nodes, root: Address, depth: map<Address, nat>, leafOf: map<State, Address>,
                      n: Address, coins: nat -> bool, k: nat): (s: State)
    requires Linked(nodes, root, depth) && Labelled(nodes, leafOf, None) && n in nodes
    ensures s in leafOf
    decreases Deepest(nodes, depth) - depth[n]
  {
    if nodes[n].data.Some? then nodes[n].data.value
    else
      var c := Choice(nodes[n], coins(k));
      assert ChildOf(nodes[n], c) && LinkedUp(nodes, root, depth, c);
      Walk(nodes, root, depth, leafOf, c, coins, if Forks(nodes[n]) then k + 1 else k)
  }

  predicate Forks(n: Node) {
    n.left.Some? && n.right.Some?
  }

  function Choice(n: Node, coin: bool): Address
    requires !Leaf(n)
  {
    if n.left.None? || (n.right.Some? && !coin) then n.right.value else n.left.value
  }

  lemma WalkEnd(nodes: Nodes, root: Address, depth: map<Address, nat>, leafOf: map<State, Address>,
                n: Address, coins: nat -> bool, k: nat)
    requires Linked(nodes, root, depth) && Labelled(nodes, leafOf, None) && n in nodes && nodes[n].data.Some?
    ensures nodes[n].data.value in leafOf && Walk(nodes, root, depth, leafOf, n, coins, k) == nodes[n].data.value
  {
  }

  lemma WalkStep(nodes: Nodes, root: Address, depth: map<Address, nat>, leafOf: map<State, Address>,
                 n: Address, coins: nat -> bool, k: nat)
    requires Linked(nodes, root, depth) && Labelled(nodes, leafOf, None) && n in nodes && nodes[n].data.None?
    ensures !Leaf(nodes[n])
    ensures var c := Choice(nodes[n], coins(k));
      && c in nodes && depth[n] < depth[c] < Deepest(nodes, depth)
      && Walk(nodes, root, depth, leafOf, n, coins, k)
      == Walk(nodes, root, depth, leafOf, c, coins, if Forks(nodes[n]) then k + 1 else k)
  {
    var c := Choice(nodes[n], coins(k));
    assert ChildOf(nodes[n], c) && LinkedUp(nodes, root, depth, c);
  }

  method WalkDown(nodes: Nodes, root: Address, ghost depth: map<Address, nat>, ghost leafOf: map<State, Address>,
                  rng: nat -> nat)
    returns (s: State)
    requires Linked(nodes, root, depth) && Labelled(nodes, leafOf, None) && root in nodes
    ensures s in leafOf && s == Walk(nodes, root, depth, leafOf, root, Coins(rng), 0)
  {
    hide Linked, Labelled, Walk, Coins, Deepest, Drawn;
    StartDrawing(rng);
    var draws, flips, bits := 0, 0, 0;
    ghost var coins, tossed := Coins(rng), 0;
    InsideDepth(nodes, root, depth);
    var n := root;
    while nodes[n].data.None?
      invariant n in nodes && Drawn(rng, draws, flips, bits, tossed)
      invariant Walk(nodes, root, depth, leafOf, root, coins, 0) == Walk(nodes, root, depth, leafOf, n, coins, tossed)
      decreases Deepest(nodes, depth) - depth[n]
    {
      WalkStep(nodes, root, depth, leafOf, n, coins, tossed);
      if nodes[n].left.None? {
        n := nodes[n].right.value;
      } else if nodes[n].right.None? {
        n := nodes[n].left.value;
      } else {
        var coin;
        draws, flips, bits, coin := Toss(rng, draws, flips, bits, tossed);
        tossed := tossed + 1;
        n := if coin then nodes[n].left.value else nodes[n].right.value;
      }
    }
    WalkEnd(nodes, root, depth, leafOf, n, coins, tossed);
    s := nodes[n].data.value;
  }

  lemma InsideDepth(nodes: Nodes, root: Address, depth: map<Address, nat>)
    requires Linked(nodes, root, depth)
    ensures nodes.Keys <= depth.Keys
  {
  }

  lemma {:induction false} WalkAgrees(nodes: Nodes, root: Address, depth: map<Address, nat>,
                                      leafOf: map<State, Address>,
                                      n: Address, coins: nat -> bool, coins': nat -> bool, k: nat)
    requires Linked(nodes, root, depth) && Labelled(nodes, leafOf, None) && n in nodes
    requires forall j :: k <= j ==> coins(j) == coins'(j)
    ensures Walk(nodes, root, depth, leafOf, n, coins, k) == Walk(nodes, root, depth, leafOf, n, coins', k)
    decreases Deepest(nodes, depth) - depth[n]
  {
    if nodes[n].data.None? {
      WalkStep(nodes, root, depth, leafOf, n, coins, k);
      WalkStep(nodes, root, depth, leafOf, n, coins', k);
      var c, k' := Choice(nodes[n], coins(k)), if Forks(nodes[n]) then k + 1 else k;
      WalkAgrees(nodes, root, depth, leafOf, c, coins, coins', k');
    }
  }

  /** The child of `m` on the way down to `n`. */
  lemma {:induction false} ChildToward(nodes: Nodes, root: Address, depth: map<Address, nat>, m: Address, n: Address)
    returns (c: Address)
    requires Linked(nodes, root, depth) && n in nodes && Above(nodes, root, depth, m, n) && m != n
    ensures m in nodes && c in nodes && ChildOf(nodes[m], c) && Above(nodes, root, depth, c, n)
    decreases depth[n]
  {
    assert LinkedUp(nodes, root, depth, n);
    var p := nodes[n].parent.value;
    if p == m { c := n; } else { c := ChildToward(nodes, root, depth, m, p); }
  }

  /** No live state is out of reach: some coins lead the walk to it. */
  lemma {:induction false} EveryStateSelectable(nodes: Nodes, root: Address, depth: map<Address, nat>,
                                                leafOf: map<State, Address>,
                                                n: Address, s: State, k: nat) returns (coins: nat -> bool)
    requires Linked(nodes, root, depth) && Labelled(nodes, leafOf, None) && n in nodes
    requires s in leafOf && Above(nodes, root, depth, n, leafOf[s])
    ensures Walk(nodes, root, depth, leafOf, n, coins, k) == s
    decreases Deepest(nodes, depth) - depth[n]
  {
    if n == leafOf[s] {
      coins := (j: nat) => true;
    } else {
      var c := ChildToward(nodes, root, depth, n, leafOf[s]);
      assert LinkedUp(nodes, root, depth, c) && !Leaf(nodes[n]);
      var k' := if Forks(nodes[n]) then k + 1 else k;
      var later := EveryStateSelectable(nodes, root, depth, leafOf, c, s, k');
      if Forks(nodes[n]) {
        coins := (j: nat) => if j == k then nodes[n].left == Some(c) else later(j);
        assert Choice(nodes[n], coins(k)) == c;
      } else {
        coins := later;
      }
      WalkAgrees(nodes, root, depth, leafOf, c, coins, later, k');
      WalkStep(nodes, root, depth, leafOf, n, coins, k);
    }
  }

  /** The root is above every node. */
  lemma {:induction false} RootAbove(nodes: Nodes, root: Address, depth: map<Address, nat>, n: Address)
    requires Linked(nodes, root, depth) && n in nodes
    ensures Above(nodes, root, depth, root, n)
    decreases depth[n]
  {
    assert LinkedUp(nodes, root, depth, n);
    if n != root { RootAbove(nodes, root, depth, nodes[n].parent.value); }
  }

  function Split(nodes: Nodes, n: Address, leftData: State, rightData: State, l: Address, r: Address): Nodes
    requires n in nodes
  {
    nodes[n := nodes[n].(left := Some(l), right := Some(r))]
      [l := Node(Some(n), None, None, Some(leftData))][r := Node(Some(n), None, None, Some(rightData))]
  }

  /** A live state's leaf becomes a gap once the state is gone. */
  lemma OpenGap(nodes: Nodes, leafOf: map<State, Address>, s: State)
    requires Labelled(nodes, leafOf, None) && s in leafOf
    ensures leafOf[s] in nodes && Leaf(nodes[leafOf[s]]) && Labelled(nodes, leafOf - {s}, Some(leafOf[s]))
  {
  }

  lemma WithinTrans(small: Nodes, mid: Nodes, large: Nodes)
    ensures Within(mid, mid)
    ensures Within(small, mid) && Within(mid, large) ==> Within(small, large)
  {
  }

  lemma BranchLabels(nodes: Nodes, leafOf: map<State, Address>, es: State, ns: State, l: Address, r: Address)
    requires Labelled(nodes, leafOf, None)
    requires es in leafOf && ns !in leafOf && l !in nodes && r !in nodes && l != r
    ensures var n := leafOf[es];
      var after := Split(nodes[n := nodes[n].(data := None)], n, ns, es, l, r);
      Labelled(after, leafOf[ns := l][es := r], None)
  {
  }

  lemma BranchLinked(nodes: Nodes, root: Address, depth: map<Address, nat>, n: Address, ns: State, es: State,
                     l: Address, r: Address)
    requires Linked(nodes, root, depth) && root in nodes && n in nodes && Leaf(nodes[n]) && l !in nodes && r !in nodes
    requires l != r
    ensures var after := Split(nodes[n := nodes[n].(data := None)], n, ns, es, l, r);
      Linked(after, root, depth[l := depth[n] + 1][r := depth[n] + 1])
  {
    var after := Split(nodes[n := nodes[n].(data := None)], n, ns, es, l, r);
    var d := depth[l := depth[n] + 1][r := depth[n] + 1];
    forall m, c | m in after && ChildOf(after[m], c) ensures c in after && after[c].parent == Some(m) {
      if m in nodes && m != n { assert ChildOf(nodes[m], c); }
    }
    forall c | c in after ensures LinkedUp(after, root, d, c) {
      if c in nodes {
        assert LinkedUp(nodes, root, depth, c);
      } else {
        assert LinkedUp(nodes, root, depth, n);
      }
    }
  }

  /** Pruning a leaf without a state leaves a tree, with a gap at its parent if that was its last child. */
  lemma PruneStep(nodes: Nodes, root: Address, depth: map<Address, nat>, leafOf: map<State, Address>, n: Address)
    requires Linked(nodes, root, depth) && Labelled(nodes, leafOf, Some(n)) && n in nodes && Leaf(nodes[n])
    requires root in nodes
    ensures var after, p := Pruned(nodes, n), nodes[n].parent;
      && Linked(after, root, depth) && Within(after, nodes) && |after| < |nodes|
      && (p.Some? ==> p.value in after) && (after != map[] ==> root in after)
      && Labelled(after, leafOf, if p.Some? && Leaf(after[p.value]) then p else None)
  {
    PrunedLinked(nodes, root, depth, n);
    assert LinkedUp(nodes, root, depth, n);
    var after, p := Pruned(nodes, n), nodes[n].parent;
    assert after.Keys == nodes.Keys - {n};
    assert |after| == |after.Keys| && |nodes| == |nodes.Keys|;
    if n == root { OnlyRoot(nodes, root, depth); }
  }

  /** A root without children is the whole tree. */
  lemma OnlyRoot(nodes: Nodes, root: Address, depth: map<Address, nat>)
    requires Linked(nodes, root, depth) && root in nodes && Leaf(nodes[root])
    ensures nodes.Keys == {root}
  {
    forall c | c in nodes ensures c == root { ToRoot(nodes, root, depth, c); }
  }

  lemma {:induction false} ToRoot(nodes: Nodes, root: Address, depth: map<Address, nat>, c: Address)
    requires Linked(nodes, root, depth) && c in nodes && root in nodes && Leaf(nodes[root])
    ensures c == root
    decreases depth[c]
  {
    assert LinkedUp(nodes, root, depth, c);
    if c != root { ToRoot(nodes, root, depth, nodes[c].parent.value); }
  }

  lemma Exactly(before: Nodes, after: Nodes, root: Address, depth: map<Address, nat>, leafOf: map<State, Address>)
    requires Linked(before, root, depth) && Linked(after, root, depth) && Within(after, before)
    requires Labelled(after, leafOf, None)
    ensures forall m :: m in after <==> m in before && Supports(before, root, depth, leafOf, m)
  {
    forall m ensures m in after <==> m in before && Supports(before, root, depth, leafOf, m) {
      if m in after {
        var t := LiveBelow(after, root, depth, leafOf, m);
        WithinAbove(after, before, root, depth, m, leafOf[t]);
      }
      if t :| t in leafOf && leafOf[t] in before && Above(before, root, depth, m, leafOf[t]) {
        WithinAbove(after, before, root, depth, m, leafOf[t]);
      }
    }
  }
}
