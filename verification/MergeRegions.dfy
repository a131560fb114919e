/** Regions opened by `klee_open_merge` and left by `klee_close_merge`: states that reach the end of a
    region wait, paused, in the handler of that region, until no state is left that could reach it. */
module MergeRegions {
  import opened Counting

  type State = nat
  type Handler = nat
  type Instr = nat

  /** The states waiting at one closing instruction. */
  datatype Group = Group(mp: Instr, waiting: seq<State>)

  predicate Distinct(s: seq<State>) {
    forall i, j :: 0 <= i < j < |s| ==> s[i] != s[j]
  }

  // ----- lists -----

  function Members(s: seq<State>): set<State> {
    set x | x in s
  }

  lemma HasMember(s: seq<State>)
    ensures s == [] || exists x :: x in s
  {
    if s != [] { assert s[0] in s; }
  }

  method Index(s: seq<State>, x: State) returns (i: nat)
    ensures i <= |s| && (i < |s| ==> s[i] == x) && (i == |s| ==> x !in s)
  {
    i := 0;
    while i < |s| && s[i] != x
      invariant i <= |s| && x !in s[..i]
    {
      i := i + 1;
    }
    assert i == |s| ==> s[..i] == s;
  }

  /** Swap with the last element, then pop. */
  function SwapOut(s: seq<State>, i: nat): seq<State>
    requires i < |s|
  {
    s[i := s[|s| - 1]][..|s| - 1]
  }

  lemma SwapOutRemoves(s: seq<State>, i: nat)
    requires i < |s| && Distinct(s)
    ensures Distinct(SwapOut(s, i)) && forall x :: x in SwapOut(s, i) <==> x in s && x != s[i]
  {
    var r := SwapOut(s, i);
    forall x | x in s && x != s[i] ensures x in r {
      var j :| 0 <= j < |s| && s[j] == x;
      if j == |s| - 1 { assert r[i] == x; } else { assert r[j] == x; }
    }
  }

  lemma Erased(s: seq<State>, i: nat)
    requires i < |s| && Distinct(s)
    ensures Distinct(s[..i] + s[i + 1..]) && forall x :: x in s[..i] + s[i + 1..] <==> x in s && x != s[i]
  {
    forall x | x in s && x != s[i] ensures x in s[..i] + s[i + 1..] {
      var j :| 0 <= j < |s| && s[j] == x;
      if j > i { assert s[i + 1..][j - i - 1] == x; } else { assert s[..i][j] == x; }
    }
  }

  /** How often each state waits in the groups of a handler. */
  function Waiting(gs: seq<Group>): multiset<State> {
    if gs == [] then multiset{} else multiset(gs[0].waiting) + Waiting(gs[1..])
  }

  lemma {:induction false} WaitingSnoc(gs: seq<Group>, g: Group, x: State)
    ensures Waiting(gs + [g])[x] == Waiting(gs)[x] + multiset(g.waiting)[x]
  {
    if gs == [] {
      assert gs + [g] == [g] && [g][1..] == [];
    } else {
      assert (gs + [g])[1..] == gs[1..] + [g];
      WaitingSnoc(gs[1..], g, x);
    }
  }

  lemma {:induction false} WaitingPush(gs: seq<Group>, i: nat, s: State, x: State)
    requires i < |gs|
    ensures Waiting(gs[i := gs[i].(waiting := gs[i].waiting + [s])])[x] == Waiting(gs)[x] + One(x == s)
  {
    var gs' := gs[i := gs[i].(waiting := gs[i].waiting + [s])];
    if i == 0 {
      assert gs'[1..] == gs[1..];
    } else {
      assert gs'[1..] == gs[1..][i - 1 := gs[1..][i - 1].(waiting := gs[1..][i - 1].waiting + [s])];
      WaitingPush(gs[1..], i - 1, s, x);
    }
  }

  // ----- where a state can be -----

  /** Running, just forked, terminated, about to resume, about to pause, or paused. The last two are
      the states a handler holds. */
  predicate Legal(scheduled: bool, added: bool, removed: bool, paused: bool, continued: bool, held: bool) {
    || (scheduled && !added && !removed && !paused && !continued && !held)
    || (!scheduled && added && !removed && !paused && !continued && !held)
    || (scheduled && !added && removed && !paused && !continued && !held)
    || (!scheduled && !added && !removed && !paused && continued && !held)
    || (scheduled && !added && !removed && paused && !continued && held)
    || (!scheduled && !added && !removed && !paused && !continued && held)
  }

  predicate Nowhere(scheduled: bool, added: bool, removed: bool, paused: bool, continued: bool, held: bool) {
    !scheduled && !added && !removed && !paused && !continued && !held
  }

  predicate Referenced(stacks: map<State, seq<Handler>>, h: Handler) {
    exists s :: s in stacks && h in stacks[s]
  }

  /** A state that waits in the handler would take another one. */
  ghost predicate Takes(holder: map<State, Handler>, h: Handler, merges: State -> bool) {
    exists t :: t in holder && holder[t] == h && merges(t)
  }

  class Executor {
    /** What the searcher may select from. */
    var scheduled: set<State>
    /** All live states, added ones apart. */
    var states: set<State>
    var added: seq<State>
    var removed: seq<State>
    var paused: seq<State>
    var continued: seq<State>
    var openMergeStack: map<State, seq<Handler>>
    var reachedMergeClose: map<Handler, seq<Group>>
    /** The handler that holds a state. */
    ghost var holder: map<State, Handler>

    /** `dying` are states that have been unscheduled and are about to be deleted. */
    ghost predicate Placed(s: State, dying: set<State>)
      reads this
    {
      if s in openMergeStack && s !in dying
      then Legal(s in scheduled, s in added, s in removed, s in paused, s in continued, s in holder)
      else Nowhere(s in scheduled, s in added, s in removed, s in paused, s in continued, s in holder)
    }

    ghost predicate Lists()
      reads this
    {
      Distinct(added) && Distinct(removed) && Distinct(paused) && Distinct(continued)
    }

    /** A handler's groups hold each state it is the holder of exactly once, and nothing else. */
    ghost predicate Holds(h: Handler)
      requires h in reachedMergeClose
      reads this
    {
      HoldsOf(reachedMergeClose[h], holder, h)
    }

    ghost predicate Placements(dying: set<State>, closing: set<Handler>)
      reads this
    {
      && Lists() && (forall s :: Placed(s, dying)) && dying <= openMergeStack.Keys
      && (forall s :: s !in dying ==> (s in states <==> s in openMergeStack && s !in added))
      && (forall h :: h in reachedMergeClose && h !in closing ==> Holds(h))
      && (forall s :: s in holder ==> holder[s] in reachedMergeClose)
      && (forall s :: s in openMergeStack ==> Distinct(openMergeStack[s]))
    }

    /** Every live state has its place, and the handlers alive are those some state still refers to. */
    ghost predicate Valid()
      reads this
    {
      Placements({}, {}) && forall h :: h in reachedMergeClose <==> Referenced(openMergeStack, h)
    }

    /** A state the searcher selected and that has not left since. */
    predicate Running(s: State)
      reads this
    {
      s in openMergeStack && s in scheduled && s !in added && s !in removed && s !in paused && s !in continued
    }

    /** Selectable by the searcher now or after the next update. */
    predicate Ready(s: State)
      reads this
    {
      s !in removed && s !in paused && (s in scheduled || s in added || s in continued)
    }

    constructor (s: State)
      ensures Valid() && openMergeStack == map[s := []] && Running(s) && removed == [] && holder == map[]
      ensures reachedMergeClose == map[]
    {
      scheduled, states, added, removed, paused, continued := {s}, {s}, [], [], [], [];
      openMergeStack, reachedMergeClose, holder := map[s := []], map[], map[];
    }

    /** Each live state is either selectable or held by exactly one handler, in one place. */
    lemma ReadyOrHeld(s: State)
      requires Valid() && s in openMergeStack && s !in removed
      ensures Ready(s) <==> s !in holder
      ensures s in holder ==> holder[s] in reachedMergeClose && Waiting(reachedMergeClose[holder[s]])[s] == 1
      ensures forall h :: h in reachedMergeClose && (s in holder ==> h != holder[s]) ==>
        Waiting(reachedMergeClose[h])[s] == 0
    {
      assert Placed(s, {});
      forall h | h in reachedMergeClose ensures Waiting(reachedMergeClose[h])[s] == One(s in holder && holder[s] == h) {
        assert Holds(h);
      }
    }

    method PauseState(s: State)
      requires Distinct(paused) && Distinct(continued) && s !in paused
      modifies this`paused, this`continued
      ensures Distinct(paused) && Distinct(continued)
      ensures forall x :: x in continued <==> x in old(continued) && x != s
      ensures s !in old(continued) ==> paused == old(paused) + [s] && continued == old(continued)
      ensures s in old(continued) ==> paused == old(paused)
    {
      var it := Index(continued, s);
      if it != |continued| {
        SwapOutRemoves(continued, it);
        continued := SwapOut(continued, it);
      } else {
        paused := paused + [s];
      }
    }

    method ContinueState(s: State)
      requires Distinct(paused) && Distinct(continued) && s !in continued
      modifies this`paused, this`continued
      ensures Distinct(paused) && Distinct(continued)
      ensures forall x :: x in paused <==> x in old(paused) && x != s
      ensures s !in old(paused) ==> continued == old(continued) + [s] && paused == old(paused)
      ensures s in old(paused) ==> continued == old(continued)
    {
      var it := Index(paused, s);
      if it != |paused| {
        SwapOutRemoves(paused, it);
        paused := SwapOut(paused, it);
      } else {
        continued := continued + [s];
      }
    }

    method ReleaseGroup(group: seq<State>, h: Handler, ghost rest: multiset<State>, ghost dying: set<State>,
                        ghost holder0: map<State, Handler>, ghost paused0: seq<State>, ghost continued0: seq<State>)
      requires Placements(dying, {h}) && Untouched(holder0, paused0, continued0, h)
      requires forall s :: multiset(group)[s] + rest[s] == One(s in holder && holder[s] == h)
      modifies this`paused, this`continued, this`holder
      ensures Placements(dying, {h}) && Untouched(holder0, paused0, continued0, h)
      ensures forall s :: rest[s] == One(s in holder && holder[s] == h)
    {
      hide Placements, Untouched;
      for j := 0 to |group|
        invariant Placements(dying, {h}) && Untouched(holder0, paused0, continued0, h)
        invariant forall s :: multiset(group[j..])[s] + rest[s] == One(s in holder && holder[s] == h)
      {
        var s := group[j];
        assert group[j..] == [s] + group[j + 1..];
        assert multiset(group[j..])[s] >= 1;
        ReleaseOne(s, h, dying, holder0, paused0, continued0);
      }
      assert group[|group|..] == [];
    }

    lemma SameUntouched(h: Handler)
      ensures Untouched(holder, paused, continued, h)
    {
    }

    method ReleaseOne(s: State, h: Handler, ghost dying: set<State>,
                      ghost holder0: map<State, Handler>, ghost paused0: seq<State>, ghost continued0: seq<State>)
      requires Placements(dying, {h}) && s in holder && holder[s] == h && Untouched(holder0, paused0, continued0, h)
      modifies this`paused, this`continued, this`holder
      ensures Placements(dying, {h}) && holder == old(holder) - {s} && Untouched(holder0, paused0, continued0, h)
    {
      hide Waiting;
      assert Placed(s, dying);
      ContinueState(s);
      holder := holder - {s};
      forall x ensures Placed(x, dying) {
        assert old(Placed(x, dying));
      }
      forall k | k in reachedMergeClose && k != h ensures Holds(k) {
        assert old(Holds(k));
      }
    }

    /** States held elsewhere, or not held, are not affected. */
    ghost predicate Untouched(holder0: map<State, Handler>, paused0: seq<State>, continued0: seq<State>, h: Handler)
      reads this
    {
      && (forall s :: s in holder ==> s in holder0 && holder[s] == holder0[s])
      && (forall s :: s in holder0 && s !in holder ==> holder0[s] == h)
      && (forall s :: s !in holder0 || holder0[s] != h ==>
        (s in paused <==> s in paused0) && (s in continued <==> s in continued0))
    }

    lemma BeginClosing(h: Handler, dying: set<State>) returns (held: set<State>)
      requires Placements(dying, {}) && h in reachedMergeClose
      ensures Placements(dying, {h}) && Holds(h)
      ensures forall s :: s in held <==> s in holder && holder[s] == h
      ensures forall s :: s in held ==> s in openMergeStack && s !in dying && s !in removed
    {
      hide Waiting;
      held := set s | s in holder && holder[s] == h;
      forall s | s in held ensures s in openMergeStack && s !in dying && s !in removed { assert Placed(s, dying); }
    }

    /** The handler's last reference is gone: everyone waiting in it may go on. */
    method Destroy(h: Handler, ghost dying: set<State>)
      requires Placements(dying, {}) && h in reachedMergeClose
      modifies this`paused, this`continued, this`reachedMergeClose, this`holder
      ensures Placements(dying, {}) && reachedMergeClose == old(reachedMergeClose) - {h}
      ensures Untouched(old(holder), old(paused), old(continued), h)
      ensures forall s :: s in old(holder) && old(holder)[s] == h ==> s !in holder && Ready(s)
    {
      hide Placements;
      ghost var held := BeginClosing(h, dying);
      ReleaseAll(reachedMergeClose[h], h, dying);
      Erase(h, dying);
      forall s | s in held ensures s !in holder && Ready(s) {
        ReadyNow(s, dying);
      }
    }

    method ReleaseAll(gs: seq<Group>, h: Handler, ghost dying: set<State>)
      requires Placements(dying, {h})
      requires forall s :: Waiting(gs)[s] == One(s in holder && holder[s] == h)
      modifies this`paused, this`continued, this`holder
      ensures Placements(dying, {h}) && Untouched(old(holder), old(paused), old(continued), h)
      ensures forall s :: s in holder ==> holder[s] != h
    {
      hide Placements, Untouched;
      SameUntouched(h);
      assert gs[0..] == gs;
      for i := 0 to |gs|
        invariant Placements(dying, {h})
        invariant forall s :: Waiting(gs[i..])[s] == One(s in holder && holder[s] == h)
        invariant Untouched(old(holder), old(paused), old(continued), h)
      {
        assert gs[i..][1..] == gs[i + 1..];
        ReleaseGroup(gs[i].waiting, h, Waiting(gs[i + 1..]), dying, old(holder), old(paused), old(continued));
      }
      assert gs[|gs|..] == [] && forall s :: Waiting([])[s] == 0;
    }

    method Erase(h: Handler, ghost dying: set<State>)
      requires Placements(dying, {h}) && forall s :: s in holder ==> holder[s] != h
      modifies this`reachedMergeClose
      ensures Placements(dying, {}) && reachedMergeClose == old(reachedMergeClose) - {h}
    {
      reachedMergeClose := reachedMergeClose - {h};
      forall s ensures Placed(s, dying) { assert old(Placed(s, dying)); }
      forall k | k in reachedMergeClose ensures Holds(k) { assert old(Holds(k)); }
    }

    lemma ReadyNow(s: State, dying: set<State>)
      requires Placements(dying, {}) && s in openMergeStack && s !in dying && s !in removed && s !in holder
      ensures Ready(s)
    {
      assert Placed(s, dying);
    }

    // ----- what states do -----

    method Open(s: State, h: Handler)
      requires Valid() && Running(s) && h !in reachedMergeClose
      modifies this`openMergeStack, this`reachedMergeClose
      ensures Valid() && openMergeStack == old(openMergeStack)[s := old(openMergeStack)[s] + [h]]
      ensures reachedMergeClose == old(reachedMergeClose)[h := []]
    {
      hide Waiting, Legal, Nowhere, Referenced;
      NewStack(s, h);
      NothingWaits();
      openMergeStack := openMergeStack[s := openMergeStack[s] + [h]];
      reachedMergeClose := reachedMergeClose[h := []];
      forall x ensures Placed(x, {}) { assert old(Placed(x, {})); }
      forall k | k in reachedMergeClose ensures Holds(k) {
        if k != h { assert old(Holds(k)); }
      }
    }

    lemma NewStack(s: State, h: Handler)
      requires Valid() && s in openMergeStack && h !in reachedMergeClose
      ensures Distinct(openMergeStack[s] + [h])
      ensures forall k :: Referenced(openMergeStack[s := openMergeStack[s] + [h]], k) <==>
        Referenced(openMergeStack, k) || k == h
    {
      assert !Referenced(openMergeStack, h);
      forall k
        ensures Referenced(openMergeStack[s := openMergeStack[s] + [h]], k) <==> Referenced(openMergeStack, k) || k == h
      {
        StackGrows(openMergeStack, s, h, k);
      }
    }

    /** A fork: the new state is inside every region its parent is in. */
    method Branch(s: State, ns: State)
      requires Valid() && Ready(s) && s in openMergeStack && ns !in openMergeStack
      modifies this`openMergeStack, this`added
      ensures Valid() && Ready(ns) && openMergeStack == old(openMergeStack)[ns := old(openMergeStack)[s]]
    {
      assert Placed(ns, {});
      added := added + [ns];
      openMergeStack := openMergeStack[ns := openMergeStack[s]];
      forall x ensures Placed(x, {}) { assert old(Placed(x, {})); }
      forall k | k in reachedMergeClose ensures Holds(k) { assert old(Holds(k)); }
      forall k ensures Referenced(openMergeStack, k) <==> old(Referenced(openMergeStack, k)) {
        if old(Referenced(openMergeStack, k)) {
          var x :| x in old(openMergeStack) && k in old(openMergeStack)[x];
          assert x in openMergeStack && k in openMergeStack[x];
        }
        if Referenced(openMergeStack, k) {
          var x :| x in openMergeStack && k in openMergeStack[x];
          assert k in old(openMergeStack)[if x == ns then s else x];
        }
      }
    }

    /** The state reached `mp`: it merges into a state waiting there if one takes it, and waits there
        itself otherwise. `merges` says which waiting states would take it. */
    method AddClosedState(s: State, mp: Instr, h: Handler, merges: State -> bool) returns (merged: bool)
      requires Placements({}, {}) && Running(s) && h in reachedMergeClose
      modifies this`removed, this`paused, this`continued, this`reachedMergeClose, this`holder
      ensures Placements({}, {}) && continued == old(continued)
      ensures reachedMergeClose.Keys == old(reachedMergeClose.Keys)
      ensures merged ==> removed == old(removed) + [s] && paused == old(paused) && holder == old(holder)
      ensures merged ==> Takes(holder, h, merges)
      ensures !merged ==> removed == old(removed) && paused == old(paused) + [s] && holder == old(holder)[s := h]
    {
      hide Placements, Waiting;
      var gs := reachedMergeClose[h];
      ghost var held := BeginClosing(h, {});
      var i := 0;
      while i < |gs| && gs[i].mp != mp
        invariant i <= |gs|
      {
        i := i + 1;
      }
      merged := false;
      if i == |gs| {
        forall x ensures Waiting(gs + [Group(mp, [s])])[x] == Waiting(gs)[x] + One(x == s) {
          WaitingSnoc(gs, Group(mp, [s]), x);
          assert multiset([s])[x] == One(x == s);
        }
        Enter(s, h, gs + [Group(mp, [s])]);
      } else {
        var cpv := gs[i].waiting;
        for j := 0 to |cpv| {
          if merges(cpv[j]) {
            WaitingMember(gs, i, j);
            QueueRemoval(s);
            return true;
          }
        }
        forall x ensures Waiting(gs[i := gs[i].(waiting := cpv + [s])])[x] == Waiting(gs)[x] + One(x == s) {
          WaitingPush(gs, i, s, x);
        }
        Enter(s, h, gs[i := gs[i].(waiting := cpv + [s])]);
      }
    }

    /** Queues a state for removal. Everything stays in its place exactly if the state was running. */
    method QueueRemoval(s: State)
      requires Placements({}, {}) && s in openMergeStack && s !in added
      modifies this`removed
      ensures removed == old(removed) + [s] && (Placements({}, {}) <==> old(Running(s)))
    {
      hide Waiting;
      assert Placed(s, {});
      removed := removed + [s];
      if old(Running(s)) {
        forall x ensures Placed(x, {}) { assert old(Placed(x, {})); }
        forall k | k in reachedMergeClose ensures Holds(k) { assert old(Holds(k)); }
      } else if s in old(removed) {
        var i :| 0 <= i < |old(removed)| && old(removed)[i] == s;
        assert removed[i] == removed[|removed| - 1];
      } else {
        assert !Placed(s, {});
      }
    }

    method Enter(s: State, h: Handler, gs: seq<Group>)
      requires Placements({}, {}) && Running(s) && h in reachedMergeClose
      requires forall x :: Waiting(gs)[x] == Waiting(reachedMergeClose[h])[x] + One(x == s)
      modifies this`paused, this`continued, this`reachedMergeClose, this`holder
      ensures Placements({}, {}) && continued == old(continued) && paused == old(paused) + [s]
      ensures reachedMergeClose == old(reachedMergeClose)[h := gs] && holder == old(holder)[s := h]
    {
      hide Waiting, Legal, Nowhere, HoldsOf;
      assert Placed(s, {});
      RunningPlace(s);
      assert forall k :: k in reachedMergeClose ==> Holds(k);
      reachedMergeClose := reachedMergeClose[h := gs];
      holder := holder[s := h];
      EnterHolds(old(reachedMergeClose), old(holder), s, h, gs, reachedMergeClose, holder);
      PauseState(s);
      EnterPlaced(s);
    }

    lemma RunningPlace(s: State)
      requires Placed(s, {}) && Running(s)
      ensures s !in paused && s !in continued && s !in holder
    {
    }

    twostate lemma EnterPlaced(s: State)
      requires old(Running(s)) && old(Placed(s, {})) && (forall x :: old(Placed(x, {})))
      requires paused == old(paused) + [s] && continued == old(continued) && holder.Keys == old(holder.Keys) + {s}
      requires added == old(added) && removed == old(removed) && scheduled == old(scheduled)
      requires openMergeStack == old(openMergeStack)
      ensures forall x :: Placed(x, {})
    {
      forall x ensures Placed(x, {}) { assert old(Placed(x, {})); }
    }

    /** `klee_close_merge`. The last state to leave a region lets everyone go who waits there, itself
        included; any other waits, unless it was merged away. */
    method Close(s: State, mp: Instr, merges: State -> bool)
      requires Valid() && Running(s)
      modifies this`removed, this`paused, this`continued, this`reachedMergeClose, this`holder, this`openMergeStack
      ensures Valid()
      ensures old(openMergeStack)[s] == [] ==>
        holder == old(holder) && removed == old(removed) && openMergeStack == old(openMergeStack) && Running(s)
      ensures old(openMergeStack)[s] != [] ==> Left(s, old(openMergeStack), old(removed), old(holder), merges)
    {
      hide Waiting, Placements, Left, Legal, Nowhere;
      NotHeld(s);
      var stack := openMergeStack[s];
      if |stack| == 0 { return; }
      var h := stack[|stack| - 1];
      assert h in openMergeStack[s] && Referenced(openMergeStack, h);
      var merged := AddClosedState(s, mp, h, merges);
      PopStack(s);
      ghost var waiting := holder;
      if !Referenced(openMergeStack, h) { Destroy(h, {}); }
      ShowLeft(s, old(openMergeStack), old(removed), old(holder), waiting, merges);
    }

    lemma ShowLeft(s: State, stacks0: map<State, seq<Handler>>, removed0: seq<State>, holder0: map<State, Handler>,
                   waiting: map<State, Handler>, merges: State -> bool)
      requires s in stacks0 && stacks0[s] != [] && s !in holder0
      requires openMergeStack == stacks0[s := stacks0[s][..|stacks0[s]| - 1]]
      requires var h := stacks0[s][|stacks0[s]| - 1];
        && ((removed == removed0 && waiting == holder0[s := h])
          || (removed == removed0 + [s] && waiting == holder0 && Takes(holder0, h, merges)))
        && (Referenced(openMergeStack, h) ==> holder == waiting)
        && (!Referenced(openMergeStack, h) ==>
          && h !in reachedMergeClose && (forall t :: t in holder ==> t in waiting && holder[t] == waiting[t])
          && (forall t :: t in waiting && t !in holder ==> waiting[t] == h)
          && (forall t :: t in waiting && waiting[t] == h ==> t !in holder && Ready(t)))
      ensures Left(s, stacks0, removed0, holder0, merges)
    {
    }

    /** What holds once `s` has left its innermost region. */
    ghost predicate Left(s: State, stacks0: map<State, seq<Handler>>, removed0: seq<State>,
                         holder0: map<State, Handler>, merges: State -> bool)
      requires s in stacks0 && stacks0[s] != []
      reads this
    {
      var h := stacks0[s][|stacks0[s]| - 1];
      && openMergeStack == stacks0[s := stacks0[s][..|stacks0[s]| - 1]]
      && (removed == removed0 || (removed == removed0 + [s] && Takes(holder0, h, merges)))
      && (forall t :: t in holder0 && holder0[t] != h ==> t in holder && holder[t] == holder0[t])
      && (if Referenced(openMergeStack, h) then
          holder == if removed == removed0 then holder0[s := h] else holder0
        else
          && h !in reachedMergeClose && (forall t :: t in holder ==> holder[t] != h)
          && (forall t :: t in holder0 && holder0[t] == h ==> Ready(t))
          && (removed == removed0 ==> Ready(s)))
    }

    lemma NotHeld(s: State)
      requires Placements({}, {}) && Running(s)
      ensures s !in holder
    {
      assert Placed(s, {});
    }

    method PopStack(s: State)
      requires Placements({}, {}) && s in openMergeStack && openMergeStack[s] != []
      modifies this`openMergeStack
      ensures Placements({}, {})
      ensures openMergeStack == old(openMergeStack)[s := old(openMergeStack)[s][..|old(openMergeStack)[s]| - 1]]
      ensures forall k :: k != old(openMergeStack)[s][|old(openMergeStack)[s]| - 1] ==>
        (Referenced(openMergeStack, k) <==> Referenced(old(openMergeStack), k))
    {
      hide Waiting, Legal, Nowhere, Referenced;
      var stack := openMergeStack[s];
      StackShrinks(openMergeStack, s);
      openMergeStack := openMergeStack[s := stack[..|stack| - 1]];
      forall x ensures Placed(x, {}) { assert old(Placed(x, {})); }
      forall k | k in reachedMergeClose ensures Holds(k) { assert old(Holds(k)); }
    }

    /** Deletes a dying state, and with it every handler it was the last to refer to. */
    method Delete(s: State, ghost dying: set<State>,
                  ghost holder0: map<State, Handler>, ghost continued0: seq<State>, ghost paused0: seq<State>)
      requires Placements(dying, {}) && s in dying && s in openMergeStack && s !in added
      requires Freed(holder0, continued0, paused0)
      requires forall h :: h in reachedMergeClose <==> Referenced(openMergeStack, h)
      modifies this`paused, this`continued, this`reachedMergeClose, this`holder, this`openMergeStack, this`states
      ensures Placements(dying - {s}, {}) && openMergeStack == old(openMergeStack) - {s}
      ensures forall h :: h in reachedMergeClose <==> Referenced(openMergeStack, h)
      ensures Freed(holder0, continued0, paused0)
    {
      hide Waiting, Placements, Freed, Referenced, Distinct;
      var stack := openMergeStack[s];
      Forget(s, dying, holder0, continued0, paused0);
      DropHandlers(stack, dying - {s}, holder0, continued0, paused0);
    }

    method DropHandlers(stack: seq<Handler>, ghost dying: set<State>,
                        ghost holder0: map<State, Handler>, ghost continued0: seq<State>, ghost paused0: seq<State>)
      requires Placements(dying, {}) && Freed(holder0, continued0, paused0) && Distinct(stack)
      requires forall h :: h in reachedMergeClose <==> Referenced(openMergeStack, h) || h in stack
      modifies this`paused, this`continued, this`reachedMergeClose, this`holder
      ensures Placements(dying, {}) && Freed(holder0, continued0, paused0)
      ensures forall h :: h in reachedMergeClose <==> Referenced(openMergeStack, h)
    {
      hide Waiting, Placements, Freed, Referenced;
      assert stack[0..] == stack;
      for k := 0 to |stack|
        invariant Placements(dying, {}) && Freed(holder0, continued0, paused0)
        invariant forall h :: h in reachedMergeClose <==> Referenced(openMergeStack, h) || h in stack[k..]
      {
        var h := stack[k];
        assert stack[k..] == [h] + stack[k + 1..];
        if !Referenced(openMergeStack, h) {
          FreeHandler(h, dying, holder0, continued0, paused0);
        }
      }
      assert stack[|stack|..] == [];
    }

    method Forget(s: State, ghost dying: set<State>,
                  ghost holder0: map<State, Handler>, ghost continued0: seq<State>, ghost paused0: seq<State>)
      requires Placements(dying, {}) && s in dying && s !in added && Freed(holder0, continued0, paused0)
      modifies this`openMergeStack, this`states
      ensures Placements(dying - {s}, {}) && openMergeStack == old(openMergeStack) - {s}
      ensures Freed(holder0, continued0, paused0) && Distinct(old(openMergeStack)[s])
      ensures forall h :: Referenced(old(openMergeStack), h) <==>
        Referenced(openMergeStack, h) || h in old(openMergeStack)[s]
    {
      hide Waiting;
      openMergeStack := openMergeStack - {s};
      states := states - {s};
      forall x ensures Placed(x, dying - {s}) { assert old(Placed(x, dying)); }
      forall k | k in reachedMergeClose ensures Holds(k) { assert old(Holds(k)); }
      forall h
        ensures Referenced(old(openMergeStack), h) <==> Referenced(openMergeStack, h) || h in old(openMergeStack)[s]
      {
        if x :| x in old(openMergeStack) && h in old(openMergeStack)[x] {
          assert x == s || h in openMergeStack[x];
        }
        if x :| x in openMergeStack && h in openMergeStack[x] { assert h in old(openMergeStack)[x]; }
      }
    }

    lemma SameFreed(dying: set<State>)
      requires Placements(dying, {})
      ensures Freed(holder, continued, paused)
    {
      forall t ensures t in paused ==> t in holder { assert Placed(t, dying); }
    }

    method FreeHandler(h: Handler, ghost dying: set<State>,
                       ghost holder0: map<State, Handler>, ghost continued0: seq<State>, ghost paused0: seq<State>)
      requires Placements(dying, {}) && h in reachedMergeClose && Freed(holder0, continued0, paused0)
      modifies this`paused, this`continued, this`reachedMergeClose, this`holder
      ensures Placements(dying, {}) && reachedMergeClose == old(reachedMergeClose) - {h}
      ensures Freed(holder0, continued0, paused0)
    {
      hide Waiting, Placements, Legal, Nowhere;
      Where(dying);
      Destroy(h, dying);
      Where(dying);
    }

    /** Held states are in the searcher exactly while they are about to pause, and others that are not
        terminated are in the searcher or about to resume, never both. */
    lemma Where(dying: set<State>)
      requires Placements(dying, {})
      ensures forall t :: t in holder ==> t !in continued && (t in paused <==> t in scheduled)
      ensures forall t :: t in continued ==> t !in scheduled
      ensures forall t :: t in holder ==> t !in added
    {
      forall t ensures
        && (t in holder ==> t !in continued && (t in paused <==> t in scheduled) && t !in added)
        && (t in continued ==> t !in scheduled)
      {
        assert Placed(t, dying);
      }
    }

    /** Exactly the states whose handler is gone have been let go: those already out of the searcher
        resume with the next update, those on their way out stay in it. */
    ghost predicate Freed(holder0: map<State, Handler>, continued0: seq<State>, paused0: seq<State>)
      reads this
    {
      && (forall t :: t in holder <==> t in holder0 && holder0[t] in reachedMergeClose)
      && (forall t :: t in holder ==> holder[t] == holder0[t])
      && (forall t :: t in continued <==> t in continued0 || (t in holder0 && t !in holder && t !in paused0))
      && (forall t :: t in paused <==> t in paused0 && t in holder)
    }

    /** Termination: a state forked since the last update is deleted at once, any other is queued for
        removal. Everything stays in its place exactly if it was one forked since or a running one; a
        held or resuming state, or one terminated before, is not. */
    method Terminate(s: State)
      requires Valid() && s in openMergeStack
      modifies this`removed, this`added, this`paused, this`continued, this`reachedMergeClose, this`holder,
        this`openMergeStack, this`states
      ensures Valid() <==> old(Running(s)) || s in old(added)
      ensures s in old(added) ==>
        openMergeStack == old(openMergeStack) - {s} && Freed(old(holder), old(continued), old(paused))
      ensures s !in old(added) ==>
        removed == old(removed) + [s] && openMergeStack == old(openMergeStack) && holder == old(holder)
    {
      hide Waiting, Freed;
      var it := Index(added, s);
      hide Placements;
      if it == |added| {
        QueueRemoval(s);
      } else {
        Unadd(s, it);
        SameFreed({s});
        DyingExist({s});
        Delete(s, {s}, holder, continued, paused);
        assert {s} - {s} == {};
      }
    }

    method Unadd(s: State, it: nat)
      requires Placements({}, {}) && it < |added| && added[it] == s
      modifies this`added
      ensures Placements({s}, {}) && s !in added
    {
      hide Waiting;
      assert Placed(s, {});
      Erased(added, it);
      added := added[..it] + added[it + 1..];
      forall x ensures Placed(x, {s}) { assert old(Placed(x, {})); }
      forall k | k in reachedMergeClose ensures Holds(k) { assert old(Holds(k)); }
    }

    /** `updateStates`: the searcher learns of forks, terminations, pauses and resumptions, and the
        terminated states are deleted. Whoever was ready can now be selected, whoever is held cannot;
        only states let go by a deletion here have to wait for the next update. */
    method UpdateStates()
      requires Valid()
      modifies this
      ensures Valid() && added == [] && removed == [] && paused == []
      ensures openMergeStack == old(openMergeStack) - Members(old(removed))
      ensures forall s :: s in scheduled <==> old(Ready(s))
      ensures forall s :: s in holder <==> s in old(holder) && old(holder)[s] in reachedMergeClose
      ensures forall s :: s in continued <==> s in old(holder) && old(holder)[s] !in reachedMergeClose
    {
      hide Waiting, Freed, Placements, Referenced, Ready;
      var gone := removed;
      RemovedDistinct();
      TellSearcher(Members(removed));
      SameFreed(Members(gone));
      assert gone[0..] == gone;
      for k := 0 to |gone|
        invariant Placements(Members(gone[k..]), {})
        invariant added == [] && removed == [] && openMergeStack == old(openMergeStack) - Members(gone[..k])
        invariant forall h :: h in reachedMergeClose <==> Referenced(openMergeStack, h)
        invariant forall s :: s in scheduled <==> old(Ready(s))
        invariant Freed(old(holder), [], [])
      {
        assert gone[k..] == [gone[k]] + gone[k + 1..] && gone[..k + 1] == gone[..k] + [gone[k]];
        assert Members(gone[k..]) - {gone[k]} == Members(gone[k + 1..]);
        assert gone[k] in Members(gone[k..]);
        DyingExist(Members(gone[k..]));
        Delete(gone[k], Members(gone[k..]), old(holder), [], []);
      }
      assert gone[|gone|..] == [] && gone[..|gone|] == gone;
      assert Members(gone[|gone|..]) == {};
      EndUpdate(old(holder));
    }

    lemma DyingExist(dying: set<State>)
      requires Placements(dying, {})
      ensures dying <= openMergeStack.Keys
    {
    }

    lemma RemovedDistinct()
      requires Placements({}, {})
      ensures Distinct(removed)
    {
    }

    method TellSearcher(ghost dying: set<State>)
      requires Valid() && dying == Members(removed)
      modifies this`scheduled, this`states, this`added, this`removed, this`paused, this`continued
      ensures Placements(dying, {}) && added == [] && removed == [] && paused == [] && continued == []
      ensures forall s :: s in scheduled <==> old(Ready(s))
    {
      hide Waiting, Legal, Nowhere, Placements;
      var next := scheduled + Members(added) - Members(removed);
      next := next + Members(continued) - Members(paused);
      Rescheduled(next);
      scheduled, paused, continued := next, [], [];
      states := states + Members(added);
      added, removed := [], [];
      Told(dying);
    }

    /** The searcher finds every state it is told to drop, has none it is told to insert, and is left
        with the ready states, which are the live ones that nobody holds. */
    lemma Rescheduled(next: set<State>)
      requires Placements({}, {})
      requires next == scheduled + Members(added) - Members(removed) + Members(continued) - Members(paused)
      ensures forall s :: (s in removed || s in paused ==> s in scheduled) && (s in added || s in continued ==>
        s !in scheduled)
      ensures forall s :: s in next <==> Ready(s)
      ensures forall s :: s in next <==> s in openMergeStack && s !in removed && s !in holder
      ensures forall s :: s in holder ==> s in openMergeStack && s !in removed
      ensures forall s :: s in added ==> s in openMergeStack && s !in removed
      ensures Members(removed) <= openMergeStack.Keys
    {
      hide Waiting;
      forall s ensures
        && (s in removed || s in paused ==> s in scheduled) && (s in added || s in continued ==> s !in scheduled)
        && (s in next <==> Ready(s)) && (s in next <==> s in openMergeStack && s !in removed && s !in holder)
        && (s in holder ==> s in openMergeStack && s !in removed)
        && (s in added ==> s in openMergeStack && s !in removed)
        && (s in removed ==> s in openMergeStack)
      {
        assert Placed(s, {});
      }
    }

    twostate lemma Told(dying: set<State>)
      requires old(Placements({}, {})) && dying <= openMergeStack.Keys
      requires openMergeStack == old(openMergeStack) && reachedMergeClose == old(reachedMergeClose)
      requires holder == old(holder)
      requires added == [] && removed == [] && paused == [] && continued == []
      requires forall s :: s in scheduled <==> s in openMergeStack && s !in dying && s !in holder
      requires forall s :: s in holder ==> s in openMergeStack && s !in dying
      requires states == old(states) + Members(old(added))
      ensures Placements(dying, {})
    {
      hide Waiting;
      forall x ensures Placed(x, dying) { }
      forall k | k in reachedMergeClose ensures Holds(k) { assert old(Holds(k)); }
      forall x | x !in dying ensures x in states <==> x in openMergeStack && x !in added { assert old(Placed(x, {})); }
    }

    lemma EndUpdate(holder0: map<State, Handler>)
      requires Freed(holder0, [], [])
      ensures paused == [] && (forall s :: s in holder <==> s in holder0 && holder0[s] in reachedMergeClose)
      ensures forall s :: s in continued <==> s in holder0 && holder0[s] !in reachedMergeClose
    {
      HasMember(paused);
    }
  }

  /** A state that waits in a handler is terminated, as happens when memory runs out: it stays in the
      handler although it is queued for removal. */
  method KillWaiting() returns (ex: Executor)
    ensures fresh(ex) && !ex.Valid() && 0 in ex.holder && 0 in ex.removed
  {
    hide Waiting, Executor.Freed, Executor.Placements, Executor.Left, Legal, Nowhere, Referenced;
    ex := TwoInRegion();
    ghost var stacks, holder := ex.openMergeStack, ex.holder;
    ex.Close(0, 5, t => false);
    LeftWaiting(ex, stacks, holder);
    ex.Terminate(0);
  }

  /** Both states are inside the region of handler 7, and nobody waits. */
  ghost predicate BothInside(stacks: map<State, seq<Handler>>, holder: map<State, Handler>) {
    0 in stacks && 1 in stacks && stacks[0] == stacks[1] == [7] && forall s :: s !in holder
  }

  /** Two states inside one region, the first one running. */
  method TwoInRegion() returns (ex: Executor)
    ensures fresh(ex) && ex.Valid() && ex.Running(0) && ex.removed == [] && BothInside(ex.openMergeStack, ex.holder)
  {
    hide Waiting, Executor.Freed, Executor.Placements, Legal, Nowhere, Referenced;
    ex := new Executor(0);
    ex.Open(0, 7);
    ex.Branch(0, 1);
    assert ex.Ready(0) && Members(ex.removed) == {};
    ex.UpdateStates();
  }

  /** The first one to leave waits. */
  lemma LeftWaiting(ex: Executor, stacks: map<State, seq<Handler>>, holder: map<State, Handler>)
    requires ex.Valid() && BothInside(stacks, holder) && ex.Left(0, stacks, [], holder, t => false)
    ensures 0 in ex.holder && 0 in ex.openMergeStack && 0 !in ex.added && !ex.Running(0)
  {
    hide Waiting;
    assert 7 in ex.openMergeStack[1] && Referenced(ex.openMergeStack, 7);
    assert ex.Placed(0, {});
  }

  lemma {:induction false} WaitingMember(gs: seq<Group>, i: nat, j: nat)
    requires i < |gs| && j < |gs[i].waiting|
    ensures Waiting(gs)[gs[i].waiting[j]] >= 1
  {
    if i == 0 { assert gs[0].waiting[j] in multiset(gs[0].waiting); } else { WaitingMember(gs[1..], i - 1, j); }
  }

  /** The groups of a handler hold each state it is the holder of once. */
  ghost predicate HoldsOf(groups: seq<Group>, holder: map<State, Handler>, h: Handler) {
    forall s :: Waiting(groups)[s] == One(s in holder && holder[s] == h)
  }

  lemma EnterHolds(closed: map<Handler, seq<Group>>, holder: map<State, Handler>, s: State, h: Handler, gs: seq<Group>,
                   closed': map<Handler, seq<Group>>, holder': map<State, Handler>)
    requires s !in holder && h in closed && forall x :: Waiting(gs)[x] == Waiting(closed[h])[x] + One(x == s)
    requires forall k :: k in closed ==> HoldsOf(closed[k], holder, k)
    requires closed' == closed[h := gs] && holder' == holder[s := h]
    ensures forall k :: k in closed' ==> HoldsOf(closed'[k], holder', k)
  {
    hide Waiting;
    forall k | k in closed' ensures HoldsOf(closed'[k], holder', k) {
      assert HoldsOf(closed[k], holder, k);
    }
  }

  lemma NothingWaits()
    ensures forall x :: Waiting([])[x] == 0
  {
  }

  lemma StackShrinks(stacks: map<State, seq<Handler>>, s: State)
    requires s in stacks && stacks[s] != []
    ensures var n := |stacks[s]| - 1; forall k :: k != stacks[s][n] ==>
      (Referenced(stacks[s := stacks[s][..n]], k) <==> Referenced(stacks, k))
  {
    var n := |stacks[s]| - 1;
    var after := stacks[s := stacks[s][..n]];
    assert after[s] + [stacks[s][n]] == stacks[s] && after[s := stacks[s]] == stacks;
    forall k | k != stacks[s][n] ensures Referenced(after, k) <==> Referenced(stacks, k) {
      hide Referenced;
      StackGrows(after, s, stacks[s][n], k);
    }
  }

  lemma StackGrows(stacks: map<State, seq<Handler>>, s: State, h: Handler, k: Handler)
    requires s in stacks
    ensures Referenced(stacks[s := stacks[s] + [h]], k) <==> Referenced(stacks, k) || k == h
  {
    var after := stacks[s := stacks[s] + [h]];
    if k == h { assert h in after[s]; }
    if x :| x in stacks && k in stacks[x] { assert k in after[x]; }
    if x :| x in after && k in after[x] { assert k != h ==> k in stacks[x]; }
  }
}
