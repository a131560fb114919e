/** The two distance tables of `StatsTracker::computeReachableUncovered`: from every instruction to a
    return of its function, and to an uncovered instruction, both through calls. */
module Distances {

  // ----- costs derived by rules -----

  /** One way to reach the goal from a node: pay `cost`, then reach it from every premise. */
  datatype Rule = Rule(cost: nat, premises: seq<nat>)

  type System = seq<set<Rule>>

  predicate WFRule(r: Rule, n: nat) {
    r.cost > 0 && forall j :: 0 <= j < |r.premises| ==> r.premises[j] < n
  }

  ghost predicate WFSystem(sys: System) {
    forall i, r :: 0 <= i < |sys| && r in sys[i] ==> WFRule(r, |sys|)
  }

  function Sum(ns: seq<nat>): nat {
    if ns == [] then 0 else ns[0] + Sum(ns[1..])
  }

  /** The goal can be reached from `i` at cost exactly `n`. */
  ghost predicate Derives(sys: System, i: nat, n: nat)
    decreases n
  {
    i < |sys| && exists r, ns ::
      && r in sys[i] && Applies(r, ns, n)
      && forall j :: 0 <= j < |ns| && ns[j] < n ==> Derives(sys, r.premises[j], ns[j])
  }

  /** The rule with premises reached at costs `ns` gives cost `n`. */
  predicate Applies(r: Rule, ns: seq<nat>, n: nat) {
    |ns| == |r.premises| && n == r.cost + Sum(ns)
  }

  lemma {:induction false} SumElement(ns: seq<nat>, j: nat)
    requires j < |ns|
    ensures ns[j] <= Sum(ns)
  {
    if j > 0 { SumElement(ns[1..], j - 1); }
  }

  lemma SumOne(a: nat)
    ensures Sum([a]) == a
  {
    var s: seq<nat> := [a];
    assert s[1..] == [];
  }

  lemma SumTwo(a: nat, b: nat)
    ensures Sum([a, b]) == a + b
  {
    var s: seq<nat> := [a, b];
    assert s[1..] == [b];
    SumOne(b);
  }

  lemma {:induction false} SumMono(ms: seq<nat>, ns: seq<nat>)
    requires |ms| == |ns| && forall j :: 0 <= j < |ms| ==> ms[j] <= ns[j]
    ensures Sum(ms) <= Sum(ns)
  {
    if ms != [] { SumMono(ms[1..], ns[1..]); }
  }

  /** The current costs of a rule's premises. */
  function At(dist: seq<nat>, premises: seq<nat>): (ns: seq<nat>)
    requires forall j :: 0 <= j < |premises| ==> premises[j] < |dist|
    ensures |ns| == |premises| && forall j :: 0 <= j < |ns| ==> ns[j] == dist[premises[j]]
  {
    seq(|premises|, j requires 0 <= j < |premises| => dist[premises[j]])
  }

  /** Zero means unreachable; anything else is a cost that can be achieved. */
  ghost predicate Achieved(sys: System, dist: seq<nat>) {
    |dist| == |sys| && forall i :: 0 <= i < |dist| && dist[i] > 0 ==> Derives(sys, i, dist[i])
  }

  /** No rule promises less than the table says. */
  ghost predicate Relaxed(sys: System, dist: seq<nat>)
    requires WFSystem(sys) && |dist| == |sys|
  {
    forall i, r :: 0 <= i < |sys| && r in sys[i] ==> RuleRelaxed(r, dist, dist[i])
  }

  ghost predicate RuleRelaxed(r: Rule, dist: seq<nat>, d: nat)
    requires WFRule(r, |dist|)
  {
    (forall j :: 0 <= j < |r.premises| ==> dist[r.premises[j]] > 0) ==> 0 < d <= r.cost + Sum(At(dist, r.premises))
  }

  /** The table gives the least cost of every node, and zero exactly where there is none. */
  ghost predicate Least(sys: System, dist: seq<nat>) {
    && Achieved(sys, dist)
    && forall i, n :: 0 <= i < |dist| && Derives(sys, i, n) ==> 0 < dist[i] <= n
  }

  /** A table of achieved costs that no rule can improve is the table of least costs, cycles and
      recursion notwithstanding. */
  lemma FixpointIsLeast(sys: System, dist: seq<nat>)
    requires WFSystem(sys) && Achieved(sys, dist) && Relaxed(sys, dist)
    ensures Least(sys, dist)
  {
    forall i, n | 0 <= i < |dist| && Derives(sys, i, n) ensures 0 < dist[i] <= n {
      NoneBelow(sys, dist, i, n);
    }
  }

  lemma {:induction false} NoneBelow(sys: System, dist: seq<nat>, i: nat, n: nat)
    requires WFSystem(sys) && |dist| == |sys| && Relaxed(sys, dist) && Derives(sys, i, n)
    ensures 0 < dist[i] <= n
    decreases n
  {
    var r, ns :| r in sys[i] && Applies(r, ns, n) &&
      forall j :: 0 <= j < |ns| && ns[j] < n ==> Derives(sys, r.premises[j], ns[j]);
    assert WFRule(r, |sys|);
    forall j | 0 <= j < |ns| ensures 0 < dist[r.premises[j]] <= ns[j] {
      SumElement(ns, j);
      NoneBelow(sys, dist, r.premises[j], ns[j]);
    }
    assert RuleRelaxed(r, dist, dist[i]);
    SumMono(At(dist, r.premises), ns);
  }

  lemma DeriveByRule(sys: System, dist: seq<nat>, i: nat, r: Rule)
    requires WFSystem(sys) && Achieved(sys, dist) && i < |sys| && r in sys[i] && WFRule(r, |sys|)
    requires forall j :: 0 <= j < |r.premises| ==> dist[r.premises[j]] > 0
    ensures Derives(sys, i, r.cost + Sum(At(dist, r.premises)))
  {
    var ns := At(dist, r.premises);
    assert Applies(r, ns, r.cost + Sum(ns));
  }

  lemma DeriveOne(sys: System, dist: seq<nat>, i: nat, c: nat, s: nat)
    requires WFSystem(sys) && Achieved(sys, dist) && i < |sys| && Rule(c, [s]) in sys[i]
    requires s < |dist| && dist[s] > 0
    ensures Derives(sys, i, c + dist[s])
  {
    hide Derives, Achieved;
    var r := Rule(c, [s]);
    DeriveByRule(sys, dist, i, r);
    assert At(dist, r.premises) == [dist[s]];
    SumOne(dist[s]);
  }

  lemma DeriveTwo(sys: System, dist: seq<nat>, i: nat, e: nat, s: nat)
    requires WFSystem(sys) && Achieved(sys, dist) && i < |sys| && Rule(1, [e, s]) in sys[i]
    requires s < |dist| && dist[s] > 0 && e < |dist| && dist[e] > 0
    ensures Derives(sys, i, 1 + dist[e] + dist[s])
  {
    hide Derives, Achieved;
    var r := Rule(1, [e, s]);
    DeriveByRule(sys, dist, i, r);
    assert At(dist, r.premises) == [dist[e], dist[s]];
    SumTwo(dist[e], dist[s]);
  }

  // ----- costs as runs of a machine with a call stack -----

  /** The stack of pending nodes can be emptied at cost exactly `n`: a step replaces the top by the
      premises of one of its rules. For the return system this is running the program, calls pushing
      the callee's entry on top of the instruction to resume at. */
  ghost predicate Run(sys: System, stack: seq<nat>, n: nat)
    decreases n
  {
    if stack == [] then n == 0
    else stack[0] < |sys| && exists r ::
      r in sys[stack[0]] && 0 < r.cost <= n && Run(sys, r.premises + stack[1..], n - r.cost)
  }

  /** Each pending node has a cost of its own, and they add up. */
  ghost predicate Shares(sys: System, stack: seq<nat>, ns: seq<nat>, n: nat) {
    |ns| == |stack| && Sum(ns) == n && forall j :: 0 <= j < |ns| ==> Derives(sys, stack[j], ns[j])
  }

  lemma {:induction false} SumConcat(ms: seq<nat>, ns: seq<nat>)
    ensures Sum(ms + ns) == Sum(ms) + Sum(ns)
  {
    if ms == [] { assert ms + ns == ns; } else {
      assert (ms + ns)[1..] == ms[1..] + ns;
      SumConcat(ms[1..], ns);
    }
  }

  /** Costs derived by rules are the costs of runs: the shared costs of a stack are exactly what it
      takes to empty it. */
  lemma {:induction false} RunShares(sys: System, stack: seq<nat>, n: nat) returns (ns: seq<nat>)
    requires WFSystem(sys) && Run(sys, stack, n)
    ensures Shares(sys, stack, ns, n)
    decreases n
  {
    hide Derives, Run, Shares, Sum, WFSystem;
    if stack == [] {
      EmptyShares(sys, n);
      return [];
    }
    var r := FirstStep(sys, stack, n);
    var ms := RunShares(sys, r.premises + stack[1..], n - r.cost);
    var k := SharesSplit(sys, r.premises, stack[1..], ms, n - r.cost);
    TopShares(sys, stack[0], r, ms[..k]);
    SharesConcat(sys, [stack[0]], [r.cost + Sum(ms[..k])], stack[1..], ms[k..]);
    ns := [r.cost + Sum(ms[..k])] + ms[k..];
    assert stack == [stack[0]] + stack[1..];
  }

  lemma EmptyShares(sys: System, n: nat)
    requires Run(sys, [], n)
    ensures Shares(sys, [], [], n)
  {
  }

  lemma FirstStep(sys: System, stack: seq<nat>, n: nat) returns (r: Rule)
    requires Run(sys, stack, n) && stack != []
    ensures stack[0] < |sys| && r in sys[stack[0]] && 0 < r.cost <= n && Run(sys, r.premises + stack[1..], n - r.cost)
  {
    r :| r in sys[stack[0]] && 0 < r.cost <= n && Run(sys, r.premises + stack[1..], n - r.cost);
  }

  lemma SharesSplit(sys: System, s1: seq<nat>, s2: seq<nat>, ms: seq<nat>, n: nat) returns (k: nat)
    requires Shares(sys, s1 + s2, ms, n)
    ensures k == |s1| <= |ms| && n == Sum(ms[..k]) + Sum(ms[k..])
    ensures Shares(sys, s1, ms[..k], Sum(ms[..k])) && Shares(sys, s2, ms[k..], Sum(ms[k..]))
  {
    hide Derives;
    k := |s1|;
    assert ms == ms[..k] + ms[k..];
    SumConcat(ms[..k], ms[k..]);
    forall j | 0 <= j < |s1| ensures Derives(sys, s1[j], ms[..k][j]) { assert (s1 + s2)[j] == s1[j]; }
    forall j | 0 <= j < |s2| ensures Derives(sys, s2[j], ms[k..][j]) { assert (s1 + s2)[k + j] == s2[j]; }
  }

  /** One rule on top of the costs of its premises. */
  lemma TopShares(sys: System, i: nat, r: Rule, ms: seq<nat>)
    requires i < |sys| && r in sys[i] && Shares(sys, r.premises, ms, Sum(ms))
    ensures Shares(sys, [i], [r.cost + Sum(ms)], r.cost + Sum(ms)) && Sum([r.cost + Sum(ms)]) == r.cost + Sum(ms)
  {
    assert Applies(r, ms, r.cost + Sum(ms));
    SumOne(r.cost + Sum(ms));
  }

  lemma LastRule(sys: System, i: nat, n: nat) returns (r: Rule, ms: seq<nat>)
    requires WFSystem(sys) && Derives(sys, i, n)
    ensures i < |sys| && r in sys[i] && WFRule(r, |sys|) && Applies(r, ms, n) && Shares(sys, r.premises, ms, Sum(ms))
  {
    r, ms :| r in sys[i] && Applies(r, ms, n) &&
      forall j :: 0 <= j < |ms| && ms[j] < n ==> Derives(sys, r.premises[j], ms[j]);
    assert WFRule(r, |sys|);
    forall j | 0 <= j < |ms| ensures Derives(sys, r.premises[j], ms[j]) { SumElement(ms, j); }
  }

  lemma SharesConcat(sys: System, s1: seq<nat>, ns1: seq<nat>, s2: seq<nat>, ns2: seq<nat>)
    requires Shares(sys, s1, ns1, Sum(ns1)) && Shares(sys, s2, ns2, Sum(ns2))
    ensures Shares(sys, s1 + s2, ns1 + ns2, Sum(ns1) + Sum(ns2))
  {
    hide Derives;
    SumConcat(ns1, ns2);
  }

  lemma RunStep(sys: System, i: nat, rest: seq<nat>, r: Rule, n: nat)
    requires i < |sys| && r in sys[i] && r.cost > 0 && Run(sys, r.premises + rest, n)
    ensures Run(sys, [i] + rest, r.cost + n)
  {
    var stack := [i] + rest;
    assert stack[1..] == rest;
  }

  lemma {:induction false} SharesRun(sys: System, stack: seq<nat>, ns: seq<nat>, n: nat)
    requires WFSystem(sys) && Shares(sys, stack, ns, n)
    ensures Run(sys, stack, n)
    decreases n
  {
    if stack != [] {
      hide Derives, Run;
      var r, ms := LastRule(sys, stack[0], ns[0]);
      SharesConcat(sys, r.premises, ms, stack[1..], ns[1..]);
      SharesRun(sys, r.premises + stack[1..], ms + ns[1..], n - r.cost);
      RunStep(sys, stack[0], stack[1..], r, n - r.cost);
      assert stack == [stack[0]] + stack[1..];
    }
  }

  lemma DerivesIsRun(sys: System, i: nat, n: nat)
    requires WFSystem(sys)
    ensures Derives(sys, i, n) <==> Run(sys, [i], n)
  {
    if Derives(sys, i, n) {
      SumOne(n);
      SharesRun(sys, [i], [n], n);
    }
    if Run(sys, [i], n) {
      var ns := RunShares(sys, [i], n);
      assert ns == [ns[0]];
      SumOne(ns[0]);
    }
  }

  /** The entry of a least table is the length of the shortest run, and zero says there is none. */
  ghost predicate ShortestRun(sys: System, dist: seq<nat>) {
    && |dist| == |sys|
    && forall i: nat :: i < |dist| ==>
      && (dist[i] > 0 ==> Run(sys, [i], dist[i]))
      && forall n :: Run(sys, [i], n) ==> 0 < dist[i] <= n
  }

  lemma LeastIsShortest(sys: System, dist: seq<nat>)
    requires WFSystem(sys) && Least(sys, dist)
    ensures ShortestRun(sys, dist)
  {
    hide Derives, Run;
    forall i: nat, n | i < |dist| ensures Derives(sys, i, n) <==> Run(sys, [i], n) {
      DerivesIsRun(sys, i, n);
    }
  }

  // ----- the measure of progress -----

  function Zeros(s: seq<nat>): nat {
    if s == [] then 0 else (if s[0] == 0 then 1 else 0) + Zeros(s[1..])
  }

  lemma {:induction false} UpdateMeasures(s: seq<nat>, i: nat, v: nat)
    requires i < |s|
    ensures Sum(s[i := v]) == Sum(s) - s[i] + v
    ensures Zeros(s[i := v]) == Zeros(s) - (if s[i] == 0 then 1 else 0) + (if v == 0 then 1 else 0)
  {
    if i == 0 {
      assert s[i := v][1..] == s[1..];
    } else {
      assert s[i := v][1..] == s[1..][i - 1 := v];
      UpdateMeasures(s[1..], i - 1, v);
    }
  }

  /** Fewer unreachable entries, or as many and a smaller total. */
  predicate Progress(d: seq<nat>, f: seq<nat>, d': seq<nat>, f': seq<nat>) {
    || Zeros(d') + Zeros(f') < Zeros(d) + Zeros(f)
    || (Zeros(d') + Zeros(f') == Zeros(d) + Zeros(f) && Sum(d') + Sum(f') < Sum(d) + Sum(f))
  }

  // ----- programs -----

  /** `targets` are the functions a call may reach, `fn` the function the instruction belongs to. */
  datatype Instruction = Instruction(isReturn: bool, isCall: bool, targets: seq<nat>, succs: seq<nat>, fn: nat)

  /** A declaration has no body; a definition starts at `entry`. */
  datatype Function = Function(isDeclaration: bool, returns_: bool, entry: nat)

  datatype Program = Program(instrs: seq<Instruction>, functions: seq<Function>)

  predicate WFInstruction(p: Program, inst: Instruction) {
    && (forall s :: s in inst.succs ==> s < |p.instrs|)
    && (forall g :: g in inst.targets ==> g < |p.functions|)
    && inst.fn < |p.functions| && !p.functions[inst.fn].isDeclaration
    && !(inst.isReturn && inst.isCall)
  }

  predicate WFFunction(p: Program, f: nat)
    requires f < |p.functions|
  {
    !p.functions[f].isDeclaration ==> p.functions[f].entry < |p.instrs| && p.instrs[p.functions[f].entry].fn == f
  }

  predicate WFProgram(p: Program) {
    && (forall i :: 0 <= i < |p.instrs| ==> WFInstruction(p, p.instrs[i]))
    && (forall f :: 0 <= f < |p.functions| ==> WFFunction(p, f))
  }

  predicate IsEntry(p: Program, i: nat)
    requires WFProgram(p) && i < |p.instrs|
  {
    p.functions[p.instrs[i].fn].entry == i
  }

  /** The ways to a return: be one; step to a successor; or call, pass through the callee and step. */
  function ReturnRules(p: Program, i: nat): set<Rule>
    requires WFProgram(p) && i < |p.instrs|
  {
    var inst := p.instrs[i];
    assert WFInstruction(p, inst);
    (if inst.isReturn then {Rule(1, [])} else {}) +
    (if !inst.isCall then set s | s in inst.succs :: Rule(1, [s])
     else (set s, g | s in inst.succs && g in inst.targets && ReturningDeclaration(p, g) :: Rule(2, [s])) +
          (set s, g | s in inst.succs && g in inst.targets && Defined(p, g) :: Rule(1, [p.functions[g].entry, s])))
  }

  predicate Defined(p: Program, g: nat) {
    g < |p.functions| && !p.functions[g].isDeclaration
  }

  predicate ReturningDeclaration(p: Program, g: nat) {
    g < |p.functions| && p.functions[g].isDeclaration && p.functions[g].returns_
  }

  function ReturnSystem(p: Program): (sys: System)
    requires WFProgram(p)
    ensures |sys| == |p.instrs| && forall i :: 0 <= i < |sys| ==> sys[i] == ReturnRules(p, i)
  {
    seq(|p.instrs|, i requires 0 <= i < |p.instrs| => ReturnRules(p, i))
  }

  lemma ReturnSystemWF(p: Program)
    requires WFProgram(p)
    ensures WFSystem(ReturnSystem(p))
  {
    var sys := ReturnSystem(p);
    forall i, r | 0 <= i < |sys| && r in sys[i] ensures WFRule(r, |sys|) {
      assert WFInstruction(p, p.instrs[i]);
      assert forall g :: Defined(p, g) ==> WFFunction(p, g);
    }
  }

  // ----- distance to a return -----

  /** The cheapest way past instruction `i`, given the shortest path through each function; zero if
      none of the functions it may call returns. */
  ghost predicate IsThrough(p: Program, fsp: seq<nat>, i: nat, t: nat)
    requires WFProgram(p) && |fsp| == |p.functions| && i < |p.instrs|
  {
    var inst := p.instrs[i];
    assert WFInstruction(p, inst);
    if !inst.isCall then t == 1
    else
      && (forall g :: g in inst.targets && fsp[g] > 0 ==> 0 < t <= 1 + fsp[g])
      && (t > 0 ==> exists g :: g in inst.targets && fsp[g] > 0 && t == 1 + fsp[g])
  }

  method BestThrough(p: Program, fsp: seq<nat>, i: nat) returns (t: nat)
    requires WFProgram(p) && |fsp| == |p.functions| && i < |p.instrs|
    ensures IsThrough(p, fsp, i, t)
  {
    var inst := p.instrs[i];
    assert WFInstruction(p, inst);
    if !inst.isCall { return 1; }
    t := 0;
    for k := 0 to |inst.targets|
      invariant forall g :: g in inst.targets[..k] && g in inst.targets && fsp[g] > 0 ==> 0 < t <= 1 + fsp[g]
      invariant t > 0 ==> exists g :: g in inst.targets && fsp[g] > 0 && t == 1 + fsp[g]
    {
      assert inst.targets[k] in inst.targets && inst.targets[..k + 1] == inst.targets[..k] + [inst.targets[k]];
      var dist := fsp[inst.targets[k]];
      if dist > 0 && (t == 0 || 1 + dist < t) { t := 1 + dist; }
    }
  }

  /** The better of `cur` and every way over a successor. */
  method BestOverSuccs(dist: seq<nat>, succs: seq<nat>, through: nat, cur: nat) returns (best: nat)
    requires forall s :: s in succs ==> s < |dist|
    requires through > 0
    ensures best == cur || exists s :: s in succs && dist[s] > 0 && best == through + dist[s]
    ensures cur > 0 ==> 0 < best <= cur
    ensures forall s :: s in succs && dist[s] > 0 ==> 0 < best <= through + dist[s]
  {
    best := cur;
    for k := 0 to |succs|
      invariant best == cur || exists s :: s in succs && dist[s] > 0 && best == through + dist[s]
      invariant cur > 0 ==> 0 < best <= cur
      invariant forall s :: s in succs[..k] && s in succs && dist[s] > 0 ==> 0 < best <= through + dist[s]
    {
      assert succs[k] in succs && succs[..k + 1] == succs[..k] + [succs[k]];
      var d := dist[succs[k]];
      if d > 0 && (best == 0 || through + d < best) { best := through + d; }
    }
  }

  /** What holds throughout: the table entries are achieved, and a function's shortest path is the
      entry's distance unless it has not been noticed yet. */
  ghost predicate ReturnInvariant(p: Program, dist: seq<nat>, fsp: seq<nat>)
    requires WFProgram(p)
  {
    && |dist| == |p.instrs| && |fsp| == |p.functions| && Achieved(ReturnSystem(p), dist)
    && (forall f :: 0 <= f < |fsp| && p.functions[f].isDeclaration ==>
      fsp[f] == if p.functions[f].returns_ then 1 else 0)
    && (forall f :: 0 <= f < |fsp| && Defined(p, f) ==>
      WFFunction(p, f) && (fsp[f] == 0 || fsp[f] == dist[p.functions[f].entry]))
    && (forall i :: 0 <= i < |dist| && p.instrs[i].isReturn ==> dist[i] == 1)
    && (forall i :: 0 <= i < |dist| && dist[i] > 0 ==> Passable(p, fsp, i))
  }

  predicate Passable(p: Program, fsp: seq<nat>, i: nat)
    requires WFProgram(p) && |fsp| == |p.functions| && i < |p.instrs|
  {
    var inst := p.instrs[i];
    assert WFInstruction(p, inst);
    !inst.isCall || exists g :: g in inst.targets && fsp[g] > 0
  }

  /** Instruction `i` cannot be improved, and its function knows it. */
  ghost predicate ReturnSettled(p: Program, dist: seq<nat>, fsp: seq<nat>, i: nat)
    requires WFProgram(p) && |dist| == |p.instrs| && |fsp| == |p.functions| && i < |dist|
  {
    assert WFInstruction(p, p.instrs[i]);
    exists t :: IsThrough(p, fsp, i, t) && (t > 0 ==>
      && (forall s :: s in p.instrs[i].succs && dist[s] > 0 ==> 0 < dist[i] <= t + dist[s])
      && (IsEntry(p, i) ==> fsp[p.instrs[i].fn] == dist[i]))
  }

  /** A way past `i` and over a successor is a rule of the system. */
  lemma StepDerives(p: Program, dist: seq<nat>, fsp: seq<nat>, i: nat, t: nat, s: nat)
    requires WFProgram(p) && ReturnInvariant(p, dist, fsp) && i < |dist| && IsThrough(p, fsp, i, t) && t > 0
    requires s in p.instrs[i].succs && s < |dist| && dist[s] > 0
    ensures Derives(ReturnSystem(p), i, t + dist[s])
  {
    hide Derives, Achieved;
    ReturnSystemWF(p);
    var inst := p.instrs[i];
    assert WFInstruction(p, inst);
    if !inst.isCall {
      DeriveOne(ReturnSystem(p), dist, i, 1, s);
    } else {
      var g :| g in inst.targets && fsp[g] > 0 && t == 1 + fsp[g];
      if p.functions[g].isDeclaration {
        assert ReturningDeclaration(p, g);
        DeriveOne(ReturnSystem(p), dist, i, 2, s);
      } else {
        assert Defined(p, g) && WFFunction(p, g);
        DeriveTwo(ReturnSystem(p), dist, i, p.functions[g].entry, s);
      }
    }
  }

  function FspAfter(p: Program, fsp: seq<nat>, i: nat, best: nat): (f: seq<nat>)
    requires WFProgram(p) && |fsp| == |p.functions| && i < |p.instrs|
    ensures |f| == |fsp|
  {
    assert WFInstruction(p, p.instrs[i]);
    if IsEntry(p, i) then fsp[p.instrs[i].fn := best] else fsp
  }

  /** `best` is what one visit of instruction `i` with way-through `t` computes. */
  ghost predicate IsBest(p: Program, dist: seq<nat>, i: nat, t: nat, best: nat)
    requires WFProgram(p) && i < |p.instrs| == |dist|
  {
    assert WFInstruction(p, p.instrs[i]);
    && (best == dist[i] || exists s :: s in p.instrs[i].succs && dist[s] > 0 && best == t + dist[s])
    && (dist[i] > 0 ==> 0 < best <= dist[i])
    && (forall s :: s in p.instrs[i].succs && dist[s] > 0 ==> 0 < best <= t + dist[s])
  }

  lemma BestDerives(p: Program, dist: seq<nat>, fsp: seq<nat>, i: nat, t: nat, best: nat)
    requires WFProgram(p) && ReturnInvariant(p, dist, fsp) && i < |dist|
    requires IsThrough(p, fsp, i, t) && t > 0 && IsBest(p, dist, i, t, best)
    ensures best > 0 ==> Derives(ReturnSystem(p), i, best)
  {
    hide Derives, IsThrough;
    assert WFInstruction(p, p.instrs[i]);
    if best != dist[i] {
      var s :| s in p.instrs[i].succs && dist[s] > 0 && best == t + dist[s];
      StepDerives(p, dist, fsp, i, t, s);
    }
  }

  lemma VisitKeeps(p: Program, dist: seq<nat>, fsp: seq<nat>, i: nat, t: nat, best: nat)
    requires WFProgram(p) && ReturnInvariant(p, dist, fsp) && i < |dist|
    requires IsThrough(p, fsp, i, t) && t > 0 && IsBest(p, dist, i, t, best)
    ensures ReturnInvariant(p, dist[i := best], FspAfter(p, fsp, i, best))
  {
    hide Derives;
    BestDerives(p, dist, fsp, i, t, best);
    var d, f := dist[i := best], FspAfter(p, fsp, i, best);
    assert WFInstruction(p, p.instrs[i]);
    assert forall g :: 0 <= g < |f| && fsp[g] > 0 ==> f[g] > 0;
    forall k | 0 <= k < |d| && d[k] > 0 ensures Passable(p, f, k) {
      assert WFInstruction(p, p.instrs[k]);
      if k != i { assert Passable(p, fsp, k); }
    }
    forall g | 0 <= g < |f| && Defined(p, g)
      ensures WFFunction(p, g) && (f[g] == 0 || f[g] == d[p.functions[g].entry])
    {
      assert WFFunction(p, g);
    }
  }

  lemma VisitProgresses(p: Program, dist: seq<nat>, fsp: seq<nat>, i: nat, t: nat, best: nat)
    requires WFProgram(p) && ReturnInvariant(p, dist, fsp) && i < |dist| && IsBest(p, dist, i, t, best)
    requires best != dist[i] || FspAfter(p, fsp, i, best) != fsp
    ensures Progress(dist, fsp, dist[i := best], FspAfter(p, fsp, i, best))
  {
    hide Achieved, Passable;
    assert WFInstruction(p, p.instrs[i]);
    UpdateMeasures(dist, i, best);
    UpdateMeasures(fsp, p.instrs[i].fn, best);
    assert WFFunction(p, p.instrs[i].fn) && Defined(p, p.instrs[i].fn);
  }

  /** A table nothing can improve is closed under the rules: a callee that is reachable is known to
      be, because its entry has been settled too. */
  lemma SettledRelaxed(p: Program, dist: seq<nat>, fsp: seq<nat>)
    requires WFProgram(p) && ReturnInvariant(p, dist, fsp)
    requires forall i :: 0 <= i < |dist| ==> ReturnSettled(p, dist, fsp, i)
    ensures WFSystem(ReturnSystem(p)) && Relaxed(ReturnSystem(p), dist)
  {
    hide Achieved, ReturnSettled, ReturnRules, Passable;
    ReturnSystemWF(p);
    var sys := ReturnSystem(p);
    forall i, r | 0 <= i < |sys| && r in sys[i] ensures RuleRelaxed(r, dist, dist[i]) {
      SettledRule(p, dist, fsp, i, r);
    }
  }

  lemma SettledRule(p: Program, dist: seq<nat>, fsp: seq<nat>, i: nat, r: Rule)
    requires WFProgram(p) && ReturnInvariant(p, dist, fsp)
    requires forall i :: 0 <= i < |dist| ==> ReturnSettled(p, dist, fsp, i)
    requires i < |dist| && r in ReturnRules(p, i) && WFRule(r, |dist|)
    ensures RuleRelaxed(r, dist, dist[i])
  {
    hide Achieved;
    var inst := p.instrs[i];
    assert WFInstruction(p, inst) && ReturnSettled(p, dist, fsp, i);
    if r == Rule(1, []) || exists j :: 0 <= j < |r.premises| && dist[r.premises[j]] == 0 { return; }
    if |r.premises| == 1 {
      assert At(dist, r.premises) == [dist[r.premises[0]]];
    } else {
      var g, s :| s in inst.succs && g in inst.targets && Defined(p, g) && r == Rule(1, [p.functions[g].entry, s]);
      var e := p.functions[g].entry;
      assert WFFunction(p, g) && e == r.premises[0] && s == r.premises[1];
      EntryKnown(p, dist, fsp, g);
      assert At(dist, r.premises) == [dist[e], dist[s]];
      SumTwo(dist[e], dist[s]);
    }
  }

  lemma EntryKnown(p: Program, dist: seq<nat>, fsp: seq<nat>, g: nat)
    requires WFProgram(p) && ReturnInvariant(p, dist, fsp) && Defined(p, g)
    requires forall i :: 0 <= i < |dist| ==> ReturnSettled(p, dist, fsp, i)
    ensures WFFunction(p, g) && fsp[g] == dist[p.functions[g].entry]
  {
    hide Achieved;
    assert WFFunction(p, g);
    var e := p.functions[g].entry;
    assert ReturnSettled(p, dist, fsp, e);
    if dist[e] > 0 { assert Passable(p, fsp, e); }
  }

  /** Initial tables: only returns and returning declarations are known. */
  method InitReturn(p: Program) returns (dist: seq<nat>, fsp: seq<nat>)
    requires WFProgram(p)
    ensures ReturnInvariant(p, dist, fsp)
  {
    dist := seq(|p.instrs|, i requires 0 <= i < |p.instrs| => if p.instrs[i].isReturn then 1 else 0);
    fsp := seq(|p.functions|, f requires 0 <= f < |p.functions| => if ReturningDeclaration(p, f) then 1 else 0);
    ReturnSystemWF(p);
    forall i | 0 <= i < |dist| && dist[i] > 0 ensures Derives(ReturnSystem(p), i, dist[i]) && Passable(p, fsp, i) {
      assert WFInstruction(p, p.instrs[i]);
      assert Rule(1, []) in ReturnSystem(p)[i] && Applies(Rule(1, []), [], 1);
    }
    forall f | 0 <= f < |fsp| && Defined(p, f) ensures WFFunction(p, f) { }
  }

  /** One visit of the inner loop. */
  method VisitReturn(p: Program, dist: seq<nat>, fsp: seq<nat>, i: nat)
    returns (dist': seq<nat>, fsp': seq<nat>, changed: bool)
    requires WFProgram(p) && ReturnInvariant(p, dist, fsp) && i < |p.instrs|
    ensures ReturnInvariant(p, dist', fsp')
    ensures changed ==> Progress(dist, fsp, dist', fsp')
    ensures !changed ==> dist' == dist && fsp' == fsp && ReturnSettled(p, dist, fsp, i)
  {
    hide Achieved, Progress, Passable;
    dist', fsp', changed := dist, fsp, false;
    var inst := p.instrs[i];
    assert WFInstruction(p, inst);
    var t := BestThrough(p, fsp, i);
    if t > 0 {
      var best := BestOverSuccs(dist, inst.succs, t, dist[i]);
      assert IsBest(p, dist, i, t, best);
      if best != dist[i] || (IsEntry(p, i) && fsp[inst.fn] != best) {
        VisitKeeps(p, dist, fsp, i, t, best);
        VisitProgresses(p, dist, fsp, i, t, best);
        dist' := dist[i := best];
        changed := true;
        if IsEntry(p, i) { fsp' := fsp[inst.fn := best]; }
      }
    }
  }

  /** The shortest way through `f` is the way from its entry to a return. */
  predicate FspExact(p: Program, dist: seq<nat>, through: nat, f: nat)
    requires WFProgram(p) && |dist| == |p.instrs| && f < |p.functions|
  {
    assert WFFunction(p, f);
    through == if Defined(p, f) then dist[p.functions[f].entry] else if p.functions[f].returns_ then 1 else 0
  }

  /** The first fixpoint: the shortest way from every instruction to a return of its function, and
      through every function, however the functions call each other. */
  method MinDistToReturn(p: Program) returns (dist: seq<nat>, fsp: seq<nat>)
    requires WFProgram(p)
    ensures |fsp| == |p.functions| && |dist| == |p.instrs|
    ensures WFSystem(ReturnSystem(p)) && Least(ReturnSystem(p), dist)
    ensures forall f :: 0 <= f < |fsp| ==> FspExact(p, dist, fsp[f], f)
  {
    hide Achieved, Passable, ReturnSettled;
    dist, fsp := InitReturn(p);
    var changed := true;
    while changed
      invariant ReturnInvariant(p, dist, fsp)
      invariant !changed ==> forall i :: 0 <= i < |dist| ==> ReturnSettled(p, dist, fsp, i)
      decreases Zeros(dist) + Zeros(fsp), Sum(dist) + Sum(fsp), changed
    {
      changed := false;
      ghost var dist0, fsp0 := dist, fsp;
      for i := |p.instrs| downto 0
        invariant ReturnInvariant(p, dist, fsp)
        invariant changed ==> Progress(dist0, fsp0, dist, fsp)
        invariant !changed ==> dist == dist0 && fsp == fsp0 && forall k :: i <= k < |dist| ==>
          ReturnSettled(p, dist, fsp, k)
      {
        var c;
        dist, fsp, c := VisitReturn(p, dist, fsp, i);
        changed := changed || c;
      }
    }
    SettledRelaxed(p, dist, fsp);
    FixpointIsLeast(ReturnSystem(p), dist);
    forall f | 0 <= f < |fsp| ensures FspExact(p, dist, fsp[f], f) {
      if Defined(p, f) { EntryKnown(p, dist, fsp, f); }
    }
  }

  // ----- distance to an uncovered instruction -----

  /** What the second fixpoint reads: the shortest ways through functions, and what is uncovered. */
  datatype Coverage = Coverage(p: Program, fsp: seq<nat>, uncovered: seq<bool>)

  predicate WFCoverage(c: Coverage) {
    WFProgram(c.p) && |c.fsp| == |c.p.functions| && |c.uncovered| == |c.p.instrs|
  }

  /** The ways to an uncovered instruction: be one; step; call, return and step; or find it in a callee. */
  function UncoveredRules(c: Coverage, i: nat): set<Rule>
    requires WFCoverage(c) && i < |c.p.instrs|
  {
    var inst := c.p.instrs[i];
    assert WFInstruction(c.p, inst);
    (if c.uncovered[i] then {Rule(1, [])} else {}) +
    (if !inst.isCall then set s | s in inst.succs :: Rule(1, [s])
     else (set s, g | s in inst.succs && g in inst.targets && c.fsp[g] > 0 :: Rule(1 + c.fsp[g], [s])) +
          (set g | g in inst.targets && Defined(c.p, g) :: Rule(1, [c.p.functions[g].entry])))
  }

  function UncoveredSystem(c: Coverage): (sys: System)
    requires WFCoverage(c)
    ensures |sys| == |c.p.instrs| && forall i :: 0 <= i < |sys| ==> sys[i] == UncoveredRules(c, i)
  {
    seq(|c.p.instrs|, i requires 0 <= i < |c.p.instrs| => UncoveredRules(c, i))
  }

  lemma UncoveredSystemWF(c: Coverage)
    requires WFCoverage(c)
    ensures WFSystem(UncoveredSystem(c))
  {
    var sys := UncoveredSystem(c);
    forall i, r | 0 <= i < |sys| && r in sys[i] ensures WFRule(r, |sys|) {
      assert WFInstruction(c.p, c.p.instrs[i]);
      assert forall g :: Defined(c.p, g) ==> WFFunction(c.p, g);
    }
  }

  ghost predicate UncoveredInvariant(c: Coverage, dist: seq<nat>)
    requires WFCoverage(c)
  {
    && |dist| == |c.p.instrs| && Achieved(UncoveredSystem(c), dist)
    && forall i :: 0 <= i < |dist| && c.uncovered[i] ==> dist[i] == 1
  }

  /** `best` is at least as good as entering any callee of `targets`. */
  ghost predicate BeatsCallees(c: Coverage, dist: seq<nat>, targets: seq<nat>, best: nat)
    requires WFCoverage(c) && |dist| == |c.p.instrs|
  {
    forall g :: g in targets && Defined(c.p, g) ==>
      WFFunction(c.p, g) && (dist[c.p.functions[g].entry] > 0 ==> 0 < best <= 1 + dist[c.p.functions[g].entry])
  }

  ghost predicate BeatsSuccs(c: Coverage, dist: seq<nat>, i: nat, t: nat, best: nat)
    requires WFCoverage(c) && i < |dist| == |c.p.instrs|
  {
    assert WFInstruction(c.p, c.p.instrs[i]);
    t > 0 ==> forall s :: s in c.p.instrs[i].succs && dist[s] > 0 ==> 0 < best <= t + dist[s]
  }

  ghost predicate UncoveredSettled(c: Coverage, dist: seq<nat>, i: nat)
    requires WFCoverage(c) && i < |dist| == |c.p.instrs|
  {
    && (c.p.instrs[i].isCall ==> BeatsCallees(c, dist, c.p.instrs[i].targets, dist[i]))
    && exists t :: IsThrough(c.p, c.fsp, i, t) && BeatsSuccs(c, dist, i, t, dist[i])
  }

  lemma EnterDerives(c: Coverage, dist: seq<nat>, i: nat, g: nat)
    requires WFCoverage(c) && UncoveredInvariant(c, dist) && i < |dist|
    requires c.p.instrs[i].isCall && g in c.p.instrs[i].targets && Defined(c.p, g)
    ensures WFFunction(c.p, g)
    ensures dist[c.p.functions[g].entry] > 0 ==> Derives(UncoveredSystem(c), i, 1 + dist[c.p.functions[g].entry])
  {
    hide Derives, Achieved;
    assert WFFunction(c.p, g);
    UncoveredSystemWF(c);
    if dist[c.p.functions[g].entry] > 0 {
      DeriveOne(UncoveredSystem(c), dist, i, 1, c.p.functions[g].entry);
    }
  }

  lemma PassDerives(c: Coverage, dist: seq<nat>, i: nat, t: nat, s: nat)
    requires WFCoverage(c) && UncoveredInvariant(c, dist) && i < |dist|
    requires IsThrough(c.p, c.fsp, i, t) && t > 0 && s in c.p.instrs[i].succs && s < |dist| && dist[s] > 0
    ensures Derives(UncoveredSystem(c), i, t + dist[s])
  {
    hide Derives, Achieved;
    assert WFInstruction(c.p, c.p.instrs[i]);
    UncoveredSystemWF(c);
    if c.p.instrs[i].isCall {
      var g :| g in c.p.instrs[i].targets && c.fsp[g] > 0 && t == 1 + c.fsp[g];
      assert Rule(1 + c.fsp[g], [s]) in UncoveredRules(c, i);
    }
    DeriveOne(UncoveredSystem(c), dist, i, t, s);
  }

  /** The loop over the callees, which looks for the best way through and the best way in. */
  method BestIntoCallees(c: Coverage, dist: seq<nat>, i: nat) returns (t: nat, best: nat)
    requires WFCoverage(c) && UncoveredInvariant(c, dist) && i < |dist|
    ensures IsThrough(c.p, c.fsp, i, t)
    ensures dist[i] > 0 ==> 0 < best <= dist[i]
    ensures best > 0 ==> Derives(UncoveredSystem(c), i, best)
    ensures c.p.instrs[i].isCall ==> BeatsCallees(c, dist, c.p.instrs[i].targets, best)
  {
    hide Derives;
    var inst := c.p.instrs[i];
    assert WFInstruction(c.p, inst);
    best := dist[i];
    if !inst.isCall { t := 1; return; }
    t := 0;
    for k := 0 to |inst.targets|
      invariant forall g :: g in inst.targets[..k] && g in inst.targets && c.fsp[g] > 0 ==> 0 < t <= 1 + c.fsp[g]
      invariant t > 0 ==> exists g :: g in inst.targets && c.fsp[g] > 0 && t == 1 + c.fsp[g]
      invariant dist[i] > 0 ==> 0 < best <= dist[i]
      invariant best > 0 ==> Derives(UncoveredSystem(c), i, best)
      invariant BeatsCallees(c, dist, inst.targets[..k], best)
    {
      var g := inst.targets[k];
      assert g in inst.targets && inst.targets[..k + 1] == inst.targets[..k] + [g];
      if c.fsp[g] > 0 && (t == 0 || 1 + c.fsp[g] < t) { t := 1 + c.fsp[g]; }
      if !c.p.functions[g].isDeclaration {
        EnterDerives(c, dist, i, g);
        var d := dist[c.p.functions[g].entry];
        if d > 0 && (best == 0 || 1 + d < best) { best := 1 + d; }
      }
    }
    assert inst.targets[..|inst.targets|] == inst.targets;
  }

  method VisitUncovered(c: Coverage, dist: seq<nat>, i: nat) returns (dist': seq<nat>, changed: bool)
    requires WFCoverage(c) && UncoveredInvariant(c, dist) && i < |dist|
    ensures UncoveredInvariant(c, dist')
    ensures changed ==> Progress(dist, [], dist', [])
    ensures !changed ==> dist' == dist && UncoveredSettled(c, dist, i)
  {
    hide Derives, IsThrough;
    assert WFInstruction(c.p, c.p.instrs[i]);
    var t, best := BestIntoCallees(c, dist, i);
    if t > 0 {
      var cur := best;
      best := BestOverSuccs(dist, c.p.instrs[i].succs, t, cur);
      if best != cur {
        var s :| s in c.p.instrs[i].succs && dist[s] > 0 && best == t + dist[s];
        PassDerives(c, dist, i, t, s);
      }
    }
    changed := best != dist[i];
    dist' := dist;
    if changed {
      UpdateMeasures(dist, i, best);
      dist' := dist[i := best];
    } else {
      assert BeatsSuccs(c, dist, i, t, dist[i]);
    }
  }

  lemma UncoveredRelaxed(c: Coverage, dist: seq<nat>)
    requires WFCoverage(c) && UncoveredInvariant(c, dist)
    requires forall i :: 0 <= i < |dist| ==> UncoveredSettled(c, dist, i)
    ensures WFSystem(UncoveredSystem(c)) && Relaxed(UncoveredSystem(c), dist)
  {
    hide Achieved, UncoveredSettled, UncoveredRules;
    UncoveredSystemWF(c);
    var sys := UncoveredSystem(c);
    forall i, r | 0 <= i < |sys| && r in sys[i] ensures RuleRelaxed(r, dist, dist[i]) {
      UncoveredRule(c, dist, i, r);
    }
  }

  lemma UncoveredRule(c: Coverage, dist: seq<nat>, i: nat, r: Rule)
    requires WFCoverage(c) && UncoveredInvariant(c, dist)
    requires i < |dist| && UncoveredSettled(c, dist, i) && r in UncoveredRules(c, i) && WFRule(r, |dist|)
    ensures RuleRelaxed(r, dist, dist[i])
  {
    hide Achieved;
    assert WFInstruction(c.p, c.p.instrs[i]);
    if r != Rule(1, []) {
      SumOne(dist[r.premises[0]]);
      assert At(dist, r.premises) == [dist[r.premises[0]]];
    }
  }

  method InitUncovered(c: Coverage) returns (dist: seq<nat>)
    requires WFCoverage(c)
    ensures UncoveredInvariant(c, dist)
  {
    dist := seq(|c.p.instrs|, i requires 0 <= i < |c.p.instrs| => if c.uncovered[i] then 1 else 0);
    forall i | 0 <= i < |dist| && dist[i] > 0 ensures Derives(UncoveredSystem(c), i, dist[i]) {
      assert Rule(1, []) in UncoveredSystem(c)[i] && Applies(Rule(1, []), [], 1);
    }
  }

  /** The second fixpoint. */
  method MinDistToUncovered(c: Coverage) returns (dist: seq<nat>)
    requires WFCoverage(c)
    ensures WFSystem(UncoveredSystem(c)) && Least(UncoveredSystem(c), dist)
  {
    hide Achieved, UncoveredSettled;
    dist := InitUncovered(c);
    var changed := true;
    while changed
      invariant UncoveredInvariant(c, dist)
      invariant !changed ==> forall i :: 0 <= i < |dist| ==> UncoveredSettled(c, dist, i)
      decreases Zeros(dist), Sum(dist), changed
    {
      changed := false;
      ghost var dist0 := dist;
      for i := |c.p.instrs| downto 0
        invariant UncoveredInvariant(c, dist)
        invariant changed ==> Progress(dist0, [], dist, [])
        invariant !changed ==> dist == dist0 && forall k :: i <= k < |dist| ==> UncoveredSettled(c, dist, k)
      {
        var ch;
        dist, ch := VisitUncovered(c, dist, i);
        changed := changed || ch;
      }
    }
    UncoveredRelaxed(c, dist);
    FixpointIsLeast(UncoveredSystem(c), dist);
  }

  /** Both tables: shortest runs to a return, and, with the shortest ways through functions they give,
      shortest runs to an uncovered instruction. The latter are the shortest explorations of the program
      itself, in which calls are entered and returned from. */
  method ComputeReachableUncovered(p: Program, uncovered: seq<bool>)
    returns (toReturn: seq<nat>, c: Coverage, toUncovered: seq<nat>)
    requires WFProgram(p) && |uncovered| == |p.instrs|
    ensures ShortestRun(ReturnSystem(p), toReturn)
    ensures WFCoverage(c) && c.p == p && c.uncovered == uncovered
    ensures forall f :: 0 <= f < |c.fsp| ==> FspExact(p, toReturn, c.fsp[f], f)
    ensures ShortestRun(UncoveredSystem(c), toUncovered)
    ensures CallsResume(p) ==> ShortestExplore(c, toUncovered)
  {
    hide Least, ShortestRun, ShortestExplore, FspRuns;
    var fsp;
    toReturn, fsp := MinDistToReturn(p);
    LeastIsShortest(ReturnSystem(p), toReturn);
    c := Coverage(p, fsp, uncovered);
    toUncovered := MinDistToUncovered(c);
    LeastIsShortest(UncoveredSystem(c), toUncovered);
    FspFromTable(c, toReturn);
    if CallsResume(p) { LeastExplored(c, toUncovered); }
  }

  // ----- distance from a whole call stack -----

  function MinDistFrom(local: nat, toReturn: nat, onReturn: nat): nat {
    if onReturn == 0 then local
    else if toReturn == 0 then local
    else if local == 0 then toReturn + onReturn
    else if local < toReturn + onReturn then local else toReturn + onReturn
  }

  function Innermost(pcs: seq<nat>): nat
    requires pcs != []
  {
    pcs[|pcs| - 1]
  }

  /** From a call stack, outermost frame first: find an uncovered instruction in the innermost frame,
      or return from it and go on in the frame below. */
  ghost predicate FromStack(ret: System, unc: System, pcs: seq<nat>, n: nat) {
    pcs != [] && (
      || Run(unc, [Innermost(pcs)], n)
      || exists a: nat :: a <= n && Run(ret, [Innermost(pcs)], a) && FromStack(ret, unc, pcs[..|pcs| - 1], n - a))
  }

  /** `d` is the least cost from the stack, and zero exactly when there is none. */
  ghost predicate LeastFromStack(ret: System, unc: System, pcs: seq<nat>, d: nat) {
    && (d > 0 ==> FromStack(ret, unc, pcs, d))
    && forall n :: FromStack(ret, unc, pcs, n) ==> 0 < d <= n
  }

  lemma FrameStep(ret: System, unc: System, toReturn: seq<nat>, toUncovered: seq<nat>, pcs: seq<nat>, pc: nat, d: nat)
    requires ShortestRun(ret, toReturn) && ShortestRun(unc, toUncovered) && pc < |ret| == |unc|
    requires LeastFromStack(ret, unc, pcs, d)
    ensures LeastFromStack(ret, unc, pcs + [pc], MinDistFrom(toUncovered[pc], toReturn[pc], d))
  {
    hide Run;
    var all, r := pcs + [pc], MinDistFrom(toUncovered[pc], toReturn[pc], d);
    assert all[..|all| - 1] == pcs && all[|all| - 1] == pc;
    if r > 0 && r != toUncovered[pc] {
      assert Run(ret, [pc], toReturn[pc]) && FromStack(ret, unc, pcs, r - toReturn[pc]);
    }
    forall n: nat | FromStack(ret, unc, all, n) ensures 0 < r <= n {
      if !Run(unc, [pc], n) {
        var a: nat :| a <= n && Run(ret, [pc], a) && FromStack(ret, unc, pcs, n - a);
      }
    }
  }

  /** The walk over a state's frames stores in each frame the least cost once it has returned, and
      ends with the least cost from the whole stack. */
  method StackDistances(ret: System, unc: System, toReturn: seq<nat>, toUncovered: seq<nat>, pcs: seq<nat>)
    returns (onReturn: seq<nat>, total: nat)
    requires ShortestRun(ret, toReturn) && ShortestRun(unc, toUncovered) && |ret| == |unc|
    requires forall k :: 0 <= k < |pcs| ==> pcs[k] < |ret|
    ensures |onReturn| == |pcs| && forall k :: 0 <= k < |pcs| ==> LeastFromStack(ret, unc, pcs[..k], onReturn[k])
    ensures LeastFromStack(ret, unc, pcs, total)
  {
    onReturn, total := [], 0;
    hide LeastFromStack;
    assert LeastFromStack(ret, unc, pcs[..0], 0) by { NothingFromEmpty(ret, unc); assert pcs[..0] == []; }
    for k := 0 to |pcs|
      invariant |onReturn| == k && forall j :: 0 <= j < k ==> LeastFromStack(ret, unc, pcs[..j], onReturn[j])
      invariant LeastFromStack(ret, unc, pcs[..k], total)
    {
      onReturn := onReturn + [total];
      FrameStep(ret, unc, toReturn, toUncovered, pcs[..k], pcs[k], total);
      assert pcs[..k + 1] == pcs[..k] + [pcs[k]];
      total := MinDistFrom(toUncovered[pcs[k]], toReturn[pcs[k]], total);
    }
    assert pcs[..|pcs|] == pcs;
  }

  lemma NothingFromEmpty(ret: System, unc: System)
    ensures LeastFromStack(ret, unc, [], 0)
  {
  }

  // ----- one machine for both tables -----

  /** The program runs with a call stack, innermost instruction first, and stops at an uncovered one: `n`
      instructions, the last one uncovered. A call pushes the callee's entry on top of the instruction to
      resume at, a return pops, and there is nowhere to return to from the last frame. */
  ghost predicate Explore(c: Coverage, stack: seq<nat>, n: nat)
    requires WFCoverage(c)
    decreases n
  {
    && stack != [] && stack[0] < |c.p.instrs|
    && ((c.uncovered[stack[0]] && n == 1)
      || exists r ::
        r in ReturnRules(c.p, stack[0]) && 0 < r.cost <= n && Explore(c, r.premises + stack[1..], n - r.cost))
  }

  /** A call always has an instruction to resume at. */
  predicate CallsResume(p: Program) {
    forall i :: 0 <= i < |p.instrs| && p.instrs[i].isCall ==> p.instrs[i].succs != []
  }

  lemma ExploreStep(c: Coverage, i: nat, rest: seq<nat>, r: Rule, n: nat)
    requires WFCoverage(c) && i < |c.p.instrs| && r in ReturnRules(c.p, i) && r.cost > 0
    requires Explore(c, r.premises + rest, n)
    ensures Explore(c, [i] + rest, r.cost + n)
  {
    var stack := [i] + rest;
    assert stack[1..] == rest;
  }

  lemma ExploreTop(c: Coverage, stack: seq<nat>, n: nat)
    requires WFCoverage(c) && Explore(c, stack, n)
    ensures stack != [] && stack[0] < |c.p.instrs| && n > 0 && stack == [stack[0]] + stack[1..]
  {
  }

  predicate Stops(c: Coverage, i: nat, n: nat)
    requires WFCoverage(c) && i < |c.p.instrs|
  {
    c.uncovered[i] && n == 1
  }

  lemma ExploreStop(c: Coverage, i: nat, rest: seq<nat>)
    requires WFCoverage(c) && i < |c.p.instrs| && c.uncovered[i]
    ensures Explore(c, [i] + rest, 1)
  {
  }

  lemma ExploreMove(c: Coverage, stack: seq<nat>, n: nat) returns (r: Rule)
    requires WFCoverage(c) && Explore(c, stack, n) && !Stops(c, stack[0], n)
    ensures r in ReturnRules(c.p, stack[0]) && 0 < r.cost <= n && Explore(c, r.premises + stack[1..], n - r.cost)
  {
    r :| r in ReturnRules(c.p, stack[0]) && 0 < r.cost <= n && Explore(c, r.premises + stack[1..], n - r.cost);
  }

  /** What is below does not matter once an uncovered instruction is found above it. */
  lemma {:induction false} ExploreBelow(c: Coverage, stack: seq<nat>, below: seq<nat>, n: nat)
    requires WFCoverage(c) && Explore(c, stack, n)
    ensures Explore(c, stack + below, n)
    decreases n
  {
    hide Explore, ReturnRules, WFCoverage;
    ExploreTop(c, stack, n);
    assert stack + below == [stack[0]] + (stack[1..] + below);
    if Stops(c, stack[0], n) {
      ExploreStop(c, stack[0], stack[1..] + below);
    } else {
      var r := ExploreMove(c, stack, n);
      ExploreBelow(c, r.premises + stack[1..], below, n - r.cost);
      assert r.premises + stack[1..] + below == r.premises + (stack[1..] + below);
      ExploreStep(c, stack[0], stack[1..] + below, r, n - r.cost);
    }
  }

  /** Run the frames above to their returns, then explore. */
  lemma {:induction false} RunThenExplore(c: Coverage, above: seq<nat>, m: nat, stack: seq<nat>, n: nat)
    requires WFCoverage(c) && Run(ReturnSystem(c.p), above, m) && Explore(c, stack, n)
    ensures Explore(c, above + stack, m + n)
    decreases m
  {
    hide Run, Explore, ReturnRules, WFProgram, Sum;
    var sys := ReturnSystem(c.p);
    if above == [] {
      EmptyRun(sys, m);
      assert above + stack == stack;
    } else {
      var r := FirstStep(ReturnSystem(c.p), above, m);
      RunThenExplore(c, r.premises + above[1..], m - r.cost, stack, n);
      assert r.premises + above[1..] + stack == r.premises + (above[1..] + stack);
      ExploreStep(c, above[0], above[1..] + stack, r, m - r.cost + n);
      assert [above[0]] + (above[1..] + stack) == above + stack;
    }
  }

  lemma EmptyRun(sys: System, m: nat)
    requires Run(sys, [], m)
    ensures m == 0
  {
  }

  /** The ways through functions are those of the first table: runs of the callee, and the shortest. */
  ghost predicate FspRuns(c: Coverage)
    requires WFCoverage(c)
  {
    forall g :: 0 <= g < |c.fsp| ==> FspRun(c, g)
  }

  ghost predicate FspRun(c: Coverage, g: nat)
    requires WFCoverage(c) && g < |c.fsp|
  {
    assert WFFunction(c.p, g);
    if Defined(c.p, g) then
      && (c.fsp[g] > 0 ==> Run(ReturnSystem(c.p), [c.p.functions[g].entry], c.fsp[g]))
      && forall n :: Run(ReturnSystem(c.p), [c.p.functions[g].entry], n) ==> 0 < c.fsp[g] <= n
    else c.fsp[g] == if c.p.functions[g].returns_ then 1 else 0
  }

  /** One rule on top of a single premise. */
  lemma DerivesOn(sys: System, i: nat, r: Rule, u: nat)
    requires i < |sys| && r in sys[i] && |r.premises| == 1 && Derives(sys, r.premises[0], u)
    ensures Derives(sys, i, r.cost + u)
  {
    SumOne(u);
    assert Applies(r, [u], r.cost + u);
  }

  lemma DerivesAxiom(sys: System, i: nat)
    requires i < |sys| && Rule(1, []) in sys[i]
    ensures Derives(sys, i, 1)
  {
    assert Applies(Rule(1, []), [], 1);
  }

  /** A cost of the second system is the length of an exploration. */
  lemma {:induction false} DerivedExplored(c: Coverage, i: nat, n: nat)
    requires WFCoverage(c) && FspRuns(c) && CallsResume(c.p) && Derives(UncoveredSystem(c), i, n)
    ensures Explore(c, [i], n)
    decreases n
  {
    hide Derives, Explore, Run, FspRun, WFProgram;
    UncoveredSystemWF(c);
    var r, ms := LastRule(UncoveredSystem(c), i, n);
    assert r in UncoveredRules(c, i);
    if r == Rule(1, []) {
      assert [i] + [] == [i];
      StopsHere(c, i, r, ms);
    } else {
      var u := OnePremise(c, i, r, ms, n);
      DerivedExplored(c, r.premises[0], u);
      RuleExplored(c, i, r, u);
    }
  }

  lemma StopsHere(c: Coverage, i: nat, r: Rule, ms: seq<nat>)
    requires WFCoverage(c) && i < |c.p.instrs| && r in UncoveredRules(c, i) && r == Rule(1, []) && |ms| == 0
    ensures Explore(c, [i], 1) && r.cost + Sum(ms) == 1
  {
    assert [i] + [] == [i];
    ExploreStop(c, i, []);
  }

  lemma OnePremise(c: Coverage, i: nat, r: Rule, ms: seq<nat>, n: nat) returns (u: nat)
    requires WFCoverage(c) && i < |c.p.instrs| && r in UncoveredRules(c, i) && r != Rule(1, [])
    requires Applies(r, ms, n) && Shares(UncoveredSystem(c), r.premises, ms, Sum(ms))
    ensures |r.premises| == 1 && 0 < r.cost && n == r.cost + u && Derives(UncoveredSystem(c), r.premises[0], u)
  {
    hide Derives;
    u := ms[0];
    assert ms == [u];
    SumOne(u);
  }

  /** Each rule of the second system is a stretch of exploration. */
  lemma RuleExplored(c: Coverage, i: nat, r: Rule, u: nat)
    requires WFCoverage(c) && FspRuns(c) && CallsResume(c.p) && i < |c.p.instrs|
    requires r in UncoveredRules(c, i) && |r.premises| == 1 && Explore(c, r.premises, u)
    ensures Explore(c, [i], r.cost + u)
  {
    hide Explore, Run, ReturnRules, WFProgram;
    var inst, t := c.p.instrs[i], r.premises[0];
    InstructionWF(c.p, i);
    assert [i] + [] == [i] && r.premises == [t];
    if !inst.isCall {
      StepRule(c.p, i, t);
      assert [t] + [] == [t];
      ExploreStep(c, i, [], Rule(1, [t]), u);
    } else if g, s :| s in inst.succs && g in inst.targets && c.fsp[g] > 0 && r == Rule(1 + c.fsp[g], [s]) {
      PassExplored(c, i, g, s, u);
    } else {
      var g :| g in inst.targets && Defined(c.p, g) && r == Rule(1, [c.p.functions[g].entry]);
      assert inst.succs[0] in inst.succs;
      EnterExplored(c, i, g, inst.succs[0], u);
    }
  }

  lemma InstructionWF(p: Program, i: nat)
    requires WFProgram(p) && i < |p.instrs|
    ensures WFInstruction(p, p.instrs[i])
  {
  }

  lemma StepRule(p: Program, i: nat, s: nat)
    requires WFProgram(p) && i < |p.instrs| && !p.instrs[i].isCall && s in p.instrs[i].succs
    ensures Rule(1, [s]) in ReturnRules(p, i)
  {
  }

  lemma CallRule(p: Program, i: nat, g: nat, s: nat)
    requires WFProgram(p) && i < |p.instrs| && p.instrs[i].isCall && s in p.instrs[i].succs && g in p.instrs[i].targets
    ensures Defined(p, g) ==> Rule(1, [p.functions[g].entry, s]) in ReturnRules(p, i)
    ensures ReturningDeclaration(p, g) ==> Rule(2, [s]) in ReturnRules(p, i)
  {
  }

  lemma PassExplored(c: Coverage, i: nat, g: nat, s: nat, u: nat)
    requires WFCoverage(c) && FspRuns(c) && i < |c.p.instrs| && c.p.instrs[i].isCall && s in c.p.instrs[i].succs
    requires g in c.p.instrs[i].targets && g < |c.fsp| && c.fsp[g] > 0 && Explore(c, [s], u)
    ensures Explore(c, [i], 1 + c.fsp[g] + u)
  {
    hide Explore, Run, ReturnRules, WFProgram;
    CallRule(c.p, i, g, s);
    assert FspRun(c, g);
    assert [i] + [] == [i];
    if Defined(c.p, g) {
      var e := c.p.functions[g].entry;
      RunThenExplore(c, [e], c.fsp[g], [s], u);
      assert [e] + [s] == [e, s] + [];
      ExploreStep(c, i, [], Rule(1, [e, s]), c.fsp[g] + u);
    } else {
      assert ReturningDeclaration(c.p, g) && [s] + [] == [s];
      ExploreStep(c, i, [], Rule(2, [s]), u);
    }
  }

  lemma EnterExplored(c: Coverage, i: nat, g: nat, s: nat, u: nat)
    requires WFCoverage(c) && i < |c.p.instrs| && c.p.instrs[i].isCall && s in c.p.instrs[i].succs
    requires g in c.p.instrs[i].targets && Defined(c.p, g) && Explore(c, [c.p.functions[g].entry], u)
    ensures Explore(c, [i], 1 + u)
  {
    hide Explore, ReturnRules, WFProgram;
    CallRule(c.p, i, g, s);
    var t := c.p.functions[g].entry;
    ExploreBelow(c, [t], [s], u);
    assert [t] + [s] == [t, s] + [] && [i] + [] == [i];
    ExploreStep(c, i, [], Rule(1, [t, s]), u);
  }

  /** An exploration returns from the first `j` frames and then has a cost in the second system. */
  ghost predicate Found(c: Coverage, stack: seq<nat>, n: nat, j: nat, m: nat, u: nat)
    requires WFCoverage(c)
  {
    && j < |stack| && m + u <= n
    && Run(ReturnSystem(c.p), stack[..j], m) && Derives(UncoveredSystem(c), stack[j], u)
  }

  lemma {:induction false} ExploredDerived(c: Coverage, stack: seq<nat>, n: nat) returns (j: nat, m: nat, u: nat)
    requires WFCoverage(c) && FspRuns(c) && Explore(c, stack, n)
    ensures Found(c, stack, n, j, m, u)
    decreases n
  {
    hide Explore, Run, Derives, Found, FspRuns, WFProgram, ReturnRules, UncoveredRules;
    ExploreTop(c, stack, n);
    if Stops(c, stack[0], n) {
      FoundHere(c, stack, n);
      return 0, 0, 1;
    }
    var r := ExploreMove(c, stack, n);
    var rest := stack[1..];
    var j', m', u' := ExploredDerived(c, r.premises + rest, n - r.cost);
    if j' >= |r.premises| {
      FoundBelow(c, stack, n, r, j', m', u');
      return j' - |r.premises| + 1, r.cost + m', u';
    }
    u := FoundAbove(c, stack[0], rest, n, r, j', m', u');
    EmptyRuns(ReturnSystem(c.p));
    j, m := 0, 0;
    FoundFirst(c, stack, n, u);
  }

  lemma EmptyRuns(sys: System)
    ensures Run(sys, [], 0)
  {
  }

  lemma FoundFirst(c: Coverage, stack: seq<nat>, n: nat, u: nat)
    requires WFCoverage(c) && stack != [] && u <= n && Derives(UncoveredSystem(c), stack[0], u)
    ensures Found(c, stack, n, 0, 0, u)
  {
    hide Derives;
    assert stack[..0] == [];
  }

  lemma FoundHere(c: Coverage, stack: seq<nat>, n: nat)
    requires WFCoverage(c) && stack != [] && stack[0] < |c.p.instrs| && Stops(c, stack[0], n)
    ensures Found(c, stack, n, 0, 0, 1)
  {
    DerivesAxiom(UncoveredSystem(c), stack[0]);
    FoundFirst(c, stack, n, 1);
  }

  /** Found below the premises of the step: the step was part of the way back. */
  lemma FoundBelow(c: Coverage, stack: seq<nat>, n: nat, r: Rule, j: nat, m: nat, u: nat)
    requires WFCoverage(c) && stack != [] && stack[0] < |c.p.instrs| && r in ReturnRules(c.p, stack[0])
    requires 0 < r.cost <= n
    requires Found(c, r.premises + stack[1..], n - r.cost, j, m, u) && j >= |r.premises|
    ensures Found(c, stack, n, j - |r.premises| + 1, r.cost + m, u)
  {
    hide Run, Derives, ReturnRules;
    var rest, k := stack[1..], j - |r.premises|;
    assert (r.premises + rest)[..j] == r.premises + rest[..k] && (r.premises + rest)[j] == stack[k + 1];
    RunStep(ReturnSystem(c.p), stack[0], rest[..k], r, m);
    assert stack[..k + 1] == [stack[0]] + rest[..k];
  }

  /** Found within the premises of the step: a rule of the second system. */
  lemma FoundAbove(c: Coverage, i: nat, rest: seq<nat>, n: nat, r: Rule, j: nat, m: nat, u: nat) returns (v: nat)
    requires WFCoverage(c) && FspRuns(c) && i < |c.p.instrs| && r in ReturnRules(c.p, i) && 0 < r.cost <= n
    requires Found(c, r.premises + rest, n - r.cost, j, m, u) && j < |r.premises|
    ensures v <= n && Derives(UncoveredSystem(c), i, v)
  {
    hide Run, Derives;
    var inst, sys := c.p.instrs[i], UncoveredSystem(c);
    assert WFInstruction(c.p, inst);
    var t := r.premises[j];
    assert (r.premises + rest)[j] == t && (r.premises + rest)[..j] == r.premises[..j];
    if !inst.isCall {
      DerivesOn(sys, i, Rule(1, [t]), u);
      v := 1 + u;
    } else if g, s :| s in inst.succs && g in inst.targets && ReturningDeclaration(c.p, g) && r == Rule(2, [s]) {
      assert FspRun(c, g) && !Defined(c.p, g) && c.fsp[g] == 1;
      DerivesOn(sys, i, Rule(1 + c.fsp[g], [t]), u);
      v := 2 + u;
    } else {
      var s, g :| s in inst.succs && g in inst.targets && Defined(c.p, g) && r == Rule(1, [c.p.functions[g].entry, s]);
      if j == 0 {
        DerivesOn(sys, i, Rule(1, [t]), u);
        v := 1 + u;
      } else {
        assert FspRun(c, g) && r.premises[..1] == [c.p.functions[g].entry];
        DerivesOn(sys, i, Rule(1 + c.fsp[g], [t]), u);
        v := 1 + c.fsp[g] + u;
      }
    }
  }

  /** The entry is the length of the shortest exploration, and zero says there is none. */
  ghost predicate ShortestExplore(c: Coverage, dist: seq<nat>)
    requires WFCoverage(c)
  {
    && |dist| == |c.p.instrs|
    && forall i: nat :: i < |dist| ==>
      && (dist[i] > 0 ==> Explore(c, [i], dist[i]))
      && forall n :: Explore(c, [i], n) ==> 0 < dist[i] <= n
  }

  lemma LeastExplored(c: Coverage, dist: seq<nat>)
    requires WFCoverage(c) && FspRuns(c) && CallsResume(c.p) && Least(UncoveredSystem(c), dist)
    ensures ShortestExplore(c, dist)
  {
    hide Explore, Derives, FspRuns, WFProgram, UncoveredRules, Run;
    forall i: nat | i < |dist|
      ensures dist[i] > 0 ==> Explore(c, [i], dist[i])
      ensures forall n :: Explore(c, [i], n) ==> 0 < dist[i] <= n
    {
      if dist[i] > 0 { DerivedExplored(c, i, dist[i]); }
      forall n: nat | Explore(c, [i], n) ensures 0 < dist[i] <= n {
        var j, m, u := ExploredDerived(c, [i], n);
        assert j == 0 && Derives(UncoveredSystem(c), i, u);
      }
    }
  }

  /** The shortest ways through functions, as the first fixpoint leaves them. */
  lemma FspFromTable(c: Coverage, toReturn: seq<nat>)
    requires WFCoverage(c) && ShortestRun(ReturnSystem(c.p), toReturn)
    requires forall f :: 0 <= f < |c.fsp| ==> FspExact(c.p, toReturn, c.fsp[f], f)
    ensures FspRuns(c)
  {
    hide Run;
    forall g | 0 <= g < |c.fsp| ensures FspRun(c, g) {
      assert FspExact(c.p, toReturn, c.fsp[g], g) && WFFunction(c.p, g);
    }
  }
}
