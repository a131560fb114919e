/** How TASE leaves native execution: which aborted transactions are tried again natively with fewer
    basic blocks, which are interpreted, and when the interpreter hands back to native code. */
module Bounceback {
  import opened Bits

  datatype AbortType = ModelAbort | Poison | Unknown | Other

  datatype IState = FAULT | MODEL | PROHIB | RESUME | SKIP | INTERP | PROHIB_RESUME | PROHIB_FAULT | BOUNCEBACK

  // ----- aborts -----

  /** The byte an explicit abort carries. */
  function HighBits(status: bv32): nat {
    (status >> 24) as nat
  }

  function Classify(status: bv32): AbortType {
    if status & 1 != 0 then
      if HighBits(status) == 0xff then ModelAbort else if HighBits(status) < 16 then Poison else Unknown
    else if HighBits(status) == 0 then Unknown
    else Other
  }

  function Retry(status: bv32): bool {
    status == 0 || status & 0xe != 0
  }

  /** The number of basic blocks the next transaction may span. */
  function NextMax(tranMax: nat, status: bv32): nat {
    match Classify(status)
    case ModelAbort => tranMax
    case Poison => HighBits(status)
    case Unknown => if Retry(status) then tranMax / 2 else 0
    case Other => if Retry(status) then tranMax / 2 else 0
  }

  predicate Spurious(status: bv32) {
    Classify(status).Unknown? || Classify(status).Other?
  }

  /** A retried abort at least halves the limit, a poison abort puts it below 16, and only a poison abort
      can raise it. */
  lemma {:induction false} NextMaxBounds(tranMax: nat, status: bv32)
    ensures Spurious(status) ==> NextMax(tranMax, status) <= tranMax / 2
    ensures Spurious(status) && NextMax(tranMax, status) > 0 ==> Retry(status)
    ensures Classify(status).Poison? ==> NextMax(tranMax, status) < 16
    ensures NextMax(tranMax, status) > tranMax ==> Classify(status).Poison?
  {
  }

  /** With bounceback on, how many of the aborts are answered by going back to native code before the
      first one that is not. */
  function Bounces(tranMax: nat, statuses: seq<bv32>): nat
    decreases |statuses|
  {
    if statuses == [] || Classify(statuses[0]).ModelAbort? || NextMax(tranMax, statuses[0]) == 0 then 0
    else 1 + Bounces(NextMax(tranMax, statuses[0]), statuses[1..])
  }

  function Log2(n: nat): nat {
    if n <= 1 then 0 else 1 + Log2(n / 2)
  }

  /** Aborts that say nothing about poison are retried at most logarithmically often. */
  lemma {:induction false} BounceBound(tranMax: nat, statuses: seq<bv32>)
    requires forall i :: 0 <= i < |statuses| ==> Spurious(statuses[i])
    ensures Bounces(tranMax, statuses) <= Log2(tranMax)
    ensures |statuses| > Log2(tranMax) ==> Bounces(tranMax, statuses) < |statuses|
  {
    if statuses != [] {
      assert Spurious(statuses[0]);
      if NextMax(tranMax, statuses[0]) > 0 { BounceBound(tranMax / 2, statuses[1..]); }
    }
  }

  /** The bound is reached exactly when every abort up to it allows a retry. */
  lemma {:induction false} BounceExact(tranMax: nat, statuses: seq<bv32>)
    requires tranMax > 0 && |statuses| >= Log2(tranMax)
    requires forall i :: 0 <= i < |statuses| ==> Spurious(statuses[i])
    ensures Bounces(tranMax, statuses) == Log2(tranMax) <==> forall i :: 0 <= i < Log2(tranMax) ==> Retry(statuses[i])
  {
    if Log2(tranMax) > 0 {
      assert Spurious(statuses[0]);
      if Retry(statuses[0]) {
        BounceExact(tranMax / 2, statuses[1..]);
        assert forall i :: 0 < i < Log2(tranMax) ==> statuses[i] == statuses[1..][i - 1];
        assert forall i :: 0 <= i < Log2(tranMax / 2) ==> statuses[1..][i] == statuses[i + 1];
      }
    } else if statuses != [] {
      assert Spurious(statuses[0]);
    }
  }

  /** There is no such bound for poison: an abort that reports a later block than the first sets the
      limit anew, however often it comes. */
  lemma {:induction false} PoisonUnbounded(tranMax: nat, statuses: seq<bv32>)
    requires forall i :: 0 <= i < |statuses| ==> Classify(statuses[i]).Poison? && HighBits(statuses[i]) > 0
    ensures Bounces(tranMax, statuses) == |statuses|
    decreases |statuses|
  {
    if statuses != [] {
      assert Classify(statuses[0]).Poison?;
      PoisonUnbounded(NextMax(tranMax, statuses[0]), statuses[1..]);
    }
  }

  // ----- the switch -----

  /** What one pass of the interpreter loop finds and leaves: whether a model is registered here,
      whether the instruction is one to skip, and the registers afterwards. */
  datatype PassInput = PassInput(modelHere: bool, skippable: bool, tainted: bool, start: bool, rip: nat)

  datatype Outcome = Bounced | ToNative(passes: nat) | Stopped | StillInterpreting

  class Machine {
    const mixed: bool
    const sstep: bool
    const bounce: bool
    const tranMaxArg: nat
    const bouncebackOffset: nat
    var istate: IState
    var concrete: bool
    var tranMax: nat
    var rip: nat
    /** Some register holds poison. */
    var tainted: bool

    constructor (mixed: bool, sstep: bool, bounce: bool, tranMaxArg: nat, bouncebackOffset: nat, rip: nat)
      ensures Valid() && this.mixed == mixed && this.sstep == sstep && this.bounce == (mixed && bounce && !sstep)
      ensures tranMax == tranMaxArg
    {
      this.mixed, this.sstep, this.bounce := mixed, sstep, mixed && bounce && !sstep;
      this.tranMaxArg, this.bouncebackOffset := tranMaxArg, bouncebackOffset;
      istate := if mixed then RESUME else INTERP;
      concrete, tranMax, this.rip, tainted := false, tranMaxArg, rip, false;
    }

    /** The states that survive a trap: nothing prohibited, and nothing native in interpret-only mode. */
    ghost predicate Valid()
      reads this
    {
      && istate !in {PROHIB, PROHIB_RESUME, PROHIB_FAULT} && (istate == RESUME ==> mixed)
      && (istate == BOUNCEBACK ==> bounce) && (bounce ==> mixed && !sstep)
    }

    method ClassifyAndCount(status: bv32) returns (t: AbortType)
      modifies this`tranMax, this`istate
      ensures t == Classify(status) && tranMax == NextMax(old(tranMax), status)
      ensures istate == if t.ModelAbort? then MODEL else old(istate)
    {
      t := Classify(status);
      tranMax := NextMax(tranMax, status);
      if t.ModelAbort? { istate := MODEL; }
    }

    method UpdateAbort(t: AbortType)
      modifies this`concrete, this`istate, this`rip
      ensures istate ==
        if t.ModelAbort? then MODEL
        else if t.Poison? && sstep then INTERP
        else if bounce then (if tranMax > 0 then BOUNCEBACK else FAULT)
        else old(istate)
      ensures rip ==
        if !t.ModelAbort? && !(t.Poison? && sstep) && bounce && tranMax > 0 then SubMod(64, old(rip), bouncebackOffset)
        else old(rip)
    {
      concrete := mixed && !tainted;
      if t.ModelAbort? {
        istate := MODEL;
      } else if t.Poison? && sstep {
        istate := INTERP;
      } else if bounce {
        if tranMax > 0 {
          istate := BOUNCEBACK;
          rip := SubMod(64, rip, bouncebackOffset);
        } else {
          istate := FAULT;
        }
      }
    }

    /** The decision at the end of each pass: registers that are poisoned are never handed to native
        code, and in interpret-only mode nothing is. */
    method UpdateEnd(start: bool)
      modifies this`concrete, this`istate
      ensures concrete == (mixed && !tainted)
      ensures !concrete ==> istate == INTERP
      ensures concrete && (sstep || start) ==> istate == RESUME
      ensures concrete && !(sstep || start) ==> istate == old(istate)
    {
      concrete := mixed && !tainted;
      if concrete && (sstep || start) { istate := RESUME; }
      if !concrete { istate := INTERP; }
    }

    /** `klee_interp_internal`, observed for as many passes as `inputs` describes. */
    method InterpInternal(inputs: seq<PassInput>, initTrapRip: nat) returns (out: Outcome)
      requires istate != BOUNCEBACK
      modifies this`istate, this`concrete, this`rip, this`tainted
      ensures istate != BOUNCEBACK && !out.Bounced?
      ensures old(istate) !in {PROHIB, PROHIB_RESUME, PROHIB_FAULT} ==> istate !in {PROHIB, PROHIB_RESUME, PROHIB_FAULT}
      ensures out.ToNative? && out.passes > 0 ==> mixed && !tainted && istate == RESUME
      ensures out == ToNative(0) <==> old(istate) in {RESUME, PROHIB_RESUME} && inputs != [] && !inputs[0].modelHere
      ensures !mixed && old(istate) !in {RESUME, PROHIB_RESUME} ==> !out.ToNative? && istate != RESUME
    {
      for k := 0 to |inputs|
        invariant istate != BOUNCEBACK && (k == 0 ==> istate == old(istate))
        invariant k > 0 && istate in {RESUME, PROHIB_RESUME} ==> istate == RESUME && mixed && !tainted
        invariant k > 0 && old(istate) in {RESUME, PROHIB_RESUME} ==> inputs[0].modelHere
        invariant old(istate) !in {PROHIB, PROHIB_RESUME, PROHIB_FAULT} ==>
          istate !in {PROHIB, PROHIB_RESUME, PROHIB_FAULT}
        invariant !mixed && old(istate) !in {RESUME, PROHIB_RESUME} ==> istate !in {RESUME, PROHIB_RESUME}
      {
        var input := inputs[k];
        if istate != MODEL && istate != PROHIB && input.modelHere { istate := MODEL; }
        match istate {
          case PROHIB_RESUME =>
            if concrete && tranMax == 0 && rip == initTrapRip { istate := PROHIB_FAULT; }
            return ToNative(k);
          case RESUME =>
            return ToNative(k);
          case MODEL =>
            if !input.modelHere { return Stopped; }
            istate := if mixed then RESUME else INTERP;
          case FAULT | PROHIB | SKIP | INTERP | PROHIB_FAULT =>
            istate := if input.skippable then SKIP else INTERP;
        }
        rip, tainted := input.rip, input.tainted;
        UpdateEnd(input.start);
      }
      out := StillInterpreting;
    }

    /** `klee_interp`: one abort, answered by bouncing, by interpreting until native code can go on, or
        not at all. */
    method Trap(status: bv32, inputs: seq<PassInput>) returns (out: Outcome)
      requires Valid()
      modifies this`istate, this`concrete, this`rip, this`tainted, this`tranMax
      ensures Valid()
      ensures out.Bounced? <==> bounce && !Classify(status).ModelAbort? && NextMax(old(tranMax), status) > 0
      ensures out.Bounced? ==> tranMax == NextMax(old(tranMax), status) && rip == SubMod(64, old(rip), bouncebackOffset)
      ensures out.ToNative? ==> mixed && tranMax == tranMaxArg
      ensures out.ToNative? && out.passes > 0 ==> !tainted
      ensures out == ToNative(0) <==>
        && !Classify(status).ModelAbort? && !(Classify(status).Poison? && sstep) && !bounce
        && old(istate) == RESUME && inputs != [] && !inputs[0].modelHere
    {
      var initTrapRip := rip;
      var t := ClassifyAndCount(status);
      UpdateAbort(t);
      if istate == BOUNCEBACK { return Bounced; }
      out := InterpInternal(inputs, initTrapRip);
      if out.ToNative? { tranMax := tranMaxArg; }
    }

    /** A run of aborts bounces as often as the limits allow, and no more. */
    method TrapRun(statuses: seq<bv32>) returns (n: nat)
      requires Valid() && bounce
      modifies this`istate, this`concrete, this`rip, this`tainted, this`tranMax
      ensures Valid() && n == Bounces(old(tranMax), statuses)
      ensures (forall i :: 0 <= i < |statuses| ==> Spurious(statuses[i])) ==> n <= Log2(old(tranMax))
    {
      if forall i :: 0 <= i < |statuses| ==> Spurious(statuses[i]) { BounceBound(tranMax, statuses); }
      n := 0;
      while n < |statuses|
        invariant Valid() && n <= |statuses| && Bounces(old(tranMax), statuses) == n + Bounces(tranMax, statuses[n..])
      {
        assert statuses[n..][1..] == statuses[n + 1..];
        var out := Trap(statuses[n], []);
        if !out.Bounced? { return; }
        n := n + 1;
      }
    }
  }
}
