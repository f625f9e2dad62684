/**
 Hinted handoff over whole runs (internal/server/handoff.go, internal/server/coordinator.go).
 A hint is overwritten unconditionally when a later failure parks another blob, so whether a
 parked version can be lost depends on the order in which the parks arrive.
 */
module Handoff {
  import opened Bytes
  import opened VClock
  import opened Versions
  import opened Protocol
  import opened ProtocolInvariant
  import opened ProtocolTheorems

  /** Write `j`, parked for `n`, is covered by the hint still parked there or by the target's store. */
  ghost predicate Accounted(s: State, j: nat, n: Str) {
    && j < |s.writes| && n in s.sets
    && (|| Covers(s.sets[n], s.writes[j].v.clock)
        || ((s.writes[j].coord, n) in s.hints && Leq(s.writes[j].v.clock, s.hints[(s.writes[j].coord, n)].clock)))
  }

  ghost predicate NoHintLost(s: State) {
    forall p :: p in s.parked ==> Accounted(s, p.0, p.1)
  }

  /** Each parked hint is the blob of some parked write of its coordinator. */
  ghost predicate HintsAreWrites(s: State) {
    forall k :: k in s.hints ==> exists j: nat :: HintOf(s, k, j)
  }

  ghost predicate HintOf(s: State, k: (Str, Str), j: nat) {
    && k in s.hints && (j, k.1) in s.parked && j < |s.writes|
    && s.writes[j].coord == k.0 && s.writes[j].v == s.hints[k]
  }

  /** Parks for one target arrive in the order in which their coordinator minted the versions. */
  predicate InMintOrder(s: State, step: Step) {
    step.Park? && step.op < |s.writes| ==>
      forall p | p in s.parked ::
        p.1 == step.target && p.0 < |s.writes| && s.writes[p.0].coord == s.writes[step.op].coord ==> p.0 <= step.op
  }

  ghost predicate HintInv(s: State) {
    && Chained(s.writes) && HintsAreWrites(s)
    && (forall p :: p in s.parked ==> p.0 < |s.writes| && p.1 in s.sets)
  }

  // ---------------------------------------------------------------- Steps that leave the hints alone

  lemma AccountedGrows(s: State, t: State, j: nat, n: Str)
    requires Accounted(s, j, n)
    requires SetsGrow(s.sets, t.sets) && WritesGrow(s.writes, t.writes) && t.hints == s.hints
    ensures Accounted(t, j, n)
  {
  }

  lemma HintsAreWritesGrows(s: State, t: State)
    requires HintsAreWrites(s) && WritesGrow(s.writes, t.writes) && t.hints == s.hints && t.parked == s.parked
    ensures HintsAreWrites(t)
  {
    forall k | k in t.hints ensures exists j: nat :: HintOf(t, k, j) {
      var j: nat :| HintOf(s, k, j);
      assert HintOf(t, k, j);
    }
  }

  lemma GrowthKeepsHandoff(s: State, t: State)
    requires HintInv(s) && Chained(t.writes) && t.hints == s.hints && t.parked == s.parked
    requires SetsGrow(s.sets, t.sets) && WritesGrow(s.writes, t.writes)
    ensures HintInv(t)
    ensures NoHintLost(s) ==> NoHintLost(t)
  {
    HintsAreWritesGrows(s, t);
    if NoHintLost(s) {
      forall p | p in t.parked ensures Accounted(t, p.0, p.1) { AccountedGrows(s, t, p.0, p.1); }
    }
  }

  lemma OtherStepsLeaveHints(cfg: Config, s: State, step: Step)
    requires Shape(cfg, s) && Enabled(cfg, s, step) && !step.Park? && !step.Unpark?
    ensures Apply(cfg, s, step).hints == s.hints && Apply(cfg, s, step).parked == s.parked
    ensures WritesGrow(s.writes, Apply(cfg, s, step).writes)
  {
  }

  lemma OtherStepsKeepHandoff(cfg: Config, s: State, step: Step)
    requires Inv(cfg, s) && HintInv(s) && Enabled(cfg, s, step) && !step.Park? && !step.Unpark?
    ensures HintInv(Apply(cfg, s, step))
    ensures NoHintLost(s) ==> NoHintLost(Apply(cfg, s, step))
  {
    StepKeepsChain(cfg, s, step);
    StepGrows(cfg, s, step);
    OtherStepsLeaveHints(cfg, s, step);
    GrowthKeepsHandoff(s, Apply(cfg, s, step));
  }

  // ---------------------------------------------------------------- Parking

  /** The exact condition for a park to be harmless, in terms of the hint it overwrites. */
  ghost predicate SafeToOverwrite(s: State, i: nat, n: Str)
    requires i < |s.writes| && n in s.sets
  {
    var k := (s.writes[i].coord, n);
    k in s.hints ==> Leq(s.hints[k].clock, s.writes[i].v.clock) || Covers(s.sets[n], s.hints[k].clock)
  }

  lemma ParkKeepsHintInv(s: State, i: nat, n: Str)
    requires HintInv(s) && i < |s.writes| && n in s.sets
    ensures HintInv(ParkHint(s, i, n))
  {
    var t := ParkHint(s, i, n);
    forall k | k in t.hints ensures exists j: nat :: HintOf(t, k, j) {
      if k == (s.writes[i].coord, n) {
        assert HintOf(t, k, i);
      } else {
        var j: nat :| HintOf(s, k, j);
        assert HintOf(t, k, j);
      }
    }
  }

  /**
   One park loses nothing if and only if the hint it overwrites is at or below the new version, or
   is covered by the target already.
   */
  lemma ParkLosesNothingIff(s: State, i: nat, n: Str)
    requires HintInv(s) && NoHintLost(s) && i < |s.writes| && n in s.sets
    ensures NoHintLost(ParkHint(s, i, n)) <==> SafeToOverwrite(s, i, n)
  {
  }

  /** A park that arrives in mint order is always harmless, because a coordinator's mints rise. */
  lemma MintOrderIsSafe(s: State, i: nat, n: Str)
    requires HintInv(s) && i < |s.writes| && n in s.sets && InMintOrder(s, Park(i, n))
    ensures SafeToOverwrite(s, i, n)
  {
  }

  // ---------------------------------------------------------------- Removing a delivered hint

  lemma DropKeepsHintInv(s: State, c: Str, n: Str, v: Version)
    requires HintInv(s)
    ensures HintInv(DropHint(s, c, n, v))
  {
    var t := DropHint(s, c, n, v);
    forall k | k in t.hints ensures exists j: nat :: HintOf(t, k, j) {
      var j: nat :| HintOf(s, k, j);
      assert HintOf(t, k, j);
    }
  }

  /** The conditional remove only drops a hint that its target covers, whatever was parked since the snapshot. */
  lemma DropLosesNothing(s: State, c: Str, n: Str, v: Version)
    requires NoHintLost(s) && n in s.sets && Covers(s.sets[n], v.clock)
    ensures NoHintLost(DropHint(s, c, n, v))
  {
  }

  // ---------------------------------------------------------------- Whole runs

  /** The step is not a park, or one whose overwriting loses nothing. */
  ghost predicate IsSafe(s: State, step: Step) {
    step.Park? ==> step.op < |s.writes| && step.target in s.sets && SafeToOverwrite(s, step.op, step.target)
  }

  /** At every point of the run, each version ever parked is accounted for. */
  ghost predicate NeverLoses(cfg: Config, steps: seq<Step>)
    requires IsRun(cfg, steps)
    decreases |steps|
  {
    NoHintLost(Reached(cfg, steps)) && (steps != [] ==> NeverLoses(cfg, steps[..|steps| - 1]))
  }

  /** Every park of the run is safe in the state it is taken from. */
  ghost predicate ParksSafely(cfg: Config, steps: seq<Step>)
    requires IsRun(cfg, steps)
    decreases |steps|
  {
    steps != [] ==>
      var init := steps[..|steps| - 1];
      ParksSafely(cfg, init) && IsSafe(Reached(cfg, init), steps[|steps| - 1])
  }

  /** Every park of the run arrives in mint order. */
  ghost predicate ParksInMintOrder(cfg: Config, steps: seq<Step>)
    requires IsRun(cfg, steps)
    decreases |steps|
  {
    steps != [] ==>
      var init := steps[..|steps| - 1];
      ParksInMintOrder(cfg, init) && InMintOrder(Reached(cfg, init), steps[|steps| - 1])
  }

  /** From a state that has lost nothing, exactly the unsafe parks lose something. */
  lemma StepLosesNothingIff(cfg: Config, s: State, step: Step)
    requires Inv(cfg, s) && HintInv(s) && Enabled(cfg, s, step)
    ensures HintInv(Apply(cfg, s, step))
    ensures NoHintLost(s) ==> (NoHintLost(Apply(cfg, s, step)) <==> IsSafe(s, step))
  {
    if step.Park? {
      ParkKeepsHintInv(s, step.op, step.target);
      if NoHintLost(s) { ParkLosesNothingIff(s, step.op, step.target); }
    } else if step.Unpark? {
      DropKeepsHintInv(s, step.coord, step.target, step.v);
      var m := (step.target, step.v);
      assert m in s.applied && Covers(s.sets[m.0], m.1.clock);
      if NoHintLost(s) { DropLosesNothing(s, step.coord, step.target, step.v); }
    } else {
      OtherStepsKeepHandoff(cfg, s, step);
    }
  }

  lemma {:induction false} RunKeepsHintInv(cfg: Config, steps: seq<Step>)
    requires IsRun(cfg, steps)
    ensures HintInv(Reached(cfg, steps))
    decreases |steps|
  {
    if steps != [] {
      var init := steps[..|steps| - 1];
      RunKeepsInv(cfg, init);
      RunKeepsHintInv(cfg, init);
      StepLosesNothingIff(cfg, Reached(cfg, init), steps[|steps| - 1]);
    }
  }

  /** A run never loses a parked version if and only if each of its parks is safe where it happens. */
  lemma {:induction false} HandoffIsLosslessIff(cfg: Config, steps: seq<Step>)
    requires IsRun(cfg, steps)
    ensures NeverLoses(cfg, steps) <==> ParksSafely(cfg, steps)
    decreases |steps|
  {
    if steps != [] {
      var init := steps[..|steps| - 1];
      hide NoHintLost, IsSafe, HintInv, Apply, Enabled;
      RunKeepsInv(cfg, init);
      RunKeepsHintInv(cfg, init);
      HandoffIsLosslessIff(cfg, init);
      StepLosesNothingIff(cfg, Reached(cfg, init), steps[|steps| - 1]);
    }
  }

  lemma {:induction false} MintOrderParksSafely(cfg: Config, steps: seq<Step>)
    requires IsRun(cfg, steps) && ParksInMintOrder(cfg, steps)
    ensures ParksSafely(cfg, steps)
    decreases |steps|
  {
    if steps != [] {
      var init, last := steps[..|steps| - 1], steps[|steps| - 1];
      MintOrderParksSafely(cfg, init);
      RunKeepsHintInv(cfg, init);
      if last.Park? { MintOrderIsSafe(Reached(cfg, init), last.op, last.target); }
    }
  }

  /**
   So handoff is lossless when parks arrive in mint order: every version ever parked for a target is
   covered by the hint still parked there or by the target itself.
   */
  lemma HandoffIsLossless(cfg: Config, steps: seq<Step>, j: nat, n: Str)
    requires IsRun(cfg, steps) && ParksInMintOrder(cfg, steps) && (j, n) in Reached(cfg, steps).parked
    ensures Accounted(Reached(cfg, steps), j, n)
  {
    MintOrderParksSafely(cfg, steps);
    HandoffIsLosslessIff(cfg, steps);
    var p := (j, n);
    assert p in Reached(cfg, steps).parked;
  }

  // ---------------------------------------------------------------- Without mint order

  const A: Str := [65]
  const B: Str := [66]

  function Pair(): Config {
    Config({A, B}, {A, B}, 2, 1, 1)
  }

  /** Two writes by one coordinator. */
  function TwoWrites(): seq<Step> {
    [] + [Write(A, [1])] + [Write(A, [2])]
  }

  lemma TwoWritesRun()
    ensures IsRun(Pair(), TwoWrites())
    ensures var s := Reached(Pair(), TwoWrites());
            && |s.writes| == 2 && s.parked == {} && s.sets[B] == []
            && s.writes[0].coord == A && s.writes[0].acks == {A}
            && s.writes[1].coord == A && s.writes[1].acks == {A}
  {
    var cfg := Pair();
    assert ValidConfig(cfg) by { assert cfg.replicas == {A} + {B} && |cfg.replicas| == 2; }
    RunExtends(cfg, [], Write(A, [1]));
    RunExtends(cfg, [] + [Write(A, [1])], Write(A, [2]));
  }

  lemma OverwrittenIsLost(s: State)
    requires |s.writes| == 2 && s.writes[0].coord == A && s.writes[1].coord == A
    requires B in s.sets && s.sets[B] == [] && !Leq(s.writes[1].v.clock, s.writes[0].v.clock)
    ensures !Accounted(ParkHint(ParkHint(s, 1, B), 0, B), 1, B)
  {
  }

  lemma ParkTwice(cfg: Config, steps: seq<Step>, i: nat, j: nat, n: Str)
    requires IsRun(cfg, steps) && i != j && Reached(cfg, steps).parked == {}
    requires Enabled(cfg, Reached(cfg, steps), Park(i, n)) && Enabled(cfg, Reached(cfg, steps), Park(j, n))
    ensures IsRun(cfg, steps + [Park(i, n)] + [Park(j, n)])
    ensures Reached(cfg, steps + [Park(i, n)] + [Park(j, n)]) == ParkHint(ParkHint(Reached(cfg, steps), i, n), j, n)
  {
    RunExtends(cfg, steps, Park(i, n));
    RunExtends(cfg, steps + [Park(i, n)], Park(j, n));
  }

  /**
   Without the order the promise fails. Both writes fail towards B and the goroutine of the older
   one parks last: the newer version is then neither parked nor stored at its target.
   */
  lemma RacingParksLoseAHint()
    ensures var steps := TwoWrites() + [Park(1, B)] + [Park(0, B)];
            IsRun(Pair(), steps) && (1, B) in Reached(Pair(), steps).parked && !Accounted(Reached(Pair(), steps), 1, B)
  {
    TwoWritesRun();
    MintedClocksAreUnique(Pair(), TwoWrites(), 0, 1);
    OverwrittenIsLost(Reached(Pair(), TwoWrites()));
    ParkTwice(Pair(), TwoWrites(), 1, 0, B);
  }
}
