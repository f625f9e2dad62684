/**
 The promises of the replication layer, each for every run of the protocol: unique mints,
 convergence, quorum visibility, read repair and stores that never lose coverage.
 */
module ProtocolTheorems {
  import opened Bytes
  import opened VClock
  import opened Seqs
  import opened Versions
  import opened Protocol
  import opened ProtocolInvariant

  /** The version `v` is stored, on the wire, parked as a hint, served to a read or a sync, or held by one. */
  ghost predicate Anywhere(s: State, v: Version) {
    || (exists n :: n in s.sets && v in s.sets[n])
    || (exists m :: m in s.sent && m.1 == v)
    || (exists k :: k in s.hints && s.hints[k] == v)
    || (exists m :: m in s.fetched && v in m.1)
    || (exists i :: 0 <= i < |s.gets| && v in s.gets[i].merged)
    || (exists i, n :: 0 <= i < |s.gets| && n in s.gets[i].served && v in s.gets[i].served[n])
  }

  lemma AnywhereMinted(cfg: Config, s: State, v: Version)
    requires Inv(cfg, s) && Anywhere(s, v)
    ensures v in s.minted
  {
    if n :| n in s.sets && v in s.sets[n] {
      HeldAllMinted(cfg, s, n);
    } else if i :| 0 <= i < |s.gets| && v in s.gets[i].merged {
      assert ReadMinted(s.minted, s.gets[i]);
    } else if i, n :| 0 <= i < |s.gets| && n in s.gets[i].served && v in s.gets[i].served[n] {
      assert ReadMinted(s.minted, s.gets[i]);
    }
  }

  /** No version anywhere carries a counter above what the counter's own node stores. */
  lemma CountersNeverOutrunTheirNode(cfg: Config, steps: seq<Step>, v: Version, n: Str)
    requires IsRun(cfg, steps) && n in cfg.nodes && Anywhere(Reached(cfg, steps), v)
    ensures At(v.clock, n) <= Own(Reached(cfg, steps).sets, n)
  {
    RunKeepsInv(cfg, steps);
    AnywhereMinted(cfg, Reached(cfg, steps), v);
  }

  /** Every mint is new: no two writes or deletes of a run ever share a clock. */
  lemma MintedClocksAreUnique(cfg: Config, steps: seq<Step>, i: nat, j: nat)
    requires IsRun(cfg, steps) && i < j < |Reached(cfg, steps).writes|
    ensures !Same(Reached(cfg, steps).writes[i].v.clock, Reached(cfg, steps).writes[j].v.clock)
    ensures !Leq(Reached(cfg, steps).writes[j].v.clock, Reached(cfg, steps).writes[i].v.clock)
  {
    RunKeepsInv(cfg, steps);
    var writes := Reached(cfg, steps).writes;
    assert At(writes[i].v.clock, writes[j].coord) < At(writes[j].v.clock, writes[j].coord);
  }

  /** Equal clocks mean the same version, wherever the two copies are. */
  lemma EqualClocksMeanEqualVersions(cfg: Config, steps: seq<Step>, v: Version, w: Version)
    requires IsRun(cfg, steps) && Anywhere(Reached(cfg, steps), v) && Anywhere(Reached(cfg, steps), w)
    requires Same(v.clock, w.clock)
    ensures v == w
  {
    RunKeepsInv(cfg, steps);
    AnywhereMinted(cfg, Reached(cfg, steps), v);
    AnywhereMinted(cfg, Reached(cfg, steps), w);
  }

  ghost predicate Chained(writes: seq<WriteOp>) {
    forall i, j :: 0 <= i < j < |writes| && writes[i].coord == writes[j].coord ==>
        Leq(writes[i].v.clock, writes[j].v.clock)
  }

  lemma StepKeepsChain(cfg: Config, s: State, step: Step)
    requires Inv(cfg, s) && Enabled(cfg, s, step) && Chained(s.writes)
    ensures Chained(Apply(cfg, s, step).writes)
  {
    hide Leq, Rising, Wire, Held, Bounded, Coherent, GoodReads, GoodWrites, FrontierOf;
    if step.Write? || step.Delete? {
      forall i | 0 <= i < |s.writes| && s.writes[i].coord == step.coord
        ensures Leq(s.writes[i].v.clock, MintedBy(s, step).clock)
      {
        MintIsAbove(cfg, s, i, step);
      }
    }
  }

  lemma MintIsAbove(cfg: Config, s: State, i: nat, step: Step)
    requires Inv(cfg, s) && Enabled(cfg, s, step) && (step.Write? || step.Delete?)
    requires i < |s.writes| && s.writes[i].coord == step.coord
    ensures Leq(s.writes[i].v.clock, MintedBy(s, step).clock)
  {
    assert GoodWrite(cfg, s.sets, s.writes[i]);
    FrontierAbove(s.sets[step.coord], s.writes[i].v.clock);
    LeqTransitive(s.writes[i].v.clock, FrontierOf(s.sets[step.coord]), MintedBy(s, step).clock);
  }

  lemma {:induction false} RunKeepsChain(cfg: Config, steps: seq<Step>)
    requires IsRun(cfg, steps)
    ensures Inv(cfg, Reached(cfg, steps)) && Chained(Reached(cfg, steps).writes)
    decreases |steps|
  {
    RunKeepsInv(cfg, steps);
    if steps != [] {
      var init := steps[..|steps| - 1];
      RunKeepsChain(cfg, init);
      StepKeepsChain(cfg, Reached(cfg, init), steps[|steps| - 1]);
    }
  }

  /** One coordinator's mints form a strictly rising chain. */
  lemma CoordinatorMintsRise(cfg: Config, steps: seq<Step>, i: nat, j: nat)
    requires IsRun(cfg, steps) && i < j < |Reached(cfg, steps).writes|
    requires Reached(cfg, steps).writes[i].coord == Reached(cfg, steps).writes[j].coord
    ensures Lt(Reached(cfg, steps).writes[i].v.clock, Reached(cfg, steps).writes[j].v.clock)
  {
    RunKeepsChain(cfg, steps);
    MintedClocksAreUnique(cfg, steps, i, j);
  }

  // ---------------------------------------------------------------- Convergence

  /** Nodes that have folded in the same versions store the same siblings, whatever the order and however often. */
  lemma SameSeenSameSiblings(cfg: Config, steps: seq<Step>, a: Str, b: Str)
    requires IsRun(cfg, steps) && a in cfg.nodes && b in cfg.nodes
    requires Reached(cfg, steps).seen[a] == Reached(cfg, steps).seen[b]
    ensures multiset(Reached(cfg, steps).sets[a]) == multiset(Reached(cfg, steps).sets[b])
  {
    RunKeepsInv(cfg, steps);
    var s := Reached(cfg, steps);
    assert Coherent(s.seen[a]);
    RepresentationIsUnique(s.sets[a], s.sets[b], s.seen[a]);
  }

  lemma StepGrows(cfg: Config, s: State, step: Step)
    requires Shape(cfg, s) && Enabled(cfg, s, step)
    ensures SetsGrow(s.sets, Apply(cfg, s, step).sets)
  {
    match step {
      case Write(c, _) => StoreGrows(s, c, [MintedBy(s, step)]);
      case Delete(c, _) => StoreGrows(s, c, [MintedBy(s, step)]);
      case Deliver(n, v) => StoreGrows(s, n, [v]);
      case RepairLocal(i) => StoreGrows(s, s.gets[i].coord, s.gets[i].merged);
      case SyncApply(n, batch) => StoreGrows(s, n, batch);
      case _ =>
    }
  }

  lemma LastStep(cfg: Config, steps: seq<Step>)
    requires IsRun(cfg, steps) && steps != []
    ensures IsRun(cfg, steps[..|steps| - 1])
    ensures var s, step := Reached(cfg, steps[..|steps| - 1]), steps[|steps| - 1];
            && Shape(cfg, s) && s.sets.Keys == cfg.nodes && Enabled(cfg, s, step)
            && Reached(cfg, steps) == Apply(cfg, s, step)
  {
  }

  /** Whatever a node covers at some point of a run it covers at every later point. */
  lemma {:induction false} CoverageIsNeverLost(cfg: Config, steps: seq<Step>, k: nat, n: Str, clock: Clock)
    requires IsRun(cfg, steps) && k <= |steps| && IsRun(cfg, steps[..k]) && n in cfg.nodes
    requires Covers(Reached(cfg, steps[..k]).sets[n], clock)
    ensures Covers(Reached(cfg, steps).sets[n], clock)
    decreases |steps|
  {
    hide IsRun, Reached, Apply, Enabled, Covers, Shape;
    if k == |steps| {
      assert steps[..k] == steps;
    } else {
      var init, last := steps[..|steps| - 1], steps[|steps| - 1];
      assert init[..k] == steps[..k];
      LastStep(cfg, steps);
      CoverageIsNeverLost(cfg, init, k, n, clock);
      StepGrows(cfg, Reached(cfg, init), last);
    }
  }

  // ---------------------------------------------------------------- Quorums

  /** The two quorums, each capped by the replica set, add up to more than the replica set. */
  predicate QuorumsMeet(cfg: Config) {
    Need(cfg, cfg.w) + Need(cfg, cfg.r) > |cfg.replicas|
  }

  /** R + W > N suffices however many of the N replicas there are. */
  lemma StrictQuorumsMeet(cfg: Config)
    requires ValidConfig(cfg) && cfg.r + cfg.w > cfg.n
    ensures QuorumsMeet(cfg)
  {
  }

  /** Two quorums that add up to more than the replica set share a member. */
  lemma QuorumsOverlap(cfg: Config, a: set<Str>, b: set<Str>) returns (n: Str)
    requires QuorumsMeet(cfg)
    requires a <= cfg.replicas && b <= cfg.replicas && |a| >= Need(cfg, cfg.w) && |b| >= Need(cfg, cfg.r)
    ensures n in a && n in b
  {
    if a * b == {} {
      assert |a + b| == |a| + |b|;
      SubsetSize(a + b, cfg.replicas);
      assert false;
    }
    n :| n in a * b;
  }

  /** When quorums meet, a successful read covers every write that had replied OK before the read began. */
  lemma QuorumReadSeesAcknowledgedWrites(cfg: Config, steps: seq<Step>, g: nat, i: nat)
    requires IsRun(cfg, steps) && QuorumsMeet(cfg)
    requires g < |Reached(cfg, steps).gets| && Reached(cfg, steps).gets[g].replied
    requires i in Reached(cfg, steps).gets[g].before
    ensures i < |Reached(cfg, steps).writes|
    ensures Covers(Reached(cfg, steps).gets[g].merged, Reached(cfg, steps).writes[i].v.clock)
  {
    RunKeepsInv(cfg, steps);
    var s := Reached(cfg, steps);
    var op := s.gets[g];
    assert GoodRead(cfg, s.sets, s.writes, op);
    var w := s.writes[i];
    assert GoodWrite(cfg, s.sets, w);
    var n := QuorumsOverlap(cfg, w.acks, op.responders);
    ServedIsMerged(cfg, s, g, i, n);
  }

  /** Whatever R and W are, a read covers the writes its own coordinator had acknowledged before it began. */
  lemma OwnWritesAreSeen(cfg: Config, steps: seq<Step>, g: nat, i: nat)
    requires IsRun(cfg, steps) && g < |Reached(cfg, steps).gets| && i in Reached(cfg, steps).gets[g].before
    requires i < |Reached(cfg, steps).writes|
    requires Reached(cfg, steps).writes[i].coord == Reached(cfg, steps).gets[g].coord
    ensures Covers(Reached(cfg, steps).gets[g].merged, Reached(cfg, steps).writes[i].v.clock)
  {
    RunKeepsInv(cfg, steps);
    var s := Reached(cfg, steps);
    ServedIsMerged(cfg, s, g, i, s.gets[g].coord);
  }

  /** A responder that had acknowledged a write passes it on to the read. */
  lemma ServedIsMerged(cfg: Config, s: State, g: nat, i: nat, n: Str)
    requires Inv(cfg, s) && g < |s.gets| && i in s.gets[g].before && i < |s.writes|
    requires n in s.gets[g].responders && (n in s.writes[i].acks || n == s.writes[i].coord)
    ensures Covers(s.gets[g].merged, s.writes[i].v.clock)
  {
    var op, w := s.gets[g], s.writes[i];
    assert GoodRead(cfg, s.sets, s.writes, op) && GoodWrite(cfg, s.sets, w);
    assert GoodServed(s.sets, s.writes, op.before, n, op.served[n]);
    var j :| 0 <= j < |op.served[n]| && Leq(w.v.clock, op.served[n][j].clock);
    CoversDown(op.merged, w.v.clock, op.served[n][j].clock);
  }

  /** Nobody is counted beyond a quorum. */
  ghost predicate CountsWithin(cfg: Config, s: State) {
    && (forall i :: 0 <= i < |s.writes| ==> |s.writes[i].acks| <= Need(cfg, cfg.w))
    && (forall i :: 0 <= i < |s.gets| ==> |s.gets[i].responders| <= Need(cfg, cfg.r))
  }

  lemma StepCountsWithin(cfg: Config, s: State, step: Step)
    requires ValidConfig(cfg) && Shape(cfg, s) && Enabled(cfg, s, step) && CountsWithin(cfg, s)
    ensures CountsWithin(cfg, Apply(cfg, s, step))
  {
    hide Shape, Folded, EqualScan, MintedBy;
  }

  lemma {:induction false} RunCountsWithin(cfg: Config, steps: seq<Step>)
    requires IsRun(cfg, steps)
    ensures CountsWithin(cfg, Reached(cfg, steps))
  {
    if steps != [] {
      hide Reached, IsRun, Apply, Enabled, CountsWithin;
      LastStep(cfg, steps);
      RunCountsWithin(cfg, steps[..|steps| - 1]);
      StepCountsWithin(cfg, Reached(cfg, steps[..|steps| - 1]), steps[|steps| - 1]);
    }
  }

  /** A write replies at W acknowledgements and a read at R responses, or at all replicas if there are fewer. */
  lemma QuorumsAreExact(cfg: Config, steps: seq<Step>, i: nat)
    requires IsRun(cfg, steps)
    ensures i < |Reached(cfg, steps).writes| && Reached(cfg, steps).writes[i].replied ==>
              |Reached(cfg, steps).writes[i].acks| == if cfg.w < |cfg.replicas| then cfg.w else |cfg.replicas|
    ensures i < |Reached(cfg, steps).gets| && Reached(cfg, steps).gets[i].replied ==>
              |Reached(cfg, steps).gets[i].responders| == if cfg.r < |cfg.replicas| then cfg.r else |cfg.replicas|
  {
    RunKeepsInv(cfg, steps);
    RunCountsWithin(cfg, steps);
    hide IsRun, Reached;
    var s := Reached(cfg, steps);
    if i < |s.writes| { assert GoodWrite(cfg, s.sets, s.writes[i]); }
    if i < |s.gets| { assert GoodRead(cfg, s.sets, s.writes, s.gets[i]); }
  }

  // ---------------------------------------------------------------- What the client sees

  predicate IsClientWrite(step: Step) {
    step.Write? || step.Delete?
  }

  /** The writes and deletes of a run, as the clients asked for them. */
  function ClientWrites(steps: seq<Step>): seq<Step> {
    Filter(IsClientWrite, steps)
  }

  /** A logged operation does what the client asked for: a live version of its value, or a tombstone. */
  predicate Serves(w: WriteOp, step: Step)
    requires IsClientWrite(step)
  {
    && w.coord == step.coord
    && if step.Write? then !w.v.deleted && w.v.value == step.value
       else w.v.deleted && w.v.value == [] && w.v.deletedAt == step.at
  }

  ghost predicate ServesAll(writes: seq<WriteOp>, asked: seq<Step>) {
    |writes| == |asked| && forall i :: 0 <= i < |asked| ==> IsClientWrite(asked[i]) && Serves(writes[i], asked[i])
  }

  lemma StepServes(cfg: Config, s: State, step: Step, asked: seq<Step>)
    requires Shape(cfg, s) && Enabled(cfg, s, step) && ServesAll(s.writes, asked)
    ensures ServesAll(Apply(cfg, s, step).writes, if IsClientWrite(step) then asked + [step] else asked)
  {
    hide Shape, Folded, EqualScan, Need, MintClock;
  }

  /** The log of a run is its clients' writes and deletes, in order, each served as asked. */
  lemma {:induction false} LogServesClients(cfg: Config, steps: seq<Step>)
    requires IsRun(cfg, steps)
    ensures ServesAll(Reached(cfg, steps).writes, ClientWrites(steps))
  {
    if steps != [] {
      hide Reached, IsRun, Apply, Enabled, ServesAll;
      var init, last := steps[..|steps| - 1], steps[|steps| - 1];
      LastStep(cfg, steps);
      LogServesClients(cfg, init);
      StepServes(cfg, Reached(cfg, init), last, ClientWrites(init));
    }
  }

  /** What the client is told: the first live value, or a miss. */
  function ClientReply(merged: seq<Version>): Option<Str> {
    var live := LiveOf(merged);
    if live == [] then None else Some(live[0].value)
  }

  /** A miss means that nothing is live; otherwise the answer is the first live sibling, whatever comes after it. */
  lemma {:induction false} ClientReplyMeans(merged: seq<Version>)
    ensures ClientReply(merged).None? <==> forall v :: v in merged ==> v.deleted
    ensures ClientReply(merged).Some? ==>
              exists i :: 0 <= i < |merged| && !merged[i].deleted && merged[i].value == ClientReply(merged).value
                          && forall j :: 0 <= j < i ==> merged[j].deleted
  {
    if merged != [] {
      var init, last := merged[..|merged| - 1], merged[|merged| - 1];
      assert merged == init + [last];
      ClientReplyMeans(init);
      if ClientReply(init).Some? {
        var i :| 0 <= i < |init| && !init[i].deleted && init[i].value == ClientReply(init).value
                 && forall j :: 0 <= j < i ==> init[j].deleted;
        assert merged[i] == init[i];
      } else {
        forall v | v in init ensures v.deleted {}
        assert merged[|merged| - 1] == last;
      }
    }
  }

  /**
   Read-your-writes as a client sees it: when the acknowledged write is the newest one, a
   successful read answers with the value the client wrote, and with a miss after a delete.
   */
  lemma ReadYourWrites(cfg: Config, steps: seq<Step>, g: nat, i: nat)
    requires IsRun(cfg, steps) && QuorumsMeet(cfg)
    requires g < |Reached(cfg, steps).gets| && Reached(cfg, steps).gets[g].replied
    requires i in Reached(cfg, steps).gets[g].before && i < |Reached(cfg, steps).writes|
    requires forall v :: v in Reached(cfg, steps).minted ==> Leq(v.clock, Reached(cfg, steps).writes[i].v.clock)
    ensures Reached(cfg, steps).gets[g].merged == [Reached(cfg, steps).writes[i].v] && i < |ClientWrites(steps)|
    ensures var asked := ClientWrites(steps)[i];
            ClientReply(Reached(cfg, steps).gets[g].merged) == if asked.Write? then Some(asked.value) else None
  {
    QuorumReadSeesAcknowledgedWrites(cfg, steps, g, i);
    RunKeepsInv(cfg, steps);
    LogServesClients(cfg, steps);
    hide IsRun, ClientWrites, Reached;
    var s := Reached(cfg, steps);
    assert IsClientWrite(ClientWrites(steps)[i]) && Serves(s.writes[i], ClientWrites(steps)[i]);
    NewestIsAnswered(cfg, s, g, i);
  }

  lemma NewestIsAnswered(cfg: Config, s: State, g: nat, i: nat)
    requires Inv(cfg, s) && g < |s.gets| && i < |s.writes| && Covers(s.gets[g].merged, s.writes[i].v.clock)
    requires forall v :: v in s.minted ==> Leq(v.clock, s.writes[i].v.clock)
    ensures s.gets[g].merged == [s.writes[i].v]
    ensures ClientReply(s.gets[g].merged) == if s.writes[i].v.deleted then None else Some(s.writes[i].v.value)
  {
    var merged := s.gets[g].merged;
    var v := s.writes[i].v;
    assert GoodRead(cfg, s.sets, s.writes, s.gets[g]) && ReadMinted(s.minted, s.gets[g]);
    SoleMaximum(merged, v, s.minted);
    assert [v][..0] == [];
    assert LiveOf([v]) == if v.deleted then [] else [v];
  }

  /** An antichain below and covering a single version is that version alone. */
  lemma SoleMaximum(merged: seq<Version>, v: Version, minted: set<Version>)
    requires Antichain(merged) && AllMinted(minted, merged) && Coherent(minted) && v in minted
    requires Covers(merged, v.clock) && forall u :: u in minted ==> Leq(u.clock, v.clock)
    ensures merged == [v]
  {
    var j :| 0 <= j < |merged| && Leq(v.clock, merged[j].clock);
    assert merged[j] in minted;
    SameIsLeqBothWays(v.clock, merged[j].clock);
    forall k | 0 <= k < |merged| ensures Leq(merged[k].clock, merged[j].clock) {
      assert merged[k] in minted;
      LeqTransitive(merged[k].clock, v.clock, merged[j].clock);
    }
    assert Leq(merged[0].clock, merged[j].clock);
    assert Leq(merged[|merged| - 1].clock, merged[j].clock);
  }

  // ---------------------------------------------------------------- Read repair

  lemma SkippedIsHealed(sets: Sets, writes: seq<WriteOp>, op: ReadOp, n: Str, clock: Clock)
    requires n in op.served && GoodServed(sets, writes, op.before, n, op.served[n])
    requires EqualScan(op.served[n], op.merged) && Covers(op.merged, clock)
    ensures Covers(sets[n], clock)
  {
    var served := op.served[n];
    EqualNeedsNoRepair(served, op.merged);
    assert Covers(served, clock);
    var j :| 0 <= j < |served| && Leq(clock, served[j].clock);
    CoversDown(sets[n], clock, served[j].clock);
  }

  lemma PushedIsHealed(sets: Sets, applied: set<(Str, Version)>, merged: seq<Version>, n: Str, clock: Clock)
    requires n in sets && AppliedCovered(sets, applied) && Covers(merged, clock)
    requires forall v :: v in merged ==> (n, v) in applied
    ensures Covers(sets[n], clock)
  {
    var j :| 0 <= j < |merged| && Leq(clock, merged[j].clock);
    var m := (n, merged[j]);
    assert m in applied && Covers(sets[m.0], m.1.clock);
    CoversDown(sets[n], clock, merged[j].clock);
  }

  /** A read that has replied keeps its result and its coordinator. */
  lemma ReadIsFrozen(cfg: Config, s: State, step: Step, g: nat)
    requires Shape(cfg, s) && Enabled(cfg, s, step) && g < |s.gets| && s.gets[g].replied
    ensures var t := Apply(cfg, s, step);
            && g < |t.gets| && t.gets[g].replied
            && t.gets[g].merged == s.gets[g].merged && t.gets[g].coord == s.gets[g].coord
  {
  }

  /** The coordinator heals itself: once it has folded the merged set in, it covers it at every later point. */
  lemma {:induction false} LocalRepairHeals(cfg: Config, steps: seq<Step>, g: nat)
    requires IsRun(cfg, steps) && RepairLocal(g) in steps
    ensures var s := Reached(cfg, steps);
            && g < |s.gets| && s.gets[g].replied && s.gets[g].coord in s.sets
            && forall clock :: Covers(s.gets[g].merged, clock) ==> Covers(s.sets[s.gets[g].coord], clock)
    decreases |steps|
  {
    var init, last := steps[..|steps| - 1], steps[|steps| - 1];
    assert steps == init + [last];
    var s := Reached(cfg, init);
    if RepairLocal(g) in init {
      LocalRepairHeals(cfg, init, g);
    } else {
      FoldedCovers(s.sets[s.gets[g].coord], s.gets[g].merged);
    }
    ReadIsFrozen(cfg, s, last, g);
    StepGrows(cfg, s, last);
    hide Enabled, Apply, Covers, Folded, IsRun;
  }

  /** What repair has done for responder `n` of read `g`. */
  ghost predicate Repaired(s: State, steps: seq<Step>, g: nat, n: Str)
    requires g < |s.gets| && n in s.gets[g].served
  {
    || EqualScan(s.gets[g].served[n], s.gets[g].merged)
    || (n == s.gets[g].coord && RepairLocal(g) in steps)
    || (forall v :: v in s.gets[g].merged ==> (n, v) in s.applied)
  }

  /**
   Read repair heals: a responder that repair skipped because its set is `Equal`, the coordinator once
   it has repaired itself, and a peer that has applied every pushed version all cover the whole merged
   set from then on.
   */
  lemma RepairHeals(cfg: Config, steps: seq<Step>, g: nat, n: Str, clock: Clock)
    requires IsRun(cfg, steps) && g < |Reached(cfg, steps).gets| && n in Reached(cfg, steps).gets[g].served
    requires Repaired(Reached(cfg, steps), steps, g, n) && n in cfg.nodes
    requires Covers(Reached(cfg, steps).gets[g].merged, clock)
    ensures Covers(Reached(cfg, steps).sets[n], clock)
  {
    RunKeepsInv(cfg, steps);
    var s := Reached(cfg, steps);
    var op := s.gets[g];
    assert GoodRead(cfg, s.sets, s.writes, op);
    if EqualScan(op.served[n], op.merged) {
      SkippedIsHealed(s.sets, s.writes, op, n, clock);
    } else if n == op.coord && RepairLocal(g) in steps {
      LocalRepairHeals(cfg, steps, g);
    } else {
      PushedIsHealed(s.sets, s.applied, op.merged, n, clock);
    }
  }
}
