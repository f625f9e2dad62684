/**
 The replication protocol for one key as a step system (internal/server/coordinator.go,
 internal/server/handler.go `rset`, internal/server/handoff.go, internal/server/antientropy.go).

 A state holds every node's sibling set, the client operations in progress and everything
 that is on its way between nodes. Messages are never taken out of `sent` and `fetched`, so
 a run may lose, delay, duplicate and reorder them at will. A store changes only by folding a
 batch of versions in, which the store does under the key's lock.
 */
module Protocol {
  import opened Bytes
  import opened Versions

  /** The nodes, the fixed replica set of the key, and the quorum settings N, R and W. */
  datatype Config = Config(nodes: set<Str>, replicas: set<Str>, n: nat, r: nat, w: nat)

  predicate ValidConfig(cfg: Config) {
    && cfg.replicas <= cfg.nodes && cfg.replicas != {} && |cfg.replicas| <= cfg.n
    && 1 <= cfg.r <= cfg.n && 1 <= cfg.w <= cfg.n
  }

  /** A quorum is capped by the replica set, so a small cluster still makes progress. */
  function Need(cfg: Config, quorum: nat): nat {
    if quorum < |cfg.replicas| then quorum else |cfg.replicas|
  }

  /** A write or delete: the version it minted, the replicas that acknowledged it, and whether it replied success. */
  datatype WriteOp = WriteOp(coord: Str, v: Version, acks: set<Str>, replied: bool)

  /**
   A read: the sets the replicas served, those counted so far, the reconciled result, the
   writes that had replied success when the read began, and whether the read itself replied.
   */
  datatype ReadOp = ReadOp(coord: Str, served: map<Str, seq<Version>>, responders: set<Str>,
                           merged: seq<Version>, before: set<nat>, replied: bool)

  datatype State = State(
    sets: map<Str, seq<Version>>,         // what each node stores
    seen: map<Str, set<Version>>,         // every version each node ever folded in
    minted: set<Version>,                 // every version a coordinator ever minted
    writes: seq<WriteOp>,                 // all writes and deletes, in the order they were minted
    gets: seq<ReadOp>,                    // all reads, in the order they began
    sent: set<(Str, Version)>,            // RSETs: target and version
    applied: set<(Str, Version)>,         // RSETs the target has answered with OK
    hints: map<(Str, Str), Version>,      // parked hint by (coordinator, target)
    parked: set<(nat, Str)>,              // every (write, target) ever parked
    replays: set<(Str, Str, Version)>,    // hints a replayer has taken from a snapshot
    fetched: set<(Str, seq<Version>)>)    // sets a node has fetched from a peer

  datatype Step =
    | Write(coord: Str, value: Str)
    | Delete(coord: Str, at: int)
    | Deliver(target: Str, v: Version)
    | Ack(op: nat, from: Str)
    | WriteReply(op: nat)
    | Park(op: nat, target: Str)
    | Replay(coord: Str, target: Str)
    | Unpark(coord: Str, target: Str, v: Version)
    | ReadStart(coord: Str)
    | Serve(op: nat, peer: Str)
    | Receive(op: nat, peer: Str)
    | ReadReply(op: nat)
    | RepairLocal(op: nat)
    | RepairPush(op: nat, target: Str)
    | Fetch(node: Str, peer: Str)
    | SyncApply(node: Str, batch: seq<Version>)

  function Init(cfg: Config): State {
    State(map n | n in cfg.nodes :: [], map n | n in cfg.nodes :: {}, {}, [], [], {}, {}, map[], {}, {}, {})
  }

  /** Fold `batch` into the set of node `n`. */
  function Store(s: State, n: Str, batch: seq<Version>): State
    requires n in s.sets && n in s.seen
  {
    s.(sets := s.sets[n := Folded(s.sets[n], batch)], seen := s.seen[n := s.seen[n] + Elements(batch)])
  }

  /** Park write `i` for target `t`, overwriting whatever hint is there. */
  function ParkHint(s: State, i: nat, t: Str): State
    requires i < |s.writes|
  {
    s.(hints := s.hints[(s.writes[i].coord, t) := s.writes[i].v], parked := s.parked + {(i, t)})
  }

  /** Drop the hint for a target only if it is still the delivered one. */
  function DropHint(s: State, c: Str, t: Str, delivered: Version): State {
    if (c, t) in s.hints && s.hints[(c, t)] == delivered then s.(hints := s.hints - {(c, t)}) else s
  }

  /** The version a coordinator mints over its current set. */
  function MintedBy(s: State, step: Step): Version
    requires (step.Write? || step.Delete?) && step.coord in s.sets
  {
    var clock := MintClock(s.sets[step.coord], step.coord);
    if step.Write? then Version(step.value, clock, false, 0) else Tombstone(clock, step.at)
  }

  predicate Enabled(cfg: Config, s: State, step: Step) {
    match step
    case Write(c, _) => c in cfg.replicas
    case Delete(c, _) => c in cfg.replicas
    case Deliver(t, v) => (t, v) in s.sent
    case Ack(i, t) =>
      i < |s.writes| && !s.writes[i].replied && |s.writes[i].acks| < Need(cfg, cfg.w) &&
      t in cfg.replicas && t !in s.writes[i].acks && (i, t) !in s.parked && (t, s.writes[i].v) in s.applied
    case WriteReply(i) =>
      i < |s.writes| && !s.writes[i].replied && |s.writes[i].acks| >= Need(cfg, cfg.w)
    case Park(i, t) =>
      i < |s.writes| && t in cfg.replicas && t != s.writes[i].coord &&
      t !in s.writes[i].acks && (i, t) !in s.parked
    case Replay(c, t) => (c, t) in s.hints
    case Unpark(c, t, v) => (c, t, v) in s.replays && (t, v) in s.applied
    case ReadStart(c) => c in cfg.replicas
    case Serve(i, p) => i < |s.gets| && p in cfg.replicas && p !in s.gets[i].served
    case Receive(i, p) =>
      i < |s.gets| && !s.gets[i].replied && |s.gets[i].responders| < Need(cfg, cfg.r) &&
      p in s.gets[i].served && p !in s.gets[i].responders
    case ReadReply(i) =>
      i < |s.gets| && !s.gets[i].replied && |s.gets[i].responders| >= Need(cfg, cfg.r)
    case RepairLocal(i) =>
      i < |s.gets| && s.gets[i].replied && s.gets[i].coord in s.gets[i].served &&
      !EqualScan(s.gets[i].served[s.gets[i].coord], s.gets[i].merged)
    case RepairPush(i, t) =>
      i < |s.gets| && s.gets[i].replied && t != s.gets[i].coord && t in s.gets[i].responders &&
      t in s.gets[i].served && !EqualScan(s.gets[i].served[t], s.gets[i].merged)
    case Fetch(n, p) => n in cfg.nodes && p in cfg.nodes
    case SyncApply(n, batch) => (n, batch) in s.fetched
  }

  /** The nodes of the key's replica set other than `self`. */
  function Peers(cfg: Config, self: Str): set<Str> {
    cfg.replicas - {self}
  }

  function Apply(cfg: Config, s: State, step: Step): State
    requires Shape(cfg, s) && Enabled(cfg, s, step)
  {
    match step
    case Write(c, _) =>
      var v := MintedBy(s, step);
      Store(s, c, [v]).(minted := s.minted + {v},
                        writes := s.writes + [WriteOp(c, v, {c}, false)],
                        sent := s.sent + set t | t in Peers(cfg, c) :: (t, v))
    case Delete(c, _) =>
      var v := MintedBy(s, step);
      Store(s, c, [v]).(minted := s.minted + {v},
                        writes := s.writes + [WriteOp(c, v, {c}, false)],
                        sent := s.sent + set t | t in Peers(cfg, c) :: (t, v))
    case Deliver(t, v) =>
      Store(s, t, [v]).(applied := s.applied + {(t, v)})
    case Ack(i, t) =>
      s.(writes := s.writes[i := s.writes[i].(acks := s.writes[i].acks + {t})])
    case WriteReply(i) =>
      s.(writes := s.writes[i := s.writes[i].(replied := true)])
    case Park(i, t) => ParkHint(s, i, t)
    case Replay(c, t) =>
      var v := s.hints[(c, t)];
      s.(replays := s.replays + {(c, t, v)}, sent := s.sent + {(t, v)})
    case Unpark(c, t, v) => DropHint(s, c, t, v)
    case ReadStart(c) =>
      s.(gets := s.gets + [ReadOp(c, map[c := s.sets[c]], {c}, s.sets[c], Replied(s.writes), false)])
    case Serve(i, p) =>
      s.(gets := s.gets[i := s.gets[i].(served := s.gets[i].served[p := s.sets[p]])])
    case Receive(i, p) =>
      var r := s.gets[i];
      s.(gets := s.gets[i := r.(responders := r.responders + {p}, merged := Folded(r.merged, r.served[p]))])
    case ReadReply(i) =>
      s.(gets := s.gets[i := s.gets[i].(replied := true)])
    case RepairLocal(i) =>
      Store(s, s.gets[i].coord, s.gets[i].merged)
    case RepairPush(i, t) =>
      s.(sent := s.sent + set v | v in s.gets[i].merged :: (t, v))
    case Fetch(n, p) =>
      s.(fetched := s.fetched + {(n, s.sets[p])})
    case SyncApply(n, batch) =>
      Store(s, n, batch)
  }

  /** The writes that have replied success. */
  function Replied(writes: seq<WriteOp>): set<nat> {
    set i: nat | i < |writes| && writes[i].replied
  }

  ghost predicate Addressed<T>(nodes: set<Str>, messages: set<(Str, T)>) {
    forall m :: m in messages ==> m.0 in nodes
  }

  ghost predicate HintsAddressed(nodes: set<Str>, hints: map<(Str, Str), Version>) {
    forall k :: k in hints ==> k.1 in nodes
  }

  ghost predicate ReadsPlaced(cfg: Config, gets: seq<ReadOp>) {
    forall i :: 0 <= i < |gets| ==> gets[i].coord in cfg.replicas && gets[i].served.Keys <= cfg.nodes
  }

  /** Every name a state mentions is a node, and reads are coordinated by replicas of the key. */
  ghost predicate Shape(cfg: Config, s: State) {
    && cfg.replicas <= cfg.nodes
    && s.sets.Keys == cfg.nodes && s.seen.Keys == cfg.nodes
    && Addressed(cfg.nodes, s.sent) && Addressed(cfg.nodes, s.applied) && Addressed(cfg.nodes, s.fetched)
    && HintsAddressed(cfg.nodes, s.hints) && ReadsPlaced(cfg, s.gets)
  }

  lemma ShapeKept(cfg: Config, s: State, step: Step)
    requires Shape(cfg, s) && Enabled(cfg, s, step)
    ensures Shape(cfg, Apply(cfg, s, step))
  {
    hide MintedBy, Folded, EqualScan, Need;
  }

  // ---------------------------------------------------------------- Runs

  /** Whether `steps` is a run: each step is enabled in the state its predecessors lead to. */
  ghost predicate IsRun(cfg: Config, steps: seq<Step>)
    ensures IsRun(cfg, steps) ==> ValidConfig(cfg)
    decreases |steps|, 0
  {
    if steps == [] then ValidConfig(cfg)
    else
      var init := steps[..|steps| - 1];
      IsRun(cfg, init) && Enabled(cfg, Reached(cfg, init), steps[|steps| - 1])
  }

  ghost function Reached(cfg: Config, steps: seq<Step>): (s: State)
    requires IsRun(cfg, steps)
    ensures Shape(cfg, s)
    decreases |steps|, 1
  {
    if steps == [] then Init(cfg)
    else
      var s := Reached(cfg, steps[..|steps| - 1]);
      ShapeKept(cfg, s, steps[|steps| - 1]);
      Apply(cfg, s, steps[|steps| - 1])
  }

  lemma RunExtends(cfg: Config, steps: seq<Step>, step: Step)
    requires IsRun(cfg, steps) && Enabled(cfg, Reached(cfg, steps), step)
    ensures IsRun(cfg, steps + [step])
    ensures Reached(cfg, steps + [step]) == Apply(cfg, Reached(cfg, steps), step)
  {
  }
}
