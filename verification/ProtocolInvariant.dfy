/**
 What every step of the replication protocol keeps: stores represent the versions they have seen, no
 counter outruns its own node, equal clocks mean equal versions, and every acknowledgement and every
 served set stays backed by the stores.
 */
module ProtocolInvariant {
  import opened Bytes
  import opened VClock
  import opened Versions
  import opened Protocol

  type Sets = map<Str, seq<Version>>

  ghost predicate AllMinted(minted: set<Version>, batch: seq<Version>) {
    forall j :: 0 <= j < |batch| ==> batch[j] in minted
  }

  // ---------------------------------------------------------------- The invariant

  /** Each node stores what the versions it has seen reconcile to, and every one of those was minted. */
  ghost predicate Held(sets: Sets, seen: map<Str, set<Version>>, minted: set<Version>) {
    forall n :: n in sets && n in seen ==>
      Represents(sets[n], seen[n]) && seen[n] <= minted
  }

  /** The counter node `n` has given out: the n-entry of the frontier of its own set. */
  ghost function Own(sets: Sets, n: Str): nat
    requires n in sets
  {
    At(FrontierOf(sets[n]), n)
  }

  /** No version anywhere carries a counter for `n` above what `n` itself holds. */
  ghost predicate Bounded(sets: Sets, minted: set<Version>) {
    forall v, n :: v in minted && n in sets ==> At(v.clock, n) <= Own(sets, n)
  }

  /** Each mint raises its author's counter above every earlier mint. */
  ghost predicate Rising(writes: seq<WriteOp>) {
    forall i, j :: 0 <= i < j < |writes| ==>
        At(writes[i].v.clock, writes[j].coord) < At(writes[j].v.clock, writes[j].coord)
  }

  ghost predicate SentMinted(minted: set<Version>, sent: set<(Str, Version)>) {
    forall m :: m in sent ==> m.1 in minted
  }

  ghost predicate HintsMinted(minted: set<Version>, hints: map<(Str, Str), Version>) {
    forall k :: k in hints ==> hints[k] in minted
  }

  ghost predicate FetchedMinted(minted: set<Version>, fetched: set<(Str, seq<Version>)>) {
    forall m :: m in fetched ==> AllMinted(minted, m.1)
  }

  /** An RSET that was answered with OK is covered by its target from then on. */
  ghost predicate AppliedCovered(sets: Sets, applied: set<(Str, Version)>) {
    forall m :: m in applied ==> m.0 in sets && Covers(sets[m.0], m.1.clock)
  }

  /** Whatever travels between nodes was minted. */
  ghost predicate Wire(s: State) {
    && SentMinted(s.minted, s.sent) && HintsMinted(s.minted, s.hints) && FetchedMinted(s.minted, s.fetched)
    && AppliedCovered(s.sets, s.applied)
  }

  /** Every acknowledgement is backed by a copy, the coordinator's own included, and a success by a quorum. */
  ghost predicate GoodWrite(cfg: Config, sets: Sets, op: WriteOp) {
    && op.coord in op.acks && op.acks <= cfg.replicas
    && (forall n :: n in op.acks ==> n in sets && Covers(sets[n], op.v.clock))
    && (op.replied ==> |op.acks| >= Need(cfg, cfg.w))
  }

  /** What a served set still guarantees: its server covers it, and it covers the writes acknowledged before. */
  ghost predicate GoodServed(sets: Sets, writes: seq<WriteOp>, before: set<nat>, n: Str, served: seq<Version>) {
    && n in sets
    && Antichain(served)
    && (forall j :: 0 <= j < |served| ==> Covers(sets[n], served[j].clock))
    && (forall i :: i in before && i < |writes| && n in writes[i].acks ==> Covers(served, writes[i].v.clock))
  }

  ghost predicate GoodRead(cfg: Config, sets: Sets, writes: seq<WriteOp>, op: ReadOp) {
    && op.coord in op.responders && op.responders <= op.served.Keys <= cfg.replicas
    && (forall i :: i in op.before ==> i < |writes| && writes[i].replied)
    && (forall n :: n in op.served ==> GoodServed(sets, writes, op.before, n, op.served[n]))
    && Antichain(op.merged)
    && (forall n, j :: n in op.responders && n in op.served && 0 <= j < |op.served[n]| ==>
        Covers(op.merged, op.served[n][j].clock))
    && (op.replied ==> |op.responders| >= Need(cfg, cfg.r))
  }

  /** A read only handles minted versions. */
  ghost predicate ReadMinted(minted: set<Version>, op: ReadOp) {
    AllMinted(minted, op.merged) && forall n :: n in op.served ==> AllMinted(minted, op.served[n])
  }

  ghost predicate GoodWrites(cfg: Config, sets: Sets, minted: set<Version>, writes: seq<WriteOp>) {
    forall i :: 0 <= i < |writes| ==> writes[i].v in minted && GoodWrite(cfg, sets, writes[i])
  }

  ghost predicate GoodReads(cfg: Config, sets: Sets, minted: set<Version>, writes: seq<WriteOp>, gets: seq<ReadOp>) {
    forall i :: 0 <= i < |gets| ==> GoodRead(cfg, sets, writes, gets[i]) && ReadMinted(minted, gets[i])
  }

  ghost predicate Inv(cfg: Config, s: State) {
    && ValidConfig(cfg) && Shape(cfg, s)
    && Held(s.sets, s.seen, s.minted) && Bounded(s.sets, s.minted) && Coherent(s.minted)
    && Rising(s.writes) && Wire(s)
    && GoodWrites(cfg, s.sets, s.minted, s.writes) && GoodReads(cfg, s.sets, s.minted, s.writes, s.gets)
  }

  // ---------------------------------------------------------------- Growth

  /** Stores only ever gain coverage. */
  ghost predicate SetsGrow(sets: Sets, sets': Sets) {
    && sets.Keys == sets'.Keys
    && forall n, clock :: n in sets && Covers(sets[n], clock) ==> Covers(sets'[n], clock)
  }

  /** Writes are only appended, and one that has replied is frozen. */
  ghost predicate WritesGrow(writes: seq<WriteOp>, writes': seq<WriteOp>) {
    && |writes| <= |writes'|
    && forall i :: 0 <= i < |writes| ==>
         && writes[i].v == writes'[i].v && writes[i].coord == writes'[i].coord
         && (writes[i].replied ==> writes'[i] == writes[i])
  }

  lemma GoodWritesGrow(cfg: Config, sets: Sets, sets': Sets, minted: set<Version>, minted': set<Version>,
                       writes: seq<WriteOp>)
    requires GoodWrites(cfg, sets, minted, writes) && SetsGrow(sets, sets') && minted <= minted'
    ensures GoodWrites(cfg, sets', minted', writes)
  {
  }

  lemma GoodReadsGrow(cfg: Config, s: State, t: State)
    requires GoodReads(cfg, s.sets, s.minted, s.writes, s.gets) && t.gets == s.gets && s.minted <= t.minted
    requires SetsGrow(s.sets, t.sets) && WritesGrow(s.writes, t.writes)
    ensures GoodReads(cfg, t.sets, t.minted, t.writes, t.gets)
  {
  }

  lemma AppliedGrow(sets: Sets, sets': Sets, applied: set<(Str, Version)>)
    requires AppliedCovered(sets, applied) && SetsGrow(sets, sets')
    ensures AppliedCovered(sets', applied)
  {
  }

  // ---------------------------------------------------------------- Folding a minted batch into a store

  lemma FoldedFrontierGrows(start: seq<Version>, batch: seq<Version>)
    ensures Leq(FrontierOf(start), FrontierOf(Folded(start, batch)))
  {
    var end := Folded(start, batch);
    FoldedCovers(start, batch);
    forall i | 0 <= i < |start| ensures Leq(start[i].clock, FrontierOf(end)) {
      assert Leq(start[i].clock, start[i].clock);
      assert Covers(start, start[i].clock);
      FrontierAbove(end, start[i].clock);
    }
    FrontierIsLub(start, FrontierOf(end));
  }

  lemma StoreGrows(s: State, n: Str, batch: seq<Version>)
    requires n in s.sets && n in s.seen
    ensures SetsGrow(s.sets, Store(s, n, batch).sets)
    ensures forall v :: v in batch ==> Covers(Store(s, n, batch).sets[n], v.clock)
  {
    FoldedCovers(s.sets[n], batch);
    forall v | v in batch ensures Covers(Folded(s.sets[n], batch), v.clock) {
      CoversIn(batch, v, v.clock);
    }
  }

  lemma StoreHeld(s: State, minted: set<Version>, n: Str, batch: seq<Version>)
    requires Held(s.sets, s.seen, minted) && n in s.sets && n in s.seen && AllMinted(minted, batch)
    ensures Held(Store(s, n, batch).sets, Store(s, n, batch).seen, minted)
  {
    FoldedRepresents(s.sets[n], s.seen[n], batch);
  }

  lemma StoreBounded(s: State, n: Str, batch: seq<Version>)
    requires Bounded(s.sets, s.minted) && n in s.sets && n in s.seen
    ensures Bounded(Store(s, n, batch).sets, s.minted)
  {
    FoldedFrontierGrows(s.sets[n], batch);
  }

  /** Folding minted versions into any node keeps the invariant. */
  lemma StoreKeepsInv(cfg: Config, s: State, n: Str, batch: seq<Version>)
    requires Inv(cfg, s) && n in cfg.nodes && AllMinted(s.minted, batch)
    ensures Inv(cfg, Store(s, n, batch))
  {
    var t := Store(s, n, batch);
    StoreGrows(s, n, batch);
    StoreHeld(s, s.minted, n, batch);
    StoreBounded(s, n, batch);
    AppliedGrow(s.sets, t.sets, s.applied);
    GoodWritesGrow(cfg, s.sets, t.sets, s.minted, s.minted, s.writes);
    GoodReadsGrow(cfg, s, t);
  }

  // ---------------------------------------------------------------- Minting

  /** What minting guarantees: the author's counter is above everything, all others stay within bounds. */
  lemma MintFacts(sets: Sets, minted: set<Version>, c: Str, v: Version)
    requires Bounded(sets, minted) && c in sets && AllMinted(minted, sets[c])
    requires v.clock == MintClock(sets[c], c)
    ensures forall u :: u in minted ==> At(u.clock, c) < At(v.clock, c)
    ensures forall n :: n in sets && n != c ==> At(v.clock, n) <= Own(sets, n)
    ensures Folded(sets[c], [v]) == [v]
  {
    forall n | n in sets && n != c ensures At(v.clock, n) <= Own(sets, n) {
      forall i | 0 <= i < |sets[c]| ensures At(sets[c][i].clock, n) <= Own(sets, n) {
        assert sets[c][i] in minted;
      }
      FrontierAttained(sets[c], n, Own(sets, n));
    }
    MintCollapses(sets[c], c, v);
    assert [v][..0] == [];
  }

  lemma MintBounded(sets: Sets, minted: set<Version>, c: Str, v: Version)
    requires Bounded(sets, minted) && Coherent(minted) && c in sets
    requires forall u :: u in minted ==> At(u.clock, c) < At(v.clock, c)
    requires forall n :: n in sets && n != c ==> At(v.clock, n) <= Own(sets, n)
    ensures Bounded(sets[c := [v]], minted + {v}) && Coherent(minted + {v})
  {
  }

  lemma MintRising(minted: set<Version>, writes: seq<WriteOp>, c: Str, v: Version)
    requires Rising(writes) && forall i :: 0 <= i < |writes| ==> writes[i].v in minted
    requires forall u :: u in minted ==> At(u.clock, c) < At(v.clock, c)
    ensures Rising(writes + [WriteOp(c, v, {c}, false)])
  {
  }

  /** Minting keeps the invariant: `t` is `s` with the new write logged, stored at its author and sent out. */
  lemma MintKeepsInv(cfg: Config, s: State, t: State, c: Str, v: Version)
    requires Inv(cfg, s) && Shape(cfg, t) && c in cfg.replicas && v.clock == MintClock(s.sets[c], c)
    requires t.minted == s.minted + {v} && t.writes == s.writes + [WriteOp(c, v, {c}, false)] && t.gets == s.gets
    requires t.sets == Store(s, c, [v]).sets && t.seen == Store(s, c, [v]).seen
    requires t.applied == s.applied && t.hints == s.hints && t.fetched == s.fetched
    requires SentMinted(t.minted, t.sent)
    ensures Inv(cfg, t)
  {
    hide Bounded, GoodWrite, Coherent, Rising, Represents, Reconciled, SetsGrow, Covers;
    HeldAllMinted(cfg, s, c);
    MintFacts(s.sets, s.minted, c, v);
    MintBounded(s.sets, s.minted, c, v);
    MintRising(s.minted, s.writes, c, v);
    StoreGrows(s, c, [v]);
    StoreHeld(s, t.minted, c, [v]);
    AppliedGrow(s.sets, t.sets, s.applied);
    GoodWritesGrow(cfg, s.sets, t.sets, s.minted, t.minted, s.writes);
    MintedWriteGood(cfg, t.sets, t.minted, s.writes, c, v);
    GoodReadsGrow(cfg, s, t);
  }

  lemma MintedWriteGood(cfg: Config, sets: Sets, minted: set<Version>, writes: seq<WriteOp>, c: Str, v: Version)
    requires GoodWrites(cfg, sets, minted, writes) && v in minted && c in cfg.replicas && c in sets && sets[c] == [v]
    ensures GoodWrites(cfg, sets, minted, writes + [WriteOp(c, v, {c}, false)])
  {
    CoversIn([v], v, v.clock);
    assert GoodWrite(cfg, sets, WriteOp(c, v, {c}, false));
  }

  // ---------------------------------------------------------------- Bookkeeping steps

  /** A step that only changes the acknowledgements of write `i`. */
  lemma WriteStepKeepsInv(cfg: Config, s: State, t: State, i: nat, op: WriteOp)
    requires Inv(cfg, s) && i < |s.writes| && !s.writes[i].replied && t == s.(writes := s.writes[i := op])
    requires op.v == s.writes[i].v && op.coord == s.writes[i].coord && GoodWrite(cfg, s.sets, op)
    ensures Inv(cfg, t)
  {
    assert Rising(t.writes);
    GoodReadsGrow(cfg, s, t);
  }

  lemma AckGood(cfg: Config, sets: Sets, applied: set<(Str, Version)>, op: WriteOp, n: Str)
    requires AppliedCovered(sets, applied) && GoodWrite(cfg, sets, op) && !op.replied
    requires n in cfg.replicas && (n, op.v) in applied
    ensures GoodWrite(cfg, sets, op.(acks := op.acks + {n}))
  {
  }

  /** A step that only changes what travels between nodes. */
  lemma WireStepKeepsInv(cfg: Config, s: State, t: State)
    requires Inv(cfg, s) && Shape(cfg, t) && Wire(t)
    requires t.sets == s.sets && t.seen == s.seen && t.minted == s.minted && t.writes == s.writes && t.gets == s.gets
    ensures Inv(cfg, t)
  {
  }

  lemma HeldAllMinted(cfg: Config, s: State, p: Str)
    requires Inv(cfg, s) && p in cfg.nodes
    ensures AllMinted(s.minted, s.sets[p])
  {
  }

  lemma FreshReadGood(cfg: Config, s: State, c: Str)
    requires Inv(cfg, s) && c in cfg.replicas
    ensures GoodRead(cfg, s.sets, s.writes, ReadOp(c, map[c := s.sets[c]], {c}, s.sets[c], Replied(s.writes), false))
  {
  }

  lemma ServeGood(cfg: Config, sets: Sets, minted: set<Version>, writes: seq<WriteOp>, op: ReadOp, p: Str)
    requires GoodWrites(cfg, sets, minted, writes) && p in sets && Antichain(sets[p])
    requires GoodRead(cfg, sets, writes, op) && p in cfg.replicas && p !in op.served
    ensures GoodRead(cfg, sets, writes, op.(served := op.served[p := sets[p]]))
  {
  }

  lemma AntichainFolded(start: seq<Version>, batch: seq<Version>)
    requires Antichain(start)
    ensures Antichain(Folded(start, batch))
  {
    assert Represents(start, Elements(start)) by {
      forall v | v in start ensures Covers(start, v.clock) { CoversIn(start, v, v.clock); }
    }
    FoldedRepresents(start, Elements(start), batch);
  }

  lemma ReceiveGood(cfg: Config, sets: Sets, writes: seq<WriteOp>, op: ReadOp, p: Str)
    requires GoodRead(cfg, sets, writes, op) && p in op.served && !op.replied
    ensures GoodRead(cfg, sets, writes,
                op.(responders := op.responders + {p}, merged := Folded(op.merged, op.served[p])))
  {
    var reply := op.served[p];
    var merged := Folded(op.merged, reply);
    FoldedCovers(op.merged, reply);
    AntichainFolded(op.merged, reply);
    forall j | 0 <= j < |reply| ensures Covers(merged, reply[j].clock) {
      CoversIn(reply, reply[j], reply[j].clock);
    }
  }

  lemma ReceiveMinted(minted: set<Version>, op: ReadOp, p: Str)
    requires ReadMinted(minted, op) && p in op.served
    ensures ReadMinted(minted, op.(responders := op.responders + {p}, merged := Folded(op.merged, op.served[p])))
  {
    var merged := Folded(op.merged, op.served[p]);
    forall j | 0 <= j < |merged| ensures merged[j] in minted {
      FoldedElements(op.merged, op.served[p], merged[j]);
    }
  }

  /** A step that only changes the reads, keeping each of them good. */
  lemma ReadStepKeepsInv(cfg: Config, s: State, t: State)
    requires Inv(cfg, s) && Shape(cfg, t) && t == s.(gets := t.gets)
    requires GoodReads(cfg, s.sets, s.minted, s.writes, t.gets)
    ensures Inv(cfg, t)
  {
  }

  // ---------------------------------------------------------------- Every step

  lemma StoreStepsKeepInv(cfg: Config, s: State, step: Step)
    requires Inv(cfg, s) && Enabled(cfg, s, step) && (step.RepairLocal? || step.SyncApply?)
    ensures Inv(cfg, Apply(cfg, s, step))
  {
    if step.RepairLocal? {
      assert ReadMinted(s.minted, s.gets[step.op]);
      StoreKeepsInv(cfg, s, s.gets[step.op].coord, s.gets[step.op].merged);
    } else {
      var m := (step.node, step.batch);
      assert m in s.fetched && AllMinted(s.minted, m.1);
      StoreKeepsInv(cfg, s, step.node, step.batch);
    }
  }

  lemma DeliverKeepsInv(cfg: Config, s: State, step: Step)
    requires Inv(cfg, s) && Enabled(cfg, s, step) && step.Deliver?
    ensures Inv(cfg, Apply(cfg, s, step))
  {
    var m := (step.target, step.v);
    assert m in s.sent && m.1 in s.minted;
    StoreKeepsInv(cfg, s, step.target, [step.v]);
    StoreGrows(s, step.target, [step.v]);
    ShapeKept(cfg, s, step);
    assert step.v in [step.v];
    WireStepKeepsInv(cfg, Store(s, step.target, [step.v]), Apply(cfg, s, step));
  }

  lemma WriteStepsKeepInv(cfg: Config, s: State, step: Step)
    requires Inv(cfg, s) && Enabled(cfg, s, step) && (step.Write? || step.Delete? || step.Ack? || step.WriteReply?)
    ensures Inv(cfg, Apply(cfg, s, step))
  {
    var t := Apply(cfg, s, step);
    ShapeKept(cfg, s, step);
    if step.Write? || step.Delete? {
      MintKeepsInv(cfg, s, t, step.coord, MintedBy(s, step));
    } else {
      assert GoodWrite(cfg, s.sets, s.writes[step.op]);
      if step.Ack? { AckGood(cfg, s.sets, s.applied, s.writes[step.op], step.from); }
      WriteStepKeepsInv(cfg, s, t, step.op, t.writes[step.op]);
    }
  }

  lemma UpdateReadKeepsInv(cfg: Config, s: State, t: State, i: nat, op: ReadOp)
    requires Inv(cfg, s) && Shape(cfg, t) && i < |s.gets| && t == s.(gets := s.gets[i := op])
    requires GoodRead(cfg, s.sets, s.writes, op) && ReadMinted(s.minted, op)
    ensures Inv(cfg, t)
  {
    ReadStepKeepsInv(cfg, s, t);
  }

  lemma ServeKeepsInv(cfg: Config, s: State, step: Step)
    requires Inv(cfg, s) && Enabled(cfg, s, step) && step.Serve?
    ensures Inv(cfg, Apply(cfg, s, step))
  {
    var t := Apply(cfg, s, step);
    var op := s.gets[step.op];
    ShapeKept(cfg, s, step);
    assert GoodRead(cfg, s.sets, s.writes, op) && ReadMinted(s.minted, op);
    ServeGood(cfg, s.sets, s.minted, s.writes, op, step.peer);
    HeldAllMinted(cfg, s, step.peer);
    UpdateReadKeepsInv(cfg, s, t, step.op, t.gets[step.op]);
  }

  lemma ReceiveKeepsInv(cfg: Config, s: State, step: Step)
    requires Inv(cfg, s) && Enabled(cfg, s, step) && (step.Receive? || step.ReadReply?)
    ensures Inv(cfg, Apply(cfg, s, step))
  {
    hide Held, Bounded, Coherent;
    var t := Apply(cfg, s, step);
    var op := s.gets[step.op];
    ShapeKept(cfg, s, step);
    assert GoodRead(cfg, s.sets, s.writes, op) && ReadMinted(s.minted, op);
    if step.Receive? {
      ReceiveGood(cfg, s.sets, s.writes, op, step.peer);
      ReceiveMinted(s.minted, op, step.peer);
    }
    UpdateReadKeepsInv(cfg, s, t, step.op, t.gets[step.op]);
  }

  lemma ReadStartKeepsInv(cfg: Config, s: State, step: Step)
    requires Inv(cfg, s) && Enabled(cfg, s, step) && step.ReadStart?
    ensures Inv(cfg, Apply(cfg, s, step))
  {
    ShapeKept(cfg, s, step);
    FreshReadGood(cfg, s, step.coord);
    HeldAllMinted(cfg, s, step.coord);
    ReadStepKeepsInv(cfg, s, Apply(cfg, s, step));
  }

  lemma ParkKeepsInv(cfg: Config, s: State, step: Step)
    requires Inv(cfg, s) && Enabled(cfg, s, step) && step.Park?
    ensures Inv(cfg, Apply(cfg, s, step))
  {
    var t := Apply(cfg, s, step);
    ShapeKept(cfg, s, step);
    assert s.writes[step.op].v in s.minted;
    assert HintsMinted(t.minted, t.hints);
    WireStepKeepsInv(cfg, s, t);
  }

  lemma ReplayKeepsInv(cfg: Config, s: State, step: Step)
    requires Inv(cfg, s) && Enabled(cfg, s, step) && step.Replay?
    ensures Inv(cfg, Apply(cfg, s, step))
  {
  }

  lemma UnparkKeepsInv(cfg: Config, s: State, step: Step)
    requires Inv(cfg, s) && Enabled(cfg, s, step) && step.Unpark?
    ensures Inv(cfg, Apply(cfg, s, step))
  {
    hide Held, Bounded, Coherent, Rising, GoodReads, GoodWrites, Covers;
    var t := Apply(cfg, s, step);
    ShapeKept(cfg, s, step);
    assert HintsMinted(t.minted, t.hints);
    WireStepKeepsInv(cfg, s, t);
  }

  lemma FetchKeepsInv(cfg: Config, s: State, step: Step)
    requires Inv(cfg, s) && Enabled(cfg, s, step) && step.Fetch?
    ensures Inv(cfg, Apply(cfg, s, step))
  {
    var t := Apply(cfg, s, step);
    ShapeKept(cfg, s, step);
    HeldAllMinted(cfg, s, step.peer);
    assert FetchedMinted(t.minted, t.fetched);
    WireStepKeepsInv(cfg, s, t);
  }

  lemma PushKeepsInv(cfg: Config, s: State, step: Step)
    requires Inv(cfg, s) && Enabled(cfg, s, step) && step.RepairPush?
    ensures Inv(cfg, Apply(cfg, s, step))
  {
    var t := Apply(cfg, s, step);
    ShapeKept(cfg, s, step);
    assert ReadMinted(s.minted, s.gets[step.op]);
    assert SentMinted(t.minted, t.sent);
    WireStepKeepsInv(cfg, s, t);
  }

  lemma StepKeepsInv(cfg: Config, s: State, step: Step)
    requires Inv(cfg, s) && Enabled(cfg, s, step)
    ensures Inv(cfg, Apply(cfg, s, step))
  {
    match step {
      case Write(_, _) => WriteStepsKeepInv(cfg, s, step);
      case Delete(_, _) => WriteStepsKeepInv(cfg, s, step);
      case Deliver(_, _) => DeliverKeepsInv(cfg, s, step);
      case Ack(_, _) => WriteStepsKeepInv(cfg, s, step);
      case WriteReply(_) => WriteStepsKeepInv(cfg, s, step);
      case Park(_, _) => ParkKeepsInv(cfg, s, step);
      case Replay(_, _) => ReplayKeepsInv(cfg, s, step);
      case Unpark(_, _, _) => UnparkKeepsInv(cfg, s, step);
      case ReadStart(_) => ReadStartKeepsInv(cfg, s, step);
      case Serve(_, _) => ServeKeepsInv(cfg, s, step);
      case Receive(_, _) => ReceiveKeepsInv(cfg, s, step);
      case ReadReply(_) => ReceiveKeepsInv(cfg, s, step);
      case RepairLocal(_) => StoreStepsKeepInv(cfg, s, step);
      case RepairPush(_, _) => PushKeepsInv(cfg, s, step);
      case Fetch(_, _) => FetchKeepsInv(cfg, s, step);
      case SyncApply(_, _) => StoreStepsKeepInv(cfg, s, step);
    }
  }

  lemma {:induction false} RunKeepsInv(cfg: Config, steps: seq<Step>)
    requires IsRun(cfg, steps)
    ensures Inv(cfg, Reached(cfg, steps))
    decreases |steps|
  {
    if steps != [] {
      var init := steps[..|steps| - 1];
      RunKeepsInv(cfg, init);
      StepKeepsInv(cfg, Reached(cfg, init), steps[|steps| - 1]);
    }
  }
}
