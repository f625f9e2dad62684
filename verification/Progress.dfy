/**
 What the replication layer can still achieve from every reachable state: operations that are under way can
 succeed, hints can be delivered, read repair can heal, and anti-entropy alone can bring every node to the
 same siblings with no minted version lost.
 */
module Progress {
  import opened Bytes
  import opened Seqs
  import opened Versions
  import opened Protocol
  import opened ProtocolInvariant
  import opened ProtocolTheorems

  /** What a continuation without client writes keeps: coverage, and the versions minted so far. */
  ghost predicate Continues(s: State, t: State) {
    SetsGrow(s.sets, t.sets) && t.minted == s.minted
  }

  lemma ContinuesOn(s: State, t: State, u: State)
    requires Continues(s, t) && Continues(t, u)
    ensures Continues(s, u)
  {
  }

  lemma ContinuesStill(s: State)
    ensures Continues(s, s)
  {
  }

  /** Whatever `p` covered then, `n` covers now. */
  ghost predicate HandedOn(s: State, t: State, p: Str, n: Str) {
    p in s.sets && n in t.sets && forall clock :: Covers(s.sets[p], clock) ==> Covers(t.sets[n], clock)
  }

  lemma HandedFurther(s: State, t: State, u: State, p: Str, m: Str, n: Str)
    requires HandedOn(s, t, p, m) && HandedOn(t, u, m, n)
    ensures HandedOn(s, u, p, n)
  {
  }

  lemma HandedLater(s: State, t: State, u: State, p: Str, n: Str)
    ensures Continues(s, t) && HandedOn(t, u, p, n) ==> HandedOn(s, u, p, n)
    ensures HandedOn(s, t, p, n) && Continues(t, u) ==> HandedOn(s, u, p, n)
  {
  }

  /** One more step of a run. */
  lemma StepOn(cfg: Config, steps: seq<Step>, step: Step)
    requires IsRun(cfg, steps) && Enabled(cfg, Reached(cfg, steps), step)
    ensures IsRun(cfg, steps + [step])
    ensures Reached(cfg, steps + [step]) == Apply(cfg, Reached(cfg, steps), step)
    ensures !IsClientWrite(step) ==> Continues(Reached(cfg, steps), Reached(cfg, steps + [step]))
  {
    RunExtends(cfg, steps, step);
    StepGrows(cfg, Reached(cfg, steps), step);
  }

  // ---------------------------------------------------------------- Convergence

  /** One exchange: `n` fetches the set of `p` and folds it in. */
  lemma Pull(cfg: Config, steps: seq<Step>, n: Str, p: Str) returns (ext: seq<Step>)
    requires IsRun(cfg, steps) && n in cfg.nodes && p in cfg.nodes
    ensures IsRun(cfg, steps + ext) && Continues(Reached(cfg, steps), Reached(cfg, steps + ext))
    ensures HandedOn(Reached(cfg, steps), Reached(cfg, steps + ext), p, n)
  {
    var s := Reached(cfg, steps);
    StepOn(cfg, steps, Fetch(n, p));
    var mid := steps + [Fetch(n, p)];
    StepOn(cfg, mid, SyncApply(n, s.sets[p]));
    ext := [Fetch(n, p), SyncApply(n, s.sets[p])];
    assert steps + ext == mid + [SyncApply(n, s.sets[p])];
    FoldedCovers(s.sets[n], s.sets[p]);
  }

  /** `n` catches up with each of some nodes. */
  lemma {:induction false} PullAll(cfg: Config, steps: seq<Step>, n: Str, from: set<Str>) returns (ext: seq<Step>)
    requires IsRun(cfg, steps) && n in cfg.nodes && from <= cfg.nodes
    ensures IsRun(cfg, steps + ext) && Continues(Reached(cfg, steps), Reached(cfg, steps + ext))
    ensures forall p :: p in from ==> HandedOn(Reached(cfg, steps), Reached(cfg, steps + ext), p, n)
    decreases from
  {
    hide IsRun, Reached, HandedOn, Continues;
    if from == {} {
      ext := [];
      assert steps + ext == steps;
      ContinuesStill(Reached(cfg, steps));
    } else {
      var p :| p in from;
      var one := Pull(cfg, steps, n, p);
      var more := PullAll(cfg, steps + one, n, from - {p});
      ext := one + more;
      assert steps + ext == steps + one + more;
      var s, t, u := Reached(cfg, steps), Reached(cfg, steps + one), Reached(cfg, steps + ext);
      ContinuesOn(s, t, u);
      forall q | q in from ensures HandedOn(s, u, q, n) { HandedLater(s, t, u, q, n); }
    }
  }

  /** Each of some nodes catches up with `x`. */
  lemma {:induction false} AllPull(cfg: Config, steps: seq<Step>, x: Str, rest: set<Str>) returns (ext: seq<Step>)
    requires IsRun(cfg, steps) && x in cfg.nodes && rest <= cfg.nodes
    ensures IsRun(cfg, steps + ext) && Continues(Reached(cfg, steps), Reached(cfg, steps + ext))
    ensures forall n :: n in rest ==> HandedOn(Reached(cfg, steps), Reached(cfg, steps + ext), x, n)
    decreases rest
  {
    hide IsRun, Reached, HandedOn, Continues;
    if rest == {} {
      ext := [];
      assert steps + ext == steps;
      ContinuesStill(Reached(cfg, steps));
    } else {
      var n :| n in rest;
      var one := Pull(cfg, steps, n, x);
      var more := AllPull(cfg, steps + one, x, rest - {n});
      ext := one + more;
      assert steps + ext == steps + one + more;
      var s, t, u := Reached(cfg, steps), Reached(cfg, steps + one), Reached(cfg, steps + ext);
      ContinuesOn(s, t, u);
      forall m | m in rest ensures HandedOn(s, u, x, m) { HandedLater(s, t, u, x, m); }
    }
  }

  ghost predicate Logged(s: State) {
    forall v :: v in s.minted ==> exists i :: 0 <= i < |s.writes| && s.writes[i].v == v
  }

  lemma StepLogs(cfg: Config, s: State, step: Step)
    requires Shape(cfg, s) && Enabled(cfg, s, step) && Logged(s)
    ensures Logged(Apply(cfg, s, step))
  {
    hide Shape, Folded, EqualScan, Need, MintedBy;
    var t := Apply(cfg, s, step);
    forall v | v in t.minted ensures exists i :: 0 <= i < |t.writes| && t.writes[i].v == v {
      if v in s.minted {
        var i :| 0 <= i < |s.writes| && s.writes[i].v == v;
        assert t.writes[i].v == v;
      } else {
        assert t.writes[|s.writes|].v == v;
      }
    }
  }

  lemma {:induction false} RunLogs(cfg: Config, steps: seq<Step>)
    requires IsRun(cfg, steps)
    ensures Logged(Reached(cfg, steps))
  {
    if steps != [] {
      hide Reached, IsRun, Apply, Enabled, Logged;
      LastStep(cfg, steps);
      RunLogs(cfg, steps[..|steps| - 1]);
      StepLogs(cfg, Reached(cfg, steps[..|steps| - 1]), steps[|steps| - 1]);
    }
  }

  /** Every minted version is covered somewhere, acknowledged or not: at the latest by its own coordinator. */
  lemma MintedIsCovered(cfg: Config, steps: seq<Step>, v: Version) returns (n: Str)
    requires IsRun(cfg, steps) && v in Reached(cfg, steps).minted
    ensures n in cfg.nodes && Covers(Reached(cfg, steps).sets[n], v.clock)
  {
    RunKeepsInv(cfg, steps);
    RunLogs(cfg, steps);
    var s := Reached(cfg, steps);
    var i :| 0 <= i < |s.writes| && s.writes[i].v == v;
    assert GoodWrite(cfg, s.sets, s.writes[i]);
    n := s.writes[i].coord;
  }

  /** A node that covers every minted version stores exactly what all of them reconcile to. */
  lemma CoveringAllIsRepresenting(cfg: Config, s: State, n: Str)
    requires Inv(cfg, s) && n in cfg.nodes && forall v :: v in s.minted ==> Covers(s.sets[n], v.clock)
    ensures Represents(s.sets[n], s.minted)
  {
    assert Represents(s.sets[n], s.seen[n]) && s.seen[n] <= s.minted;
  }

  /** One node catches up with all of them, and all of them with it. */
  lemma Exchange(cfg: Config, steps: seq<Step>, x: Str) returns (ext: seq<Step>)
    requires IsRun(cfg, steps) && x in cfg.nodes
    ensures IsRun(cfg, steps + ext) && Continues(Reached(cfg, steps), Reached(cfg, steps + ext))
    ensures forall p, n :: p in cfg.nodes && n in cfg.nodes ==>
              HandedOn(Reached(cfg, steps), Reached(cfg, steps + ext), p, n)
  {
    hide Reached, IsRun, HandedOn, Continues;
    var gather := PullAll(cfg, steps, x, cfg.nodes);
    var scatter := AllPull(cfg, steps + gather, x, cfg.nodes);
    ext := gather + scatter;
    assert steps + ext == steps + gather + scatter;
    var s, t, u := Reached(cfg, steps), Reached(cfg, steps + gather), Reached(cfg, steps + ext);
    ContinuesOn(s, t, u);
    forall p, n | p in cfg.nodes && n in cfg.nodes ensures HandedOn(s, u, p, n) { HandedFurther(s, t, u, p, x, n); }
  }

  lemma EveryMintIsCovered(cfg: Config, steps: seq<Step>, ext: seq<Step>, n: Str, v: Version)
    requires IsRun(cfg, steps) && IsRun(cfg, steps + ext) && n in cfg.nodes && v in Reached(cfg, steps).minted
    requires forall p :: p in cfg.nodes ==> HandedOn(Reached(cfg, steps), Reached(cfg, steps + ext), p, n)
    ensures Covers(Reached(cfg, steps + ext).sets[n], v.clock)
  {
    hide Reached, IsRun, Covers;
    var p := MintedIsCovered(cfg, steps, v);
  }

  /**
   From every reachable state anti-entropy alone can bring all nodes to one and the same set of siblings: what
   all versions ever minted reconcile to, whatever was lost, duplicated or overwritten on the way.
   */
  lemma ConvergenceIsReachable(cfg: Config, steps: seq<Step>) returns (ext: seq<Step>)
    requires IsRun(cfg, steps)
    ensures IsRun(cfg, steps + ext) && Reached(cfg, steps + ext).minted == Reached(cfg, steps).minted
    ensures forall n :: n in cfg.nodes ==> Represents(Reached(cfg, steps + ext).sets[n], Reached(cfg, steps).minted)
  {
    hide Reached, IsRun, Covers, Represents, Inv;
    var x :| x in cfg.nodes;
    ext := Exchange(cfg, steps, x);
    var t := Reached(cfg, steps + ext);
    RunKeepsInv(cfg, steps + ext);
    assert t.sets.Keys == cfg.nodes;
    forall n | n in cfg.nodes ensures Represents(t.sets[n], t.minted) {
      forall v | v in t.minted ensures Covers(t.sets[n], v.clock) { EveryMintIsCovered(cfg, steps, ext, n, v); }
      CoveringAllIsRepresenting(cfg, t, n);
    }
  }

  /** Two nodes that have converged store the same siblings, up to their order. */
  lemma ConvergedAgree(cfg: Config, steps: seq<Step>, a: Str, b: Str)
    requires IsRun(cfg, steps) && a in cfg.nodes && b in cfg.nodes
    requires Represents(Reached(cfg, steps).sets[a], Reached(cfg, steps).minted)
    requires Represents(Reached(cfg, steps).sets[b], Reached(cfg, steps).minted)
    ensures multiset(Reached(cfg, steps).sets[a]) == multiset(Reached(cfg, steps).sets[b])
  {
    RunKeepsInv(cfg, steps);
    RepresentationIsUnique(Reached(cfg, steps).sets[a], Reached(cfg, steps).sets[b], Reached(cfg, steps).minted);
  }

  // ---------------------------------------------------------------- Operations under way

  /** Every write has been sent to every other replica of the key. */
  ghost predicate SentToAll(cfg: Config, s: State) {
    forall i, t :: 0 <= i < |s.writes| && t in Peers(cfg, s.writes[i].coord) ==> (t, s.writes[i].v) in s.sent
  }

  lemma StepSends(cfg: Config, s: State, step: Step)
    requires Shape(cfg, s) && Enabled(cfg, s, step) && SentToAll(cfg, s)
    ensures SentToAll(cfg, Apply(cfg, s, step))
  {
    hide Shape, Folded, EqualScan, Need, MintedBy;
  }

  lemma {:induction false} WritesAreSentToAll(cfg: Config, steps: seq<Step>)
    requires IsRun(cfg, steps)
    ensures SentToAll(cfg, Reached(cfg, steps))
  {
    if steps != [] {
      hide Reached, IsRun, Apply, Enabled, SentToAll;
      LastStep(cfg, steps);
      WritesAreSentToAll(cfg, steps[..|steps| - 1]);
      StepSends(cfg, Reached(cfg, steps[..|steps| - 1]), steps[|steps| - 1]);
    }
  }

  /** A message on its way can be delivered: its target comes to cover it and answers OK. */
  lemma DeliverOn(cfg: Config, steps: seq<Step>, t: Str, v: Version)
    requires IsRun(cfg, steps) && (t, v) in Reached(cfg, steps).sent
    ensures IsRun(cfg, steps + [Deliver(t, v)]) && t in cfg.nodes
    ensures var s, u := Reached(cfg, steps), Reached(cfg, steps + [Deliver(t, v)]);
            && Continues(s, u) && Covers(u.sets[t], v.clock) && u.applied == s.applied + {(t, v)}
            && u.sent == s.sent && u.writes == s.writes && u.hints == s.hints && u.replays == s.replays
            && u.parked == s.parked
  {
    var s := Reached(cfg, steps);
    assert Addressed(cfg.nodes, s.sent);
    StoreGrows(s, t, [v]);
    hide IsRun, Reached, Covers, Folded;
    StepOn(cfg, steps, Deliver(t, v));
  }

  /** The replicas that have acknowledged write `i` or may still do so: a failed call parks a hint and is final. */
  ghost function Standing(cfg: Config, s: State, i: nat): set<Str> {
    set t | t in cfg.replicas && (i, t) !in s.parked
  }

  /** Whoever acknowledged a write was not parked for it, and only writes are parked. */
  ghost predicate ParkedApart(s: State) {
    && (forall m :: m in s.parked ==> m.0 < |s.writes|)
    && (forall i, t :: 0 <= i < |s.writes| && t in s.writes[i].acks ==> (i, t) !in s.parked)
  }

  lemma StepParksApart(cfg: Config, s: State, step: Step)
    requires Shape(cfg, s) && Enabled(cfg, s, step) && ParkedApart(s)
    ensures ParkedApart(Apply(cfg, s, step))
  {
    hide Shape, Folded, EqualScan, Need, MintedBy;
  }

  lemma {:induction false} RunParksApart(cfg: Config, steps: seq<Step>)
    requires IsRun(cfg, steps)
    ensures ParkedApart(Reached(cfg, steps))
  {
    if steps != [] {
      hide Reached, IsRun, Apply, Enabled, ParkedApart;
      LastStep(cfg, steps);
      RunParksApart(cfg, steps[..|steps| - 1]);
      StepParksApart(cfg, Reached(cfg, steps[..|steps| - 1]), steps[|steps| - 1]);
    }
  }

  /** One more replica applies write `i` and acknowledges it. */
  lemma OneMoreAck(cfg: Config, steps: seq<Step>, i: nat) returns (ext: seq<Step>)
    requires IsRun(cfg, steps) && i < |Reached(cfg, steps).writes|
    requires var w := Reached(cfg, steps).writes[i]; !w.replied && |w.acks| < Need(cfg, cfg.w)
    requires |Standing(cfg, Reached(cfg, steps), i)| >= Need(cfg, cfg.w)
    ensures IsRun(cfg, steps + ext)
    ensures var s, t := Reached(cfg, steps), Reached(cfg, steps + ext);
            && |t.writes| == |s.writes| && !t.writes[i].replied && |t.writes[i].acks| == |s.writes[i].acks| + 1
            && t.parked == s.parked
  {
    hide IsRun, Reached, Continues, Covers, Enabled, Apply, Shape, Need;
    var w := Reached(cfg, steps).writes[i];
    var t := NextToAck(cfg, steps, i);
    DeliverOn(cfg, steps, t, w.v);
    AckEffect(cfg, Reached(cfg, steps + [Deliver(t, w.v)]), i, t);
    StepOn(cfg, steps + [Deliver(t, w.v)], Ack(i, t));
    ext := [Deliver(t, w.v), Ack(i, t)];
    assert steps + ext == steps + [Deliver(t, w.v)] + [Ack(i, t)];
  }

  lemma AckEffect(cfg: Config, s: State, i: nat, t: Str)
    requires Shape(cfg, s) && i < |s.writes| && !s.writes[i].replied && |s.writes[i].acks| < Need(cfg, cfg.w)
    requires t in Standing(cfg, s, i) && t !in s.writes[i].acks && (t, s.writes[i].v) in s.applied
    ensures Enabled(cfg, s, Ack(i, t)) && Apply(cfg, s, Ack(i, t)).parked == s.parked
    ensures Apply(cfg, s, Ack(i, t)).writes == s.writes[i := s.writes[i].(acks := s.writes[i].acks + {t})]
  {
  }

  lemma NextToAck(cfg: Config, steps: seq<Step>, i: nat) returns (t: Str)
    requires IsRun(cfg, steps) && i < |Reached(cfg, steps).writes|
    requires |Reached(cfg, steps).writes[i].acks| < Need(cfg, cfg.w) <= |Standing(cfg, Reached(cfg, steps), i)|
    ensures var s := Reached(cfg, steps);
            t in Standing(cfg, s, i) && t !in s.writes[i].acks && (t, s.writes[i].v) in s.sent
  {
    RunKeepsInv(cfg, steps);
    WritesAreSentToAll(cfg, steps);
    hide IsRun, Reached;
    var s := Reached(cfg, steps);
    assert GoodWrite(cfg, s.sets, s.writes[i]);
    t := AnotherOf(Standing(cfg, s, i), s.writes[i].acks);
    assert t in Peers(cfg, s.writes[i].coord);
  }

  lemma AnotherOf(all: set<Str>, some: set<Str>) returns (t: Str)
    requires |some| < |all|
    ensures t in all && t !in some
  {
    if all - some == {} {
      forall x | x in all ensures x in some { assert x !in all - some; }
      SubsetSize(all, some);
    }
    t :| t in all - some;
  }

  /** A write under way can still reply if enough replicas are standing. */
  lemma {:induction false} WriteCanSucceed(cfg: Config, steps: seq<Step>, i: nat) returns (ext: seq<Step>)
    requires IsRun(cfg, steps) && i < |Reached(cfg, steps).writes|
    requires Reached(cfg, steps).writes[i].replied || |Standing(cfg, Reached(cfg, steps), i)| >= Need(cfg, cfg.w)
    ensures Succeeds(cfg, steps + ext, i)
    decreases Need(cfg, cfg.w) - |Reached(cfg, steps).writes[i].acks|
  {
    hide IsRun, Reached, Need;
    var w := Reached(cfg, steps).writes[i];
    if w.replied {
      ext := [];
      assert steps + ext == steps;
    } else if |w.acks| >= Need(cfg, cfg.w) {
      ext := [WriteReply(i)];
      StepOn(cfg, steps, WriteReply(i));
    } else {
      var one := OneMoreAck(cfg, steps, i);
      assert Standing(cfg, Reached(cfg, steps + one), i) == Standing(cfg, Reached(cfg, steps), i);
      var more := WriteCanSucceed(cfg, steps + one, i);
      ext := one + more;
      assert steps + ext == steps + one + more;
    }
  }

  ghost predicate Succeeds(cfg: Config, steps: seq<Step>, i: nat) {
    IsRun(cfg, steps) && i < |Reached(cfg, steps).writes| && Reached(cfg, steps).writes[i].replied
  }

  /** Too few replicas are standing for write `i`, and it has not replied. */
  ghost predicate IsDoomed(cfg: Config, s: State, i: nat) {
    i < |s.writes| && !s.writes[i].replied && |Standing(cfg, s, i)| < Need(cfg, cfg.w)
  }

  lemma StandingShrinks(cfg: Config, s: State, step: Step, i: nat)
    requires Shape(cfg, s) && Enabled(cfg, s, step)
    ensures |Standing(cfg, Apply(cfg, s, step), i)| <= |Standing(cfg, s, i)|
  {
    assert s.parked <= Apply(cfg, s, step).parked by { hide Shape, Folded, EqualScan, Need, MintedBy; }
    SubsetSize(Standing(cfg, Apply(cfg, s, step), i), Standing(cfg, s, i));
  }

  lemma DoomedGetsNoReply(cfg: Config, s: State, i: nat)
    requires Inv(cfg, s) && ParkedApart(s) && IsDoomed(cfg, s, i)
    ensures !Enabled(cfg, s, WriteReply(i))
  {
    assert GoodWrite(cfg, s.sets, s.writes[i]);
    SubsetSize(s.writes[i].acks, Standing(cfg, s, i));
  }

  lemma OnlyReplyReplies(cfg: Config, s: State, step: Step, i: nat)
    requires Shape(cfg, s) && Enabled(cfg, s, step) && i < |s.writes| && !s.writes[i].replied && step != WriteReply(i)
    ensures i < |Apply(cfg, s, step).writes| && !Apply(cfg, s, step).writes[i].replied
  {
    hide Shape, Folded, EqualScan, Need, MintedBy;
  }

  lemma {:induction false} DoomedStaysDoomed(cfg: Config, steps: seq<Step>, ext: seq<Step>, i: nat)
    requires IsRun(cfg, steps) && IsRun(cfg, steps + ext) && IsDoomed(cfg, Reached(cfg, steps), i)
    ensures IsDoomed(cfg, Reached(cfg, steps + ext), i)
    decreases |ext|
  {
    hide Reached, IsRun, Apply, Enabled, Inv, ParkedApart, Standing, Need, Shape;
    if ext == [] {
      assert steps + ext == steps;
    } else {
      var init, last := ext[..|ext| - 1], ext[|ext| - 1];
      assert (steps + ext)[..|steps + ext| - 1] == steps + init && (steps + ext)[|steps + ext| - 1] == last;
      LastStep(cfg, steps + ext);
      DoomedStaysDoomed(cfg, steps, init, i);
      var s := Reached(cfg, steps + init);
      RunKeepsInv(cfg, steps + init);
      RunParksApart(cfg, steps + init);
      DoomedGetsNoReply(cfg, s, i);
      OnlyReplyReplies(cfg, s, last, i);
      StandingShrinks(cfg, s, last, i);
    }
  }

  /**
   When a write or delete under way can still succeed: it has replied already, or the replicas for which no hint
   was parked are at least its quorum.
   */
  lemma WriteCanSucceedIff(cfg: Config, steps: seq<Step>, i: nat)
    requires IsRun(cfg, steps) && i < |Reached(cfg, steps).writes|
    ensures (exists ext :: Succeeds(cfg, steps + ext, i)) <==>
              || Reached(cfg, steps).writes[i].replied
              || |Standing(cfg, Reached(cfg, steps), i)| >= Need(cfg, cfg.w)
  {
    hide IsRun, Reached, Need, Standing;
    if IsDoomed(cfg, Reached(cfg, steps), i) {
      forall ext ensures !Succeeds(cfg, steps + ext, i) {
        if Succeeds(cfg, steps + ext, i) { DoomedStaysDoomed(cfg, steps, ext, i); }
      }
    } else {
      var ext := WriteCanSucceed(cfg, steps, i);
    }
  }

  lemma SomeoneElse(cfg: Config, quorum: nat, some: set<Str>) returns (t: Str)
    requires |some| < Need(cfg, quorum)
    ensures t in cfg.replicas && t !in some
  {
    t := AnotherOf(cfg.replicas, some);
  }

  /** One more replica serves read `g` and is counted. */
  lemma OneMoreResponse(cfg: Config, steps: seq<Step>, g: nat) returns (ext: seq<Step>)
    requires IsRun(cfg, steps) && g < |Reached(cfg, steps).gets|
    requires var r := Reached(cfg, steps).gets[g]; !r.replied && |r.responders| < Need(cfg, cfg.r)
    ensures IsRun(cfg, steps + ext)
    ensures var s, t := Reached(cfg, steps), Reached(cfg, steps + ext);
            && |t.gets| == |s.gets| && !t.gets[g].replied && |t.gets[g].responders| == |s.gets[g].responders| + 1
  {
    hide IsRun, Reached, Continues, Enabled, Apply, Shape, Need;
    var s := Reached(cfg, steps);
    var p := SomeoneElse(cfg, cfg.r, s.gets[g].responders);
    if p in s.gets[g].served {
      ReceiveEffect(cfg, s, g, p);
      StepOn(cfg, steps, Receive(g, p));
      ext := [Receive(g, p)];
    } else {
      ServeEffect(cfg, s, g, p);
      StepOn(cfg, steps, Serve(g, p));
      ReceiveEffect(cfg, Reached(cfg, steps + [Serve(g, p)]), g, p);
      StepOn(cfg, steps + [Serve(g, p)], Receive(g, p));
      ext := [Serve(g, p), Receive(g, p)];
      assert steps + ext == steps + [Serve(g, p)] + [Receive(g, p)];
    }
  }

  lemma ServeEffect(cfg: Config, s: State, g: nat, p: Str)
    requires Shape(cfg, s) && g < |s.gets| && p in cfg.replicas && p !in s.gets[g].served
    ensures Enabled(cfg, s, Serve(g, p))
    ensures var u := Apply(cfg, s, Serve(g, p));
            && |u.gets| == |s.gets| && u.gets[g].replied == s.gets[g].replied && p in u.gets[g].served
            && u.gets[g].responders == s.gets[g].responders
  {
  }

  lemma ReceiveEffect(cfg: Config, s: State, g: nat, p: Str)
    requires Shape(cfg, s) && g < |s.gets| && !s.gets[g].replied && |s.gets[g].responders| < Need(cfg, cfg.r)
    requires p in s.gets[g].served && p !in s.gets[g].responders
    ensures Enabled(cfg, s, Receive(g, p))
    ensures var u := Apply(cfg, s, Receive(g, p));
            && |u.gets| == |s.gets| && !u.gets[g].replied
            && u.gets[g].responders == s.gets[g].responders + {p}
  {
  }

  /** Any read under way can still reach its quorum and reply. */
  lemma {:induction false} ReadCanSucceed(cfg: Config, steps: seq<Step>, g: nat) returns (ext: seq<Step>)
    requires IsRun(cfg, steps) && g < |Reached(cfg, steps).gets|
    ensures IsRun(cfg, steps + ext) && g < |Reached(cfg, steps + ext).gets|
    ensures Reached(cfg, steps + ext).gets[g].replied
    decreases Need(cfg, cfg.r) - |Reached(cfg, steps).gets[g].responders|
  {
    hide IsRun, Reached, Need;
    var r := Reached(cfg, steps).gets[g];
    if r.replied {
      ext := [];
      assert steps + ext == steps;
    } else if |r.responders| >= Need(cfg, cfg.r) {
      ext := [ReadReply(g)];
      StepOn(cfg, steps, ReadReply(g));
    } else {
      var one := OneMoreResponse(cfg, steps, g);
      var more := ReadCanSucceed(cfg, steps + one, g);
      ext := one + more;
      assert steps + ext == steps + one + more;
    }
  }

  // ---------------------------------------------------------------- Hints and repair

  /** Any parked hint can be delivered: its target comes to cover it and the hint goes. */
  lemma HintCanBeDelivered(cfg: Config, steps: seq<Step>, c: Str, t: Str) returns (ext: seq<Step>)
    requires IsRun(cfg, steps) && (c, t) in Reached(cfg, steps).hints
    ensures IsRun(cfg, steps + ext) && (c, t) !in Reached(cfg, steps + ext).hints && t in cfg.nodes
    ensures Covers(Reached(cfg, steps + ext).sets[t], Reached(cfg, steps).hints[(c, t)].clock)
  {
    hide IsRun, Reached, Covers, Continues;
    var v := Reached(cfg, steps).hints[(c, t)];
    var a := steps + [Replay(c, t)];
    StepOn(cfg, steps, Replay(c, t));
    var b := a + [Deliver(t, v)];
    DeliverOn(cfg, a, t, v);
    UnparkOn(cfg, b, c, t, v);
    ext := [Replay(c, t), Deliver(t, v), Unpark(c, t, v)];
    assert steps + ext == b + [Unpark(c, t, v)];
  }

  lemma UnparkOn(cfg: Config, steps: seq<Step>, c: Str, t: Str, v: Version)
    requires IsRun(cfg, steps) && Enabled(cfg, Reached(cfg, steps), Unpark(c, t, v))
    requires (c, t) in Reached(cfg, steps).hints && Reached(cfg, steps).hints[(c, t)] == v
    ensures IsRun(cfg, steps + [Unpark(c, t, v)])
    ensures var s, u := Reached(cfg, steps), Reached(cfg, steps + [Unpark(c, t, v)]);
            (c, t) !in u.hints && u.sets == s.sets
  {
    hide IsRun, Reached, Continues;
    StepOn(cfg, steps, Unpark(c, t, v));
  }

  /** Versions on their way to a node can all be delivered, in order. */
  lemma {:induction false} AllCanBeDelivered(cfg: Config, steps: seq<Step>, t: Str, vs: seq<Version>)
    returns (ext: seq<Step>)
    requires IsRun(cfg, steps) && t in cfg.nodes && forall v :: v in vs ==> (t, v) in Reached(cfg, steps).sent
    ensures IsRun(cfg, steps + ext) && Continues(Reached(cfg, steps), Reached(cfg, steps + ext))
    ensures Reached(cfg, steps + ext).sent == Reached(cfg, steps).sent
    ensures forall v :: v in vs ==> Covers(Reached(cfg, steps + ext).sets[t], v.clock)
    decreases |vs|
  {
    hide IsRun, Reached, Covers, Folded;
    if vs == [] {
      ext := [];
      assert steps + ext == steps;
    } else {
      var init, last := vs[..|vs| - 1], vs[|vs| - 1];
      assert vs == init + [last];
      var some := AllCanBeDelivered(cfg, steps, t, init);
      var mid := steps + some;
      DeliverOn(cfg, mid, t, last);
      ext := some + [Deliver(t, last)];
      assert steps + ext == mid + [Deliver(t, last)];
    }
  }

  /** A responder that a finished read found behind can be healed: it comes to cover the whole merged set. */
  lemma StaleResponderCanBeHealed(cfg: Config, steps: seq<Step>, g: nat, t: Str) returns (ext: seq<Step>)
    requires IsRun(cfg, steps) && g < |Reached(cfg, steps).gets| && Reached(cfg, steps).gets[g].replied
    requires var r := Reached(cfg, steps).gets[g];
             t in r.responders && t in r.served && !EqualScan(r.served[t], r.merged) && t in cfg.nodes
    ensures IsRun(cfg, steps + ext)
    ensures forall v :: v in Reached(cfg, steps).gets[g].merged ==>
              Covers(Reached(cfg, steps + ext).sets[t], v.clock)
  {
    hide IsRun, Reached, Covers, Folded, EqualScan, Continues;
    var r := Reached(cfg, steps).gets[g];
    if t == r.coord {
      ext := [RepairLocal(g)];
      StepOn(cfg, steps, RepairLocal(g));
      LocalRepairCovers(cfg, Reached(cfg, steps), g);
    } else {
      StepOn(cfg, steps, RepairPush(g, t));
      var pushed := steps + [RepairPush(g, t)];
      var more := AllCanBeDelivered(cfg, pushed, t, r.merged);
      ext := [RepairPush(g, t)] + more;
      assert steps + ext == pushed + more;
    }
  }

  lemma LocalRepairCovers(cfg: Config, s: State, g: nat)
    requires Shape(cfg, s) && Enabled(cfg, s, RepairLocal(g)) && g < |s.gets| && s.gets[g].coord in cfg.nodes
    ensures forall v :: v in s.gets[g].merged ==> Covers(Apply(cfg, s, RepairLocal(g)).sets[s.gets[g].coord], v.clock)
  {
    StoreGrows(s, s.gets[g].coord, s.gets[g].merged);
  }
}
