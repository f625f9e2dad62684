/**
 The bound on the quorums is exact: as soon as the two quorums of a key need not meet, some run has a
 successful read that misses a write which had replied OK before the read began.
 */
module QuorumBound {
  import opened Bytes
  import opened Seqs
  import opened Versions
  import opened Protocol
  import opened ProtocolTheorems

  /** Every successful read of every run covers the writes that had replied before it began. */
  ghost predicate ReadsSeeWrites(cfg: Config) {
    forall steps, g: nat, i: nat :: IsRun(cfg, steps) && IsMissable(Reached(cfg, steps), g, i) ==>
        Sees(Reached(cfg, steps), g, i)
  }

  /** Read `g` replied, and write `i` had replied before it began. */
  ghost predicate IsMissable(s: State, g: nat, i: nat) {
    g < |s.gets| && s.gets[g].replied && i in s.gets[g].before && i < |s.writes|
  }

  ghost predicate Sees(s: State, g: nat, i: nat) {
    g < |s.gets| && i < |s.writes| && Covers(s.gets[g].merged, s.writes[i].v.clock)
  }

  // ---------------------------------------------------------------- A write that only some replicas get

  /** One write, so far stored and acknowledged by exactly `acks`, and sent to everyone. */
  ghost predicate WriteStage(cfg: Config, s: State, c: Str, v: Version, acks: set<Str>) {
    && s.writes == [WriteOp(c, v, acks, false)] && s.gets == [] && s.parked == {}
    && (forall t :: t in cfg.replicas - {c} ==> (t, v) in s.sent)
    && (forall n :: n in cfg.replicas - acks ==> n in s.sets && s.sets[n] == [])
  }

  lemma WriteStarts(cfg: Config, c: Str) returns (steps: seq<Step>, v: Version)
    requires ValidConfig(cfg) && c in cfg.replicas
    ensures IsRun(cfg, steps) && WriteStage(cfg, Reached(cfg, steps), c, v, {c})
  {
    var step := Write(c, []);
    v := MintedBy(Init(cfg), step);
    steps := [] + [step];
    RunExtends(cfg, [], step);
  }

  lemma TwoSteps(cfg: Config, steps: seq<Step>, first: Step, second: Step) returns (more: seq<Step>)
    requires IsRun(cfg, steps) && Enabled(cfg, Reached(cfg, steps), first)
    requires Shape(cfg, Apply(cfg, Reached(cfg, steps), first))
    requires Enabled(cfg, Apply(cfg, Reached(cfg, steps), first), second)
    ensures IsRun(cfg, more) && Reached(cfg, more) == Apply(cfg, Apply(cfg, Reached(cfg, steps), first), second)
  {
    hide Apply, Enabled, Shape;
    RunExtends(cfg, steps, first);
    RunExtends(cfg, steps + [first], second);
    more := steps + [first] + [second];
  }

  lemma DeliveredAndAcked(cfg: Config, s: State, c: Str, v: Version, acks: set<Str>, t: Str)
    requires Shape(cfg, s) && WriteStage(cfg, s, c, v, acks)
    requires c in acks && t in cfg.replicas - acks && |acks| < Need(cfg, cfg.w)
    ensures Enabled(cfg, s, Deliver(t, v)) && Shape(cfg, Apply(cfg, s, Deliver(t, v)))
    ensures Enabled(cfg, Apply(cfg, s, Deliver(t, v)), Ack(0, t))
    ensures WriteStage(cfg, Apply(cfg, Apply(cfg, s, Deliver(t, v)), Ack(0, t)), c, v, acks + {t})
  {
  }

  lemma DeliverAndAck(cfg: Config, steps: seq<Step>, c: Str, v: Version, acks: set<Str>, t: Str)
    returns (more: seq<Step>)
    requires IsRun(cfg, steps) && WriteStage(cfg, Reached(cfg, steps), c, v, acks)
    requires c in acks && t in cfg.replicas - acks && |acks| < Need(cfg, cfg.w)
    ensures IsRun(cfg, more) && WriteStage(cfg, Reached(cfg, more), c, v, acks + {t})
  {
    hide Apply, Enabled, Shape, WriteStage, IsRun, Reached;
    DeliveredAndAcked(cfg, Reached(cfg, steps), c, v, acks, t);
    more := TwoSteps(cfg, steps, Deliver(t, v), Ack(0, t));
  }

  lemma {:induction false} AckAll(cfg: Config, steps: seq<Step>, c: Str, v: Version, others: set<Str>)
    returns (more: seq<Step>)
    requires IsRun(cfg, steps) && WriteStage(cfg, Reached(cfg, steps), c, v, {c})
    requires others <= cfg.replicas - {c} && |others| < Need(cfg, cfg.w)
    ensures IsRun(cfg, more) && WriteStage(cfg, Reached(cfg, more), c, v, others + {c})
    decreases others
  {
    hide WriteStage, IsRun, Reached;
    if others == {} {
      more := steps;
      assert others + {c} == {c};
    } else {
      var t :| t in others;
      var rest := others - {t};
      assert |rest| == |others| - 1;
      var mid := AckAll(cfg, steps, c, v, rest);
      assert |rest + {c}| == |others|;
      more := DeliverAndAck(cfg, mid, c, v, rest + {c}, t);
      assert rest + {c} + {t} == others + {c};
    }
  }

  // ---------------------------------------------------------------- A read that only asks the others

  /** One read, begun after the write replied, that has counted `asked` and found nothing. */
  ghost predicate ReadStage(s: State, d: Str, asked: set<Str>, unaware: set<Str>) {
    && |s.writes| == 1 && |s.gets| == 1
    && (forall n :: n in unaware ==> n in s.sets && s.sets[n] == [])
    && var op := s.gets[0];
       && op.coord == d && op.before == {0} && !op.replied
       && op.merged == [] && op.responders == asked && op.served.Keys == asked
  }

  lemma RepliedAndRead(cfg: Config, s: State, c: Str, v: Version, acks: set<Str>, d: Str)
    requires Shape(cfg, s) && WriteStage(cfg, s, c, v, acks)
    requires |acks| >= Need(cfg, cfg.w) && d in cfg.replicas - acks
    ensures Enabled(cfg, s, WriteReply(0)) && Shape(cfg, Apply(cfg, s, WriteReply(0)))
    ensures Enabled(cfg, Apply(cfg, s, WriteReply(0)), ReadStart(d))
    ensures ReadStage(Apply(cfg, Apply(cfg, s, WriteReply(0)), ReadStart(d)), d, {d}, cfg.replicas - acks)
  {
  }

  lemma ReplyAndRead(cfg: Config, steps: seq<Step>, c: Str, v: Version, acks: set<Str>, d: Str)
    returns (more: seq<Step>)
    requires IsRun(cfg, steps) && WriteStage(cfg, Reached(cfg, steps), c, v, acks)
    requires |acks| >= Need(cfg, cfg.w) && d in cfg.replicas - acks
    ensures IsRun(cfg, more) && ReadStage(Reached(cfg, more), d, {d}, cfg.replicas - acks)
  {
    hide Apply, Enabled, Shape, WriteStage, ReadStage, IsRun, Reached;
    RepliedAndRead(cfg, Reached(cfg, steps), c, v, acks, d);
    more := TwoSteps(cfg, steps, WriteReply(0), ReadStart(d));
  }

  lemma ServedAndReceived(cfg: Config, s: State, d: Str, asked: set<Str>, unaware: set<Str>, p: Str)
    requires Shape(cfg, s) && ReadStage(s, d, asked, unaware)
    requires p in unaware - asked && unaware <= cfg.replicas && |asked| < Need(cfg, cfg.r)
    ensures Enabled(cfg, s, Serve(0, p)) && Shape(cfg, Apply(cfg, s, Serve(0, p)))
    ensures Enabled(cfg, Apply(cfg, s, Serve(0, p)), Receive(0, p))
    ensures ReadStage(Apply(cfg, Apply(cfg, s, Serve(0, p)), Receive(0, p)), d, asked + {p}, unaware)
  {
  }

  lemma ServeAndReceive(cfg: Config, steps: seq<Step>, d: Str, asked: set<Str>, unaware: set<Str>, p: Str)
    returns (more: seq<Step>)
    requires IsRun(cfg, steps) && ReadStage(Reached(cfg, steps), d, asked, unaware)
    requires p in unaware - asked && unaware <= cfg.replicas && |asked| < Need(cfg, cfg.r)
    ensures IsRun(cfg, more) && ReadStage(Reached(cfg, more), d, asked + {p}, unaware)
  {
    hide Apply, Enabled, Shape, ReadStage, IsRun, Reached;
    ServedAndReceived(cfg, Reached(cfg, steps), d, asked, unaware, p);
    more := TwoSteps(cfg, steps, Serve(0, p), Receive(0, p));
  }

  lemma {:induction false} AskAll(cfg: Config, steps: seq<Step>, d: Str, unaware: set<Str>, others: set<Str>)
    returns (more: seq<Step>)
    requires IsRun(cfg, steps) && ReadStage(Reached(cfg, steps), d, {d}, unaware)
    requires others <= unaware - {d} && unaware <= cfg.replicas && |others| < Need(cfg, cfg.r)
    ensures IsRun(cfg, more) && ReadStage(Reached(cfg, more), d, others + {d}, unaware)
    decreases others
  {
    hide ReadStage, IsRun, Reached;
    if others == {} {
      more := steps;
      assert others + {d} == {d};
    } else {
      var p :| p in others;
      var rest := others - {p};
      assert |rest| == |others| - 1;
      var mid := AskAll(cfg, steps, d, unaware, rest);
      assert |rest + {d}| == |others|;
      more := ServeAndReceive(cfg, mid, d, rest + {d}, unaware, p);
      assert rest + {d} + {p} == others + {d};
    }
  }

  lemma EmptyHanded(cfg: Config, steps: seq<Step>, d: Str, asked: set<Str>, unaware: set<Str>) returns (more: seq<Step>)
    requires IsRun(cfg, steps) && ReadStage(Reached(cfg, steps), d, asked, unaware) && |asked| >= Need(cfg, cfg.r)
    ensures IsRun(cfg, more) && IsMissable(Reached(cfg, more), 0, 0) && !Sees(Reached(cfg, more), 0, 0)
  {
    RunExtends(cfg, steps, ReadReply(0));
    more := steps + [ReadReply(0)];
  }

  /** Quorums that need not meet let a read miss an acknowledged write. */
  lemma ApartQuorumsMiss(cfg: Config) returns (steps: seq<Step>)
    requires ValidConfig(cfg) && !QuorumsMeet(cfg)
    ensures IsRun(cfg, steps) && IsMissable(Reached(cfg, steps), 0, 0) && !Sees(Reached(cfg, steps), 0, 0)
  {
    hide IsRun, Reached, WriteStage, ReadStage, IsMissable, Sees;
    assert |cfg.replicas| > 0;
    var writers := PickSubset(cfg.replicas, Need(cfg, cfg.w));
    var unaware := cfg.replicas - writers;
    assert |unaware| == |cfg.replicas| - |writers|;
    var readers := PickSubset(unaware, Need(cfg, cfg.r));
    var c :| c in writers;
    var d :| d in readers;
    var v;
    steps, v := WriteStarts(cfg, c);
    steps := AckAll(cfg, steps, c, v, writers - {c});
    assert writers - {c} + {c} == writers;
    steps := ReplyAndRead(cfg, steps, c, v, writers, d);
    steps := AskAll(cfg, steps, d, unaware, readers - {d});
    assert readers - {d} + {d} == readers;
    steps := EmptyHanded(cfg, steps, d, readers, unaware);
  }

  /** Quorum visibility over all runs holds exactly when the capped quorums add up to more than the replicas. */
  lemma ReadsSeeWritesIff(cfg: Config)
    requires ValidConfig(cfg)
    ensures ReadsSeeWrites(cfg) <==> QuorumsMeet(cfg)
  {
    hide IsRun, Reached;
    if QuorumsMeet(cfg) {
      forall steps, g: nat, i: nat | IsRun(cfg, steps) && IsMissable(Reached(cfg, steps), g, i)
        ensures Sees(Reached(cfg, steps), g, i)
      {
        QuorumReadSeesAcknowledgedWrites(cfg, steps, g, i);
      }
    } else {
      var steps := ApartQuorumsMiss(cfg);
    }
  }
}
