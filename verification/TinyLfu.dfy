/**
 TinyLFU on whole runs: the policy's sketch is exactly the sketch of the keys touched so far, so an
 incumbent loses its place to a newcomer only when the newcomer's estimate tops its real count.
 */
module TinyLfu {
  import opened Bytes
  import opened Sketch
  import opened MapStore

  /** The keys an operation makes the policy record, in order. */
  function Touched(limits: Limits, s: State, op: Op): seq<Str> {
    match op
    case Get(key, now) => Read(s, key, now)
    case Set(key, value) => Written(limits, key, value)
    case SetWithTTL(key, value, ttl, _) => if ttl <= 0 then [] else Written(limits, key, value)
    case Update(key, fn, now) => Read(s, key, now) + Written(limits, key, fn(Lookup(s, key, now)))
    case Delete(_) => []
    case DeleteIf(key, _, now) => Read(s, key, now)
  }

  function Read(s: State, key: Str, now: int): seq<Str> {
    if Lookup(s, key, now).Some? then [key] else []
  }

  function Written(limits: Limits, key: Str, value: Str): seq<Str> {
    if Refusal(limits, key, value).None? then [key] else []
  }

  /**
   The sketch counts traffic as clients see it: one touch for a read that found its key, one for a write that
   was not refused, two for an update that did both, and none otherwise.
   */
  lemma TouchesAre(limits: Limits, s: State, op: Op, s': State, reply: Reply, key: Str)
    requires Step(limits, s, op, s', reply)
    ensures var found := (op.Get? || op.Update? || op.DeleteIf?) && Lookup(s, op.key, op.now).Some?;
            var stored := reply.Written? && reply.out.Stored?;
            multiset(Touched(limits, s, op))[key] ==
              if op.key != key then 0 else (if found then 1 else 0) + (if stored then 1 else 0)
  {
    hide EvictStep, Placed, AfterGet;
  }

  ghost function History(limits: Limits, states: seq<State>, ops: seq<Op>, i: nat): seq<Str>
    requires i <= |ops| <= |states|
  {
    if i == 0 then [] else History(limits, states, ops, i - 1) + Touched(limits, states[i - 1], ops[i - 1])
  }

  /** The policy of `s` is TinyLFU with the sketch of `history`. */
  ghost predicate Sketches(t: Tiny, history: seq<Str>, s: State) {
    s.policy == Policy.TinyLfu(t.(grid := After(t.hash, t.width, t.sampleSize, history)))
  }

  lemma SeenExtends(t: Tiny, history: seq<Str>, key: Str)
    ensures Seen(t.(grid := After(t.hash, t.width, t.sampleSize, history)), key)
         == t.(grid := After(t.hash, t.width, t.sampleSize, history + [key]))
  {
  }

  lemma GetSketches(t: Tiny, history: seq<Str>, s: State, key: Str, now: int)
    requires Sketches(t, history, s)
    ensures Sketches(t, history + Read(s, key, now), AfterGet(s, key, now))
  {
    hide After, Seen;
    SeenExtends(t, history, key);
    assert history + [] == history;
  }

  lemma SetSketches(limits: Limits, t: Tiny, history: seq<Str>, s: State, key: Str, value: Str,
                    expiresAt: Option<int>, bypass: bool, s': State, out: Outcome)
    requires Sketches(t, history, s) && SetStep(limits, s, key, value, expiresAt, bypass, s', out)
    ensures Sketches(t, history + Written(limits, key, value), s')
  {
    hide CanBeVictim, ScoreOf, Admits, After, Seen;
    SeenExtends(t, history, key);
    assert history + [] == history;
  }

  lemma StepSketches(limits: Limits, t: Tiny, history: seq<Str>, s: State, op: Op, s': State, reply: Reply)
    requires Sketches(t, history, s) && Step(limits, s, op, s', reply)
    ensures Sketches(t, history + Touched(limits, s, op), s')
  {
    hide SetStep, AfterGet, Read, Written, Lookup;
    assert history + [] == history;
    match op {
      case Get(key, now) => GetSketches(t, history, s, key, now);
      case Set(key, value) => SetSketches(limits, t, history, s, key, value, None, false, s', reply.out);
      case SetWithTTL(key, value, ttl, now) =>
        if ttl > 0 { SetSketches(limits, t, history, s, key, value, Some(now + ttl), false, s', reply.out); }
      case Update(key, fn, now) =>
        GetSketches(t, history, s, key, now);
        var value := fn(Lookup(s, key, now));
        SetSketches(limits, t, history + Read(s, key, now), AfterGet(s, key, now), key, value, None, true, s',
            reply.out);
        assert history + Read(s, key, now) + Written(limits, key, value) ==
            history + (Read(s, key, now) + Written(limits, key, value));
      case Delete(key) =>
      case DeleteIf(key, pred, now) => GetSketches(t, history, s, key, now);
    }
  }

  lemma {:induction false} RunSketches(limits: Limits, t: Tiny, states: seq<State>, ops: seq<Op>, replies: seq<Reply>,
                                       i: nat)
    requires t.grid == Empty(t.width) && IsRun(limits, Policy.TinyLfu(t), states, ops, replies) && i <= |ops|
    ensures Sketches(t, History(limits, states, ops, i), states[i])
  {
    hide Step, Touched;
    if i > 0 {
      RunSketches(limits, t, states, ops, replies, i - 1);
      StepSketches(limits, t, History(limits, states, ops, i - 1), states[i - 1], ops[i - 1], states[i],
          replies[i - 1]);
    }
  }

  /**
   On any run, when a new key is set and an incumbent goes, the incumbent's exact saturating count
   of touches, halved at each aging pass, is below the newcomer's estimate.
   */
  lemma EvictedForABetterKey(limits: Limits, t: Tiny, states: seq<State>, ops: seq<Op>, replies: seq<Reply>, i: nat,
                             victim: Str)
    requires t.grid == Empty(t.width) && IsRun(limits, Policy.TinyLfu(t), states, ops, replies)
    requires i < |ops| && (ops[i].Set? || ops[i].SetWithTTL?) && victim in states[i].data
    requires victim !in states[i + 1].data
    ensures var history := History(limits, states, ops, i + 1);
            KeyCount(victim, t.sampleSize, history)
              < Estimate(After(t.hash, t.width, t.sampleSize, history), t.hash, t.width, ops[i].key)
  {
    hide SetStep, Touched, Sketches;
    assert Step(limits, states[i], ops[i], states[i + 1], replies[i]);
    RunSketches(limits, t, states, ops, replies, i);
    RunSketches(limits, t, states, ops, replies, i + 1);
    var expiresAt := if ops[i].Set? then None else Some(ops[i].now + ops[i].ttl);
    SetEvicts(limits, t, History(limits, states, ops, i), History(limits, states, ops, i + 1), states[i],
              ops[i].key, ops[i].value, expiresAt, states[i + 1], replies[i].out, victim);
  }

  lemma SetEvicts(limits: Limits, t: Tiny, before: seq<Str>, after: seq<Str>, s: State, key: Str, value: Str,
                  expiresAt: Option<int>, s': State, out: Outcome, victim: Str)
    requires Sketches(t, before, s) && Sketches(t, after, s')
    requires SetStep(limits, s, key, value, expiresAt, false, s', out) && victim in s.data && victim !in s'.data
    ensures KeyCount(victim, t.sampleSize, after)
              < Estimate(After(t.hash, t.width, t.sampleSize, after), t.hash, t.width, key)
  {
    hide CanBeVictim;
    var placed := Placed(s, key, value, expiresAt);
    var k :| Contest(placed, key, false, k, s', out.admitted);
    assert k == victim;
    EstimateIsNeverLow(t.hash, t.width, t.sampleSize, after, victim);
  }

  /**
   On any run, a new key set into a full store is admitted if its estimate tops that of every incumbent, and
   refused if it tops none.
   */
  lemma AdmittedIfBetter(limits: Limits, t: Tiny, states: seq<State>, ops: seq<Op>, replies: seq<Reply>, i: nat)
    requires t.grid == Empty(t.width) && IsRun(limits, Policy.TinyLfu(t), states, ops, replies)
    requires i < |ops| && ops[i].Set? && replies[i].Written? && replies[i].out.Stored?
    requires ops[i].key !in states[i].data && 1 <= limits.maxEntries <= |states[i].data|
    ensures var g := After(t.hash, t.width, t.sampleSize, History(limits, states, ops, i + 1));
            var own := Estimate(g, t.hash, t.width, ops[i].key);
            && ((forall k :: k in states[i].data ==> Estimate(g, t.hash, t.width, k) < own) ==>
                  replies[i].out.admitted)
            && ((forall k :: k in states[i].data ==> own <= Estimate(g, t.hash, t.width, k)) ==>
                  !replies[i].out.admitted)
  {
    hide SetStep, Touched, Sketches;
    assert Step(limits, states[i], ops[i], states[i + 1], replies[i]);
    RunSketches(limits, t, states, ops, replies, i);
    RunSketches(limits, t, states, ops, replies, i + 1);
    SetAdmits(limits, t, History(limits, states, ops, i), History(limits, states, ops, i + 1), states[i],
              ops[i].key, ops[i].value, states[i + 1], replies[i].out);
  }

  lemma SetAdmits(limits: Limits, t: Tiny, before: seq<Str>, after: seq<Str>, s: State, key: Str, value: Str,
                  s': State, out: Outcome)
    requires Sketches(t, before, s) && Sketches(t, after, s') && SetStep(limits, s, key, value, None, false, s', out)
    requires out.Stored? && key !in s.data && 1 <= limits.maxEntries <= |s.data|
    ensures var g := After(t.hash, t.width, t.sampleSize, after);
            var own := Estimate(g, t.hash, t.width, key);
            && ((forall k :: k in s.data ==> Estimate(g, t.hash, t.width, k) < own) ==> out.admitted)
            && ((forall k :: k in s.data ==> own <= Estimate(g, t.hash, t.width, k)) ==> !out.admitted)
  {
    hide CanBeVictim, Estimate, After;
    var placed := Placed(s, key, value, None);
    PlacedKeys(s, key, value, None);
    var victim :| Contest(placed, key, false, victim, s', out.admitted);
    VictimIsIncumbent(placed, key, victim);
  }
}
