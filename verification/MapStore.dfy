/**
 The bounded store (internal/store/map_store.go) and its eviction policies (internal/store/policy.go).
 Go's map iteration order is random, so which entries a sample inspects is left open: a set on a full
 store is a relation between the state before and the state after.
 */
module MapStore {
  import opened Bytes
  import opened Seqs
  import opened Sketch

  // ---------------------------------------------------------------- Policies

  datatype TinyState = TinyState(hash: Str -> nat, width: nat, sampleSize: nat, grid: Grid)

  type Tiny = t: TinyState | t.width > 0 && |t.grid.cells| == DEPTH * t.width
    witness TinyState(k => 0, 1, 10, Empty(1))

  datatype Policy = NoPolicy | Lru(clock: nat) | Lfu | TinyLfu(tiny: Tiny)

  const LFU_BASE_COUNT: nat := 5

  function Seen(t: Tiny, key: Str): Tiny {
    t.(grid := Added(t.grid, t.hash, t.width, t.sampleSize, key))
  }

  /** The policy and the entry's hint after a read. */
  function RecordAccess(p: Policy, key: Str, hint: nat): (Policy, nat) {
    match p
    case NoPolicy => (p, hint)
    case Lru(clock) => (Lru(clock + 1), clock + 1)
    case Lfu => (p, hint + 1)
    case TinyLfu(t) => (TinyLfu(Seen(t, key)), hint)
  }

  /** The policy and the fresh hint after a write. */
  function RecordInsert(p: Policy, key: Str): (Policy, nat) {
    match p
    case NoPolicy => (p, 0)
    case Lru(clock) => (Lru(clock + 1), clock + 1)
    case Lfu => (p, LFU_BASE_COUNT)
    case TinyLfu(t) => (TinyLfu(Seen(t, key)), 0)
  }

  /** The eviction priority of an entry; the lowest goes first. */
  function Score(p: Policy, key: Str, hint: nat): nat {
    match p
    case TinyLfu(t) => Estimate(t.grid, t.hash, t.width, key)
    case _ => hint
  }

  /** Whether a newcomer may displace the victim; ties favour the incumbent under TinyLFU. */
  predicate Admits(p: Policy, candidate: nat, victim: nat) {
    p.TinyLfu? ==> candidate > victim
  }

  // ---------------------------------------------------------------- The store as a relation

  datatype Entry = Entry(value: Str, expiresAt: Option<int>, hint: nat)

  datatype Limits = Limits(maxKeySize: int, maxValueSize: int, maxEntries: int)

  datatype State = State(data: map<Str, Entry>, policy: Policy)

  datatype Error = EmptyKey | KeyTooLarge | ValueTooLarge | InvalidTTL

  datatype Outcome = Failed(error: Error) | Stored(admitted: bool)

  const SAMPLE_SIZE: nat := 5

  predicate Expired(e: Entry, now: int) {
    e.expiresAt.Some? && now > e.expiresAt.value
  }

  function Lookup(s: State, key: Str, now: int): Option<Str> {
    if key in s.data && !Expired(s.data[key], now) then Some(s.data[key].value) else None
  }

  /** A read of a live entry is noted by the policy; any other read changes nothing. */
  function AfterGet(s: State, key: Str, now: int): State {
    if Lookup(s, key, now).None? then s
    else
      var (p, hint) := RecordAccess(s.policy, key, s.data[key].hint);
      State(s.data[key := s.data[key].(hint := hint)], p)
  }

  function Refusal(limits: Limits, key: Str, value: Str): Option<Error> {
    if |key| == 0 then Some(EmptyKey)
    else if |key| > limits.maxKeySize then Some(KeyTooLarge)
    else if |value| > limits.maxValueSize then Some(ValueTooLarge)
    else None
  }

  /** The state once the entry is in the map and before the cap is enforced. */
  function Placed(s: State, key: Str, value: Str, expiresAt: Option<int>): State {
    var (p, hint) := RecordInsert(s.policy, key);
    State(s.data[key := Entry(value, expiresAt, hint)], p)
  }

  ghost predicate IsSample(sample: set<Str>, s: State, newcomer: Str) {
    && sample <= s.data.Keys - {newcomer}
    && |sample| == if |s.data.Keys - {newcomer}| < SAMPLE_SIZE then |s.data.Keys - {newcomer}| else SAMPLE_SIZE
  }

  ghost predicate Weakest(s: State, sample: set<Str>, victim: Str) {
    && victim in sample && sample <= s.data.Keys
    && forall k :: k in sample ==> Score(s.policy, victim, s.data[victim].hint) <= Score(s.policy, k, s.data[k].hint)
  }

  /** Some sample of at most five incumbents has this one as its weakest. */
  ghost predicate CanBeVictim(s: State, newcomer: Str, victim: Str) {
    exists sample :: IsSample(sample, s, newcomer) && Weakest(s, sample, victim)
  }

  function Deleted(s: State, key: Str): State {
    s.(data := s.data - {key})
  }

  predicate Overflows(limits: Limits, placed: State) {
    limits.maxEntries != 0 && |placed.data| > limits.maxEntries && |placed.data| > 1
  }

  function ScoreOf(s: State, key: Str): nat
    requires key in s.data
  {
    Score(s.policy, key, s.data[key].hint)
  }

  /** The newcomer faces this victim: one of the two is dropped. */
  ghost predicate Contest(placed: State, newcomer: Str, bypass: bool, victim: Str, s': State, admitted: bool) {
    && newcomer in placed.data && victim in placed.data && CanBeVictim(placed, newcomer, victim)
    && (admitted <==> bypass || Admits(placed.policy, ScoreOf(placed, newcomer), ScoreOf(placed, victim)))
    && s' == Deleted(placed, if admitted then victim else newcomer)
  }

  ghost predicate EvictStep(limits: Limits, placed: State, newcomer: Str, bypass: bool, s': State, admitted: bool) {
    if Overflows(limits, placed) then exists victim :: Contest(placed, newcomer, bypass, victim, s', admitted)
    else s' == placed && admitted
  }

  /** What `set` may do: refuse, store, or store and then drop a sampled victim or the newcomer. */
  ghost predicate SetStep(limits: Limits, s: State, key: Str, value: Str, expiresAt: Option<int>, bypass: bool,
                          s': State, out: Outcome) {
    match Refusal(limits, key, value)
    case Some(e) => s' == s && out == Failed(e)
    case None =>
      && out.Stored?
      && var placed := Placed(s, key, value, expiresAt);
         if s.policy.NoPolicy? || key in s.data then s' == placed && out.admitted
         else EvictStep(limits, placed, key, bypass, s', out.admitted)
  }

  /** `UpdateReplica`: a read, then a set of what `fn` makes of it that no admission filter may refuse. */
  ghost predicate UpdateStep(limits: Limits, s: State, key: Str, fn: Option<Str> -> Str, now: int, s': State,
                             out: Outcome) {
    SetStep(limits, AfterGet(s, key, now), key, fn(Lookup(s, key, now)), None, true, s', out)
  }

  // ---------------------------------------------------------------- Promises of one call

  lemma KeysSize(m: map<Str, Entry>)
    ensures |m| == |m.Keys|
  {
  }

  lemma PlacedKeys(s: State, key: Str, value: Str, expiresAt: Option<int>)
    ensures Placed(s, key, value, expiresAt).data.Keys == s.data.Keys + {key}
    ensures |Placed(s, key, value, expiresAt).data| == |s.data| + if key in s.data then 0 else 1
  {
  }

  lemma DeletedSize(s: State, key: Str)
    requires key in s.data
    ensures |Deleted(s, key).data| == |s.data| - 1
  {
  }

  lemma DeletedPolicy(s: State, key: Str)
    ensures Deleted(s, key).policy == s.policy
  {
  }

  ghost predicate Bounded(limits: Limits, s: State) {
    !s.policy.NoPolicy? && limits.maxEntries >= 1 ==> |s.data| <= limits.maxEntries
  }

  lemma SetKeepsBound(limits: Limits, s: State, key: Str, value: Str, expiresAt: Option<int>, bypass: bool, s': State,
                      out: Outcome)
    requires Bounded(limits, s) && SetStep(limits, s, key, value, expiresAt, bypass, s', out)
    ensures Bounded(limits, s') && (s'.policy.NoPolicy? <==> s.policy.NoPolicy?)
  {
    hide CanBeVictim, ScoreOf, Admits, Deleted;
    var placed := Placed(s, key, value, expiresAt);
    PlacedKeys(s, key, value, expiresAt);
    if out.Stored? && !s.policy.NoPolicy? && key !in s.data && Overflows(limits, placed) {
      var victim :| Contest(placed, key, bypass, victim, s', out.admitted);
      DeletedSize(placed, victim);
      DeletedSize(placed, key);
      DeletedPolicy(placed, victim);
      DeletedPolicy(placed, key);
    }
  }

  /** A set that is refused, for an error or by the admission filter, leaves every entry as it was. */
  lemma RefusedSetChangesNothing(limits: Limits, s: State, key: Str, value: Str, expiresAt: Option<int>, bypass: bool,
                                 s': State, out: Outcome)
    requires SetStep(limits, s, key, value, expiresAt, bypass, s', out) && out != Stored(true)
    ensures s'.data == s.data
    ensures out == Stored(false) ==> key !in s.data && s.policy.TinyLfu? && !bypass
  {
    if out == Stored(false) {
      assert Deleted(Placed(s, key, value, expiresAt), key).data == s.data;
    }
  }

  /** An accepted set binds its key, keeps every other entry that stays, and drops at most one. */
  lemma AcceptedSetBinds(limits: Limits, s: State, key: Str, value: Str, expiresAt: Option<int>, bypass: bool,
                         s': State, out: Outcome)
    requires SetStep(limits, s, key, value, expiresAt, bypass, s', out) && out == Stored(true)
    ensures key in s'.data && s'.data[key].value == value && s'.data[key].expiresAt == expiresAt
    ensures forall now :: Lookup(s', key, now) == if expiresAt.Some? && now > expiresAt.value then None else Some(value)
    ensures forall k :: k in s'.data && k != key ==> k in s.data && s'.data[k] == s.data[k]
    ensures |s.data.Keys - s'.data.Keys| <= 1
    ensures s.data.Keys - s'.data.Keys != {} ==>
                key !in s.data && limits.maxEntries != 0 && |s.data| >= limits.maxEntries
  {
    var placed := Placed(s, key, value, expiresAt);
    PlacedKeys(s, key, value, expiresAt);
    if s'.data == placed.data {
      assert s.data.Keys - s'.data.Keys == {};
    } else {
      var victim :| Contest(placed, key, bypass, victim, s', true);
      VictimIsIncumbent(placed, key, victim);
      assert s.data.Keys - s'.data.Keys == {victim};
    }
  }

  lemma VictimIsIncumbent(s: State, newcomer: Str, victim: Str)
    requires CanBeVictim(s, newcomer, victim)
    ensures victim in s.data && victim != newcomer
  {
  }

  /** An error-free `UpdateReplica` always takes: its key is bound to fn(old) and at most one other key goes. */
  lemma UpdateReplicaBinds(limits: Limits, s: State, key: Str, fn: Option<Str> -> Str, now: int, s': State,
                           out: Outcome)
    requires UpdateStep(limits, s, key, fn, now, s', out)
    ensures out.Stored? <==> 0 < |key| <= limits.maxKeySize && |fn(Lookup(s, key, now))| <= limits.maxValueSize
    ensures out.Stored? ==>
              && out.admitted && key in s'.data
              && s'.data[key].value == fn(Lookup(s, key, now)) && s'.data[key].expiresAt == None
    ensures forall k :: k in s'.data && k != key ==> k in s.data && s'.data[k] == s.data[k]
    ensures |s.data.Keys - s'.data.Keys| <= 1
  {
    var read := AfterGet(s, key, now);
    assert read.data.Keys == s.data.Keys;
    if out.Stored? {
      if !out.admitted {
        RefusedSetChangesNothing(limits, read, key, fn(Lookup(s, key, now)), None, true, s', out);
        assert false;
      }
      AcceptedSetBinds(limits, read, key, fn(Lookup(s, key, now)), None, true, s', out);
    } else {
      assert s.data.Keys - s'.data.Keys == {};
    }
  }

  // ---------------------------------------------------------------- Runs

  datatype Op =
    | Get(key: Str, now: int)
    | Set(key: Str, value: Str)
    | SetWithTTL(key: Str, value: Str, ttl: int, now: int)
    | Update(key: Str, fn: Option<Str> -> Str, now: int)
    | Delete(key: Str)
    | DeleteIf(key: Str, pred: Str -> bool, now: int)

  datatype Reply = Value(found: Option<Str>) | Written(out: Outcome) | Removed(was: bool)

  ghost predicate Step(limits: Limits, s: State, op: Op, s': State, reply: Reply) {
    match op
    case Get(key, now) => s' == AfterGet(s, key, now) && reply == Value(Lookup(s, key, now))
    case Set(key, value) => reply.Written? && SetStep(limits, s, key, value, None, false, s', reply.out)
    case SetWithTTL(key, value, ttl, now) =>
      if ttl <= 0 then s' == s && reply == Written(Failed(InvalidTTL))
      else reply.Written? && SetStep(limits, s, key, value, Some(now + ttl), false, s', reply.out)
    case Update(key, fn, now) => reply.Written? && UpdateStep(limits, s, key, fn, now, s', reply.out)
    case Delete(key) => s' == Deleted(s, key) && reply == Removed(key in s.data)
    case DeleteIf(key, pred, now) =>
      var read := AfterGet(s, key, now);
      var hit := Lookup(s, key, now).Some? && pred(Lookup(s, key, now).value);
      s' == (if hit then Deleted(read, key) else read) && reply == Removed(hit)
  }

  /** The states a run passes through, from an empty store on. */
  ghost predicate IsRun(limits: Limits, policy: Policy, states: seq<State>, ops: seq<Op>, replies: seq<Reply>) {
    && |states| == |ops| + 1 && |replies| == |ops| && states[0] == State(map[], policy)
    && forall i :: 0 <= i < |ops| ==> Step(limits, states[i], ops[i], states[i + 1], replies[i])
  }

  predicate IsWrite(op: Op) {
    op.Set? || op.SetWithTTL? || op.Update?
  }

  /** The value a write offers for its key. */
  function Offered(s: State, op: Op): Str
    requires IsWrite(op)
  {
    if op.Update? then op.fn(Lookup(s, op.key, op.now)) else op.value
  }

  /** A write fails for its sizes or its time to live and for nothing else, and each error has its own case. */
  lemma WriteFailsIff(limits: Limits, s: State, op: Op, s': State, reply: Reply)
    requires IsWrite(op) && Step(limits, s, op, s', reply)
    ensures reply.Written?
    ensures var ttlWrong, value := op.SetWithTTL? && op.ttl <= 0, Offered(s, op);
            && (reply.out == Failed(InvalidTTL) <==> ttlWrong)
            && (reply.out == Failed(EmptyKey) <==> !ttlWrong && op.key == [])
            && (reply.out == Failed(KeyTooLarge) <==> !ttlWrong && 0 < |op.key| && |op.key| > limits.maxKeySize)
            && (reply.out == Failed(ValueTooLarge) <==>
                  !ttlWrong && 0 < |op.key| <= limits.maxKeySize && |value| > limits.maxValueSize)
            && (reply.out.Stored? <==> !ttlWrong && 0 < |op.key| <= limits.maxKeySize && |value| <= limits.maxValueSize)
  {
    hide EvictStep, Placed;
  }

  lemma GetKeepsBound(limits: Limits, s: State, key: Str, now: int)
    requires Bounded(limits, s)
    ensures Bounded(limits, AfterGet(s, key, now)) && (AfterGet(s, key, now).policy.NoPolicy? <==> s.policy.NoPolicy?)
  {
  }

  lemma DeleteKeepsBound(limits: Limits, s: State, key: Str)
    requires Bounded(limits, s)
    ensures Bounded(limits, Deleted(s, key))
  {
  }

  lemma StepKeepsBound(limits: Limits, s: State, op: Op, s': State, reply: Reply)
    requires Bounded(limits, s) && Step(limits, s, op, s', reply)
    ensures Bounded(limits, s')
  {
    hide Bounded, SetStep, AfterGet, Deleted;
    match op {
      case Get(key, now) => GetKeepsBound(limits, s, key, now);
      case Set(key, value) => SetKeepsBound(limits, s, key, value, None, false, s', reply.out);
      case SetWithTTL(key, value, ttl, now) =>
        if ttl > 0 { SetKeepsBound(limits, s, key, value, Some(now + ttl), false, s', reply.out); }
      case Update(key, fn, now) =>
        GetKeepsBound(limits, s, key, now);
        SetKeepsBound(limits, AfterGet(s, key, now), key, fn(Lookup(s, key, now)), None, true, s', reply.out);
      case Delete(key) => DeleteKeepsBound(limits, s, key);
      case DeleteIf(key, pred, now) =>
        GetKeepsBound(limits, s, key, now);
        DeleteKeepsBound(limits, AfterGet(s, key, now), key);
    }
  }

  /** Under a policy and a cap, no state of any run holds more entries than the cap. */
  lemma {:induction false} CapHolds(limits: Limits, policy: Policy, states: seq<State>, ops: seq<Op>,
                                    replies: seq<Reply>, i: nat)
    requires IsRun(limits, policy, states, ops, replies) && i <= |ops|
    ensures Bounded(limits, states[i])
  {
    if i > 0 {
      CapHolds(limits, policy, states, ops, replies, i - 1);
      StepKeepsBound(limits, states[i - 1], ops[i - 1], states[i], replies[i - 1]);
    }
  }

  // ---------------------------------------------------------------- The store

  class Store {
    const limits: Limits
    var policy: Policy
    var data: map<Str, Entry>

    ghost function Now(): State
      reads this
    {
      State(data, policy)
    }

    constructor (limits: Limits, policy: Policy)
      ensures this.limits == limits && Now() == State(map[], policy)
    {
      this.limits := limits;
      this.policy := policy;
      data := map[];
    }

    method Get(key: Str, now: int) returns (r: Option<Str>)
      modifies this
      ensures r == Lookup(old(Now()), key, now) && Now() == AfterGet(old(Now()), key, now)
    {
      if key !in data { return None; }
      var e := data[key];
      if Expired(e, now) { return None; }
      var (p, hint) := RecordAccess(policy, key, e.hint);
      policy := p;
      data := data[key := e.(hint := hint)];
      r := Some(e.value);
    }

    /** The weakest of at most five incumbents, taken as the map happens to yield them. */
    method SampleVictim(exclude: Str) returns (victim: Option<Str>)
      requires exclude in data
      ensures victim.None? <==> |data| == 1
      ensures victim.Some? ==> CanBeVictim(Now(), exclude, victim.value)
    {
      hide Weakest, IsSample, Score;
      var rest := data.Keys;
      ghost var sample: set<Str> := {};
      var chosen: Str := [];
      var smallest := 0;
      var counter := 0;
      while rest != {} && counter < SAMPLE_SIZE
        invariant rest <= data.Keys && sample !! rest && sample <= data.Keys - {exclude} <= sample + rest
        invariant counter == |sample| <= SAMPLE_SIZE
        invariant counter > 0 ==> chosen in data && Weakest(Now(), sample, chosen) && smallest == ScoreOf(Now(), chosen)
        decreases |rest|
      {
        var k :| k in rest;
        rest := rest - {k};
        if k != exclude {
          var score := Score(policy, k, data[k].hint);
          WeakestStep(Now(), sample, chosen, k);
          if counter == 0 || smallest > score { chosen, smallest := k, score; }
          sample := sample + {k};
          counter := counter + 1;
        }
      }
      SampleIsRight(Now(), exclude, sample, rest);
      victim := if counter > 0 then Some(chosen) else None;
    }

    method EvictIfNeeded(newcomer: Str, bypass: bool) returns (admitted: bool)
      requires newcomer in data
      modifies this`data
      ensures EvictStep(limits, old(Now()), newcomer, bypass, Now(), admitted)
    {
      if limits.maxEntries == 0 || |data| <= limits.maxEntries { return true; }
      var victim := SampleVictim(newcomer);
      if victim.None? { return true; }
      var k := victim.value;
      ghost var placed := Now();
      assert CanBeVictim(placed, newcomer, k);
      VictimIsIncumbent(placed, newcomer, k);
      KeysSize(data);
      admitted := bypass;
      if !bypass {
        admitted := Admits(policy, Score(policy, newcomer, data[newcomer].hint), Score(policy, k, data[k].hint));
      }
      data := if admitted then data - {k} else data - {newcomer};
      assert Contest(placed, newcomer, bypass, k, Now(), admitted);
    }

    method Put(key: Str, value: Str, expiresAt: Option<int>, bypass: bool) returns (out: Outcome)
      modifies this
      ensures SetStep(limits, old(Now()), key, value, expiresAt, bypass, Now(), out)
    {
      hide CanBeVictim, ScoreOf, Contest;
      if |key| == 0 { return Failed(EmptyKey); }
      if |key| > limits.maxKeySize { return Failed(KeyTooLarge); }
      if |value| > limits.maxValueSize { return Failed(ValueTooLarge); }
      var existed := key in data;
      data := data[key := Entry(value, expiresAt, 0)];
      if policy.NoPolicy? { return Stored(true); }
      var (p, hint) := RecordInsert(policy, key);
      policy := p;
      data := data[key := Entry(value, expiresAt, hint)];
      assert Now() == Placed(old(Now()), key, value, expiresAt);
      if existed { return Stored(true); }
      var admitted := EvictIfNeeded(key, bypass);
      out := Stored(admitted);
    }

    method SetValue(key: Str, value: Str) returns (out: Outcome)
      modifies this
      ensures Step(limits, old(Now()), Op.Set(key, value), Now(), Written(out))
    {
      out := Put(key, value, None, false);
    }

    method SetValueWithTTL(key: Str, value: Str, ttl: int, now: int) returns (out: Outcome)
      modifies this
      ensures Step(limits, old(Now()), Op.SetWithTTL(key, value, ttl, now), Now(), Written(out))
    {
      hide SetStep;
      if ttl <= 0 { return Failed(InvalidTTL); }
      out := Put(key, value, Some(now + ttl), false);
    }

    method UpdateReplica(key: Str, fn: Option<Str> -> Str, now: int) returns (out: Outcome)
      modifies this
      ensures Step(limits, old(Now()), Op.Update(key, fn, now), Now(), Written(out))
    {
      var found := Get(key, now);
      out := Put(key, fn(found), None, true);
    }

    method DeleteKey(key: Str) returns (ok: bool)
      modifies this
      ensures Step(limits, old(Now()), Op.Delete(key), Now(), Removed(ok))
    {
      ok := key in data;
      data := data - {key};
    }

    method DeleteKeyIf(key: Str, pred: Str -> bool, now: int) returns (ok: bool)
      modifies this
      ensures Step(limits, old(Now()), Op.DeleteIf(key, pred, now), Now(), Removed(ok))
    {
      var found := Get(key, now);
      if found.None? { return false; }
      if pred(found.value) {
        ok := DeleteKey(key);
      } else {
        ok := false;
      }
    }
  }

  lemma WeakestStep(s: State, sample: set<Str>, chosen: Str, k: Str)
    requires k in s.data && (sample != {} ==> chosen in s.data && Weakest(s, sample, chosen))
    ensures sample == {} || ScoreOf(s, k) < ScoreOf(s, chosen) ==> Weakest(s, sample + {k}, k)
    ensures sample != {} && ScoreOf(s, k) >= ScoreOf(s, chosen) ==> Weakest(s, sample + {k}, chosen)
  {
  }

  lemma SampleIsRight(s: State, exclude: Str, sample: set<Str>, rest: set<Str>)
    requires exclude in s.data && sample <= s.data.Keys - {exclude} <= sample + rest
    requires |sample| <= SAMPLE_SIZE && (rest == {} || |sample| == SAMPLE_SIZE)
    ensures IsSample(sample, s, exclude)
    ensures |sample| == 0 <==> |s.data| == 1
  {
    var incumbents := s.data.Keys - {exclude};
    KeysSize(s.data);
    assert |incumbents| == |s.data.Keys| - 1;
    SubsetSize(sample, incumbents);
    if rest == {} { assert sample == incumbents; }
  }
}
