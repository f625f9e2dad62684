/**
 What reads of the bounded store answer on whole runs (internal/store/map_store.go), under every policy:
 never anything but the last accepted write, and exactly that when no policy evicts.
 */
module StoreRuns {
  import opened Bytes
  import opened MapStore

  /** The operation bound its key. */
  predicate Binds(op: Op, reply: Reply, key: Str) {
    IsWrite(op) && op.key == key && reply == Written(Stored(true))
  }

  /** The operation was asked to remove its key and did. */
  predicate Unbinds(op: Op, reply: Reply, key: Str) {
    (op.Delete? || op.DeleteIf?) && op.key == key && reply == Removed(true)
  }

  function ExpiryOf(op: Op): Option<int> {
    if op.SetWithTTL? then Some(op.now + op.ttl) else None
  }

  predicate SameContent(a: Entry, b: Entry) {
    a.value == b.value && a.expiresAt == b.expiresAt
  }

  // ---------------------------------------------------------------- One operation

  lemma GetKeeps(s: State, key: Str, now: int, k: Str)
    ensures k in AfterGet(s, key, now).data <==> k in s.data
    ensures k in s.data ==> SameContent(AfterGet(s, key, now).data[k], s.data[k])
    ensures k in s.data && (k != key || Lookup(s, key, now).None?) ==> AfterGet(s, key, now).data[k] == s.data[k]
    ensures AfterGet(s, key, now).policy.NoPolicy? <==> s.policy.NoPolicy?
  {
  }

  /** A set binds its own key, or leaves it as it was; other keys stay or are evicted. */
  lemma SetBinds(limits: Limits, s: State, key: Str, value: Str, expiresAt: Option<int>, bypass: bool, s': State,
                 out: Outcome, k: Str)
    requires SetStep(limits, s, key, value, expiresAt, bypass, s', out)
    ensures k in s'.data ==>
              if k == key && out == Stored(true)
              then s'.data[k].value == value && s'.data[k].expiresAt == expiresAt
              else k in s.data && s'.data[k] == s.data[k]
    ensures k == key && out == Stored(true) ==> k in s'.data
    ensures s.policy.NoPolicy? && k in s.data ==> k in s'.data
    ensures s.policy.NoPolicy? && out.Stored? ==> out.admitted
    ensures s'.policy.NoPolicy? <==> s.policy.NoPolicy?
  {
    if out == Stored(true) {
      AcceptedSetBinds(limits, s, key, value, expiresAt, bypass, s', out);
    } else {
      RefusedSetChangesNothing(limits, s, key, value, expiresAt, bypass, s', out);
    }
    SetKeepsPolicy(limits, s, key, value, expiresAt, bypass, s', out);
  }

  lemma SetKeepsPolicy(limits: Limits, s: State, key: Str, value: Str, expiresAt: Option<int>, bypass: bool, s': State,
                       out: Outcome)
    requires SetStep(limits, s, key, value, expiresAt, bypass, s', out)
    ensures s'.policy.NoPolicy? <==> s.policy.NoPolicy?
    ensures s.policy.NoPolicy? && out.Stored? ==> out.admitted && s' == Placed(s, key, value, expiresAt)
  {
    hide CanBeVictim, ScoreOf;
  }

  /** What one operation makes of one key: bound anew, removed, evicted, or as before. */
  ghost predicate Carries(s: State, op: Op, s': State, reply: Reply, key: Str) {
    && (key in s'.data ==>
          if Binds(op, reply, key) then s'.data[key].value == Offered(s, op) && s'.data[key].expiresAt == ExpiryOf(op)
          else !Unbinds(op, reply, key) && key in s.data && SameContent(s'.data[key], s.data[key]))
    && (Binds(op, reply, key) ==> key in s'.data)
    && (s.policy.NoPolicy? && key in s.data && !Unbinds(op, reply, key) ==> key in s'.data)
    && (s'.policy.NoPolicy? <==> s.policy.NoPolicy?)
  }

  lemma StepCarries(limits: Limits, s: State, op: Op, s': State, reply: Reply, key: Str)
    requires Step(limits, s, op, s', reply)
    ensures Carries(s, op, s', reply, key)
  {
    hide SetStep, AfterGet, Lookup;
    match op {
      case Get(k, now) => GetKeeps(s, k, now, key);
      case Set(k, value) => SetBinds(limits, s, k, value, None, false, s', reply.out, key);
      case SetWithTTL(k, value, ttl, now) =>
        if ttl > 0 { SetBinds(limits, s, k, value, Some(now + ttl), false, s', reply.out, key); }
      case Update(k, fn, now) =>
        GetKeeps(s, k, now, key);
        SetBinds(limits, AfterGet(s, k, now), k, fn(Lookup(s, k, now)), None, true, s', reply.out, key);
      case Delete(k) =>
      case DeleteIf(k, pred, now) => GetKeeps(s, k, now, key);
    }
  }

  // ---------------------------------------------------------------- Runs

  /** The last of the first `i` operations to bind `key`, with no removal since, is the one at `j`. */
  ghost predicate LastBound(ops: seq<Op>, replies: seq<Reply>, key: Str, i: nat, j: nat)
    requires i <= |ops| == |replies|
  {
    && j < i && Binds(ops[j], replies[j], key)
    && forall k :: j < k < i ==> !Binds(ops[k], replies[k], key) && !Unbinds(ops[k], replies[k], key)
  }

  ghost predicate HoldsWrite(states: seq<State>, ops: seq<Op>, replies: seq<Reply>, key: Str, i: nat, j: nat)
    requires i < |states| == |ops| + 1 && |ops| == |replies|
  {
    && LastBound(ops, replies, key, i, j) && key in states[i].data
    && states[i].data[key].value == Offered(states[j], ops[j])
    && states[i].data[key].expiresAt == ExpiryOf(ops[j])
  }

  /** Whatever the store holds under a key is what the last accepted write put there. */
  lemma {:induction false} HeldIsLastWritten(limits: Limits, policy: Policy, states: seq<State>, ops: seq<Op>,
                                             replies: seq<Reply>, key: Str, i: nat)
    requires IsRun(limits, policy, states, ops, replies) && i <= |ops|
    ensures key in states[i].data ==> exists j: nat :: HoldsWrite(states, ops, replies, key, i, j)
  {
    hide Step;
    if i > 0 {
      HeldIsLastWritten(limits, policy, states, ops, replies, key, i - 1);
      StepCarries(limits, states[i - 1], ops[i - 1], states[i], replies[i - 1], key);
      if key in states[i].data {
        if Binds(ops[i - 1], replies[i - 1], key) {
          assert HoldsWrite(states, ops, replies, key, i, i - 1);
        } else {
          var j: nat :| HoldsWrite(states, ops, replies, key, i - 1, j);
          assert HoldsWrite(states, ops, replies, key, i, j);
        }
      }
    }
  }

  /** Without a policy nothing is ever evicted. */
  lemma {:induction false} NothingIsEvicted(limits: Limits, states: seq<State>, ops: seq<Op>, replies: seq<Reply>,
                                            key: Str, i: nat, j: nat)
    requires IsRun(limits, NoPolicy, states, ops, replies) && i <= |ops|
    ensures states[i].policy.NoPolicy?
    ensures LastBound(ops, replies, key, i, j) ==> key in states[i].data
  {
    hide Step;
    if i > 0 {
      NothingIsEvicted(limits, states, ops, replies, key, i - 1, j);
      StepCarries(limits, states[i - 1], ops[i - 1], states[i], replies[i - 1], key);
      if LastBound(ops, replies, key, i, j) && j < i - 1 { assert LastBound(ops, replies, key, i - 1, j); }
    }
  }

  /** The write at `j` answers a read at time `now`. */
  ghost predicate Answers(states: seq<State>, ops: seq<Op>, j: nat, now: int, value: Str)
    requires j < |ops| <= |states|
  {
    IsWrite(ops[j]) && value == Offered(states[j], ops[j]) && (ops[j].SetWithTTL? ==> now <= ops[j].now + ops[j].ttl)
  }

  /**
   A cache may miss but never lies: under every policy, a read answers the last accepted write of its key, not
   removed since and not yet expired.
   */
  lemma ReadsAnswerTheLastWrite(limits: Limits, policy: Policy, states: seq<State>, ops: seq<Op>, replies: seq<Reply>,
                                i: nat)
    requires IsRun(limits, policy, states, ops, replies) && i < |ops| && ops[i].Get?
    ensures replies[i].Value?
    ensures replies[i].found.Some? ==>
              exists j: nat :: LastBound(ops, replies, ops[i].key, i, j)
                            && Answers(states, ops, j, ops[i].now, replies[i].found.value)
  {
    assert Step(limits, states[i], ops[i], states[i + 1], replies[i]);
    if replies[i].found.Some? {
      HeldIsLastWritten(limits, policy, states, ops, replies, ops[i].key, i);
      var j: nat :| HoldsWrite(states, ops, replies, ops[i].key, i, j);
      assert Answers(states, ops, j, ops[i].now, replies[i].found.value);
    }
  }

  /** And without a policy it does not even miss: a read finds nothing only if there is no such write. */
  lemma UnboundedStoreIsExact(limits: Limits, states: seq<State>, ops: seq<Op>, replies: seq<Reply>, i: nat, j: nat)
    requires IsRun(limits, NoPolicy, states, ops, replies) && i < |ops| && ops[i].Get?
    requires LastBound(ops, replies, ops[i].key, i, j)
    ensures replies[i].Value?
    ensures var expired := ops[j].SetWithTTL? && ops[i].now > ops[j].now + ops[j].ttl;
            replies[i].found == if expired then None else Some(Offered(states[j], ops[j]))
  {
    assert Step(limits, states[i], ops[i], states[i + 1], replies[i]);
    NothingIsEvicted(limits, states, ops, replies, ops[i].key, i, j);
    HeldIsLastWritten(limits, NoPolicy, states, ops, replies, ops[i].key, i);
    var h: nat :| HoldsWrite(states, ops, replies, ops[i].key, i, h);
    LastIsOne(ops, replies, ops[i].key, i, h, j);
  }

  lemma LastIsOne(ops: seq<Op>, replies: seq<Reply>, key: Str, i: nat, h: nat, j: nat)
    requires i <= |ops| == |replies| && LastBound(ops, replies, key, i, h) && LastBound(ops, replies, key, i, j)
    ensures h == j
  {
  }

  // ---------------------------------------------------------------- LFU

  /** The operation reads a live entry of `key`. */
  predicate ReadsLive(s: State, op: Op, key: Str) {
    (op.Get? || op.Update? || op.DeleteIf?) && op.key == key && Lookup(s, key, op.now).Some?
  }

  ghost function ReadsSince(states: seq<State>, ops: seq<Op>, key: Str, j: nat, i: nat): nat
    requires i <= |ops| <= |states|
  {
    if i <= j + 1 then 0
    else ReadsSince(states, ops, key, j, i - 1) + if ReadsLive(states[i - 1], ops[i - 1], key) then 1 else 0
  }

  /** Under LFU an operation sets the hint of the key it binds to the base count and adds one for a live read. */
  ghost predicate LfuCarries(s: State, op: Op, s': State, reply: Reply, key: Str) {
    && s'.policy.Lfu?
    && (key in s'.data ==>
          if Binds(op, reply, key) then s'.data[key].hint == LFU_BASE_COUNT
          else key in s.data && s'.data[key].hint == s.data[key].hint + if ReadsLive(s, op, key) then 1 else 0)
  }

  lemma LfuGet(s: State, key: Str, now: int, k: Str)
    requires s.policy.Lfu?
    ensures AfterGet(s, key, now).policy.Lfu?
    ensures k in AfterGet(s, key, now).data ==>
              && k in s.data
              && AfterGet(s, key, now).data[k].hint ==
                   s.data[k].hint + if k == key && Lookup(s, key, now).Some? then 1 else 0
  {
  }

  lemma LfuSet(limits: Limits, s: State, key: Str, value: Str, expiresAt: Option<int>, bypass: bool, s': State,
               out: Outcome, k: Str)
    requires s.policy.Lfu? && SetStep(limits, s, key, value, expiresAt, bypass, s', out)
    ensures s'.policy.Lfu?
    ensures k in s'.data ==>
              if k == key && out == Stored(true) then s'.data[k].hint == LFU_BASE_COUNT
              else k in s.data && s'.data[k].hint == s.data[k].hint
  {
    hide CanBeVictim, ScoreOf;
  }

  lemma StepLfuCarries(limits: Limits, s: State, op: Op, s': State, reply: Reply, key: Str)
    requires s.policy.Lfu? && Step(limits, s, op, s', reply)
    ensures LfuCarries(s, op, s', reply, key)
  {
    hide SetStep, AfterGet, Lookup;
    match op {
      case Get(k, now) => LfuGet(s, k, now, key);
      case Set(k, value) => LfuSet(limits, s, k, value, None, false, s', reply.out, key);
      case SetWithTTL(k, value, ttl, now) =>
        if ttl > 0 { LfuSet(limits, s, k, value, Some(now + ttl), false, s', reply.out, key); }
      case Update(k, fn, now) =>
        LfuGet(s, k, now, key);
        LfuSet(limits, AfterGet(s, k, now), k, fn(Lookup(s, k, now)), None, true, s', reply.out, key);
      case Delete(k) =>
      case DeleteIf(k, pred, now) => LfuGet(s, k, now, key);
    }
  }

  /** Under LFU an entry's eviction priority is the base count and the live reads since its last accepted write. */
  lemma {:induction false} LfuCountsReads(limits: Limits, states: seq<State>, ops: seq<Op>, replies: seq<Reply>,
                                          key: Str, i: nat, j: nat)
    requires IsRun(limits, Lfu, states, ops, replies) && i <= |ops|
    ensures states[i].policy.Lfu?
    ensures LastBound(ops, replies, key, i, j) && key in states[i].data ==>
              ScoreOf(states[i], key) == LFU_BASE_COUNT + ReadsSince(states, ops, key, j, i)
  {
    hide Step;
    if i > 0 {
      LfuCountsReads(limits, states, ops, replies, key, i - 1, j);
      StepLfuCarries(limits, states[i - 1], ops[i - 1], states[i], replies[i - 1], key);
      if LastBound(ops, replies, key, i, j) && j < i - 1 { assert LastBound(ops, replies, key, i - 1, j); }
    }
  }
}
