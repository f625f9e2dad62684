/**
 The bound on sampled LRU over whole runs: the store answers every run as an ideal recency list does if
 and only if its cap is at most the sample size, or there are not enough storable keys to overflow it.
 */
module LruBound {
  import opened Bytes
  import opened Seqs
  import opened MapStore
  import opened Lru

  /** Every reply of every run is the ideal one. */
  ghost predicate AnswersAsIdeal(limits: Limits) {
    forall states, ops, replies, i: nat ::
      IsRun(limits, Policy.Lru(0), states, ops, replies) && i < |ops| ==> IsIdealReply(limits, ops, replies, i)
  }

  ghost predicate IsIdealReply(limits: Limits, ops: seq<Op>, replies: seq<Reply>, i: nat) {
    i < |ops| && i < |replies| && replies[i] == IdealStep(limits, IdealAfter(limits, ops, i), ops[i]).1
  }

  // ---------------------------------------------------------------- Filling the store

  ghost predicate Usable(limits: Limits, keys: seq<Str>) {
    && Distinct(keys) && |keys| == limits.maxEntries + 1 && limits.maxValueSize >= 0
    && forall i :: 0 <= i < |keys| ==> KeyFits(limits, keys[i])
  }

  function Items(keys: seq<Str>, n: nat): (items: seq<Item>)
    requires n <= |keys|
    ensures |items| == n
  {
    seq(n, i requires 0 <= i < n => Item(keys[i], [], None))
  }

  /** The state after setting the first `n` keys, before any cap is enforced. */
  ghost function Filled(keys: seq<Str>, n: nat): State
    requires n <= |keys|
  {
    if n == 0 then State(map[], Policy.Lru(0)) else Placed(Filled(keys, n - 1), keys[n - 1], [], None)
  }

  lemma RenewedItems(keys: seq<Str>, n: nat)
    requires n < |keys| && Distinct(keys)
    ensures Renewed(Items(keys, n), Item(keys[n], [], None)) == Items(keys, n + 1)
  {
    FilterAll(NotKey(keys[n]), Items(keys, n));
  }

  lemma {:induction false} FilledContents(keys: seq<Str>, n: nat)
    requires n <= |keys|
    ensures Filled(keys, n).policy.Lru?
    ensures forall k :: k in Filled(keys, n).data <==> k in keys[..n]
    ensures forall k :: k in Filled(keys, n).data ==>
              Filled(keys, n).data[k].value == [] && Filled(keys, n).data[k].expiresAt == None
  {
    if n > 0 {
      FilledContents(keys, n - 1);
      assert keys[..n] == keys[..n - 1] + [keys[n - 1]];
    }
  }

  lemma {:induction false} FilledTracks(keys: seq<Str>, n: nat)
    requires n <= |keys| && Distinct(keys)
    ensures Tracks(Items(keys, n), Filled(keys, n)) && |Filled(keys, n).data| == n
  {
    hide Tracks, Renewed, Distinct;
    if n == 0 {
      NothingTracked();
      assert Items(keys, 0) == [];
    } else {
      FilledTracks(keys, n - 1);
      FilledContents(keys, n - 1);
      RenewedItems(keys, n - 1);
      RenewTracks(Items(keys, n - 1), Filled(keys, n - 1), Item(keys[n - 1], [], None));
      TracksSize(Items(keys, n), Filled(keys, n));
    }
  }

  /** Below the cap a set of a new key just stores it. */
  lemma FillStep(limits: Limits, keys: seq<Str>, n: nat)
    requires Usable(limits, keys) && n < limits.maxEntries
    ensures Step(limits, Filled(keys, n), Op.Set(keys[n], []), Filled(keys, n + 1), Written(Stored(true)))
  {
    hide Tracks, Contest;
    FilledContents(keys, n);
    FilledTracks(keys, n + 1);
    assert keys[n] !in keys[..n];
    assert KeyFits(limits, keys[n]);
  }

  // ---------------------------------------------------------------- The run that goes wrong

  /** The second oldest entry goes instead of the oldest. */
  ghost function Evicted(limits: Limits, keys: seq<Str>): State
    requires Usable(limits, keys) && limits.maxEntries > SAMPLE_SIZE
  {
    Deleted(Filled(keys, |keys|), keys[1])
  }

  lemma EvictStepIsLegal(limits: Limits, keys: seq<Str>)
    requires Usable(limits, keys) && limits.maxEntries > SAMPLE_SIZE
    ensures Step(limits, Filled(keys, limits.maxEntries), Op.Set(keys[limits.maxEntries], []), Evicted(limits, keys),
                 Written(Stored(true)))
  {
    hide Tracks, CanBeVictim, Deleted, Step, Filled, Placed;
    var n := limits.maxEntries;
    var placed := Filled(keys, n + 1);
    FilledNext(keys, n);
    FilledContents(keys, n);
    FilledContents(keys, n + 1);
    FilledTracks(keys, n + 1);
    assert keys[n] !in keys[..n] && keys[1] in keys[..n + 1] && keys[n] in keys[..n + 1];
    assert KeyFits(limits, keys[n]);
    LargeStoreMissesOldest(Items(keys, n + 1), placed, keys[n]);
    EvictionIsLegal(limits, Filled(keys, n), keys[n], keys[1]);
  }

  lemma FilledNext(keys: seq<Str>, n: nat)
    requires n < |keys|
    ensures Filled(keys, n + 1) == Placed(Filled(keys, n), keys[n], [], None)
  {
  }

  lemma EvictionIsLegal(limits: Limits, s: State, key: Str, victim: Str)
    requires s.policy.Lru? && key !in s.data && Refusal(limits, key, []).None?
    requires var placed := Placed(s, key, [], None);
             CanBeVictim(placed, key, victim) && victim in placed.data && Overflows(limits, placed)
    ensures Step(limits, s, Op.Set(key, []), Deleted(Placed(s, key, [], None), victim), Written(Stored(true)))
  {
    hide CanBeVictim, Deleted;
    var placed := Placed(s, key, [], None);
    assert Contest(placed, key, false, victim, Deleted(placed, victim), true);
  }

  function Ops(limits: Limits, keys: seq<Str>): (ops: seq<Op>)
    requires |keys| > 0
    ensures |ops| == |keys| + 1
  {
    seq(|keys|, i requires 0 <= i < |keys| => Op.Set(keys[i], [])) + [Op.Get(keys[0], 0)]
  }

  ghost function States(limits: Limits, keys: seq<Str>): (states: seq<State>)
    requires Usable(limits, keys) && limits.maxEntries > SAMPLE_SIZE
    ensures |states| == |keys| + 2
  {
    var n := limits.maxEntries;
    var end := Evicted(limits, keys);
    seq(n + 1, i requires 0 <= i <= n => Filled(keys, i)) + [end, AfterGet(end, keys[0], 0)]
  }

  function Replies(keys: seq<Str>): (replies: seq<Reply>)
    ensures |replies| == |keys| + 1
  {
    seq(|keys|, i => Written(Stored(true))) + [Value(Some([]))]
  }

  lemma OldestIsStillThere(limits: Limits, keys: seq<Str>)
    requires Usable(limits, keys) && limits.maxEntries > SAMPLE_SIZE
    ensures Lookup(Evicted(limits, keys), keys[0], 0) == Some([])
  {
    FilledContents(keys, |keys|);
    assert keys[0] in keys[..|keys|] && keys[0] != keys[1];
  }

  lemma RunIsLegal(limits: Limits, keys: seq<Str>)
    requires Usable(limits, keys) && limits.maxEntries > SAMPLE_SIZE
    ensures IsRun(limits, Policy.Lru(0), States(limits, keys), Ops(limits, keys), Replies(keys))
  {
    var n := limits.maxEntries;
    var states, ops, replies := States(limits, keys), Ops(limits, keys), Replies(keys);
    OldestIsStillThere(limits, keys);
    EvictStepIsLegal(limits, keys);
    hide SetStep, Filled, Evicted, Usable;
    forall i | 0 <= i < |ops| ensures Step(limits, states[i], ops[i], states[i + 1], replies[i]) {
      if i < n { FillStep(limits, keys, i); }
    }
    assert states[0] == Filled(keys, 0);
    EmptyIsFilled(keys);
  }

  lemma EmptyIsFilled(keys: seq<Str>)
    ensures Filled(keys, 0) == State(map[], Policy.Lru(0))
  {
  }

  /** The ideal list keeps every item up to the cap. */
  lemma {:induction false} IdealFills(limits: Limits, keys: seq<Str>, n: nat)
    requires Usable(limits, keys) && n <= limits.maxEntries
    ensures IdealAfter(limits, Ops(limits, keys), n) == Items(keys, n)
  {
    if n > 0 {
      IdealFills(limits, keys, n - 1);
      RenewedItems(keys, n - 1);
      assert KeyFits(limits, keys[n - 1]);
    }
  }

  /** The last set drops the oldest item from the ideal list. */
  lemma IdealDropsOldest(limits: Limits, keys: seq<Str>)
    requires Usable(limits, keys) && limits.maxEntries >= 1
    ensures IdealAfter(limits, Ops(limits, keys), |keys|) == Items(keys, |keys|)[1..]
    ensures Find(Items(keys, |keys|)[1..], keys[0]) == None
  {
    var n := limits.maxEntries;
    IdealFills(limits, keys, n);
    RenewedItems(keys, n);
    assert KeyFits(limits, keys[n]);
    OldestIsGone(keys);
    hide Find, Distinct, Renewed;
  }

  lemma OldestIsGone(keys: seq<Str>)
    requires Distinct(keys) && |keys| > 0
    ensures Find(Items(keys, |keys|)[1..], keys[0]) == None
  {
    var rest := Items(keys, |keys|)[1..];
    FindMeans(rest, keys[0]);
    assert forall i :: 0 <= i < |rest| ==> rest[i].key == keys[i + 1];
  }

  /** With more than five entries and enough keys, some run gets an answer the ideal store would not give. */
  lemma LargeStoreStrays(limits: Limits, keys: seq<Str>)
    requires Usable(limits, keys) && limits.maxEntries > SAMPLE_SIZE
    ensures !AnswersAsIdeal(limits)
  {
    var states, ops, replies := States(limits, keys), Ops(limits, keys), Replies(keys);
    RunIsLegal(limits, keys);
    IdealDropsOldest(limits, keys);
    hide Usable, IsRun, IdealAfter;
    var i := |keys|;
    assert ops[i] == Op.Get(keys[0], 0) && replies[i] == Value(Some([]));
    assert !IsIdealReply(limits, ops, replies, i);
  }

  /** Over all runs, the sampled store is an LRU store if and only if samples are exact. */
  lemma SampledLruIsLruIff(limits: Limits)
    requires limits.maxEntries >= 1
    ensures AnswersAsIdeal(limits) <==> limits.maxEntries <= SAMPLE_SIZE || !CanOverflow(limits)
  {
    if IsExact(limits) {
      hide IsRun, IdealStep;
      forall states, ops, replies, i: nat | IsRun(limits, Policy.Lru(0), states, ops, replies) && i < |ops|
        ensures IsIdealReply(limits, ops, replies, i)
      {
        RunRefinesIdeal(limits, states, ops, replies, i);
        RunLengths(limits, states, ops, replies);
      }
    } else {
      var keys: seq<Str> :| |keys| == limits.maxEntries + 1 && Distinct(keys) &&
                            forall i :: 0 <= i < |keys| ==> KeyFits(limits, keys[i]);
      LargeStoreStrays(limits, keys);
    }
  }

  lemma RunLengths(limits: Limits, states: seq<State>, ops: seq<Op>, replies: seq<Reply>)
    requires IsRun(limits, Policy.Lru(0), states, ops, replies)
    ensures |replies| == |ops|
  {
  }
}
