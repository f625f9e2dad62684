/**
 The sampled LRU store against an ideal one that keeps its items in a list, least recently touched
 first. With a cap of at most five the sample is the whole store, and the two agree on every run.
 */
module Lru {
  import opened Bytes
  import opened Seqs
  import opened MapStore

  // ---------------------------------------------------------------- The ideal store

  datatype Item = Item(key: Str, value: Str, expiresAt: Option<int>)

  function NotKey(key: Str): Item -> bool { (it: Item) => it.key != key }

  function Without(list: seq<Item>, key: Str): seq<Item> {
    Filter(NotKey(key), list)
  }

  /** Move or add an item to the most recent end. */
  function Renewed(list: seq<Item>, it: Item): seq<Item> {
    Without(list, it.key) + [it]
  }

  function Find(list: seq<Item>, key: Str): Option<Item> {
    if list == [] then None
    else if list[|list| - 1].key == key then Some(list[|list| - 1])
    else Find(list[..|list| - 1], key)
  }

  function Live(list: seq<Item>, key: Str, now: int): Option<Item> {
    var it := Find(list, key);
    if it.Some? && !(it.value.expiresAt.Some? && now > it.value.expiresAt.value) then it else None
  }

  function IdealGet(list: seq<Item>, key: Str, now: int): seq<Item> {
    var it := Live(list, key, now);
    if it.Some? then Renewed(list, it.value) else list
  }

  function IdealFound(list: seq<Item>, key: Str, now: int): Option<Str> {
    var it := Live(list, key, now);
    if it.Some? then Some(it.value.value) else None
  }

  /** Put the item at the recent end and let the oldest go when there are too many. */
  function IdealSet(limits: Limits, list: seq<Item>, it: Item): (seq<Item>, Outcome) {
    match Refusal(limits, it.key, it.value)
    case Some(e) => (list, Failed(e))
    case None =>
      var next := Renewed(list, it);
      (if |next| > limits.maxEntries then next[1..] else next, Stored(true))
  }

  function IdealStep(limits: Limits, list: seq<Item>, op: Op): (seq<Item>, Reply) {
    match op
    case Get(key, now) => (IdealGet(list, key, now), Value(IdealFound(list, key, now)))
    case Set(key, value) =>
      var (next, out) := IdealSet(limits, list, Item(key, value, None));
      (next, Written(out))
    case SetWithTTL(key, value, ttl, now) =>
      if ttl <= 0 then (list, Written(Failed(InvalidTTL)))
      else
        var (next, out) := IdealSet(limits, list, Item(key, value, Some(now + ttl)));
        (next, Written(out))
    case Update(key, fn, now) =>
      var (next, out) := IdealSet(limits, IdealGet(list, key, now), Item(key, fn(IdealFound(list, key, now)), None));
      (next, Written(out))
    case Delete(key) => (Without(list, key), Removed(Find(list, key).Some?))
    case DeleteIf(key, pred, now) =>
      var read := IdealGet(list, key, now);
      var hit := IdealFound(list, key, now).Some? && pred(IdealFound(list, key, now).value);
      (if hit then Without(read, key) else read, Removed(hit))
  }

  function IdealAfter(limits: Limits, ops: seq<Op>, i: nat): seq<Item>
    requires i <= |ops|
  {
    if i == 0 then [] else IdealStep(limits, IdealAfter(limits, ops, i - 1), ops[i - 1]).0
  }

  // ---------------------------------------------------------------- The correspondence

  predicate Matches(e: Entry, it: Item) {
    e.value == it.value && e.expiresAt == it.expiresAt
  }

  ghost predicate HasKey(list: seq<Item>, key: Str) {
    exists i :: 0 <= i < |list| && list[i].key == key
  }

  ghost predicate Held(list: seq<Item>, data: map<Str, Entry>, clock: nat) {
    forall i :: 0 <= i < |list| ==>
        list[i].key in data && Matches(data[list[i].key], list[i]) && data[list[i].key].hint <= clock
  }

  /** Recency is the order of the hints. */
  ghost predicate InOrder(list: seq<Item>, data: map<Str, Entry>) {
    forall i, j :: 0 <= i < j < |list| && list[i].key in data && list[j].key in data ==>
        data[list[i].key].hint < data[list[j].key].hint
  }

  ghost predicate Covers(list: seq<Item>, data: map<Str, Entry>) {
    forall k :: k in data ==> HasKey(list, k)
  }

  /** The list holds the store's entries, least recently touched first. */
  ghost predicate Tracks(list: seq<Item>, s: State) {
    && s.policy.Lru? && Held(list, s.data, s.policy.clock) && InOrder(list, s.data) && Covers(list, s.data)
  }

  lemma {:induction false} FindMeans(list: seq<Item>, key: Str)
    ensures Find(list, key).Some? <==> HasKey(list, key)
    ensures Find(list, key).Some? ==> Find(list, key).value in list && Find(list, key).value.key == key
  {
    if list != [] {
      var init, last := list[..|list| - 1], list[|list| - 1];
      FindMeans(init, key);
      if last.key == key {
        assert HasKey(list, key);
      } else {
        if HasKey(init, key) {
          var i :| 0 <= i < |init| && init[i].key == key;
          assert list[i].key == key;
        }
        if HasKey(list, key) {
          var i :| 0 <= i < |list| && list[i].key == key;
          assert init[i].key == key;
        }
      }
    }
  }

  /** The ideal store finds exactly the live entries. */
  lemma FindsTheSame(list: seq<Item>, s: State, key: Str)
    requires Tracks(list, s)
    ensures key in s.data <==> Find(list, key).Some?
    ensures key in s.data ==> Find(list, key).value == Item(key, s.data[key].value, s.data[key].expiresAt)
  {
    FindMeans(list, key);
    if HasKey(list, key) {
      var i :| 0 <= i < |list| && list[i].key == key;
      var it := Find(list, key).value;
      var j :| 0 <= j < |list| && list[j] == it;
      assert Matches(s.data[list[j].key], list[j]);
    }
  }

  lemma KeysOfDistinct(list: seq<Item>, s: State) returns (keys: seq<Str>)
    requires Tracks(list, s)
    ensures |keys| == |list| && Distinct(keys) && forall i :: 0 <= i < |list| ==> keys[i] == list[i].key
  {
    keys := seq(|list|, i requires 0 <= i < |list| => list[i].key);
    forall i, j | 0 <= i < |keys| && 0 <= j < |keys| && i != j ensures keys[i] != keys[j] {
      var lo, hi := if i < j then i else j, if i < j then j else i;
      assert s.data[list[lo].key].hint < s.data[list[hi].key].hint;
    }
  }

  lemma TracksSize(list: seq<Item>, s: State)
    requires Tracks(list, s)
    ensures |list| == |s.data|
  {
    var keys := KeysOfDistinct(list, s);
    DistinctSize(keys);
    forall k ensures k in keys <==> k in s.data.Keys {
      if k in s.data {
        assert HasKey(list, k);
        var i :| 0 <= i < |list| && list[i].key == k;
        assert keys[i] == k;
      }
    }
    assert (set k | k in keys) == s.data.Keys;
    KeysSize(s.data);
  }

  // ---------------------------------------------------------------- Deleting and renewing

  lemma {:induction false} WithoutInOrder(list: seq<Item>, data: map<Str, Entry>, key: Str)
    requires InOrder(list, data)
    ensures InOrder(Without(list, key), data)
  {
    if list != [] {
      var init, last := list[..|list| - 1], list[|list| - 1];
      assert list == init + [last];
      WithoutInOrder(init, data, key);
      FilterSnoc(NotKey(key), init, last);
      KeptBelowLast(list, data, key);
    }
  }

  lemma KeptBelowLast(list: seq<Item>, data: map<Str, Entry>, key: Str)
    requires InOrder(list, data) && list != []
    ensures var kept, last := Without(list[..|list| - 1], key), list[|list| - 1];
            forall i :: 0 <= i < |kept| && kept[i].key in data && last.key in data ==>
              data[kept[i].key].hint < data[last.key].hint
  {
    hide Filter;
    var init, last := list[..|list| - 1], list[|list| - 1];
    var kept := Without(init, key);
    FilterContents(NotKey(key), init);
    forall i | 0 <= i < |kept| && kept[i].key in data && last.key in data
      ensures data[kept[i].key].hint < data[last.key].hint
    {
      assert kept[i] in init;
      var k :| 0 <= k < |init| && init[k] == kept[i];
      assert list[k] == kept[i];
    }
  }

  lemma WithoutCovers(list: seq<Item>, data: map<Str, Entry>, key: Str)
    requires Covers(list, data)
    ensures forall k :: k in data && k != key ==> HasKey(Without(list, key), k)
  {
    FilterContents(NotKey(key), list);
    forall k | k in data && k != key ensures HasKey(Without(list, key), k) {
      assert HasKey(list, k);
      var i :| 0 <= i < |list| && list[i].key == k;
      assert list[i] in Without(list, key);
    }
  }

  lemma WithoutHeld(list: seq<Item>, data: map<Str, Entry>, clock: nat, key: Str)
    requires Held(list, data, clock)
    ensures Held(Without(list, key), data, clock)
    ensures forall i :: 0 <= i < |Without(list, key)| ==> Without(list, key)[i].key != key
  {
    FilterContents(NotKey(key), list);
    var kept := Without(list, key);
    forall i | 0 <= i < |kept|
      ensures kept[i].key in data && Matches(data[kept[i].key], kept[i]) && data[kept[i].key].hint <= clock
      ensures kept[i].key != key
    {
      assert kept[i] in kept;
      assert kept[i] in list;
    }
  }

  lemma DeleteTracks(list: seq<Item>, s: State, key: Str)
    requires Tracks(list, s)
    ensures Tracks(Without(list, key), Deleted(s, key))
  {
    WithoutInOrder(list, s.data, key);
    WithoutCovers(list, s.data, key);
    WithoutHeld(list, s.data, s.policy.clock, key);
  }

  lemma SnocCovers(kept: seq<Item>, it: Item, data: map<Str, Entry>)
    requires forall k :: k in data && k != it.key ==> HasKey(kept, k)
    ensures Covers(kept + [it], data)
  {
    var next := kept + [it];
    forall k | k in data ensures HasKey(next, k) {
      if k == it.key {
        assert next[|kept|].key == k;
      } else {
        assert HasKey(kept, k);
        var i :| 0 <= i < |kept| && kept[i].key == k;
        assert next[i].key == k;
      }
    }
  }

  lemma SnocInOrder(kept: seq<Item>, it: Item, before: map<Str, Entry>, data: map<Str, Entry>, clock: nat)
    requires Held(kept, before, clock) && InOrder(kept, before)
    requires forall i :: 0 <= i < |kept| ==> kept[i].key != it.key
    requires it.key in data && data[it.key].hint == clock + 1 && Matches(data[it.key], it)
    requires forall k :: k in before && k != it.key ==> k in data && data[k] == before[k]
    ensures Held(kept + [it], data, clock + 1) && InOrder(kept + [it], data)
  {
  }

  /** Stamping an entry with the next clock value moves it to the recent end. */
  lemma RenewTracks(list: seq<Item>, s: State, it: Item)
    requires Tracks(list, s)
    ensures var clock := s.policy.clock + 1;
            Tracks(Renewed(list, it), State(s.data[it.key := Entry(it.value, it.expiresAt, clock)], Lru(clock)))
  {
    var data := s.data[it.key := Entry(it.value, it.expiresAt, s.policy.clock + 1)];
    var kept := Without(list, it.key);
    WithoutInOrder(list, s.data, it.key);
    WithoutCovers(list, s.data, it.key);
    WithoutHeld(list, s.data, s.policy.clock, it.key);
    hide Without, Held, InOrder, Covers, HasKey;
    SnocCovers(kept, it, data);
    SnocInOrder(kept, it, s.data, data, s.policy.clock);
  }

  // ---------------------------------------------------------------- Eviction

  ghost predicate NewestIs(list: seq<Item>, key: Str) {
    list != [] && list[|list| - 1].key == key
  }

  /** The oldest is the only possible victim when the sample can hold every incumbent. */
  lemma SmallSampleFindsOldest(list: seq<Item>, s: State, newcomer: Str, victim: Str)
    requires Tracks(list, s) && NewestIs(list, newcomer) && 2 <= |list| <= SAMPLE_SIZE + 1
    requires CanBeVictim(s, newcomer, victim)
    ensures victim == list[0].key
  {
    TracksSize(list, s);
    KeysSize(s.data);
    var incumbents := s.data.Keys - {newcomer};
    var sample :| IsSample(sample, s, newcomer) && Weakest(s, sample, victim);
    assert |incumbents| == |s.data.Keys| - 1;
    SameSizeSubset(sample, incumbents);
    var keys := KeysOfDistinct(list, s);
    assert keys[0] != keys[|list| - 1];
    assert list[0].key in incumbents;
    assert HasKey(list, victim);
    var i :| 0 <= i < |list| && list[i].key == victim;
    OldestIsLowest(list, s, i);
  }

  lemma OldestIsLowest(list: seq<Item>, s: State, i: nat)
    requires Tracks(list, s) && i < |list|
    ensures list[0].key in s.data && list[i].key in s.data
    ensures i > 0 ==> s.data[list[0].key].hint < s.data[list[i].key].hint
  {
  }

  lemma {:induction false} SameSizeSubset(a: set<Str>, b: set<Str>)
    requires a <= b && |a| == |b|
    ensures a == b
  {
    if a != b {
      var x :| x in b && x !in a;
      SubsetSize(a, b - {x});
      assert false;
    }
  }

  /** A sample can miss the oldest as soon as there are six incumbents. */
  lemma LargeStoreMissesOldest(list: seq<Item>, s: State, newcomer: Str)
    requires Tracks(list, s) && NewestIs(list, newcomer) && |list| > SAMPLE_SIZE + 1
    ensures CanBeVictim(s, newcomer, list[1].key) && list[1].key != list[0].key
  {
    TracksSize(list, s);
    KeysSize(s.data);
    var keys := KeysOfDistinct(list, s);
    var some := keys[1..6];
    DistinctSize(some);
    var sample := set k | k in some;
    assert |s.data.Keys - {newcomer}| == |s.data.Keys| - 1;
    forall k | k in sample
      ensures k in s.data && k != newcomer
      ensures Score(s.policy, list[1].key, s.data[list[1].key].hint) <= Score(s.policy, k, s.data[k].hint)
    {
      var i :| 0 <= i < 5 && some[i] == k;
      assert keys[i + 1] == k && keys[|list| - 1] == newcomer;
      assert i > 0 ==> s.data[list[1].key].hint < s.data[list[i + 1].key].hint;
    }
    assert some[0] == list[1].key;
    assert IsSample(sample, s, newcomer) && Weakest(s, sample, list[1].key);
  }

  /** On a full store the victim must be the least recently touched exactly when the cap is at most five. */
  lemma SampledLruIsExactIff(list: seq<Item>, s: State, newcomer: Str)
    requires Tracks(list, s) && NewestIs(list, newcomer) && |list| >= 2
    ensures (forall victim :: CanBeVictim(s, newcomer, victim) ==> victim == list[0].key) <==> |list| - 1 <= SAMPLE_SIZE
  {
    if |list| - 1 <= SAMPLE_SIZE {
      forall victim | CanBeVictim(s, newcomer, victim) ensures victim == list[0].key {
        SmallSampleFindsOldest(list, s, newcomer, victim);
      }
    } else {
      LargeStoreMissesOldest(list, s, newcomer);
    }
  }

  // ---------------------------------------------------------------- Refinement

  predicate KeyFits(limits: Limits, key: Str) {
    0 < |key| <= limits.maxKeySize
  }

  /** There are enough storable keys to fill the store and bring in one more. */
  ghost predicate CanOverflow(limits: Limits) {
    limits.maxValueSize >= 0 &&
    exists keys: seq<Str> ::
      |keys| == limits.maxEntries + 1 && Distinct(keys) && forall i :: 0 <= i < |keys| ==> KeyFits(limits, keys[i])
  }

  /** A sample takes in all incumbents whenever one of them must go. */
  ghost predicate IsExact(limits: Limits) {
    1 <= limits.maxEntries && (limits.maxEntries <= SAMPLE_SIZE || !CanOverflow(limits))
  }

  ghost predicate Fitting(limits: Limits, s: State) {
    forall k :: k in s.data ==> KeyFits(limits, k)
  }

  lemma SetKeepsFitting(limits: Limits, s: State, key: Str, value: Str, expiresAt: Option<int>, bypass: bool,
                        s': State, out: Outcome)
    requires Fitting(limits, s) && SetStep(limits, s, key, value, expiresAt, bypass, s', out)
    ensures Fitting(limits, s')
  {
    if out == Stored(true) {
      AcceptedSetBinds(limits, s, key, value, expiresAt, bypass, s', out);
      assert KeyFits(limits, key);
    } else {
      RefusedSetChangesNothing(limits, s, key, value, expiresAt, bypass, s', out);
    }
  }

  lemma StepKeepsFitting(limits: Limits, s: State, op: Op, s': State, reply: Reply)
    requires Fitting(limits, s) && Step(limits, s, op, s', reply)
    ensures Fitting(limits, s')
  {
    hide SetStep, KeyFits;
    match op {
      case Get(_, _) =>
      case Set(key, value) => SetKeepsFitting(limits, s, key, value, None, false, s', reply.out);
      case SetWithTTL(key, value, ttl, now) =>
        if ttl > 0 { SetKeepsFitting(limits, s, key, value, Some(now + ttl), false, s', reply.out); }
      case Update(key, fn, now) =>
        var read := AfterGet(s, key, now);
        assert read.data.Keys == s.data.Keys;
        SetKeepsFitting(limits, read, key, fn(Lookup(s, key, now)), None, true, s', reply.out);
      case Delete(_) =>
      case DeleteIf(_, _, _) =>
    }
  }

  /** A state over the cap shows that the store can overflow. */
  lemma OverflowShows(limits: Limits, list: seq<Item>, s: State)
    requires Tracks(list, s) && Fitting(limits, s) && |list| == limits.maxEntries + 1 && limits.maxValueSize >= 0
    ensures CanOverflow(limits)
  {
    var keys := KeysOfDistinct(list, s);
  }

  lemma OldestLeaves(list: seq<Item>, s: State)
    requires Tracks(list, s) && list != []
    ensures Without(list, list[0].key) == list[1..]
  {
    hide Filter, Tracks;
    var keys := KeysOfDistinct(list, s);
    var head, tail, other := [list[0]], list[1..], NotKey(list[0].key);
    assert list == head + tail;
    FilterSplits(other, head, tail);
    FilterNone(other, head);
    forall i | 0 <= i < |tail| ensures other(tail[i]) {
      assert tail[i] == list[i + 1] && keys[i + 1] != keys[0];
    }
    FilterAll(other, tail);
  }

  lemma SetRefines(limits: Limits, list: seq<Item>, s: State, it: Item, bypass: bool, s': State, out: Outcome)
    requires IsExact(limits) && Tracks(list, s) && Bounded(limits, s) && Fitting(limits, s)
    requires SetStep(limits, s, it.key, it.value, it.expiresAt, bypass, s', out)
    ensures Tracks(IdealSet(limits, list, it).0, s') && IdealSet(limits, list, it).1 == out
  {
    hide Tracks, CanBeVictim, Contest, Without, CanOverflow, Fitting;
    TracksLru(list, s);
    if Refusal(limits, it.key, it.value).None? {
      var placed := Placed(s, it.key, it.value, it.expiresAt);
      var next := Renewed(list, it);
      RenewTracks(list, s, it);
      PlacedKeys(s, it.key, it.value, it.expiresAt);
      TracksSize(next, placed);
      if |next| > limits.maxEntries {
        PlacedFits(limits, s, it);
        OverflowShows(limits, next, placed);
        EvictRefines(limits, next, placed, it.key, bypass, s', out.admitted);
      }
    }
  }

  lemma PlacedFits(limits: Limits, s: State, it: Item)
    requires Fitting(limits, s) && Refusal(limits, it.key, it.value).None?
    ensures Fitting(limits, Placed(s, it.key, it.value, it.expiresAt)) && limits.maxValueSize >= 0
  {
    assert KeyFits(limits, it.key);
  }

  lemma EvictRefines(limits: Limits, next: seq<Item>, placed: State, newcomer: Str, bypass: bool, s': State,
                     admitted: bool)
    requires 1 <= limits.maxEntries <= SAMPLE_SIZE && Tracks(next, placed) && NewestIs(next, newcomer)
    requires |next| == limits.maxEntries + 1 == |placed.data|
    requires EvictStep(limits, placed, newcomer, bypass, s', admitted)
    ensures admitted && Tracks(next[1..], s')
  {
    hide Tracks, CanBeVictim;
    var victim :| Contest(placed, newcomer, bypass, victim, s', admitted);
    SmallSampleFindsOldest(next, placed, newcomer, victim);
    TracksLru(next, placed);
    OldestLeaves(next, placed);
    DeleteTracks(next, placed, victim);
  }

  lemma TracksLru(list: seq<Item>, s: State)
    requires Tracks(list, s)
    ensures s.policy.Lru?
  {
  }

  lemma GetRefines(list: seq<Item>, s: State, key: Str, now: int)
    requires Tracks(list, s)
    ensures Tracks(IdealGet(list, key, now), AfterGet(s, key, now)) && IdealFound(list, key, now) == Lookup(s, key, now)
  {
    hide Tracks, Find, Renewed;
    TracksLru(list, s);
    FindsTheSame(list, s, key);
    if Lookup(s, key, now).Some? {
      RenewTracks(list, s, Item(key, s.data[key].value, s.data[key].expiresAt));
    }
  }

  lemma GetKeepsFitting(limits: Limits, s: State, key: Str, now: int)
    requires Fitting(limits, s)
    ensures Fitting(limits, AfterGet(s, key, now))
  {
  }

  lemma StepRefines(limits: Limits, list: seq<Item>, s: State, op: Op, s': State, reply: Reply)
    requires IsExact(limits) && Tracks(list, s) && Bounded(limits, s) && Fitting(limits, s)
    requires Step(limits, s, op, s', reply)
    ensures Tracks(IdealStep(limits, list, op).0, s') && IdealStep(limits, list, op).1 == reply
  {
    hide Tracks, Bounded, SetStep, AfterGet, Lookup, Deleted, IdealGet, IdealFound, IdealSet, Without, IsExact, Find,
         KeyFits;
    match op {
      case Get(key, now) => GetRefines(list, s, key, now);
      case Set(key, value) => SetRefines(limits, list, s, Item(key, value, None), false, s', reply.out);
      case SetWithTTL(key, value, ttl, now) =>
        if ttl > 0 { SetRefines(limits, list, s, Item(key, value, Some(now + ttl)), false, s', reply.out); }
      case Update(key, fn, now) =>
        GetRefines(list, s, key, now);
        GetKeepsBound(limits, s, key, now);
        GetKeepsFitting(limits, s, key, now);
        SetRefines(limits, IdealGet(list, key, now), AfterGet(s, key, now), Item(key, fn(Lookup(s, key, now)), None),
            true, s', reply.out);
      case Delete(key) =>
        FindsTheSame(list, s, key);
        DeleteTracks(list, s, key);
      case DeleteIf(key, pred, now) =>
        GetRefines(list, s, key, now);
        DeleteTracks(IdealGet(list, key, now), AfterGet(s, key, now), key);
    }
  }

  lemma NothingTracked()
    ensures Tracks([], State(map[], Lru(0)))
  {
  }

  /** On every run, the store answers as the ideal recency list does when its samples are exact. */
  lemma {:induction false} RunRefinesIdeal(limits: Limits, states: seq<State>, ops: seq<Op>, replies: seq<Reply>,
                                           i: nat)
    requires IsExact(limits) && IsRun(limits, Lru(0), states, ops, replies) && i <= |ops|
    ensures Tracks(IdealAfter(limits, ops, i), states[i]) && Fitting(limits, states[i])
    ensures i < |ops| ==> replies[i] == IdealStep(limits, IdealAfter(limits, ops, i), ops[i]).1
  {
    hide Tracks, Step, IdealStep, Bounded, IsExact, KeyFits;
    if i == 0 {
      NothingTracked();
    } else {
      RunRefinesIdeal(limits, states, ops, replies, i - 1);
      CapHolds(limits, Lru(0), states, ops, replies, i - 1);
      StepRefines(limits, IdealAfter(limits, ops, i - 1), states[i - 1], ops[i - 1], states[i], replies[i - 1]);
      StepKeepsFitting(limits, states[i - 1], ops[i - 1], states[i], replies[i - 1]);
    }
    if i < |ops| {
      CapHolds(limits, Lru(0), states, ops, replies, i);
      StepRefines(limits, IdealAfter(limits, ops, i), states[i], ops[i], states[i + 1], replies[i]);
    }
  }
}
