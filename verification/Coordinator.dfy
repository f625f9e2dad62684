/**
 The coordinator's own loops (internal/server/coordinator.go) and the local updates of a replica
 (internal/server/handler.go `rset`), each tied to the notions the protocol steps use.
 */
module Coordinator {
  import opened Bytes
  import opened VClock
  import opened Versions
  import opened Seqs

  // ---------------------------------------------------------------- A replica's store

  /** One node's versioned store. Each update is one read-modify-write under the key's lock. */
  class Replica {
    const self: Str
    var sets: map<Str, seq<Version>>

    constructor (self: Str)
      ensures this.self == self && sets == map[]
    {
      this.self := self;
      sets := map[];
    }

    function Siblings(key: Str): seq<Version>
      reads this
    {
      if key in sets then sets[key] else []
    }

    /** Mint a version over the current siblings and reconcile it in: it replaces all of them. */
    method Write(key: Str, value: Str) returns (v: Version)
      modifies this
      ensures v == Version(value, MintClock(old(Siblings(key)), self), false, 0)
      ensures sets == old(sets)[key := [v]]
      ensures forall i :: 0 <= i < |old(Siblings(key))| ==> Lt(old(Siblings(key))[i].clock, v.clock)
    {
      var existing := Siblings(key);
      var frontier := Frontier(existing);
      v := Version(value, Increment(frontier, self), false, 0);
      var result := Reconcile(existing, v);
      MintCollapses(existing, self, v);
      sets := sets[key := result];
    }

    /** Mint a tombstone over the current siblings, and tell whether a live value was there before. */
    method Delete(key: Str, at: int) returns (v: Version, existed: bool)
      modifies this
      ensures v.deleted && v.deletedAt == at && v.clock == MintClock(old(Siblings(key)), self)
      ensures sets == old(sets)[key := [v]] && LiveOf(Siblings(key)) == []
      ensures existed <==> exists u :: u in old(Siblings(key)) && !u.deleted
    {
      var existing := Siblings(key);
      var frontier := Frontier(existing);
      v := Tombstone(Increment(frontier, self), at);
      var live := Live(existing);
      existed := |live| > 0;
      assert existed ==> live[0] in existing && !live[0].deleted;
      var result := Reconcile(existing, v);
      MintCollapses(existing, self, v);
      sets := sets[key := result];
    }

    /** Apply a replicated version without minting: nothing covered is lost, and `v` is covered. */
    method RSet(key: Str, v: Version)
      modifies this
      ensures sets == old(sets)[key := Reconciled(old(Siblings(key)), v)]
      ensures Covers(Siblings(key), v.clock)
      ensures forall clock :: Covers(old(Siblings(key)), clock) ==> Covers(Siblings(key), clock)
    {
      var result := Reconcile(Siblings(key), v);
      ReconciledCovers(Siblings(key), v);
      sets := sets[key := result];
    }

    /** Fold a whole reconciled set in, as read repair and anti-entropy do. */
    method Absorb(key: Str, merged: seq<Version>)
      modifies this
      ensures sets == old(sets)[key := Folded(old(Siblings(key)), merged)]
      ensures forall clock :: Covers(old(Siblings(key)), clock) || Covers(merged, clock) ==>
                  Covers(Siblings(key), clock)
    {
      var result := Fold(Siblings(key), merged);
      FoldedCovers(Siblings(key), merged);
      sets := sets[key := result];
    }
  }

  // ---------------------------------------------------------------- Quorum loops

  function Without(replicas: seq<Str>, self: Str): (peers: seq<Str>)
    ensures forall a :: a in peers <==> a in replicas && a != self
    ensures |peers| <= |replicas|
    ensures forall a :: a != self ==> multiset(peers)[a] == multiset(replicas)[a]
  {
    if replicas == [] then []
    else
      var rest := Without(replicas[..|replicas| - 1], self);
      var last := replicas[|replicas| - 1];
      assert replicas == replicas[..|replicas| - 1] + [last];
      if last == self then rest else rest + [last]
  }

  method PeersExcept(replicas: seq<Str>, self: Str) returns (peers: seq<Str>)
    ensures peers == Without(replicas, self)
  {
    peers := [];
    for i := 0 to |replicas|
      invariant peers == Without(replicas[..i], self)
    {
      assert replicas[..i + 1][..i] == replicas[..i];
      if replicas[i] != self { peers := peers + [replicas[i]]; }
    }
    assert replicas[..|replicas|] == replicas;
  }

  function CountTrue(outcomes: seq<bool>): (n: nat)
    ensures n <= |outcomes|
  {
    if outcomes == [] then 0
    else CountTrue(outcomes[..|outcomes| - 1]) + if outcomes[|outcomes| - 1] then 1 else 0
  }

  lemma {:induction false} CountTrueGrows(outcomes: seq<bool>, k: nat)
    requires k <= |outcomes|
    ensures CountTrue(outcomes[..k]) <= CountTrue(outcomes)
  {
    if k < |outcomes| {
      var init := outcomes[..|outcomes| - 1];
      assert init[..k] == outcomes[..k];
      CountTrueGrows(init, k);
    } else {
      assert outcomes[..k] == outcomes;
    }
  }

  /**
   Count acknowledgements in arrival order, starting at 1 for the local copy and stopping at `need`:
   the quorum is met exactly when enough peers acknowledge, and never overcounted.
   */
  method Gather(outcomes: seq<bool>, need: nat) returns (acks: nat)
    ensures acks >= need <==> 1 + CountTrue(outcomes) >= need
    ensures acks <= 1 + CountTrue(outcomes) && (acks == 1 || acks <= need)
    ensures acks < need ==> acks == 1 + CountTrue(outcomes)
  {
    acks := 1;
    for i := 0 to |outcomes|
      invariant acks == 1 + CountTrue(outcomes[..i]) && (acks == 1 || acks <= need)
    {
      CountTrueGrows(outcomes, i);
      if acks >= need { break; }
      assert outcomes[..i + 1][..i] == outcomes[..i];
      if outcomes[i] { acks := acks + 1; }
    }
    assert outcomes[..|outcomes|] == outcomes;
  }

  /** A replica's answer to a read: its address and its set, or no usable answer. */
  datatype Arrival = Arrival(addr: Str, reply: Option<seq<Version>>)

  function Answered(arrivals: seq<Arrival>): seq<bool> {
    seq(|arrivals|, i requires 0 <= i < |arrivals| => arrivals[i].reply.Some?)
  }

  /** Every version some responder returned. */
  ghost function Returned(responders: map<Str, seq<Version>>): set<Version> {
    set a, v | a in responders && v in responders[a] :: v
  }

  /**
   The read loop: fold replies in arrival order until `need` responses, the local set being the
   first. The result represents exactly what the counted responders returned.
   */
  method ReadLoop(self: Str, local: seq<Version>, arrivals: seq<Arrival>, need: nat)
    returns (merged: seq<Version>, responses: nat, responders: map<Str, seq<Version>>)
    requires forall i :: 0 <= i < |arrivals| ==> arrivals[i].addr != self
    requires forall i, j :: 0 <= i < j < |arrivals| ==> arrivals[i].addr != arrivals[j].addr
    ensures self in responders && responders[self] == local && responses == |responders|
    ensures forall a :: a in responders && a != self ==>
              exists i :: 0 <= i < |arrivals| && arrivals[i] == Arrival(a, Some(responders[a]))
    ensures responses >= need <==> 1 + CountTrue(Answered(arrivals)) >= need
    ensures Antichain(local) ==> Represents(merged, Returned(responders))
  {
    merged := local;
    responses := 1;
    responders := map[self := local];
    SingletonReturned(self, local);
    for i := 0 to |arrivals|
      invariant self in responders && responders[self] == local && responses == |responders|
      invariant forall a :: a in responders && a != self ==>
                  exists k :: 0 <= k < i && arrivals[k] == Arrival(a, Some(responders[a]))
      invariant responses == 1 + CountTrue(Answered(arrivals)[..i])
      invariant Antichain(local) ==> Represents(merged, Returned(responders))
    {
      CountTrueGrows(Answered(arrivals), i);
      if responses >= need { break; }
      assert Answered(arrivals)[..i + 1][..i] == Answered(arrivals)[..i];
      if arrivals[i].reply.Some? {
        var reply := arrivals[i].reply.value;
        responses := responses + 1;
        FoldReturned(responders, arrivals[i].addr, reply, merged, local);
        responders := responders[arrivals[i].addr := reply];
        merged := Fold(merged, reply);
      }
    }
    assert Answered(arrivals)[..|arrivals|] == Answered(arrivals);
  }

  lemma SingletonReturned(self: Str, local: seq<Version>)
    ensures Antichain(local) ==> Represents(local, Returned(map[self := local]))
  {
    var responders := map[self := local];
    assert Returned(responders) == Elements(local) by {
      forall v | v in local ensures v in Returned(responders) { assert self in responders && v in responders[self]; }
    }
    forall v | v in local ensures Covers(local, v.clock) { CoversIn(local, v, v.clock); }
  }

  lemma FoldReturned(responders: map<Str, seq<Version>>, addr: Str, reply: seq<Version>, merged: seq<Version>,
                     local: seq<Version>)
    requires addr !in responders && (Antichain(local) ==> Represents(merged, Returned(responders)))
    ensures Antichain(local) ==> Represents(Folded(merged, reply), Returned(responders[addr := reply]))
  {
    var next := responders[addr := reply];
    assert Returned(next) == Returned(responders) + Elements(reply) by {
      forall v | v in Returned(responders) ensures v in Returned(next) {
        var a :| a in responders && v in responders[a];
        assert a in next && v in next[a];
      }
      forall v | v in Elements(reply) ensures v in Returned(next) { assert addr in next && v in next[addr]; }
    }
    if Antichain(local) { FoldedRepresents(merged, Returned(responders), reply); }
  }

  /** The pushes to `addr` that land. */
  function Landing(addr: Str, landing: set<(Str, Version)>): Version -> bool {
    (v: Version) => (addr, v) in landing
  }

  /**
   What read repair makes of the set stored at `addr`: nothing for one whose answer was `Equal`, the whole
   merged set at the coordinator itself, and at a peer the versions whose own push landed.
   */
  function RepairedSet(self: Str, merged: seq<Version>, landing: set<(Str, Version)>, addr: Str,
                       answer: seq<Version>, stored: seq<Version>): seq<Version> {
    if EqualScan(answer, merged) then stored
    else if addr == self then Folded(stored, merged)
    else Folded(stored, Filter(Landing(addr, landing), merged))
  }

  /** Push the merged set version by version; a push that fails is passed over. */
  method Push(addr: Str, merged: seq<Version>, stored: seq<Version>, landing: set<(Str, Version)>)
    returns (result: seq<Version>)
    ensures result == Folded(stored, Filter(Landing(addr, landing), merged))
  {
    hide Reconciled;
    result := stored;
    for i := 0 to |merged|
      invariant result == Folded(stored, Filter(Landing(addr, landing), merged[..i]))
    {
      assert merged[..i + 1] == merged[..i] + [merged[i]];
      FilterSnoc(Landing(addr, landing), merged[..i], merged[i]);
      if (addr, merged[i]) in landing {
        FoldedSnoc(stored, Filter(Landing(addr, landing), merged[..i]), merged[i]);
        result := Reconcile(result, merged[i]);
      }
    }
    assert merged[..|merged|] == merged;
  }

  lemma FoldedSnoc(start: seq<Version>, batch: seq<Version>, v: Version)
    ensures Folded(start, batch + [v]) == Reconciled(Folded(start, batch), v)
  {
    assert (batch + [v])[..|batch|] == batch;
  }

  /** Heal every responder whose answer differs from the merged set; best effort, in any order. */
  method ReadRepair(self: Str, merged: seq<Version>, responders: map<Str, seq<Version>>,
                    stores: map<Str, seq<Version>>, landing: set<(Str, Version)>)
    returns (healed: map<Str, seq<Version>>)
    requires responders.Keys <= stores.Keys
    ensures healed.Keys == stores.Keys
    ensures forall a :: a in stores ==>
              healed[a] == if a in responders then RepairedSet(self, merged, landing, a, responders[a], stores[a])
                           else stores[a]
  {
    hide Folded, EqualScan, Filter;
    healed := stores;
    var rest := responders.Keys;
    while rest != {}
      invariant rest <= responders.Keys && healed.Keys == stores.Keys
      invariant forall a :: a in stores ==>
                  healed[a] == if a !in responders || a in rest then stores[a]
                               else RepairedSet(self, merged, landing, a, responders[a], stores[a])
    {
      var a :| a in rest;
      var same := Versions.Equal(responders[a], merged);
      if !same {
        var result;
        if a == self { result := Fold(healed[a], merged); } else { result := Push(a, merged, healed[a], landing); }
        healed := healed[a := result];
      }
      rest := rest - {a};
    }
  }

  /** Repair had nothing to do, was local, or got every version across. */
  ghost predicate IsRepaired(self: Str, merged: seq<Version>, landing: set<(Str, Version)>, addr: Str,
                             answer: seq<Version>) {
    EqualScan(answer, merged) || addr == self || forall v :: v in merged ==> (addr, v) in landing
  }

  /** No store loses coverage, and every responder that repair got through to covers the merged set afterwards. */
  lemma RepairCovers(self: Str, merged: seq<Version>, landing: set<(Str, Version)>, addr: Str,
                     answer: seq<Version>, stored: seq<Version>, clock: Clock)
    requires Antichain(answer) && forall c :: Covers(answer, c) ==> Covers(stored, c)
    ensures var healed := RepairedSet(self, merged, landing, addr, answer, stored);
            && (Covers(stored, clock) ==> Covers(healed, clock))
            && (Covers(merged, clock) && IsRepaired(self, merged, landing, addr, answer) ==> Covers(healed, clock))
  {
    if EqualScan(answer, merged) {
      EqualNeedsNoRepair(answer, merged);
    } else {
      FoldedCovers(stored, merged);
      FoldedCovers(stored, Filter(Landing(addr, landing), merged));
      if forall v :: v in merged ==> (addr, v) in landing { FilterAll(Landing(addr, landing), merged); }
    }
  }

  /** Repair adds nothing of its own: what is new at a peer was pushed to it and landed. */
  lemma RepairAddsOnlyWhatLanded(self: Str, merged: seq<Version>, landing: set<(Str, Version)>, addr: Str,
                                 answer: seq<Version>, stored: seq<Version>, v: Version)
    requires v in RepairedSet(self, merged, landing, addr, answer, stored)
    ensures v in stored || (v in merged && (addr == self || (addr, v) in landing))
  {
    FilterContents(Landing(addr, landing), merged);
    if !EqualScan(answer, merged) {
      FoldedElements(stored, if addr == self then merged else Filter(Landing(addr, landing), merged), v);
    }
  }
}
