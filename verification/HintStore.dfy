/**
 The hint store and one replay sweep over it (internal/server/handoff.go). Hints are kept in a
 map of maps, target to key to blob; an inner map is never left empty.
 */
module HintStore {
  import opened Bytes

  type Blob = Str
  type Hints = map<Str, map<Str, Blob>>

  function Lookup(hints: Hints, target: Str, key: Str): Option<Blob> {
    if target in hints && key in hints[target] then Some(hints[target][key]) else None
  }

  ghost function KeysOf(hints: Hints, target: Str): set<(Str, Str)>
    requires target in hints
  {
    set key | key in hints[target] :: (target, key)
  }

  /** The (target, key) pairs with a parked hint, over some of the targets. */
  ghost function PairsOver(hints: Hints, targets: set<Str>): set<(Str, Str)>
    requires targets <= hints.Keys
  {
    set target, key | target in targets && key in hints[target] :: (target, key)
  }

  ghost function Pairs(hints: Hints): set<(Str, Str)> {
    PairsOver(hints, hints.Keys)
  }

  ghost predicate NoEmptyTarget(hints: Hints) {
    forall t :: t in hints ==> hints[t] != map[]
  }

  lemma KeysOfSize(hints: Hints, target: Str)
    requires target in hints
    ensures |KeysOf(hints, target)| == |hints[target]|
  {
    TaggedSize(hints[target].Keys, target);
    assert KeysOf(hints, target) == set key | key in hints[target].Keys :: (target, key);
  }

  lemma {:induction false} TaggedSize(keys: set<Str>, target: Str)
    ensures |set key | key in keys :: (target, key)| == |keys|
  {
    if keys != {} {
      var k :| k in keys;
      var rest := keys - {k};
      TaggedSize(rest, target);
      var tagged := set key | key in keys :: (target, key);
      var taggedRest := set key | key in rest :: (target, key);
      assert tagged == taggedRest + {(target, k)};
    }
  }

  lemma CountStep(parked: set<(Str, Str)>, rest: set<(Str, Str)>, p: (Str, Str), landing: set<(Str, Str)>)
    requires p in rest && rest <= parked
    ensures |(parked - (rest - {p})) * landing| == |(parked - rest) * landing| + if p in landing then 1 else 0
  {
    var before, now := (parked - rest) * landing, (parked - (rest - {p})) * landing;
    if p in landing {
      assert now == before + {p};
    } else {
      assert now == before;
    }
  }

  /** A park that a write performs while a sweep is under way. */
  datatype Park = Park(target: Str, key: Str, blob: Blob)

  /** What is parked for a target and key once these parks have arrived. */
  function LookupAfter(hints: Hints, parks: seq<Park>, target: Str, key: Str): Option<Blob> {
    if parks == [] then Lookup(hints, target, key)
    else
      var last := parks[|parks| - 1];
      if (last.target, last.key) == (target, key) then Some(last.blob)
      else LookupAfter(hints, parks[..|parks| - 1], target, key)
  }

  predicate IsParked(parks: seq<Park>, target: Str, key: Str) {
    exists i | 0 <= i < |parks| :: parks[i].target == target && parks[i].key == key
  }

  /** The batches one after the other. */
  function Strung(batches: seq<seq<Park>>): seq<Park> {
    if batches == [] then [] else Strung(batches[..|batches| - 1]) + batches[|batches| - 1]
  }

  /**
   What a sweep over a snapshot leaves when these parks arrived in the meantime and these deliveries landed:
   nothing newer is lost, nothing that failed is dropped, and what landed undisturbed is gone.
   */
  ghost predicate Replayed(hints: Hints, snapshot: Hints, parks: seq<Park>, landed: set<(Str, Str)>) {
    && (forall t, k :: Lookup(hints, t, k) == LookupAfter(snapshot, parks, t, k) ||
          (Lookup(hints, t, k) == None && (t, k) in landed &&
           LookupAfter(snapshot, parks, t, k) == Lookup(snapshot, t, k)))
    && (forall t, k :: (t, k) in landed && !IsParked(parks, t, k) ==> Lookup(hints, t, k) == None)
  }

  lemma {:induction false} UnparkedIsAsBefore(hints: Hints, parks: seq<Park>, t: Str, k: Str)
    requires !IsParked(parks, t, k)
    ensures LookupAfter(hints, parks, t, k) == Lookup(hints, t, k)
  {
    if parks != [] {
      var init, last := parks[..|parks| - 1], parks[|parks| - 1];
      assert last == parks[|parks| - 1] && forall i :: 0 <= i < |init| ==> init[i] == parks[i];
      UnparkedIsAsBefore(hints, init, t, k);
    }
  }

  lemma SweepStarts(hints: Hints, landing: set<(Str, Str)>)
    ensures Replayed(hints, hints, [], landing - Pairs(hints))
  {
    forall t, k | (t, k) in landing - Pairs(hints) ensures Lookup(hints, t, k) == None {
      assert (t, k) !in Pairs(hints);
    }
  }

  lemma ParkKeepsReplayed(hints: Hints, hints': Hints, snapshot: Hints, parks: seq<Park>, landed: set<(Str, Str)>,
                          park: Park)
    requires Replayed(hints, snapshot, parks, landed)
    requires forall t, k :: Lookup(hints', t, k) ==
               if (t, k) == (park.target, park.key) then Some(park.blob) else Lookup(hints, t, k)
    ensures Replayed(hints', snapshot, parks + [park], landed)
  {
    hide Lookup;
    var more := parks + [park];
    assert more[..|parks|] == parks && more[|parks|] == park;
    forall t, k | IsParked(parks, t, k) ensures IsParked(more, t, k) {
      var i :| 0 <= i < |parks| && parks[i].target == t && parks[i].key == k;
      assert more[i] == parks[i];
    }
  }

  lemma LandingKeepsReplayed(hints: Hints, hints': Hints, snapshot: Hints, parks: seq<Park>, landed: set<(Str, Str)>,
                             p: (Str, Str))
    requires Replayed(hints, snapshot, parks, landed) && Lookup(snapshot, p.0, p.1).Some?
    requires forall t, k :: Lookup(hints', t, k) ==
               if (t, k) == p && Lookup(hints, t, k) == Lookup(snapshot, t, k) then None else Lookup(hints, t, k)
    ensures Replayed(hints', snapshot, parks, landed + {p})
  {
    hide Lookup, LookupAfter;
    if !IsParked(parks, p.0, p.1) { UnparkedIsAsBefore(snapshot, parks, p.0, p.1); }
    hide IsParked;
  }

  class Store {
    var hints: Hints

    constructor ()
      ensures hints == map[] && NoEmptyTarget(hints)
    {
      hints := map[];
    }

    /** Park `blob`; whatever was parked for the same target and key is overwritten. */
    method Add(target: Str, key: Str, blob: Blob)
      requires NoEmptyTarget(hints)
      modifies this
      ensures NoEmptyTarget(hints)
      ensures forall t, k :: Lookup(hints, t, k) ==
                if (t, k) == (target, key) then Some(blob) else Lookup(old(hints), t, k)
    {
      var inner: map<Str, Blob> := if target in hints then hints[target] else map[];
      assert key in inner[key := blob];
      hints := hints[target := inner[key := blob]];
    }

    /** A copy of every parked hint, built target by target and key by key. */
    method Snapshot() returns (copy: Hints)
      ensures copy == hints
    {
      copy := map[];
      var targets := hints.Keys;
      while targets != {}
        invariant targets <= hints.Keys && copy.Keys == hints.Keys - targets
        invariant forall t :: t in copy ==> copy[t] == hints[t]
      {
        var t :| t in targets;
        var inner: map<Str, Blob> := map[];
        var keys := hints[t].Keys;
        while keys != {}
          invariant keys <= hints[t].Keys && inner.Keys == hints[t].Keys - keys
          invariant forall k :: k in inner ==> inner[k] == hints[t][k]
        {
          var k :| k in keys;
          inner := inner[k := hints[t][k]];
          keys := keys - {k};
        }
        assert inner == hints[t];
        copy := copy[t := inner];
        targets := targets - {t};
      }
    }

    /** Drop the hint only if the parked blob still equals the delivered one, and the target once it is empty. */
    method Remove(target: Str, key: Str, delivered: Blob)
      requires NoEmptyTarget(hints)
      modifies this
      ensures NoEmptyTarget(hints)
      ensures forall t, k :: Lookup(hints, t, k) ==
                if (t, k) == (target, key) && Lookup(old(hints), t, k) == Some(delivered) then None
                else Lookup(old(hints), t, k)
    {
      if target !in hints { return; }
      var inner := hints[target];
      var parked := if key in inner then inner[key] else [];
      if parked != delivered { return; }
      inner := inner - {key};
      if |inner| == 0 {
        hints := hints - {target};
      } else {
        hints := hints[target := inner];
      }
    }

    /** The handoff backlog: the number of (target, key) pairs with a hint. */
    method Size() returns (total: nat)
      ensures total == |Pairs(hints)|
    {
      total := 0;
      var targets := hints.Keys;
      ghost var done: set<Str> := {};
      while targets != {}
        invariant targets <= hints.Keys && done == hints.Keys - targets
        invariant total == |PairsOver(hints, done)|
      {
        var t :| t in targets;
        KeysOfSize(hints, t);
        assert PairsOver(hints, done + {t}) == PairsOver(hints, done) + KeysOf(hints, t);
        assert PairsOver(hints, done) !! KeysOf(hints, t);
        total := total + |hints[t]|;
        targets := targets - {t};
        done := done + {t};
      }
      assert done == hints.Keys;
    }

    /** Parks of other writes arrive, in order. */
    method Receive(parks: seq<Park>, ghost snapshot: Hints, ghost before: seq<Park>, ghost landed: set<(Str, Str)>)
      requires NoEmptyTarget(hints) && Replayed(hints, snapshot, before, landed)
      modifies this
      ensures NoEmptyTarget(hints) && Replayed(hints, snapshot, before + parks, landed)
    {
      hide Replayed, Lookup, NoEmptyTarget;
      assert before + parks[..0] == before;
      for i := 0 to |parks|
        invariant NoEmptyTarget(hints) && Replayed(hints, snapshot, before + parks[..i], landed)
      {
        ghost var was := hints;
        Add(parks[i].target, parks[i].key, parks[i].blob);
        ParkKeepsReplayed(was, hints, snapshot, before + parks[..i], landed, parks[i]);
        assert before + parks[..i] + [parks[i]] == before + parks[..i + 1];
      }
      assert parks[..|parks|] == parks;
    }

    /** One delivery: a hint that landed is removed, unless something else is parked there by now. */
    method Deliver(p: (Str, Str), snapshot: Hints, landing: set<(Str, Str)>, ghost parks: seq<Park>,
                   ghost rest: set<(Str, Str)>)
      returns (ok: bool)
      requires NoEmptyTarget(hints) && p in rest && p in Pairs(snapshot)
      requires Replayed(hints, snapshot, parks, landing - rest)
      modifies this
      ensures NoEmptyTarget(hints) && Replayed(hints, snapshot, parks, landing - (rest - {p}))
      ensures ok <==> p in landing
    {
      hide *;
      PairIsParked(snapshot, p);
      ok := p in landing;
      if ok {
        ghost var was := hints;
        Remove(p.0, p.1, snapshot[p.0][p.1]);
        LandingKeepsReplayed(was, hints, snapshot, parks, landing - rest, p);
        assert landing - rest + {p} == landing - (rest - {p});
      } else {
        assert landing - rest == landing - (rest - {p});
      }
    }

    /**
     One replay sweep over a snapshot, its deliveries in any order. `landing` says which of them succeed, and
     `meanwhile` what is parked after the snapshot: a batch before each delivery ends, and the rest after.
     */
    method ReplayOnce(landing: set<(Str, Str)>, meanwhile: seq<seq<Park>>) returns (delivered: nat)
      requires NoEmptyTarget(hints)
      modifies this
      ensures NoEmptyTarget(hints) && Replayed(hints, old(hints), Strung(meanwhile), landing)
      ensures delivered == |Pairs(old(hints)) * landing|
    {
      hide *;
      var snapshot := Snapshot();
      ghost var parked := Pairs(snapshot);
      var rest := Parked(snapshot);
      SweepStarts(hints, landing);
      NothingStrung();
      var m := 0;
      delivered := 0;
      assert (parked - rest) * landing == {} && meanwhile[..0] == [];
      while rest != {} || m < |meanwhile|
        invariant m <= |meanwhile| && NoEmptyTarget(hints) && rest <= parked
        invariant Replayed(hints, snapshot, Strung(meanwhile[..m]), landing - rest)
        invariant delivered == |(parked - rest) * landing|
        decreases |rest| + |meanwhile| - m
      {
        if m < |meanwhile| {
          Receive(meanwhile[m], snapshot, Strung(meanwhile[..m]), landing - rest);
          StrungSnoc(meanwhile, m);
          m := m + 1;
        }
        if rest != {} {
          var p :| p in rest;
          CountStep(parked, rest, p, landing);
          var ok := Deliver(p, snapshot, landing, Strung(meanwhile[..m]), rest);
          if ok { delivered := delivered + 1; }
          rest := rest - {p};
        }
      }
      assert parked - rest == parked && landing - rest == landing && meanwhile[..m] == meanwhile;
    }
  }

  lemma NothingStrung()
    ensures Strung([]) == []
  {
  }

  lemma StrungSnoc(batches: seq<seq<Park>>, m: nat)
    requires m < |batches|
    ensures Strung(batches[..m + 1]) == Strung(batches[..m]) + batches[m]
  {
    assert batches[..m + 1][..m] == batches[..m];
  }

  /** Every parked pair, target by target and key by key. */
  function Parked(hints: Hints): (pairs: set<(Str, Str)>)
    ensures pairs == Pairs(hints)
  {
    set t, k | t in hints && k in hints[t] :: (t, k)
  }

  lemma PairIsParked(snapshot: Hints, p: (Str, Str))
    requires p in Pairs(snapshot)
    ensures p.0 in snapshot && p.1 in snapshot[p.0] && Lookup(snapshot, p.0, p.1) == Some(snapshot[p.0][p.1])
  {
  }
}
