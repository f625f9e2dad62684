/**
 Sibling sets and their reconciliation (internal/version/version.go).

 A sibling set is the sequence of versions a node stores for one key. The theory rests on
 one relation, `Represents(s, all)`: the set `s` is what the versions `all` reconcile to.
 */
module Versions {
  import opened Bytes
  import opened VClock
  import opened Seqs

  datatype Version = Version(value: Str, clock: Clock, deleted: bool, deletedAt: int)

  /** A "gone" version stamped with `clock`. */
  function Tombstone(clock: Clock, deletedAt: int): Version {
    Version([], clock, true, deletedAt)
  }

  /** Some version of `vs` has seen everything that `clock` has seen. */
  ghost predicate Covers(vs: seq<Version>, clock: Clock) {
    exists i :: 0 <= i < |vs| && Leq(clock, vs[i].clock)
  }

  /** No version is at or below another one: pairwise concurrent, hence without repeats. */
  ghost predicate Antichain(vs: seq<Version>) {
    forall i, j :: 0 <= i < |vs| && 0 <= j < |vs| && i != j ==> !Leq(vs[i].clock, vs[j].clock)
  }

  /** Equal clocks always mean the same version. */
  ghost predicate Coherent(all: set<Version>) {
    forall v, w :: v in all && w in all && Same(v.clock, w.clock) ==> v == w
  }

  /** `s` is an antichain drawn from `all` that covers all of `all`. */
  ghost predicate Represents(s: seq<Version>, all: set<Version>) {
    && Antichain(s)
    && (forall i :: 0 <= i < |s| ==> s[i] in all)
    && (forall v {:trigger Covers(s, v.clock)} :: v in all ==> Covers(s, v.clock))
  }

  function Elements(vs: seq<Version>): set<Version> {
    set v | v in vs
  }

  // ---------------------------------------------------------------- Reconcile

  /** The existing versions that `incoming` does not supersede, in their order. */
  function Unsuperseded(existing: seq<Version>, incoming: Version): seq<Version> {
    if existing == [] then []
    else
      var rest := Unsuperseded(existing[..|existing| - 1], incoming);
      var last := existing[|existing| - 1];
      if Compare(last.clock, incoming.clock) == Before then rest else rest + [last]
  }

  predicate IsCovered(existing: seq<Version>, incoming: Version)
    ensures IsCovered(existing, incoming) <==> Covers(existing, incoming.clock)
  {
    var covered := exists i | 0 <= i < |existing| ::
                     Compare(existing[i].clock, incoming.clock) in {After, Order.Equal};
    assert forall i | 0 <= i < |existing| ::
        Compare(existing[i].clock, incoming.clock) in {After, Order.Equal} <==>
            Leq(incoming.clock, existing[i].clock) by {
      forall i | 0 <= i < |existing| { SameIsLeqBothWays(existing[i].clock, incoming.clock); }
    }
    covered
  }

  function Reconciled(existing: seq<Version>, incoming: Version): seq<Version> {
    Unsuperseded(existing, incoming) + if IsCovered(existing, incoming) then [] else [incoming]
  }

  /** One pass over the existing set, as a replica does on every write. */
  method Reconcile(existing: seq<Version>, incoming: Version) returns (result: seq<Version>)
    ensures result == Reconciled(existing, incoming)
  {
    result := [];
    var covered := false;
    for i := 0 to |existing|
      invariant result == Unsuperseded(existing[..i], incoming)
      invariant covered <==> Covers(existing[..i], incoming.clock)
    {
      var v := existing[i];
      assert existing[..i + 1][..i] == existing[..i];
      SameIsLeqBothWays(v.clock, incoming.clock);
      CoversAppend(existing[..i], v, incoming.clock);
      assert existing[..i + 1] == existing[..i] + [v];
      match Compare(v.clock, incoming.clock) {
        case After | Equal =>
          result := result + [v];
          covered := true;
        case Concurrent =>
          result := result + [v];
        case Before =>
      }
    }
    assert existing[..|existing|] == existing;
    if !covered {
      result := result + [incoming];
    }
  }

  lemma CoversAppend(vs: seq<Version>, v: Version, clock: Clock)
    ensures Covers(vs + [v], clock) <==> Covers(vs, clock) || Leq(clock, v.clock)
  {
    var all := vs + [v];
    if Covers(vs, clock) {
      var i :| 0 <= i < |vs| && Leq(clock, vs[i].clock);
      assert Leq(clock, all[i].clock);
    }
    if Leq(clock, v.clock) {
      assert Leq(clock, all[|vs|].clock);
    }
    if Covers(all, clock) {
      var i :| 0 <= i < |all| && Leq(clock, all[i].clock);
      assert i < |vs| ==> Leq(clock, vs[i].clock);
    }
  }

  /** What survives: the versions not strictly below the incoming one, and no others. */
  lemma {:induction false} UnsupersededContents(existing: seq<Version>, incoming: Version)
    ensures forall v :: v in Unsuperseded(existing, incoming) <==> v in existing && !Lt(v.clock, incoming.clock)
  {
    if existing != [] {
      var init := existing[..|existing| - 1];
      UnsupersededContents(init, incoming);
      assert existing == init + [existing[|existing| - 1]];
    }
  }

  lemma {:induction false} UnsupersededAntichain(existing: seq<Version>, incoming: Version)
    requires Antichain(existing)
    ensures Antichain(Unsuperseded(existing, incoming))
  {
    if existing != [] {
      var init := existing[..|existing| - 1];
      var last := existing[|existing| - 1];
      UnsupersededAntichain(init, incoming);
      UnsupersededContents(init, incoming);
      var rest := Unsuperseded(init, incoming);
      forall i | 0 <= i < |rest|
        ensures !Leq(rest[i].clock, last.clock) && !Leq(last.clock, rest[i].clock)
      {
        assert rest[i] in init;
        var j :| 0 <= j < |init| && init[j] == rest[i];
        assert existing[j] == rest[i];
      }
    }
  }

  lemma CoversIn(vs: seq<Version>, v: Version, clock: Clock)
    requires v in vs && Leq(clock, v.clock)
    ensures Covers(vs, clock)
  {
  }

  lemma CoversDown(vs: seq<Version>, low: Clock, high: Clock)
    requires Covers(vs, high) && Leq(low, high)
    ensures Covers(vs, low)
  {
  }

  /** The heart of reconciliation: it extends what a set represents by exactly the incoming version. */
  lemma ReconciledRepresents(existing: seq<Version>, all: set<Version>, incoming: Version)
    requires Represents(existing, all)
    ensures Represents(Reconciled(existing, incoming), all + {incoming})
  {
    var kept := Unsuperseded(existing, incoming);
    var result := Reconciled(existing, incoming);
    UnsupersededContents(existing, incoming);
    UnsupersededAntichain(existing, incoming);
    if !IsCovered(existing, incoming) {
      forall i | 0 <= i < |kept|
        ensures !Leq(kept[i].clock, incoming.clock) && !Leq(incoming.clock, kept[i].clock)
      {
        assert kept[i] in existing && !Lt(kept[i].clock, incoming.clock);
        assert !Leq(incoming.clock, kept[i].clock);
      }
    }
    ReconciledCovers(existing, incoming);
    forall v | v in all + {incoming} ensures Covers(result, v.clock) {
      if v in all {
        assert Covers(existing, v.clock);
      }
    }
    forall i | 0 <= i < |result| ensures result[i] in all + {incoming} {
      assert result[i] in kept || result[i] == incoming;
    }
  }

  /** Nothing that was covered is ever lost, and the incoming version is covered afterwards. */
  lemma ReconciledCovers(existing: seq<Version>, incoming: Version)
    ensures Covers(Reconciled(existing, incoming), incoming.clock)
    ensures forall clock :: Covers(existing, clock) ==> Covers(Reconciled(existing, incoming), clock)
  {
    var result := Reconciled(existing, incoming);
    UnsupersededContents(existing, incoming);
    if IsCovered(existing, incoming) {
      var i :| 0 <= i < |existing| && Leq(incoming.clock, existing[i].clock);
      assert existing[i] in result;
      CoversIn(result, existing[i], incoming.clock);
    } else {
      CoversIn(result, incoming, incoming.clock);
    }
    forall clock | Covers(existing, clock) ensures Covers(result, clock) {
      var i :| 0 <= i < |existing| && Leq(clock, existing[i].clock);
      if Lt(existing[i].clock, incoming.clock) {
        LeqTransitive(clock, existing[i].clock, incoming.clock);
        CoversDown(result, clock, incoming.clock);
      } else {
        assert existing[i] in result;
        CoversIn(result, existing[i], clock);
      }
    }
  }

  // ---------------------------------------------------------------- Folding

  /** Reconciling a whole batch, one version after the other. */
  function Folded(start: seq<Version>, batch: seq<Version>): seq<Version> {
    if batch == [] then start
    else Reconciled(Folded(start, batch[..|batch| - 1]), batch[|batch| - 1])
  }

  /** The update every repair path runs: fold each incoming version into the stored set. */
  method Fold(start: seq<Version>, batch: seq<Version>) returns (existing: seq<Version>)
    ensures existing == Folded(start, batch)
  {
    existing := start;
    for i := 0 to |batch|
      invariant existing == Folded(start, batch[..i])
    {
      existing := Reconcile(existing, batch[i]);
      assert batch[..i + 1][..i] == batch[..i];
    }
    assert batch[..|batch|] == batch;
  }

  lemma {:induction false} FoldedRepresents(start: seq<Version>, all: set<Version>, batch: seq<Version>)
    requires Represents(start, all)
    ensures Represents(Folded(start, batch), all + Elements(batch))
  {
    hide Represents, Reconciled;
    if batch == [] {
      assert all + Elements(batch) == all;
    } else {
      var init := batch[..|batch| - 1];
      var last := batch[|batch| - 1];
      FoldedRepresents(start, all, init);
      ReconciledRepresents(Folded(start, init), all + Elements(init), last);
      assert batch == init + [last];
      assert all + Elements(batch) == all + Elements(init) + {last};
    }
  }

  lemma {:induction false} FoldedCovers(start: seq<Version>, batch: seq<Version>)
    ensures forall clock :: Covers(start, clock) || Covers(batch, clock) ==> Covers(Folded(start, batch), clock)
  {
    if batch != [] {
      var init := batch[..|batch| - 1];
      var last := batch[|batch| - 1];
      FoldedCovers(start, init);
      var mid := Folded(start, init);
      ReconciledCovers(mid, last);
      assert batch == init + [last];
      forall clock | Covers(start, clock) || Covers(batch, clock)
        ensures Covers(Folded(start, batch), clock)
      {
        CoversAppend(init, last, clock);
        if Leq(clock, last.clock) { CoversDown(Reconciled(mid, last), clock, last.clock); }
      }
    }
  }

  /** Provenance: a fold invents nothing. */
  lemma {:induction false} FoldedElements(start: seq<Version>, batch: seq<Version>, v: Version)
    requires v in Folded(start, batch)
    ensures v in start || v in batch
  {
    if batch != [] {
      var init := batch[..|batch| - 1];
      var last := batch[|batch| - 1];
      var mid := Folded(start, init);
      UnsupersededContents(mid, last);
      if v != last {
        assert v in Unsuperseded(mid, last);
        FoldedElements(start, init, v);
      }
    }
  }

  ghost predicate Maximal(v: Version, all: set<Version>) {
    v in all && forall w :: w in all ==> !Lt(v.clock, w.clock)
  }

  lemma SiblingIsMaximal(s: seq<Version>, i: nat, d: Clock)
    requires Antichain(s) && i < |s| && Covers(s, d)
    ensures !Lt(s[i].clock, d)
  {
  }

  /** A representing set holds exactly the clock-maximal versions. */
  lemma RepresentsMaxima(s: seq<Version>, all: set<Version>)
    requires Represents(s, all) && Coherent(all)
    ensures forall v :: v in s <==> Maximal(v, all)
  {
    forall v ensures v in s <==> Maximal(v, all) {
      if v in s {
        var i :| 0 <= i < |s| && s[i] == v;
        forall w | w in all ensures !Lt(v.clock, w.clock) { SiblingIsMaximal(s, i, w.clock); }
      }
      if Maximal(v, all) {
        assert Covers(s, v.clock);
        var j :| 0 <= j < |s| && Leq(v.clock, s[j].clock);
        assert s[j] in all;
        SameIsLeqBothWays(v.clock, s[j].clock);
        assert v == s[j];
      }
    }
  }

  lemma AntichainDistinct(s: seq<Version>)
    requires Antichain(s)
    ensures Distinct(s)
  {
  }

  /** What a set of versions reconciles to is unique up to the order of the siblings. */
  lemma RepresentationIsUnique(s: seq<Version>, t: seq<Version>, all: set<Version>)
    requires Represents(s, all) && Represents(t, all) && Coherent(all)
    ensures multiset(s) == multiset(t)
  {
    assert forall v :: v in s <==> v in t by {
      RepresentsMaxima(s, all);
      RepresentsMaxima(t, all);
    }
    AntichainDistinct(s);
    AntichainDistinct(t);
    SameElementsSameMultiset(s, t);
  }

  /** Folding any sequence of versions yields exactly its clock-maximal members, each once. */
  lemma FoldIsMaxima(vs: seq<Version>)
    requires Coherent(Elements(vs))
    ensures Antichain(Folded([], vs))
    ensures forall v :: v in Folded([], vs) <==> Maximal(v, Elements(vs))
  {
    FoldedRepresents([], {}, vs);
    assert {} + Elements(vs) == Elements(vs);
    RepresentsMaxima(Folded([], vs), Elements(vs));
  }

  /** Order and repetition are irrelevant: replicas that received the same versions hold the same set. */
  lemma FoldOrderIrrelevant(vs: seq<Version>, ws: seq<Version>)
    requires Elements(vs) == Elements(ws) && Coherent(Elements(vs))
    ensures multiset(Folded([], vs)) == multiset(Folded([], ws))
  {
    FoldedRepresents([], {}, vs);
    FoldedRepresents([], {}, ws);
    assert {} + Elements(vs) == Elements(vs) == {} + Elements(ws);
    RepresentationIsUnique(Folded([], vs), Folded([], ws), Elements(vs));
  }

  /** Grouping is irrelevant: exchanging reconciled sets is as good as exchanging the raw versions. */
  lemma FoldGroupingIrrelevant(vs: seq<Version>, ws: seq<Version>)
    requires Coherent(Elements(vs + ws))
    ensures multiset(Folded(Folded([], vs), Folded([], ws))) == multiset(Folded([], vs + ws))
  {
    var a := Folded([], vs);
    var b := Folded([], ws);
    var all := Elements(vs + ws);
    FoldedRepresents([], {}, vs);
    FoldedRepresents([], {}, ws);
    FoldedRepresents([], {}, vs + ws);
    FoldedRepresents(a, {} + Elements(vs), b);
    assert {} + Elements(vs + ws) == all;
    var both := Folded(a, b);
    FoldedCovers(a, b);
    assert Represents(both, all) by {
      forall v | v in all ensures Covers(both, v.clock) {
        assert v in Elements(vs) || v in Elements(ws);
        assert Covers(a, v.clock) || Covers(b, v.clock);
      }
    }
    RepresentationIsUnique(both, Folded([], vs + ws), all);
  }

  ghost predicate SeenIn(s: seq<Version>, clock: Clock) {
    exists j :: 0 <= j < |s| && Same(s[j].clock, clock)
  }

  ghost predicate AllSeen(s: seq<Version>, batch: seq<Version>) {
    forall i :: 0 <= i < |batch| ==> SeenIn(s, batch[i].clock)
  }

  lemma ReconciledSeen(s: seq<Version>, v: Version)
    requires Antichain(s) && SeenIn(s, v.clock)
    ensures Reconciled(s, v) == s
  {
    var j :| 0 <= j < |s| && Same(s[j].clock, v.clock);
    SameIsLeqBothWays(s[j].clock, v.clock);
    assert Covers(s, v.clock);
    forall i | 0 <= i < |s| ensures !Lt(s[i].clock, v.clock) { SiblingIsMaximal(s, i, v.clock); }
    UnsupersededAll(s, v);
    assert s + [] == s;
  }

  /** Folding in a batch that is already covered by the very same siblings changes nothing at all. */
  lemma {:induction false} FoldedCoveredBatch(s: seq<Version>, batch: seq<Version>)
    requires Antichain(s)
    requires AllSeen(s, batch)
    ensures Folded(s, batch) == s
  {
    hide Antichain, SeenIn, Reconciled;
    if batch != [] {
      var init := batch[..|batch| - 1];
      assert forall i :: 0 <= i < |init| ==> init[i] == batch[i];
      FoldedCoveredBatch(s, init);
      ReconciledSeen(s, batch[|batch| - 1]);
    }
  }

  lemma {:induction false} UnsupersededAll(s: seq<Version>, v: Version)
    requires forall i :: 0 <= i < |s| ==> !Lt(s[i].clock, v.clock)
    ensures Unsuperseded(s, v) == s
  {
    if s != [] {
      var init := s[..|s| - 1];
      forall i | 0 <= i < |init| ensures !Lt(init[i].clock, v.clock) { assert init[i] == s[i]; }
      UnsupersededAll(init, v);
    }
  }

  // ---------------------------------------------------------------- Frontier and minting

  function FrontierOf(versions: seq<Version>): Clock {
    if versions == [] then map[]
    else Join(versions[|versions| - 1].clock, FrontierOf(versions[..|versions| - 1]))
  }

  method Frontier(versions: seq<Version>) returns (merged: Clock)
    ensures merged == FrontierOf(versions)
  {
    merged := map[];
    for i := 0 to |versions|
      invariant merged == FrontierOf(versions[..i])
    {
      merged := Merge(versions[i].clock, merged);
      assert versions[..i + 1][..i] == versions[..i];
    }
    assert versions[..|versions|] == versions;
  }

  ghost predicate AllBelow(versions: seq<Version>, d: Clock) {
    forall i :: 0 <= i < |versions| ==> Leq(versions[i].clock, d)
  }

  lemma AllBelowSnoc(versions: seq<Version>, d: Clock)
    requires versions != []
    ensures AllBelow(versions, d) <==> AllBelow(versions[..|versions| - 1], d) && Leq(versions[|versions| - 1].clock, d)
  {
  }

  lemma JoinBelow(a: Clock, b: Clock, d: Clock)
    ensures Leq(Join(a, b), d) <==> Leq(a, d) && Leq(b, d)
  {
  }

  /** The frontier is the least clock that descends every sibling. */
  lemma {:induction false} FrontierIsLub(versions: seq<Version>, d: Clock)
    ensures Leq(FrontierOf(versions), d) <==> AllBelow(versions, d)
  {
    if versions != [] {
      var init := versions[..|versions| - 1];
      FrontierIsLub(init, d);
      AllBelowSnoc(versions, d);
      JoinBelow(versions[|versions| - 1].clock, FrontierOf(init), d);
    }
  }

  /** Each frontier counter is attained: bounding every sibling bounds the frontier. */
  lemma {:induction false} FrontierAttained(versions: seq<Version>, n: Str, bound: nat)
    requires forall i :: 0 <= i < |versions| ==> At(versions[i].clock, n) <= bound
    ensures At(FrontierOf(versions), n) <= bound
  {
    if versions != [] {
      var init := versions[..|versions| - 1];
      forall i | 0 <= i < |init| ensures At(init[i].clock, n) <= bound { assert init[i] == versions[i]; }
      FrontierAttained(init, n, bound);
    }
  }

  lemma FrontierAbove(versions: seq<Version>, clock: Clock)
    requires Covers(versions, clock)
    ensures Leq(clock, FrontierOf(versions))
  {
  }

  /** The clock a coordinator mints for its next write over the siblings it stores. */
  function MintClock(existing: seq<Version>, self: Str): Clock {
    Increment(FrontierOf(existing), self)
  }

  /** A minted version descends every current sibling, so reconciling it in collapses the set to it. */
  lemma MintCollapses(existing: seq<Version>, self: Str, v: Version)
    requires v.clock == MintClock(existing, self)
    ensures forall i :: 0 <= i < |existing| ==> Lt(existing[i].clock, v.clock)
    ensures Reconciled(existing, v) == [v]
    ensures forall n :: At(v.clock, n) == At(FrontierOf(existing), n) + if n == self then 1 else 0
  {
    forall i | 0 <= i < |existing| ensures Lt(existing[i].clock, v.clock) {
      assert Leq(existing[i].clock, existing[i].clock);
      FrontierAbove(existing, existing[i].clock);
      LeqTransitive(existing[i].clock, FrontierOf(existing), v.clock);
    }
    UnsupersededNone(existing, v);
  }

  lemma {:induction false} UnsupersededNone(s: seq<Version>, v: Version)
    requires forall i :: 0 <= i < |s| ==> Lt(s[i].clock, v.clock)
    ensures Unsuperseded(s, v) == [] && !IsCovered(s, v)
  {
    if s != [] {
      var init := s[..|s| - 1];
      forall i | 0 <= i < |init| ensures Lt(init[i].clock, v.clock) { assert init[i] == s[i]; }
      UnsupersededNone(init, v);
    }
  }

  /** On frontiers, reconciling is exactly the join, so no counter of a frontier ever falls. */
  lemma ReconciledFrontier(existing: seq<Version>, incoming: Version)
    ensures Same(FrontierOf(Reconciled(existing, incoming)), Join(FrontierOf(existing), incoming.clock))
  {
    var result := Reconciled(existing, incoming);
    var joined := Join(FrontierOf(existing), incoming.clock);
    ReconciledCovers(existing, incoming);
    UnsupersededContents(existing, incoming);
    FrontierIsLub(result, joined);
    FrontierIsLub(existing, FrontierOf(result));
    forall i | 0 <= i < |existing| ensures Leq(existing[i].clock, FrontierOf(result)) {
      assert Leq(existing[i].clock, existing[i].clock);
      assert Covers(existing, existing[i].clock);
      FrontierAbove(result, existing[i].clock);
    }
    FrontierAbove(result, incoming.clock);
    forall i | 0 <= i < |result| ensures Leq(result[i].clock, joined) {
      if result[i] != incoming {
        assert result[i] in existing;
        var j :| 0 <= j < |existing| && existing[j] == result[i];
        assert Leq(existing[j].clock, existing[j].clock);
        FrontierAbove(existing, existing[j].clock);
        LeqTransitive(existing[j].clock, FrontierOf(existing), joined);
      }
    }
    SameIsLeqBothWays(FrontierOf(result), joined);
  }

  // ---------------------------------------------------------------- Live

  /** The versions a client can see. */
  function LiveOf(versions: seq<Version>): (l: seq<Version>)
    ensures forall v :: v in l <==> v in versions && !v.deleted
  {
    if versions == [] then []
    else
      var last := versions[|versions| - 1];
      var rest := LiveOf(versions[..|versions| - 1]);
      assert versions == versions[..|versions| - 1] + [last];
      if last.deleted then rest else rest + [last]
  }

  method Live(versions: seq<Version>) returns (l: seq<Version>)
    ensures l == LiveOf(versions)
  {
    l := [];
    for i := 0 to |versions|
      invariant l == LiveOf(versions[..i])
    {
      assert versions[..i + 1][..i] == versions[..i];
      if !versions[i].deleted {
        l := l + [versions[i]];
      }
    }
    assert versions[..|versions|] == versions;
  }

  // ---------------------------------------------------------------- Equal

  /** The identity read-repair compares by: value, clock and the deleted flag, but not `deletedAt`. */
  predicate Matches(a: Version, b: Version) {
    a.value == b.value && Compare(a.clock, b.clock) == Order.Equal && a.deleted == b.deleted
  }

  /** Some version of `s` is the same version as `v`. */
  predicate HasMatch(v: Version, s: seq<Version>) {
    exists j | 0 <= j < |s| :: Matches(v, s[j])
  }

  predicate AllMatch(a: seq<Version>, b: seq<Version>) {
    forall i | 0 <= i < |a| :: HasMatch(a[i], b)
  }

  predicate EqualScan(a: seq<Version>, b: seq<Version>) {
    |a| == |b| && AllMatch(a, b)
  }

  /** `Equal` looks every version of `a` up in `b` and never the other way round. */
  method Equal(a: seq<Version>, b: seq<Version>) returns (same: bool)
    ensures same == EqualScan(a, b)
  {
    if |a| != |b| { return false; }
    for i := 0 to |a|
      invariant forall k | 0 <= k < i :: HasMatch(a[k], b)
    {
      var found := false;
      for j := 0 to |b|
        invariant !found && forall k | 0 <= k < j :: !Matches(a[i], b[k])
      {
        if Matches(a[i], b[j]) { found := true; break; }
      }
      if !found { return false; }
    }
    return true;
  }

  ghost function MatchIndex(v: Version, s: seq<Version>): (j: nat)
    requires HasMatch(v, s)
    ensures j < |s| && Matches(v, s[j])
  {
    var j: nat :| j < |s| && Matches(v, s[j]); j
  }

  /** Where each version of `a` is found in `b`. */
  ghost function Lookup(a: seq<Version>, b: seq<Version>): (f: seq<nat>)
    requires AllMatch(a, b)
    ensures |f| == |a| && forall i :: 0 <= i < |f| ==> f[i] < |b|
  {
    seq(|a|, i requires 0 <= i < |a| => MatchIndex(a[i], b))
  }

  /** Distinct siblings are found at distinct places. */
  lemma LookupDistinct(a: seq<Version>, b: seq<Version>)
    requires Antichain(a) && AllMatch(a, b)
    ensures Distinct(Lookup(a, b))
  {
  }

  lemma MatchesSymmetric(v: Version, w: Version)
    requires Matches(v, w)
    ensures Matches(w, v)
  {
  }

  lemma ScanIsOnto(a: seq<Version>, b: seq<Version>)
    requires Antichain(a) && EqualScan(a, b)
    ensures AllMatch(b, a)
  {
    var f := Lookup(a, b);
    LookupDistinct(a, b);
    Pigeonhole(f, |b|);
    forall j: nat | j < |b| ensures HasMatch(b[j], a) {
      assert j in f;
      var i :| 0 <= i < |f| && f[i] == j;
      MatchesSymmetric(a[i], b[j]);
    }
  }

  /** The same version as read repair sees it: value, counters and the deleted flag. */
  ghost predicate SameVersion(v: Version, w: Version) {
    v.value == w.value && v.deleted == w.deleted && forall n :: At(v.clock, n) == At(w.clock, n)
  }

  ghost predicate Within(a: seq<Version>, b: seq<Version>) {
    forall v :: v in a ==> exists w :: w in b && SameVersion(v, w)
  }

  lemma MatchesIsSameVersion(v: Version, w: Version)
    ensures Matches(v, w) <==> SameVersion(v, w)
  {
  }

  lemma AllMatchIsWithin(a: seq<Version>, b: seq<Version>)
    ensures AllMatch(a, b) <==> Within(a, b)
  {
    hide Matches, SameVersion;
    forall v, w ensures Matches(v, w) <==> SameVersion(v, w) { MatchesIsSameVersion(v, w); }
    if Within(a, b) {
      forall i | 0 <= i < |a| ensures HasMatch(a[i], b) {
        assert a[i] in a;
        var w :| w in b && SameVersion(a[i], w);
        var j :| 0 <= j < |b| && b[j] == w;
      }
    }
  }

  /** On antichains the one-way scan tells whether both sides hold the same versions. */
  lemma EqualMeansSameVersions(a: seq<Version>, b: seq<Version>)
    requires Antichain(a) && Antichain(b)
    ensures EqualScan(a, b) <==> Within(a, b) && Within(b, a)
  {
    hide Antichain, EqualScan, Within, AllMatch;
    EqualIsSymmetric(a, b);
    AllMatchIsWithin(a, b);
    AllMatchIsWithin(b, a);
  }

  /** On antichains the one-way scan is set equality both ways. */
  lemma EqualIsSymmetric(a: seq<Version>, b: seq<Version>)
    requires Antichain(a) && Antichain(b)
    ensures EqualScan(a, b) <==> AllMatch(a, b) && AllMatch(b, a)
  {
    if EqualScan(a, b) { ScanIsOnto(a, b); }
    if AllMatch(a, b) && AllMatch(b, a) {
      LookupDistinct(a, b);
      Pigeonhole(Lookup(a, b), |b|);
      LookupDistinct(b, a);
      Pigeonhole(Lookup(b, a), |a|);
    }
  }

  /** Skipping an `Equal` replica is right: pushing the merged set to it would change nothing. */
  lemma EqualNeedsNoRepair(held: seq<Version>, merged: seq<Version>)
    requires Antichain(held) && EqualScan(held, merged)
    ensures Folded(held, merged) == held
    ensures forall clock :: Covers(merged, clock) ==> Covers(held, clock)
  {
    assert Folded(held, merged) == held by {
      ScanIsOnto(held, merged);
      forall j | 0 <= j < |merged| ensures SeenIn(held, merged[j].clock) {
        assert HasMatch(merged[j], held);
        var i := MatchIndex(merged[j], held);
        assert Same(held[i].clock, merged[j].clock);
      }
      FoldedCoveredBatch(held, merged);
    }
    FoldedCovers(held, merged);
  }
}
