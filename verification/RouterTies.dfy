/**
 Ties on the ring are exactly what can part two routers of the same members (internal/cluster/ring.go,
 internal/cluster/router.go). They part them even if sorting keeps the order of equal hashes, because the
 roster may be iterated in another order.
 */
module RouterTies {
  import opened Bytes
  import opened Seqs
  import opened Ring
  import opened Router

  /** The same members in some order, each once, as a roster yields them. */
  ghost predicate Lists(ids: seq<Str>, members: seq<Str>) {
    Distinct(ids) && forall x :: x in ids <==> x in members
  }

  /** Whatever two routers of these members publish, they give every key the same replica list. */
  ghost predicate AlwaysAgree(hash: Str -> nat, n: nat, members: seq<Str>) {
    forall a: seq<Str>, b: seq<Str>, ra: seq<Point>, rb: seq<Point>, key: Str, want: int ::
      Lists(a, members) && Lists(b, members) && IsRingOf(ra, hash, a, n) && IsRingOf(rb, hash, b, n) ==>
        Replicas(ra, hash(key), want) == Replicas(rb, hash(key), want)
  }

  /** The ring of a listing under the one sort that keeps the order of equal hashes. */
  function StableRing(hash: Str -> nat, n: nat, ids: seq<Str>): seq<Point> {
    Arranged(AllPoints(hash, ids, n))
  }

  /** Routers that all use that sort agree, whatever the order in which their rosters were iterated. */
  ghost predicate StablyAgree(hash: Str -> nat, n: nat, members: seq<Str>) {
    forall a: seq<Str>, b: seq<Str>, key: Str, want: int :: Lists(a, members) && Lists(b, members) ==>
      Replicas(StableRing(hash, n, a), hash(key), want) == Replicas(StableRing(hash, n, b), hash(key), want)
  }

  // ---------------------------------------------------------------- The stable sort

  function Exactly(h: nat): Point -> bool { (p: Point) => p.hash == h }

  lemma {:induction false} InsertedKeepsOrder(points: seq<Point>, p: Point, h: nat)
    ensures Filter(Exactly(h), Inserted(points, p)) == Filter(Exactly(h), [p]) + Filter(Exactly(h), points)
  {
    hide Filter;
    if points == [] || points[0].hash >= p.hash {
      FilterSplits(Exactly(h), [p], points);
    } else {
      var first, rest := [points[0]], points[1..];
      assert points == first + rest;
      InsertedKeepsOrder(rest, p, h);
      FilterSplits(Exactly(h), first, Inserted(rest, p));
      FilterSplits(Exactly(h), first, rest);
      if p.hash == h { FilterNone(Exactly(h), first); } else { FilterNone(Exactly(h), [p]); }
    }
  }

  /** Points with the same hash keep their order. */
  lemma {:induction false} ArrangedKeepsOrder(points: seq<Point>, h: nat)
    ensures Filter(Exactly(h), Arranged(points)) == Filter(Exactly(h), points)
  {
    if points != [] {
      var first, rest := [points[0]], points[1..];
      assert points == first + rest;
      ArrangedKeepsOrder(rest, h);
      InsertedKeepsOrder(Arranged(rest), points[0], h);
      FilterSplits(Exactly(h), first, rest);
    }
  }

  /** A key whose hash is that of some points is owned by the first of them. */
  lemma OwnerIsFirstAt(ring: seq<Point>, h: nat)
    requires Sorted(ring) && Filter(Exactly(h), ring) != []
    ensures Owner(ring, h) == Some(Filter(Exactly(h), ring)[0].node)
  {
    hide Filter;
    FilterContents(Exactly(h), ring);
    assert Filter(Exactly(h), ring)[0] in ring;
    var k :| 0 <= k < |ring| && ring[k].hash == h;
    var idx := FirstAtOrAbove(ring, h, k);
    FirstAmong(ring, h, idx);
    WalkFrom(ring, h, idx);
    hide Clockwise, Sorted;
  }

  lemma FirstAmong(ring: seq<Point>, h: nat, idx: nat)
    requires idx < |ring| && ring[idx].hash == h && forall i :: 0 <= i < idx ==> ring[i].hash < h
    ensures Filter(Exactly(h), ring) != [] && Filter(Exactly(h), ring)[0] == ring[idx]
  {
    hide Filter;
    var before, at, after := ring[..idx], [ring[idx]], ring[idx + 1..];
    assert ring == before + (at + after);
    FilterSplits(Exactly(h), before, at + after);
    FilterSplits(Exactly(h), at, after);
    FilterNone(Exactly(h), before);
    FilterAll(Exactly(h), at);
  }

  lemma {:induction false} FirstAtOrAbove(ring: seq<Point>, h: nat, k: nat) returns (idx: nat)
    requires Sorted(ring) && k < |ring| && ring[k].hash == h
    ensures idx <= k && ring[idx].hash == h
    ensures forall i :: 0 <= i < idx ==> ring[i].hash < h
    ensures forall i :: idx <= i < |ring| ==> ring[i].hash >= h
  {
    if k > 0 && ring[k - 1].hash == h { idx := FirstAtOrAbove(ring, h, k - 1); } else { idx := k; }
  }

  // ---------------------------------------------------------------- Listing one node first

  /** Every point of a ring sits at the hash of its own label. */
  lemma {:induction false} PointHasLabel(hash: Str -> nat, ids: seq<Str>, n: nat, p: Point) returns (i: nat)
    requires p in AllPoints(hash, ids, n)
    ensures p.node in ids && i < n && p == Point(hash(Label(p.node, i)), p.node)
  {
    var init, last := ids[..|ids| - 1], ids[|ids| - 1];
    if p in AllPoints(hash, init, n) {
      i := PointHasLabel(hash, init, n, p);
    } else {
      var more := PointsOf(hash, last, n);
      i :| 0 <= i < n && more[i] == p;
    }
  }

  function Leading(x: Str, members: seq<Str>): seq<Str> {
    [x] + Drop(members, x)
  }

  lemma LeadingLists(x: Str, members: seq<Str>)
    requires Distinct(members) && x in members
    ensures Lists(Leading(x, members), members)
  {
    FilterContents(IsNot(x), members);
    FilterDistinct(IsNot(x), members);
  }

  /** The node that is listed first owns the labels of its points, whoever else has points there. */
  lemma LeaderOwns(hash: Str -> nat, n: nat, members: seq<Str>, x: Str, i: nat)
    requires i < n
    ensures var ring := StableRing(hash, n, Leading(x, members));
            ring != [] && Owner(ring, hash(Label(x, i))) == Some(x)
  {
    hide Filter, AllPoints, Arranged, Owner, Label;
    var h := hash(Label(x, i));
    var rest := Drop(members, x);
    var own, others := PointsOf(hash, x, n), AllPoints(hash, rest, n);
    var points := AllPoints(hash, [x] + rest, n);
    AllPointsSplits(hash, [x], rest, n);
    AllPointsOne(hash, x, n);
    FilterSplits(Exactly(h), own, others);
    FilterContents(Exactly(h), own);
    assert own[i] in own && own[i] in Filter(Exactly(h), own);
    assert Filter(Exactly(h), own)[0] in own;
    ArrangedSorted(points);
    ArrangedKeepsOrder(points, h);
    OwnerIsFirstAt(Arranged(points), h);
    FilterContents(Exactly(h), Arranged(points));
  }

  lemma OwnerHeadsReplicas(points: seq<Point>, h: nat)
    requires points != []
    ensures Replicas(points, h, 1) != [] && Owner(points, h) == Some(Replicas(points, h, 1)[0])
  {
    ReplicasMean(points, h, 1);
  }

  /** Two orders of the roster part the routers on the very key that is the label of a tied point. */
  lemma TieParts(hash: Str -> nat, n: nat, members: seq<Str>, p: Point, q: Point)
    requires Distinct(members) && p in AllPoints(hash, members, n) && q in AllPoints(hash, members, n)
    requires p.hash == q.hash && p != q
    ensures !StablyAgree(hash, n, members)
  {
    hide AllPoints, Replicas, Owner, Label, StableRing, Leading;
    var i := PointHasLabel(hash, members, n, p);
    var j := PointHasLabel(hash, members, n, q);
    var a, b, key := Leading(p.node, members), Leading(q.node, members), Label(p.node, i);
    LeadingLists(p.node, members);
    LeadingLists(q.node, members);
    LeaderOwns(hash, n, members, p.node, i);
    LeaderOwns(hash, n, members, q.node, j);
    OwnerHeadsReplicas(StableRing(hash, n, a), hash(key));
    OwnerHeadsReplicas(StableRing(hash, n, b), hash(key));
    assert Replicas(StableRing(hash, n, a), hash(key), 1) != Replicas(StableRing(hash, n, b), hash(key), 1);
  }

  // ---------------------------------------------------------------- Agreement

  lemma NoTiesAgree(hash: Str -> nat, n: nat, members: seq<Str>)
    requires Distinct(members) && NoTies(multiset(AllPoints(hash, members, n)))
    ensures AlwaysAgree(hash, n, members)
  {
    hide AllPoints, Replicas, Owner, IsRingOf, NoTies;
    forall a: seq<Str>, b: seq<Str>, ra: seq<Point>, rb: seq<Point>, key: Str, want: int |
      Lists(a, members) && Lists(b, members) && IsRingOf(ra, hash, a, n) && IsRingOf(rb, hash, b, n)
      ensures Replicas(ra, hash(key), want) == Replicas(rb, hash(key), want)
    {
      SameElementsSameMultiset(a, members);
      AddOrderIrrelevant(hash, a, members, n);
      RoutersAgree(hash, n, a, b, ra, rb, key, want);
    }
  }

  lemma AlwaysIsStably(hash: Str -> nat, n: nat, members: seq<Str>)
    requires AlwaysAgree(hash, n, members)
    ensures StablyAgree(hash, n, members)
  {
    hide AllPoints, Replicas, Arranged, Lists;
    forall ids: seq<Str> ensures IsRingOf(StableRing(hash, n, ids), hash, ids, n) {
      ArrangedSorted(AllPoints(hash, ids, n));
    }
  }

  /**
   Routers of the same members agree on every key if and only if no two members share a point hash, and a
   sort that keeps the order of equal hashes changes nothing about that.
   */
  lemma RoutersAgreeIff(hash: Str -> nat, n: nat, members: seq<Str>)
    requires Distinct(members)
    ensures AlwaysAgree(hash, n, members) <==> NoTies(multiset(AllPoints(hash, members, n)))
    ensures StablyAgree(hash, n, members) <==> NoTies(multiset(AllPoints(hash, members, n)))
  {
    hide AllPoints, AlwaysAgree, StablyAgree;
    var points := AllPoints(hash, members, n);
    if NoTies(multiset(points)) {
      NoTiesAgree(hash, n, members);
      AlwaysIsStably(hash, n, members);
    } else {
      var p: Point, q: Point :| p in multiset(points) && q in multiset(points) && p.hash == q.hash && p != q;
      assert p in points && q in points;
      TieParts(hash, n, members, p, q);
      if AlwaysAgree(hash, n, members) { AlwaysIsStably(hash, n, members); }
    }
  }
}
