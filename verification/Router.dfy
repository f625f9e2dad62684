/**
 Routing (internal/cluster/router.go): a ring rebuilt from the alive members, in whatever order the
 roster yields them, must answer alike on every node that sees the same members.
 */
module Router {
  import opened Bytes
  import opened Seqs
  import opened Ring
  import Membership

  /** The points of all the nodes in a list, in that order. */
  function AllPoints(hash: Str -> nat, ids: seq<Str>, n: nat): seq<Point> {
    if ids == [] then [] else AllPoints(hash, ids[..|ids| - 1], n) + PointsOf(hash, ids[|ids| - 1], n)
  }

  function Count(replicas: int): nat {
    if replicas > 0 then replicas else 0
  }

  /** Two nodes never share the hash of a point. */
  ghost predicate NoTies(points: multiset<Point>) {
    forall p, q :: p in points && q in points && p.hash == q.hash ==> p == q
  }

  // ---------------------------------------------------------------- One multiset, one ring

  lemma LastIsTop(a: seq<Point>, b: seq<Point>)
    requires Sorted(a) && b != [] && multiset(a) == multiset(b)
    ensures a != [] && b[|b| - 1] in a && b[|b| - 1].hash <= a[|a| - 1].hash
  {
    assert b[|b| - 1] in multiset(b);
    assert b[|b| - 1] in multiset(a);
  }

  lemma LastsAgree(a: seq<Point>, b: seq<Point>)
    requires Sorted(a) && Sorted(b) && multiset(a) == multiset(b) && NoTies(multiset(a)) && a != []
    ensures b != [] && a[|a| - 1] == b[|b| - 1]
  {
  }

  lemma {:induction false} SortedIsUnique(a: seq<Point>, b: seq<Point>)
    requires Sorted(a) && Sorted(b) && multiset(a) == multiset(b) && NoTies(multiset(a))
    ensures a == b
    decreases |a|
  {
    hide NoTies, Sorted;
    if a != [] {
      LastsAgree(a, b);
      InitMultiset(a);
      InitMultiset(b);
      NoTiesLess(multiset(a), a[|a| - 1]);
      SortedInit(a);
      SortedInit(b);
      SortedIsUnique(a[..|a| - 1], b[..|b| - 1]);
      assert a == a[..|a| - 1] + [a[|a| - 1]] && b == b[..|b| - 1] + [b[|b| - 1]];
    } else if b != [] {
      LastIsTop(a, b);
      assert false;
    }
  }

  lemma SortedInit(a: seq<Point>)
    requires Sorted(a) && a != []
    ensures Sorted(a[..|a| - 1])
  {
  }

  lemma NoTiesLess(points: multiset<Point>, x: Point)
    requires NoTies(points)
    ensures NoTies(points - multiset{x})
  {
  }

  lemma {:induction false} AllPointsSplits(hash: Str -> nat, a: seq<Str>, b: seq<Str>, n: nat)
    ensures AllPoints(hash, a + b, n) == AllPoints(hash, a, n) + AllPoints(hash, b, n)
  {
    if b == [] {
      assert a + b == a;
    } else {
      hide PointsOf;
      AllPointsSplits(hash, a, b[..|b| - 1], n);
      assert (a + b)[..|a + b| - 1] == a + b[..|b| - 1] && (a + b)[|a + b| - 1] == b[|b| - 1];
    }
  }

  lemma PointsWithout(hash: Str -> nat, b: seq<Str>, k: nat, n: nat)
    requires k < |b|
    ensures multiset(AllPoints(hash, b, n)) ==
                multiset(AllPoints(hash, b[..k] + b[k + 1..], n)) + multiset(PointsOf(hash, b[k], n))
  {
    hide AllPoints, PointsOf;
    var l, x, r := b[..k], b[k], b[k + 1..];
    assert b == l + ([x] + r);
    AllPointsSplits(hash, l, [x] + r, n);
    AllPointsSplits(hash, [x], r, n);
    AllPointsSplits(hash, l, r, n);
    AllPointsOne(hash, x, n);
  }

  /** The order in which nodes are added does not matter to the collection of points. */
  lemma {:induction false} AddOrderIrrelevant(hash: Str -> nat, a: seq<Str>, b: seq<Str>, n: nat)
    requires multiset(a) == multiset(b)
    ensures multiset(AllPoints(hash, a, n)) == multiset(AllPoints(hash, b, n))
    decreases |a|
  {
    if a != [] {
      var x := a[|a| - 1];
      assert x in multiset(a) && x in multiset(b);
      var k :| 0 <= k < |b| && b[k] == x;
      RemoveAt(b, k);
      InitMultiset(a);
      AddOrderIrrelevant(hash, a[..|a| - 1], b[..k] + b[k + 1..], n);
      PointsWithout(hash, b, k, n);
    } else {
      assert multiset(b) == multiset{};
      assert b == [];
    }
  }

  lemma {:induction false} PointsAreMany(hash: Str -> nat, ids: seq<Str>, n: nat)
    ensures |AllPoints(hash, ids, n)| == |ids| * n
  {
    if ids != [] {
      PointsAreMany(hash, ids[..|ids| - 1], n);
      assert (|ids| - 1) * n + n == |ids| * n;
    }
  }

  lemma AllPointsOne(hash: Str -> nat, x: Str, n: nat)
    ensures AllPoints(hash, [x], n) == PointsOf(hash, x, n)
  {
  }

  /** A ring that `rebuild` may publish for these members: their points in some order by hash. */
  ghost predicate IsRingOf(points: seq<Point>, hash: Str -> nat, ids: seq<Str>, n: nat) {
    Sorted(points) && multiset(points) == multiset(AllPoints(hash, ids, n))
  }

  /** Routers that see the same members agree on every key's replica list, ties aside. */
  lemma RoutersAgree(hash: Str -> nat, n: nat, a: seq<Str>, b: seq<Str>, ra: seq<Point>, rb: seq<Point>, key: Str,
                     want: int)
    requires Distinct(a) && Distinct(b) && forall x :: x in a <==> x in b
    requires IsRingOf(ra, hash, a, n) && IsRingOf(rb, hash, b, n)
    requires NoTies(multiset(AllPoints(hash, a, n)))
    ensures Replicas(ra, hash(key), want) == Replicas(rb, hash(key), want)
    ensures Owner(ra, hash(key)) == Owner(rb, hash(key))
  {
    SameElementsSameMultiset(a, b);
    AddOrderIrrelevant(hash, a, b, n);
    SortedIsUnique(ra, rb);
  }

  // ---------------------------------------------------------------- The router

  /** The IDs a roster holds alive, each once, in some order. */
  ghost predicate AreAlive(ids: seq<Str>, roster: Membership.Roster) {
    Distinct(ids) && forall x :: x in ids <==> x in roster && roster[x].node.state == Membership.ALIVE
  }

  class Router {
    const self: Str
    const replicas: int
    const hash: Str -> nat
    var ring: Circle
    ghost var members: seq<Str>

    ghost predicate Valid()
      reads this, ring
    {
      ring.hash == hash && Distinct(members) && IsRingOf(ring.points, hash, members, Count(replicas))
    }

    constructor (roster: Membership.Members, replicas: int, hash: Str -> nat)
      requires roster.Valid()
      ensures Valid() && self == roster.self && this.replicas == replicas && this.hash == hash
      ensures AreAlive(members, roster.nodes)
    {
      var circle, ids := Build(roster, replicas, hash);
      this.self := roster.self;
      this.replicas := replicas;
      this.hash := hash;
      this.ring := circle;
      members := ids;
    }

    static method Build(roster: Membership.Members, replicas: int, hash: Str -> nat)
      returns (ring: Circle, ghost ids: seq<Str>)
      requires roster.Valid()
      ensures fresh(ring) && ring.hash == hash && IsRingOf(ring.points, hash, ids, Count(replicas))
      ensures AreAlive(ids, roster.nodes) && (replicas >= 0 ==> |ring.points| == |ids| * replicas)
    {
      var alive := roster.Alive();
      ids := seq(|alive|, i requires 0 <= i < |alive| => alive[i].id);
      assert AreAlive(ids, roster.nodes) by { AliveIds(alive, ids, roster.nodes); }
      ring := new Circle(replicas, hash);
      for i := 0 to |alive|
        invariant fresh(ring) && ring.hash == hash && ring.replicas == replicas
        invariant ring.points == AllPoints(hash, ids[..i], Count(replicas))
      {
        assert ids[..i + 1][..i] == ids[..i];
        ring.Add(alive[i].id);
      }
      assert ids[..|alive|] == ids;
      PointsAreMany(hash, ids, Count(replicas));
      ghost var before := multiset(ring.points);
      ring.Sort();
      assert |multiset(ring.points)| == |before|;
    }

    /** A whole new ring replaces the old one, which is left as it was for whoever still reads it. */
    method Rebuild(roster: Membership.Members)
      requires roster.Valid()
      modifies this
      ensures Valid() && AreAlive(members, roster.nodes) && fresh(ring)
    {
      ring, members := Build(roster, replicas, hash);
    }

    method OwnerOf(key: Str) returns (r: Option<Str>)
      requires Valid()
      ensures r == Owner(ring.points, hash(key))
      ensures Count(replicas) > 0 ==> (r.None? <==> members == []) && (r.Some? ==> r.value in members)
    {
      r := ring.Get(key);
      RingNodes(ring.points, hash, members, Count(replicas));
      ReplicasMean(ring.points, hash(key), 1);
      assert r.Some? ==> r.value in Replicas(ring.points, hash(key), 1);
    }

    method IsLocal(key: Str) returns (r: bool)
      requires Valid()
      ensures r <==> Owner(ring.points, hash(key)) == Some(self)
    {
      var owner := OwnerOf(key);
      r := owner.Some? && owner.value == self;
    }

    /** Exactly min(n, members) of the members, each once, the owner first. */
    method Owners(key: Str, n: int) returns (nodes: seq<Str>)
      requires Valid()
      ensures nodes == Replicas(ring.points, hash(key), n) && Distinct(nodes)
      ensures Count(replicas) > 0 ==>
                && |nodes| == (if n <= 0 then 0 else if n < |members| then n else |members|)
                && forall x :: x in nodes ==> x in members
    {
      nodes := ring.GetN(key, n);
      ReplicasMean(ring.points, hash(key), n);
      RingNodes(ring.points, hash, members, Count(replicas));
      DistinctSize(members);
    }
  }

  lemma AliveIds(alive: seq<Membership.Node>, ids: seq<Str>, roster: Membership.Roster)
    requires |ids| == |alive| && forall i :: 0 <= i < |alive| ==> ids[i] == alive[i].id
    requires forall r :: r in alive <==> r.id in roster && roster[r.id].node == r && r.state == Membership.ALIVE
    requires forall id :: id in roster ==> roster[id].node.id == id
    requires forall i, j :: 0 <= i < j < |alive| ==> alive[i].id != alive[j].id
    ensures AreAlive(ids, roster)
  {
  }

  lemma {:induction false} AllPointsNodes(hash: Str -> nat, ids: seq<Str>, n: nat, x: Str)
    ensures x in NodesOf(AllPoints(hash, ids, n)) <==> n > 0 && x in ids
  {
    if ids != [] {
      var init, last := ids[..|ids| - 1], ids[|ids| - 1];
      AllPointsNodes(hash, init, n, x);
      assert ids == init + [last];
      var more := PointsOf(hash, last, n);
      if n > 0 && x == last { assert more[0] in AllPoints(hash, ids, n) && more[0].node == x; }
      if x in NodesOf(AllPoints(hash, init, n)) {
        var p :| p in AllPoints(hash, init, n) && p.node == x;
        assert p in AllPoints(hash, ids, n);
      }
      if x in NodesOf(AllPoints(hash, ids, n)) {
        var p :| p in AllPoints(hash, ids, n) && p.node == x;
        assert p in AllPoints(hash, init, n) || p in more;
      }
    }
  }

  /** The nodes on a ring are the members it was built from. */
  lemma RingNodes(points: seq<Point>, hash: Str -> nat, ids: seq<Str>, n: nat)
    requires IsRingOf(points, hash, ids, n)
    ensures n > 0 ==> NodesOf(points) == (set x | x in ids)
    ensures points == [] <==> n == 0 || ids == []
  {
    var all := AllPoints(hash, ids, n);
    forall p ensures p in points <==> p in all { assert p in multiset(points) <==> p in multiset(all); }
    forall x ensures x in NodesOf(points) <==> n > 0 && x in ids {
      AllPointsNodes(hash, ids, n, x);
      assert NodesOf(points) == NodesOf(all);
    }
    assert ids != [] && n > 0 ==> ids[0] in NodesOf(points);
    if points != [] { assert points[0].node in NodesOf(points); }
  }
}
