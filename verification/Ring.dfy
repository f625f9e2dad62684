/**
 The consistent-hash ring (internal/cluster/ring.go): points sorted by hash, a binary search for a
 key's place, and the walk from there that takes each node the first time it is met.
 */
module Ring {
  import opened Bytes
  import opened Seqs
  import opened Decimals

  datatype Point = Point(hash: nat, node: Str)

  ghost predicate Sorted(points: seq<Point>) {
    forall i, j :: 0 <= i <= j < |points| ==> points[i].hash <= points[j].hash
  }

  // ---------------------------------------------------------------- What the ring answers

  function AtOrAbove(h: nat): Point -> bool { (p: Point) => p.hash >= h }

  function Below(h: nat): Point -> bool { (p: Point) => p.hash < h }

  /** The points in the order a walk from hash `h` meets them, once around the ring. */
  function Clockwise(points: seq<Point>, h: nat): seq<Point> {
    Filter(AtOrAbove(h), points) + Filter(Below(h), points)
  }

  /** The nodes of a walk, each the first time it is met. */
  function FirstSeen(walk: seq<Point>): seq<Str> {
    if walk == [] then []
    else
      var seen := FirstSeen(walk[..|walk| - 1]);
      var node := walk[|walk| - 1].node;
      if node in seen then seen else seen + [node]
  }

  function Cut<T>(xs: seq<T>, n: int): seq<T> {
    if n <= 0 then [] else if n < |xs| then xs[..n] else xs
  }

  function Owner(points: seq<Point>, h: nat): Option<Str> {
    if points == [] then None else Some(Clockwise(points, h)[0].node)
  }

  function Replicas(points: seq<Point>, h: nat, n: int): seq<Str> {
    Cut(FirstSeen(Clockwise(points, h)), n)
  }

  function NotOf(x: Str): Point -> bool { (p: Point) => p.node != x }

  function IsNot(x: Str): Str -> bool { (y: Str) => y != x }

  /** The points without those of node `x`. */
  function Without(points: seq<Point>, x: Str): seq<Point> {
    Filter(NotOf(x), points)
  }

  function Drop(nodes: seq<Str>, x: Str): seq<Str> {
    Filter(IsNot(x), nodes)
  }

  // ---------------------------------------------------------------- Walks

  /** A walk goes around once: it meets exactly the ring's points. */
  lemma {:induction false} WalkContents(points: seq<Point>, h: nat)
    ensures |Clockwise(points, h)| == |points|
    ensures forall p :: p in Clockwise(points, h) <==> p in points
  {
    FilterContents(AtOrAbove(h), points);
    FilterContents(Below(h), points);
    if points != [] { WalkContents(points[..|points| - 1], h); }
  }

  /** On a sorted ring the walk is the list turned so that it begins at the first point at or above the hash. */
  lemma WalkFrom(points: seq<Point>, h: nat, idx: nat)
    requires idx <= |points|
    requires forall i :: 0 <= i < idx ==> points[i].hash < h
    requires forall i :: idx <= i < |points| ==> points[i].hash >= h
    ensures Clockwise(points, h) == points[idx..] + points[..idx]
  {
    hide Filter;
    var a, b := points[..idx], points[idx..];
    assert points == a + b;
    FilterSplits(AtOrAbove(h), a, b);
    FilterSplits(Below(h), a, b);
    FilterNone(AtOrAbove(h), a);
    FilterAll(AtOrAbove(h), b);
    FilterAll(Below(h), a);
    FilterNone(Below(h), b);
  }

  /** The place of a node in a walk. */
  function FirstIndex(walk: seq<Point>, node: Str): nat {
    if walk == [] || walk[0].node == node then 0 else 1 + FirstIndex(walk[1..], node)
  }

  lemma {:induction false} FirstIndexIs(walk: seq<Point>, node: Str, i: nat)
    requires i < |walk| && walk[i].node == node && forall k :: 0 <= k < i ==> walk[k].node != node
    ensures FirstIndex(walk, node) == i
  {
    if i > 0 { FirstIndexIs(walk[1..], node, i - 1); }
  }

  lemma {:induction false} FirstIndexBound(walk: seq<Point>, node: Str)
    ensures FirstIndex(walk, node) <= |walk|
    ensures forall k :: 0 <= k < FirstIndex(walk, node) ==> walk[k].node != node
    ensures FirstIndex(walk, node) < |walk| ==> walk[FirstIndex(walk, node)].node == node
  {
    if walk != [] && walk[0].node != node {
      FirstIndexBound(walk[1..], node);
      var f := FirstIndex(walk[1..], node);
      forall k | 0 <= k < 1 + f ensures walk[k].node != node {
        if k > 0 { assert walk[k] == walk[1..][k - 1]; }
      }
    }
  }

  lemma FirstIndexStays(walk: seq<Point>, last: Point, node: Str)
    requires FirstIndex(walk, node) < |walk|
    ensures FirstIndex(walk + [last], node) == FirstIndex(walk, node)
  {
    FirstIndexBound(walk, node);
    var i := FirstIndex(walk, node);
    assert forall k :: 0 <= k <= i ==> (walk + [last])[k] == walk[k];
    FirstIndexIs(walk + [last], node, i);
  }

  ghost predicate InOrder(walk: seq<Point>, nodes: seq<Str>) {
    forall i, j :: 0 <= i < j < |nodes| ==> FirstIndex(walk, nodes[i]) < FirstIndex(walk, nodes[j])
  }

  ghost predicate Met(walk: seq<Point>, node: Str) {
    exists i :: 0 <= i < |walk| && walk[i].node == node
  }

  /** The nodes met, each once, in the order in which they are first met. */
  lemma {:induction false} FirstSeenMeans(walk: seq<Point>)
    ensures Distinct(FirstSeen(walk)) && InOrder(walk, FirstSeen(walk))
    ensures forall x :: x in FirstSeen(walk) <==> Met(walk, x)
    ensures forall x :: x in FirstSeen(walk) ==> FirstIndex(walk, x) < |walk|
  {
    if walk != [] {
      var init, last := walk[..|walk| - 1], walk[|walk| - 1];
      assert walk == init + [last];
      FirstSeenMeans(init);
      var seen := FirstSeen(init);
      forall x | x in seen ensures FirstIndex(walk, x) == FirstIndex(init, x) { FirstIndexStays(init, last, x); }
      if last.node !in seen { FirstIndexIs(walk, last.node, |init|); }
      forall x ensures x in FirstSeen(walk) <==> Met(walk, x) { MetStep(init, last, x); }
    }
  }

  lemma MetStep(init: seq<Point>, last: Point, x: Str)
    ensures Met(init + [last], x) <==> Met(init, x) || last.node == x
  {
    var walk := init + [last];
    if Met(init, x) {
      var i :| 0 <= i < |init| && init[i].node == x;
      assert walk[i].node == x;
    }
    if last.node == x { assert walk[|init|].node == x; }
  }

  // ---------------------------------------------------------------- Removal

  lemma WithoutTurns(points: seq<Point>, x: Str, h: nat)
    ensures Clockwise(Without(points, x), h) == Without(Clockwise(points, h), x)
  {
    hide Filter;
    FilterCommutes(AtOrAbove(h), NotOf(x), points);
    FilterCommutes(Below(h), NotOf(x), points);
    FilterSplits(NotOf(x), Filter(AtOrAbove(h), points), Filter(Below(h), points));
  }

  lemma FirstSeenSnoc(walk: seq<Point>, last: Point)
    ensures FirstSeen(walk + [last]) ==
                if last.node in FirstSeen(walk) then FirstSeen(walk) else FirstSeen(walk) + [last.node]
  {
  }

  lemma {:induction false} FirstSeenWithout(walk: seq<Point>, x: Str)
    ensures FirstSeen(Without(walk, x)) == Drop(FirstSeen(walk), x)
  {
    if walk != [] {
      var init, last := walk[..|walk| - 1], walk[|walk| - 1];
      FirstSeenWithout(init, x);
      assert walk == init + [last];
      FilterSnoc(NotOf(x), init, last);
      FirstSeenSnoc(init, last);
      FilterContents(IsNot(x), FirstSeen(init));
      hide Filter, FirstSeen;
      if last.node != x { FirstSeenSnoc(Without(init, x), last); }
      if last.node !in FirstSeen(init) { FilterSnoc(IsNot(x), FirstSeen(init), last.node); }
    }
  }

  lemma {:induction false} DropOne(nodes: seq<Str>, x: Str)
    requires Distinct(nodes)
    ensures |Drop(nodes, x)| >= |nodes| - 1
  {
    if nodes != [] {
      var init := nodes[..|nodes| - 1];
      if nodes[|nodes| - 1] == x { FilterAll(IsNot(x), init); } else { DropOne(init, x); }
    }
  }

  /** Dropping a node and cutting to n needs only the first n + 1. */
  lemma DropThenCut(nodes: seq<Str>, x: Str, n: nat)
    requires Distinct(nodes)
    ensures Cut(Drop(nodes, x), n) == Cut(Drop(Cut(nodes, n + 1), x), n)
  {
    if n + 1 < |nodes| {
      var a, b := nodes[..n + 1], nodes[n + 1..];
      assert nodes == a + b;
      FilterSplits(IsNot(x), a, b);
      DropOne(a, x);
    }
  }

  /**
   After `x` leaves, a key's replicas are the earlier n + 1 with `x` dropped, cut to n: hash ties,
   the wrap past the last point and the case that `x` held no replica included.
   */
  lemma RemovalShifts(points: seq<Point>, x: Str, h: nat, n: nat)
    ensures Replicas(Without(points, x), h, n) == Cut(Drop(Replicas(points, h, n + 1), x), n)
  {
    var walk := Clockwise(points, h);
    WithoutTurns(points, x, h);
    FirstSeenWithout(walk, x);
    FirstSeenMeans(walk);
    DropThenCut(FirstSeen(walk), x, n);
  }

  /** So removal moves only the keys that `x` owned: minimal disruption. */
  lemma RemovalKeepsOwners(points: seq<Point>, x: Str, h: nat)
    requires points != [] && Owner(points, h) != Some(x)
    ensures Owner(Without(points, x), h) == Owner(points, h)
  {
    WalkContents(points, h);
    var walk := Clockwise(points, h);
    WithoutTurns(points, x, h);
    WithoutKeepsHead(walk, x);
    WalkContents(Without(points, x), h);
  }

  lemma {:induction false} WithoutKeepsHead(walk: seq<Point>, x: Str)
    requires walk != [] && walk[0].node != x
    ensures Without(walk, x) != [] && Without(walk, x)[0] == walk[0]
  {
    FilterSnoc(NotOf(x), walk[..|walk| - 1], walk[|walk| - 1]);
    assert walk == walk[..|walk| - 1] + [walk[|walk| - 1]];
    if |walk| > 1 { WithoutKeepsHead(walk[..|walk| - 1], x); }
  }

  lemma {:induction false} WithoutSorted(points: seq<Point>, x: Str)
    requires Sorted(points)
    ensures Sorted(Without(points, x))
  {
    if points != [] {
      var init, last := points[..|points| - 1], points[|points| - 1];
      WithoutSorted(init, x);
      FilterContents(NotOf(x), init);
      forall i | 0 <= i < |Without(init, x)| ensures Without(init, x)[i].hash <= last.hash {
        assert Without(init, x)[i] in init;
      }
    }
  }

  // ---------------------------------------------------------------- Replica lists

  lemma {:induction false} FirstSeenHead(walk: seq<Point>)
    requires walk != []
    ensures FirstSeen(walk) != [] && FirstSeen(walk)[0] == walk[0].node
  {
    if |walk| > 1 { FirstSeenHead(walk[..|walk| - 1]); }
  }

  ghost function NodesOf(points: seq<Point>): set<Str> {
    set p | p in points :: p.node
  }

  /** Exactly min(n, nodes on the ring) distinct nodes of the ring, headed by the key's owner. */
  lemma ReplicasMean(points: seq<Point>, h: nat, n: int)
    ensures Distinct(Replicas(points, h, n))
    ensures |Replicas(points, h, n)| == if n <= 0 then 0 else if n < |NodesOf(points)| then n else |NodesOf(points)|
    ensures forall x :: x in Replicas(points, h, n) ==> x in NodesOf(points)
    ensures n > 0 && points != [] ==>
                Replicas(points, h, n) != [] && Owner(points, h) == Some(Replicas(points, h, n)[0])
  {
    var walk := Clockwise(points, h);
    var all := FirstSeen(walk);
    WalkContents(points, h);
    FirstSeenMeans(walk);
    forall x ensures x in all <==> x in NodesOf(points) { MetIsNode(points, walk, x); }
    DistinctSize(all);
    assert (set x | x in all) == NodesOf(points);
    if points != [] { FirstSeenHead(walk); }
  }

  lemma MetIsNode(points: seq<Point>, walk: seq<Point>, x: Str)
    requires forall p :: p in walk <==> p in points
    ensures Met(walk, x) <==> x in NodesOf(points)
  {
  }

  // ---------------------------------------------------------------- The ring itself

  const HASH_SIGN: byte := 35

  /** The name whose hash places the `i`-th virtual point of a node. */
  function Label(node: Str, i: nat): Str {
    node + [HASH_SIGN] + Decimal(i)
  }

  /** No two virtual points share a name: the number after the last sign is the index. */
  lemma LabelIsInjective(a: Str, i: nat, b: Str, j: nat)
    requires Label(a, i) == Label(b, j)
    ensures a == b && i == j
  {
    var s := Label(a, i);
    DigitsAfterSign(a, i);
    DigitsAfterSign(b, j);
    assert a == s[..|a|] && b == s[..|b|];
    assert Decimal(i) == s[|a| + 1..] && Decimal(j) == s[|b| + 1..];
    DecimalMeans(i);
    DecimalMeans(j);
  }

  lemma DigitsAfterSign(a: Str, i: nat)
    ensures Label(a, i)[|a|] == HASH_SIGN
    ensures forall k :: |a| < k < |Label(a, i)| ==> Label(a, i)[k] != HASH_SIGN
  {
    DecimalMeans(i);
    forall k | |a| < k < |Label(a, i)| ensures Label(a, i)[k] != HASH_SIGN {
      assert IsDigit(Decimal(i)[k - |a| - 1]);
    }
  }

  function PointsOf(hash: Str -> nat, node: Str, n: nat): (points: seq<Point>)
    ensures |points| == n
  {
    seq(n, i requires 0 <= i < n => Point(hash(Label(node, i)), node))
  }

  function Inserted(points: seq<Point>, p: Point): seq<Point> {
    if points == [] || points[0].hash >= p.hash then [p] + points else [points[0]] + Inserted(points[1..], p)
  }

  function Arranged(points: seq<Point>): seq<Point> {
    if points == [] then [] else Inserted(Arranged(points[1..]), points[0])
  }

  lemma {:induction false} InsertedSame(points: seq<Point>, p: Point)
    ensures multiset(Inserted(points, p)) == multiset(points) + multiset{p}
  {
    if points != [] && points[0].hash < p.hash {
      InsertedSame(points[1..], p);
      assert points == [points[0]] + points[1..];
    }
  }

  lemma {:induction false} InsertedSorted(points: seq<Point>, p: Point)
    requires Sorted(points)
    ensures Sorted(Inserted(points, p))
    ensures forall i :: 0 <= i < |Inserted(points, p)| ==>
                Inserted(points, p)[i] == p || Inserted(points, p)[i] in points
  {
    if points != [] && points[0].hash < p.hash {
      InsertedSorted(points[1..], p);
      var rest := Inserted(points[1..], p);
      forall i | 0 <= i < |rest| ensures points[0].hash <= rest[i].hash {
        if rest[i] != p { assert rest[i] in points[1..]; }
      }
    }
  }

  lemma {:induction false} ArrangedSorted(points: seq<Point>)
    ensures Sorted(Arranged(points)) && multiset(Arranged(points)) == multiset(points)
  {
    if points != [] {
      ArrangedSorted(points[1..]);
      InsertedSorted(Arranged(points[1..]), points[0]);
      InsertedSame(Arranged(points[1..]), points[0]);
      assert points == [points[0]] + points[1..];
    }
  }

  /** The point at position `i` counted around the ring. */
  function PointAt(points: seq<Point>, i: nat): Point
    requires points != []
  {
    points[i % |points|]
  }

  lemma TurnedAt(points: seq<Point>, idx: nat, i: nat)
    requires idx < |points| && i < |points|
    ensures (points[idx..] + points[..idx])[i] == PointAt(points, idx + i)
  {
    Wraps(idx + i, |points|);
  }

  class Circle {
    const replicas: int
    const hash: Str -> nat
    var points: seq<Point>

    constructor (replicas: int, hash: Str -> nat)
      ensures this.replicas == replicas && this.hash == hash && points == []
    {
      this.replicas := replicas;
      this.hash := hash;
      points := [];
    }

    /** Put a node's virtual points at the end of the list; `Sort` puts them in place. */
    method Add(node: Str)
      modifies this`points
      ensures points == old(points) + PointsOf(hash, node, if replicas > 0 then replicas else 0)
    {
      var n := if replicas > 0 then replicas else 0;
      for i := 0 to n
        invariant points == old(points) + PointsOf(hash, node, i)
      {
        points := points + [Point(hash(Label(node, i)), node)];
      }
    }

    /** Some order by hash: which of two points with one hash comes first is not fixed. */
    method Sort()
      modifies this`points
      ensures Sorted(points) && multiset(points) == multiset(old(points))
    {
      ArrangedSorted(points);
      points := Arranged(points);
    }

    method Remove(node: Str)
      modifies this`points
      ensures points == Without(old(points), node)
      ensures old(Sorted(points)) ==> Sorted(points)
    {
      ghost var before := points;
      var kept: seq<Point> := [];
      for i := 0 to |points|
        invariant points == before && kept == Without(before[..i], node)
      {
        assert before[..i + 1] == before[..i] + [before[i]];
        FilterSnoc(NotOf(node), before[..i], before[i]);
        if points[i].node != node { kept := kept + [points[i]]; }
      }
      assert before[..|before|] == before;
      points := kept;
      if Sorted(before) { WithoutSorted(before, node); }
    }

    /** Binary search for the first point at or above the hash, wrapping to the first point of all. */
    method FindIndex(h: nat) returns (idx: nat)
      requires points != [] && Sorted(points)
      ensures idx < |points| && Clockwise(points, h) == points[idx..] + points[..idx]
    {
      var i, j := 0, |points|;
      while i < j
        invariant 0 <= i <= j <= |points|
        invariant forall k :: 0 <= k < i ==> points[k].hash < h
        invariant forall k :: j <= k < |points| ==> points[k].hash >= h
      {
        var mid := (i + j) / 2;
        if points[mid].hash >= h { j := mid; } else { i := mid + 1; }
      }
      WalkFrom(points, h, i);
      idx := if i == |points| then 0 else i;
    }

    method Get(key: Str) returns (r: Option<Str>)
      requires Sorted(points)
      ensures r == Owner(points, hash(key))
    {
      if |points| == 0 { return None; }
      var idx := FindIndex(hash(key));
      r := Some(points[idx].node);
    }

    method GetN(key: Str, n: int) returns (nodes: seq<Str>)
      requires Sorted(points)
      ensures nodes == Replicas(points, hash(key), n)
    {
      hide *;
      NoReplicas(points, hash(key), n);
      ReplicasAre(points, hash(key), n);
      if |points| == 0 || n <= 0 { return []; }
      var idx := FindIndex(hash(key));
      var count := |points|;
      ghost var walk := Clockwise(points, hash(key));
      nodes := [];
      WalkBounds(points, idx, walk);
      for i := 0 to count
        invariant nodes == FirstSeen(walk[..i]) && |nodes| < n
      {
        var p := PointAt(points, idx + i);
        WalkStep(points, idx, walk, i);
        if p.node !in nodes { nodes := nodes + [p.node]; }
        if |nodes| == n {
          FirstSeenPrefix(walk, i + 1);
          CutPrefix(nodes, FirstSeen(walk), n);
          return;
        }
      }
      CutWhole(nodes, n);
    }
  }

  lemma NoReplicas(points: seq<Point>, h: nat, n: int)
    ensures points == [] || n <= 0 ==> Replicas(points, h, n) == []
  {
  }

  lemma CutWhole(nodes: seq<Str>, n: int)
    requires |nodes| < n
    ensures Cut(nodes, n) == nodes
  {
  }

  lemma WalkBounds(points: seq<Point>, idx: nat, walk: seq<Point>)
    requires idx < |points| && walk == points[idx..] + points[..idx]
    ensures |walk| == |points| && FirstSeen(walk[..0]) == [] && walk[..|points|] == walk
  {
  }

  lemma WalkStep(points: seq<Point>, idx: nat, walk: seq<Point>, i: nat)
    requires idx < |points| && walk == points[idx..] + points[..idx] && i < |points| == |walk|
    ensures var p := PointAt(points, idx + i);
            FirstSeen(walk[..i + 1]) ==
                if p.node in FirstSeen(walk[..i]) then FirstSeen(walk[..i]) else FirstSeen(walk[..i]) + [p.node]
  {
    hide FirstSeen, PointAt;
    TurnedAt(points, idx, i);
    assert walk[..i + 1] == walk[..i] + [walk[i]];
    FirstSeenSnoc(walk[..i], walk[i]);
  }

  lemma CutPrefix(nodes: seq<Str>, all: seq<Str>, n: nat)
    requires |nodes| == n > 0 && nodes <= all
    ensures nodes == Cut(all, n)
  {
  }

  lemma ReplicasAre(points: seq<Point>, h: nat, n: int)
    ensures Replicas(points, h, n) == Cut(FirstSeen(Clockwise(points, h)), n)
  {
  }

  lemma Wraps(i: nat, count: nat)
    requires i < 2 * count
    ensures i % count == if i < count then i else i - count
  {
  }

  lemma {:induction false} FirstSeenPrefix(walk: seq<Point>, i: nat)
    requires i <= |walk|
    ensures FirstSeen(walk[..i]) <= FirstSeen(walk)
    decreases |walk|
  {
    if i < |walk| {
      assert walk[..|walk| - 1][..i] == walk[..i];
      FirstSeenPrefix(walk[..|walk| - 1], i);
    } else {
      assert walk[..i] == walk;
    }
  }
}
