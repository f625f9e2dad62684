/**
 Where keys live as members come and go (internal/cluster/ring.go, internal/cluster/router.go): virtual points
 keep apart as long as their names do not collide, and a change of one member moves only that member's keys.
 */
module Placement {
  import opened Bytes
  import opened Seqs
  import opened Ring
  import opened Router
  import opened RouterTies

  // ---------------------------------------------------------------- Virtual points

  /** No two virtual points of these members have names whose hashes collide. */
  ghost predicate LabelsTellApart(hash: Str -> nat, ids: seq<Str>, n: nat) {
    forall a, i: nat, b, j: nat :: a in ids && b in ids && i < n && j < n && hash(Label(a, i)) == hash(Label(b, j)) ==>
      Label(a, i) == Label(b, j)
  }

  lemma {:induction false} EveryLabelHasAPoint(hash: Str -> nat, ids: seq<Str>, n: nat, id: Str, i: nat)
    requires id in ids && i < n
    ensures Point(hash(Label(id, i)), id) in AllPoints(hash, ids, n)
  {
    var init, last := ids[..|ids| - 1], ids[|ids| - 1];
    if id == last {
      assert PointsOf(hash, last, n)[i] == Point(hash(Label(id, i)), id);
    } else {
      assert ids == init + [last];
      EveryLabelHasAPoint(hash, init, n, id, i);
    }
  }

  ghost predicate HashesDiffer(points: seq<Point>) {
    forall k, l :: 0 <= k < l < |points| ==> points[k].hash != points[l].hash
  }

  lemma OwnPointsDiffer(hash: Str -> nat, ids: seq<Str>, n: nat, id: Str)
    requires LabelsTellApart(hash, ids, n) && id in ids
    ensures HashesDiffer(PointsOf(hash, id, n))
  {
    forall k, l | 0 <= k < l < n ensures hash(Label(id, k)) != hash(Label(id, l)) {
      if hash(Label(id, k)) == hash(Label(id, l)) {
        LabelIsInjective(id, k, id, l);
        assert false;
      }
    }
  }

  lemma PointsOfOthersDiffer(hash: Str -> nat, ids: seq<Str>, n: nat, p: Point, q: Point)
    requires LabelsTellApart(hash, ids, n) && p in AllPoints(hash, ids, n) && q in AllPoints(hash, ids, n)
    requires p.node != q.node
    ensures p.hash != q.hash
  {
    hide AllPoints, Label;
    var i := PointHasLabel(hash, ids, n, p);
    var j := PointHasLabel(hash, ids, n, q);
    if p.hash == q.hash {
      LabelIsInjective(p.node, i, q.node, j);
      assert false;
    }
  }

  lemma TellsApartLess(hash: Str -> nat, ids: seq<Str>, n: nat)
    requires ids != [] && LabelsTellApart(hash, ids, n)
    ensures LabelsTellApart(hash, ids[..|ids| - 1], n)
  {
    hide Label;
  }

  /**
   If the hash keeps the names of virtual points apart, a ring of distinct members has `n` points for each, no
   two of them at one place.
   */
  lemma {:induction false} VirtualPointsKeepApart(hash: Str -> nat, ids: seq<Str>, n: nat)
    requires Distinct(ids) && LabelsTellApart(hash, ids, n)
    ensures |AllPoints(hash, ids, n)| == |ids| * n && HashesDiffer(AllPoints(hash, ids, n))
  {
    PointsAreMany(hash, ids, n);
    if ids != [] {
      hide LabelsTellApart, PointsOf;
      var init, last := ids[..|ids| - 1], ids[|ids| - 1];
      TellsApartLess(hash, ids, n);
      VirtualPointsKeepApart(hash, init, n);
      OwnPointsDiffer(hash, ids, n, last);
      var less, more, all := AllPoints(hash, init, n), PointsOf(hash, last, n), AllPoints(hash, ids, n);
      forall k, l | 0 <= k < l < |all| ensures all[k].hash != all[l].hash {
        if k < |less| <= l {
          assert all[k] in all && all[l] in all;
          var i := PointHasLabel(hash, init, n, less[k]);
          OwnNode(hash, last, n, l - |less|);
          PointsOfOthersDiffer(hash, ids, n, all[k], all[l]);
        } else if l < |less| {
          assert less[k].hash != less[l].hash;
        } else {
          assert more[k - |less|].hash != more[l - |less|].hash;
        }
      }
    }
  }

  lemma OwnNode(hash: Str -> nat, id: Str, n: nat, k: nat)
    requires k < n
    ensures PointsOf(hash, id, n)[k].node == id
  {
  }

  lemma ApartHasNoTies(points: seq<Point>)
    requires HashesDiffer(points)
    ensures NoTies(multiset(points))
  {
    forall p, q | p in multiset(points) && q in multiset(points) && p.hash == q.hash ensures p == q {
      var k :| 0 <= k < |points| && points[k] == p;
      var l :| 0 <= l < |points| && points[l] == q;
    }
  }

  lemma ApartLabelsAgree(hash: Str -> nat, n: nat, members: seq<Str>)
    requires Distinct(members) && LabelsTellApart(hash, members, n)
    ensures AlwaysAgree(hash, n, members)
  {
    VirtualPointsKeepApart(hash, members, n);
    ApartHasNoTies(AllPoints(hash, members, n));
    RoutersAgreeIff(hash, n, members);
  }

  // ---------------------------------------------------------------- A change of one member

  lemma {:induction false} FilterCounts<T>(keep: T -> bool, s: seq<T>, x: T)
    ensures multiset(Filter(keep, s))[x] == if keep(x) then multiset(s)[x] else 0
  {
    if s != [] {
      var init, last := s[..|s| - 1], s[|s| - 1];
      assert s == init + [last];
      FilterCounts(keep, init, x);
    }
  }

  lemma SameWithout(a: seq<Point>, b: seq<Point>, x: Str)
    requires multiset(a) == multiset(b)
    ensures multiset(Without(a, x)) == multiset(Without(b, x))
  {
    forall p ensures multiset(Without(a, x))[p] == multiset(Without(b, x))[p] {
      FilterCounts(NotOf(x), a, p);
      FilterCounts(NotOf(x), b, p);
    }
  }

  lemma {:induction false} PointsWithoutNode(hash: Str -> nat, ids: seq<Str>, n: nat, x: Str)
    ensures AllPoints(hash, Drop(ids, x), n) == Without(AllPoints(hash, ids, n), x)
  {
    if ids != [] {
      hide PointsOf;
      var init, last := ids[..|ids| - 1], ids[|ids| - 1];
      PointsWithoutNode(hash, init, n, x);
      var more := PointsOf(hash, last, n);
      forall i | 0 <= i < n ensures more[i].node == last { OwnNode(hash, last, n, i); }
      FilterSplits(NotOf(x), AllPoints(hash, init, n), more);
      if last == x {
        FilterNone(NotOf(x), more);
      } else {
        FilterAll(NotOf(x), more);
        AllPointsSplits(hash, Drop(init, x), [last], n);
        AllPointsOne(hash, last, n);
      }
    }
  }

  /** The ring without a member is the ring with that member's points taken out. */
  lemma RingWithout(hash: Str -> nat, n: nat, ids: seq<Str>, x: Str, big: seq<Point>, small: seq<Point>)
    requires NoTies(multiset(AllPoints(hash, ids, n)))
    requires IsRingOf(big, hash, ids, n) && IsRingOf(small, hash, Drop(ids, x), n)
    ensures small == Without(big, x)
  {
    hide AllPoints, Drop, Without;
    WithoutSorted(big, x);
    PointsWithoutNode(hash, ids, n, x);
    SameWithout(big, AllPoints(hash, ids, n), x);
    NoTiesWithout(AllPoints(hash, ids, n), x);
    SortedIsUnique(small, Without(big, x));
  }

  lemma NoTiesWithout(points: seq<Point>, x: Str)
    requires NoTies(multiset(points))
    ensures NoTies(multiset(Without(points, x)))
  {
    FilterContents(NotOf(x), points);
    forall p, q | p in Without(points, x) && q in Without(points, x) && p.hash == q.hash ensures p == q {
      assert p in multiset(points) && q in multiset(points);
    }
  }

  /**
   When one member leaves, or comes back, every key whose owner is another member keeps it, and every replica
   list is the old one with that member taken out and the next member around the ring moved up.
   */
  lemma OnlyItsOwnKeysMove(hash: Str -> nat, n: nat, ids: seq<Str>, x: Str, big: seq<Point>, small: seq<Point>,
                           key: Str, want: nat)
    requires NoTies(multiset(AllPoints(hash, ids, n)))
    requires IsRingOf(big, hash, ids, n) && IsRingOf(small, hash, Drop(ids, x), n)
    ensures Owner(big, hash(key)) != Some(x) ==> Owner(small, hash(key)) == Owner(big, hash(key))
    ensures Replicas(small, hash(key), want) == Cut(Drop(Replicas(big, hash(key), want + 1), x), want)
  {
    RingWithout(hash, n, ids, x, big, small);
    RemovalShifts(big, x, hash(key), want);
    if big != [] && Owner(big, hash(key)) != Some(x) { RemovalKeepsOwners(big, x, hash(key)); }
  }
}
