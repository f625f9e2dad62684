/**
 What a pair of anti-entropy rounds achieves (internal/server/antientropy.go). After a node has synced from
 its peer and the peer from the node, both hold the same siblings for every key. Their bytes may still
 differ, because a clock is encoded in map iteration order, and then a further round is not quiet.
 */
module Convergence {
  import opened Bytes
  import opened Bits
  import opened VClock
  import opened Versions
  import opened Merkle
  import opened AntiEntropy
  import opened Binenc
  import VersionCodec

  // ---------------------------------------------------------------- Same siblings

  /** An antichain is what its own versions reconcile to. */
  lemma AntichainRepresents(s: seq<Version>)
    requires Antichain(s)
    ensures Represents(s, Elements(s))
  {
    forall v | v in Elements(s) ensures Covers(s, v.clock) { CoversIn(s, v, v.clock); }
  }

  /** Folding there and back represents all the versions of both sides. */
  lemma ThereAndBackRepresents(a: seq<Version>, b: seq<Version>)
    requires Antichain(a) && Antichain(b)
    ensures Represents(Folded(a, b), Elements(a) + Elements(b))
    ensures Represents(Folded(b, Folded(a, b)), Elements(a) + Elements(b))
  {
    var all, mid := Elements(a) + Elements(b), Folded(a, b);
    var both := Folded(b, mid);
    AntichainRepresents(a);
    AntichainRepresents(b);
    FoldedRepresents(a, Elements(a), b);
    FoldedRepresents(b, Elements(b), mid);
    FoldedCovers(b, mid);
    hide Folded, Covers;
    forall v | v in all ensures Covers(both, v.clock) { assert Covers(mid, v.clock); }
    forall v | v in both ensures v in all { assert v in Elements(b) + Elements(mid); }
  }

  /** Syncing one way and then the other leaves both sides with the same siblings. */
  lemma ThereAndBackAgrees(a: seq<Version>, b: seq<Version>)
    requires Antichain(a) && Antichain(b) && Coherent(Elements(a) + Elements(b))
    ensures multiset(Folded(b, Folded(a, b))) == multiset(Folded(a, b))
  {
    ThereAndBackRepresents(a, b);
    RepresentationIsUnique(Folded(b, Folded(a, b)), Folded(a, b), Elements(a) + Elements(b));
  }

  /** A pair of rounds converges, key by key. */
  lemma PairOfRoundsConverges(local: Store, peer: Store, local': Store, peer': Store, key: Str)
    requires Antichain(ContentAt(local, key)) && Antichain(ContentAt(peer, key))
    requires Coherent(Elements(ContentAt(local, key)) + Elements(ContentAt(peer, key)))
    requires Synced(local, peer, local', key) && Synced(peer, local', peer', key)
    ensures multiset(ContentAt(local', key)) == multiset(ContentAt(peer', key))
  {
    ThereAndBackAgrees(ContentAt(local, key), ContentAt(peer, key));
  }

  // ---------------------------------------------------------------- Quiet rounds

  /** When no hash collides, a round finds nothing to do if and only if the two stores are equal byte for byte. */
  lemma RoundIsQuietIff(sha: Sha, leaves: nat, local: Store, peer: Store)
    requires IsPow2(leaves) && leaves > 0 && HashesTellApart(sha, leaves, local, peer)
    ensures DiffOf(sha, StoreLeaves(sha, leaves, local), StoreLeaves(sha, leaves, peer)) == [] <==> local == peer
  {
    hide StoreLeaves, DiffOf, HashesTellApart, Bucket, IsPow2;
    var diffs := DiffOf(sha, StoreLeaves(sha, leaves, local), StoreLeaves(sha, leaves, peer));
    if diffs == [] {
      forall k ensures k in local <==> k in peer { UnreportedAgree(sha, leaves, local, peer, k); }
      forall k | k in local ensures local[k] == peer[k] { UnreportedAgree(sha, leaves, local, peer, k); }
    }
    if local == peer && diffs != [] {
      DiffIsSound(sha, StoreLeaves(sha, leaves, local), StoreLeaves(sha, leaves, peer), diffs[0]);
      assert false;
    }
  }

  const A: Str := [65]
  const B: Str := [66]

  /** A version that two nodes have written in turn. */
  function Shared(): Version {
    Version([], map[A := 1, B := 1], false, 0)
  }

  /** Its bytes when the map yields its nodes in this order. */
  function SharedBytes(order: seq<Str>): seq<byte> {
    VersionCodec.Encoded([Shared()], [order])
  }

  /** Only the last part of the bytes depends on the order. */
  lemma SharedSplits(order: seq<Str>)
    ensures SharedBytes(order) == SharedHead() + VersionCodec.PutClock(Shared().clock, order, 0)
  {
    hide VersionCodec.PutClock, VersionCodec.PutHead, VersionCodec.PutTime, PutUint32;
    var chunks := VersionCodec.Chunks([Shared()], [order]);
    assert PutAll(chunks, 0) == [] && PutAll(chunks, 1) == chunks[0];
  }

  function SharedHead(): seq<byte> {
    PutUint32(1) + (VersionCodec.PutHead(Shared()) + (VersionCodec.PutTime(Shared()) + PutUint32(|Shared().clock|)))
  }

  lemma TwoEntries(m: Str, n: Str)
    ensures VersionCodec.PutClock(Shared().clock, [m, n], 0) ==
              VersionCodec.PutEntry(m, At(Shared().clock, m)) + VersionCodec.PutEntry(n, At(Shared().clock, n))
  {
    assert VersionCodec.PutClock(Shared().clock, [m, n], 2) == [];
  }

  lemma SharedFits()
    ensures VersionCodec.Storable(Shared()) && A in Shared().clock && B in Shared().clock
    ensures VersionCodec.IsOrder([A, B], Shared().clock) && VersionCodec.IsOrder([B, A], Shared().clock)
  {
    assert A[0] != B[0];
  }

  lemma EntriesDiffer()
    ensures |VersionCodec.PutEntry(A, 1)| == |VersionCodec.PutEntry(B, 1)|
    ensures VersionCodec.PutEntry(A, 1) != VersionCodec.PutEntry(B, 1)
    ensures At(Shared().clock, A) == At(Shared().clock, B) == 1
  {
    assert VersionCodec.PutEntry(A, 1)[2] == A[0] && VersionCodec.PutEntry(B, 1)[2] == B[0];
  }

  /** One set, two encodings: neither decodes to anything else, and they differ. */
  lemma OneSetTwoBlobs()
    ensures IsBlobOf(SharedBytes([A, B]), [Shared()]) && IsBlobOf(SharedBytes([B, A]), [Shared()])
    ensures SharedBytes([A, B]) != SharedBytes([B, A])
  {
    SharedFits();
    EntriesDiffer();
    SharedDecodes([A, B]);
    SharedDecodes([B, A]);
    hide VersionCodec.PutClock, VersionCodec.PutEntry, SharedBytes, SharedHead, Siblings, VersionCodec.IsOrder;
    if SharedBytes([A, B]) == SharedBytes([B, A]) {
      SharedSplits([A, B]);
      SharedSplits([B, A]);
      TwoEntries(A, B);
      TwoEntries(B, A);
      var x, y := VersionCodec.PutEntry(A, 1), VersionCodec.PutEntry(B, 1);
      SplitEqual(SharedHead(), x + y, SharedHead(), y + x);
      SplitEqual(x, y, y, x);
      assert false;
    }
  }

  lemma SharedDecodes(order: seq<Str>)
    requires VersionCodec.IsOrder(order, Shared().clock)
    ensures IsBlobOf(SharedBytes(order), [Shared()])
  {
    hide VersionCodec.Encoded, VersionCodec.Decoded, VersionCodec.Storable, VersionCodec.IsOrder;
    SharedFits();
    var orders := [order];
    assert VersionCodec.AreOrders(orders, [Shared()]);
    VersionCodec.StorableRoundTrip([Shared()], SharedBytes(order));
  }

  /**
   Agreement is not quiet: two stores with the same siblings under every key, as any pair of rounds may leave
   them, whose trees differ all the same, so that the next round fetches the key again.
   */
  lemma AgreementIsNotQuiet(sha: Sha, leaves: nat, key: Str)
    requires IsPow2(leaves) && leaves > 0
    requires HashesTellApart(sha, leaves, map[key := SharedBytes([A, B])], map[key := SharedBytes([B, A])])
    ensures var local, peer := map[key := SharedBytes([A, B])], map[key := SharedBytes([B, A])];
            && (forall k :: ContentAt(local, k) == ContentAt(peer, k))
            && DiffOf(sha, StoreLeaves(sha, leaves, local), StoreLeaves(sha, leaves, peer)) != []
  {
    hide SharedBytes, Siblings, DiffOf, StoreLeaves, HashesTellApart, VersionCodec.IsEncoding;
    OneSetTwoBlobs();
    var local, peer := map[key := SharedBytes([A, B])], map[key := SharedBytes([B, A])];
    assert local[key] != peer[key];
    RoundIsQuietIff(sha, leaves, local, peer);
  }
}
