/**
 Anti-entropy (internal/server/antientropy.go `syncWith`, internal/server/handler.go `rtree` and
 `rbucket`). A node diffs its Merkle tree against a peer's and folds in the peer's entries of the
 buckets that differ. The result equals reconciling the peer's whole store with no tree at all.
 */
module AntiEntropy {
  import opened Bytes
  import opened Bits
  import opened Seqs
  import opened Versions
  import opened Merkle
  import VClock
  import MerkleTree
  import VersionCodec
  import SyncCodec
  import MapStore
  import opened Decimals

  /** A node's store: the encoded sibling set of each key. */
  type Store = map<Str, Str>

  /** The siblings a blob holds; one that does not decode counts as empty. */
  function Siblings(blob: Str): seq<Version> {
    match VersionCodec.Decoded(blob)
    case None => []
    case Some(vs) => vs
  }

  function ContentAt(store: Store, key: Str): seq<Version> {
    if key in store then Siblings(store[key]) else []
  }

  // ---------------------------------------------------------------- Trees of stores

  ghost predicate Enumerates(entries: seq<Entry>, store: Store) {
    Distinct(entries) && forall e :: e in entries <==> e.key in store && store[e.key] == e.blob
  }

  ghost function AnyOrder(store: Store): (entries: seq<Entry>)
    ensures Enumerates(entries, store)
    decreases |store|
  {
    if store == map[] then []
    else
      var k :| k in store;
      var rest := AnyOrder(store - {k});
      rest + [Entry(k, store[k])]
  }

  /** The leaves of the tree over a store. */
  ghost function StoreLeaves(sha: Sha, leaves: nat, store: Store): (r: seq<Str>)
    requires leaves > 0
    ensures |r| == leaves
  {
    LeavesOf(sha, leaves, AnyOrder(store))
  }

  /** Two replicas that add the same store in different orders reach the same leaves. */
  lemma LeavesIgnoreOrder(sha: Sha, leaves: nat, store: Store, entries: seq<Entry>)
    requires leaves > 0 && Enumerates(entries, store)
    ensures LeavesOf(sha, leaves, entries) == StoreLeaves(sha, leaves, store)
  {
    hide LeafOf;
    var other := AnyOrder(store);
    assert forall e :: e in entries <==> e in other;
    SameElementsSameMultiset(entries, other);
    forall b | 0 <= b < leaves ensures LeafOf(sha, leaves, b, entries) == LeafOf(sha, leaves, b, other) {
      LeafOrderIrrelevant(sha, leaves, b, entries, other);
    }
  }

  method BuildTree(sha: Sha, leaves: int, store: Store) returns (tree: MerkleTree.Tree)
    ensures fresh(tree) && fresh(tree.nodes) && tree.Valid() && tree.sha == sha
    ensures tree.leafCount == NextPowerOfTwo(leaves) && IsPow2(tree.leafCount) && tree.leafCount >= 1
    ensures tree.Leaves() == StoreLeaves(sha, tree.leafCount, store)
  {
    hide AddedTo, IsPow2;
    tree := new MerkleTree.Tree.New(sha, leaves);
    PowersArePositive(tree.leafCount);
    ghost var entries: seq<Entry> := [];
    var rest := store.Keys;
    while rest != {}
      invariant rest <= store.Keys && Distinct(entries) && fresh(tree.nodes) && tree.Valid()
      invariant forall e :: e in entries <==> e.key in store && e.key !in rest && store[e.key] == e.blob
      invariant tree.Leaves() == LeavesOf(sha, tree.leafCount, entries)
    {
      var k :| k in rest;
      ghost var e := Entry(k, store[k]);
      assert (entries + [e])[..|entries|] == entries;
      tree.Add(k, store[k]);
      assert tree.Leaves() == LeavesOf(sha, tree.leafCount, entries + [e]);
      entries := entries + [e];
      rest := rest - {k};
    }
    LeavesIgnoreOrder(sha, tree.leafCount, store, entries);
  }

  lemma PowersArePositive(n: nat)
    requires IsPow2(n)
    ensures n >= 1
  {
  }

  // ---------------------------------------------------------------- Serving a peer

  /** `rtree`: the encoded tree over the local store; a leaf count that does not parse is refused. */
  method ServeTree(sha: Sha, count: Str, store: Store) returns (reply: Option<seq<byte>>)
    ensures reply.None? <==> Atoi(count).None?
    ensures reply.Some? ==>
              var leaves := NextPowerOfTwo(Atoi(count).value);
              leaves >= 1 && reply.value == MerkleTree.EncodedLeaves(StoreLeaves(sha, leaves, store))
  {
    hide Atoi;
    var leaves := Atoi(count);
    if leaves.None? { return None; }
    var tree := BuildTree(sha, leaves.value, store);
    var bytes := MerkleTree.Encode(tree);
    reply := Some(bytes);
  }

  /** The entries whose bucket is asked for. */
  function Selected(sha: Sha, leaves: nat, store: Store, buckets: seq<nat>): Store
    requires leaves > 0
  {
    map k | k in store && Bucket(sha, leaves, k) in buckets :: store[k]
  }

  /** `rbucket`: one scan of the store, filtered by the requested buckets; a malformed request is refused. */
  method ServeBuckets(sha: Sha, count: Str, store: Store, request: seq<byte>) returns (reply: Option<seq<byte>>)
    ensures reply.None? <==> Atoi(count).None? || SyncCodec.ReadBuckets(request).Malformed?
    ensures reply.Some? ==>
              var leaves := NextPowerOfTwo(Atoi(count).value);
              && leaves >= 1
              && SyncCodec.IsEncoding(reply.value, Selected(sha, leaves, store, SyncCodec.ReadBuckets(request).value))
  {
    hide Atoi;
    var parsed := Atoi(count);
    if parsed.None? { return None; }
    var leaves := parsed.value;
    NextPowerOfTwoIsLeast(leaves, 1);
    PowersArePositive(NextPowerOfTwo(leaves));
    var wanted := SyncCodec.DecodeBuckets(request);
    if wanted.None? { return None; }
    var size := NextPowerOfTwo(leaves);
    var entries: Store := map[];
    var rest := store.Keys;
    while rest != {}
      invariant rest <= store.Keys
      invariant entries == map k | k in store && k !in rest && Bucket(sha, size, k) in wanted.value :: store[k]
    {
      var k :| k in rest;
      if Bucket(sha, size, k) in wanted.value { entries := entries[k := store[k]]; }
      rest := rest - {k};
    }
    assert entries == Selected(sha, size, store, wanted.value);
    var buf := SyncCodec.EncodeEntries(entries);
    return Some(buf);
  }

  // ---------------------------------------------------------------- Syncing

  function BucketPart(sha: Sha, leaves: nat, store: Store, b: nat): Store
    requires leaves > 0
  {
    map k | k in store && Bucket(sha, leaves, k) == b :: store[k]
  }

  /** The exclusive or of a store's entry digests, in any order. */
  ghost function StoreMix(sha: Sha, store: Store): Digest {
    Mix(sha, AnyOrder(store))
  }

  /** A leaf of a store is the mix of its bucket's entries, or empty when there are none. */
  lemma StoreLeafIsMix(sha: Sha, leaves: nat, store: Store, d: nat)
    requires d < leaves
    ensures var part := BucketPart(sha, leaves, store, d);
            StoreLeaves(sha, leaves, store)[d] == if part == map[] then [] else StoreMix(sha, part)
  {
    hide Bucket, LeafOf, Mix;
    var entries, part := AnyOrder(store), BucketPart(sha, leaves, store, d);
    var own := Filter(InBucket(sha, leaves, d), entries);
    FilterDistinct(InBucket(sha, leaves, d), entries);
    FilterContents(InBucket(sha, leaves, d), entries);
    assert Enumerates(own, part);
    SameElementsSameMultiset(own, AnyOrder(part));
    MixOrderIrrelevant(sha, own, AnyOrder(part));
    LeafIsMix(sha, leaves, d, entries);
    if own != [] { assert own[0].key in part; }
    forall k | k in part ensures Entry(k, part[k]) in own { assert Entry(k, part[k]) in entries; }
  }

  /** Equal mixes of buckets, the same one or another, mean equal contents. */
  ghost predicate BucketsTellApart(sha: Sha, leaves: nat, local: Store, peer: Store)
    requires leaves > 0
  {
    forall d: nat, e: nat :: d < leaves && e < leaves ==>
      PartsTellApart(sha, BucketPart(sha, leaves, local, d), BucketPart(sha, leaves, peer, e))
  }

  ghost predicate PartsTellApart(sha: Sha, p: Store, q: Store) {
    p != map[] && q != map[] && StoreMix(sha, p) == StoreMix(sha, q) ==> p == q
  }

  /** Leaves of two stores are equal only if their buckets are. */
  lemma EqualLeavesEqualParts(sha: Sha, leaves: nat, local: Store, peer: Store, d: nat, e: nat)
    requires d < leaves && e < leaves && BucketsTellApart(sha, leaves, local, peer)
    requires StoreLeaves(sha, leaves, local)[d] == StoreLeaves(sha, leaves, peer)[e]
    ensures BucketPart(sha, leaves, local, d) == BucketPart(sha, leaves, peer, e)
  {
    hide StoreLeaves, StoreMix, BucketPart;
    StoreLeafIsMix(sha, leaves, local, d);
    StoreLeafIsMix(sha, leaves, peer, e);
    assert PartsTellApart(sha, BucketPart(sha, leaves, local, d), BucketPart(sha, leaves, peer, e));
  }

  /** No hash of the exchange collides: neither of an inner node nor of a bucket. */
  ghost predicate HashesTellApart(sha: Sha, leaves: nat, local: Store, peer: Store)
    requires leaves > 0
  {
    && NoCollision(sha, StoreLeaves(sha, leaves, local), StoreLeaves(sha, leaves, peer))
    && BucketsTellApart(sha, leaves, local, peer)
  }

  lemma BucketIsEmptyIff(sha: Sha, leaves: nat, store: Store, d: nat)
    requires d < leaves
    ensures StoreLeaves(sha, leaves, store)[d] == [] <==> BucketPart(sha, leaves, store, d) == map[]
  {
    hide Bucket, LeafOf;
    var entries := AnyOrder(store);
    LeafIsEmptyIff(sha, leaves, d, entries);
    if StoreLeaves(sha, leaves, store)[d] == [] {
      forall k | k in store ensures Bucket(sha, leaves, k) != d { assert Entry(k, store[k]) in entries; }
    } else {
      var e :| e in entries && Bucket(sha, leaves, e.key) == d;
      assert e.key in BucketPart(sha, leaves, store, d);
    }
  }

  /** Sibling leaves of two stores alias only if the digests of two different buckets collide. */
  lemma StoresAreUnaliased(sha: Sha, leaves: nat, local: Store, peer: Store)
    requires leaves > 0 && BucketsTellApart(sha, leaves, local, peer)
    ensures Unaliased(StoreLeaves(sha, leaves, local), StoreLeaves(sha, leaves, peer))
  {
    hide StoreLeaves, Bucket;
    var a, b := StoreLeaves(sha, leaves, local), StoreLeaves(sha, leaves, peer);
    forall i | 1 <= i < |a| <= 2 * i ensures !Aliased(a, b, i) {
      if Aliased(a, b, i) { PairIsUnaliased(sha, leaves, local, peer, 2 * i - |a|, 2 * i + 1 - |a|); }
    }
  }

  lemma PairIsUnaliased(sha: Sha, leaves: nat, local: Store, peer: Store, l: nat, r: nat)
    requires l < r < leaves && BucketsTellApart(sha, leaves, local, peer)
    requires var a, b := StoreLeaves(sha, leaves, local), StoreLeaves(sha, leaves, peer);
             a[l] + a[r] == b[l] + b[r]
    ensures StoreLeaves(sha, leaves, local)[l] == StoreLeaves(sha, leaves, peer)[l]
    ensures StoreLeaves(sha, leaves, local)[r] == StoreLeaves(sha, leaves, peer)[r]
  {
    var a, b := StoreLeaves(sha, leaves, local), StoreLeaves(sha, leaves, peer);
    assert IsLeaf(a[l]) && IsLeaf(a[r]) && IsLeaf(b[l]) && IsLeaf(b[r]);
    hide StoreLeaves, Bucket;
    if |a[l]| == |b[l]| {
      SplitEqual(a[l], a[r], b[l], b[r]);
    } else {
      var d, e := if a[l] != [] then l else r, if a[l] != [] then r else l;
      assert a[d] == b[e] && a[d] != [] by {
        assert a[l] + a[r] == a[d] && b[l] + b[r] == b[e];
      }
      BucketIsEmptyIff(sha, leaves, local, d);
      EqualLeavesEqualParts(sha, leaves, local, peer, d, e);
      PartsAreDisjoint(sha, leaves, local, peer, d, e);
      assert false;
    }
  }

  lemma PartsAreDisjoint(sha: Sha, leaves: nat, local: Store, peer: Store, d: nat, e: nat)
    requires leaves > 0 && d != e && BucketPart(sha, leaves, local, d) == BucketPart(sha, leaves, peer, e)
    ensures BucketPart(sha, leaves, local, d) == map[]
  {
    var part := BucketPart(sha, leaves, local, d);
    assert forall k :: k in part ==> k in BucketPart(sha, leaves, peer, e);
  }

  /**
   Between honest trees an alias needs a collision, but the bytes of a peer's tree need not come from
   a store: a tree with two leaves swapped decodes, differs in both buckets, and is reported equal.
   */
  lemma SwappedLeavesGoUnnoticed(sha: Sha, key: Str, blob: Str)
    ensures var a := StoreLeaves(sha, 2, map[key := blob]);
            var b := [a[1], a[0]];
            && MerkleTree.ReadLeaves(MerkleTree.EncodedLeaves(b)) == Read(b, |MerkleTree.EncodedLeaves(b)|)
            && a[0] != b[0] && a[1] != b[1] && DiffOf(sha, a, b) == []
  {
    var store := map[key := blob];
    var a := StoreLeaves(sha, 2, store);
    var b := [a[1], a[0]];
    OneBucketIsUsed(sha, key, blob);
    MerkleTree.LeavesRoundTrip(b, []);
    assert MerkleTree.EncodedLeaves(b) + [] == MerkleTree.EncodedLeaves(b);
    hide StoreLeaves, MerkleTree.ReadLeaves, MerkleTree.EncodedLeaves;
    assert a == [a[0], a[1]];
    if a[1] == [] {
      EmptySiblingAliases(sha, a[0]);
      assert a == [a[0], []] && b == [[], a[0]];
    } else {
      EmptySiblingAliases(sha, a[1]);
      assert a == [[], a[1]] && b == [a[1], []];
    }
  }

  lemma OneBucketIsUsed(sha: Sha, key: Str, blob: Str)
    ensures var a := StoreLeaves(sha, 2, map[key := blob]);
            (|a[0]| == 32 && a[1] == []) || (a[0] == [] && |a[1]| == 32)
  {
    var store := map[key := blob];
    assert IsPow2(2) by { assert 2 == Pow2(1); }
    BucketInRange(sha, 2, key);
    BucketIsEmptyIff(sha, 2, store, 0);
    BucketIsEmptyIff(sha, 2, store, 1);
    var d := Bucket(sha, 2, key);
    assert key in BucketPart(sha, 2, store, d);
    assert BucketPart(sha, 2, store, 1 - d) == map[];
    var a := StoreLeaves(sha, 2, store);
    assert IsLeaf(a[0]) && IsLeaf(a[1]);
  }

  /** What the wire can carry. */
  ghost predicate Transferable(leaves: nat, local: Store, peer: Store) {
    && leaves < 0x1_0000_0000 && SyncCodec.EntriesFit(peer)
    && forall k :: |ContentAt(local, k)| + |ContentAt(peer, k)| < 0x1_0000_0000
  }

  /** Outside the reported buckets the two stores agree key by key. */
  lemma UnreportedAgree(sha: Sha, leaves: nat, local: Store, peer: Store, key: Str)
    requires IsPow2(leaves) && leaves > 0 && HashesTellApart(sha, leaves, local, peer)
    requires Bucket(sha, leaves, key) !in DiffOf(sha, StoreLeaves(sha, leaves, local), StoreLeaves(sha, leaves, peer))
    ensures key in local <==> key in peer
    ensures key in local ==> local[key] == peer[key]
  {
    hide Bucket, StoreLeaves, IsPow2, DiffOf, Unaliased, NoCollision;
    var a, b := StoreLeaves(sha, leaves, local), StoreLeaves(sha, leaves, peer);
    var d := Bucket(sha, leaves, key);
    BucketInRange(sha, leaves, key);
    StoresAreUnaliased(sha, leaves, local, peer);
    DiffIsExactIff(sha, a, b);
    assert a[d] == b[d];
    EqualLeavesEqualParts(sha, leaves, local, peer, d, d);
    var p, q := BucketPart(sha, leaves, local, d), BucketPart(sha, leaves, peer, d);
    assert key in p <==> key in local;
    assert key in q <==> key in peer;
  }

  /** The blob of a reconciled set decodes to that set. */
  lemma {:induction false} FoldStorable(a: seq<Version>, b: seq<Version>)
    requires forall i :: 0 <= i < |a| ==> VersionCodec.Storable(a[i])
    requires forall i :: 0 <= i < |b| ==> VersionCodec.Storable(b[i])
    ensures |Folded(a, b)| <= |a| + |b|
    ensures forall i :: 0 <= i < |Folded(a, b)| ==> VersionCodec.Storable(Folded(a, b)[i])
  {
    hide VersionCodec.Storable;
    FoldedSize(a, b);
    forall i | 0 <= i < |Folded(a, b)| ensures VersionCodec.Storable(Folded(a, b)[i]) {
      FoldedElements(a, b, Folded(a, b)[i]);
    }
  }

  lemma {:induction false} FoldedSize(a: seq<Version>, b: seq<Version>)
    ensures |Folded(a, b)| <= |a| + |b|
  {
    hide IsCovered;
    if b != [] {
      FoldedSize(a, b[..|b| - 1]);
      UnsupersededSize(Folded(a, b[..|b| - 1]), b[|b| - 1]);
    }
  }

  lemma {:induction false} UnsupersededSize(s: seq<Version>, v: Version)
    ensures |Unsuperseded(s, v)| <= |s|
  {
    if s != [] { UnsupersededSize(s[..|s| - 1], v); }
  }

  lemma SiblingsStorable(blob: Str)
    ensures forall i :: 0 <= i < |Siblings(blob)| ==> VersionCodec.Storable(Siblings(blob)[i])
  {
    hide VersionCodec.Storable, VersionCodec.Decoded;
    if VersionCodec.Decoded(blob).Some? { VersionCodec.DecodedStorable(blob); }
  }

  /** The bytes of a set of siblings, and what they decode to. */
  ghost predicate IsBlobOf(blob: Str, vs: seq<Version>) {
    VersionCodec.IsEncoding(blob, vs) && Siblings(blob) == vs
  }

  method FoldBlobs(stored: Str, incoming: Str) returns (blob: Str)
    requires |Siblings(stored)| + |Siblings(incoming)| < 0x1_0000_0000
    ensures IsBlobOf(blob, Folded(Siblings(stored), Siblings(incoming)))
  {
    hide VersionCodec.Decoded, VersionCodec.Storable, VersionCodec.IsEncoding, Folded;
    var existing := Fold(Siblings(stored), Siblings(incoming));
    SiblingsStorable(stored);
    SiblingsStorable(incoming);
    FoldStorable(Siblings(stored), Siblings(incoming));
    blob := VersionCodec.Encode(existing);
    VersionCodec.StorableRoundTrip(existing, blob);
  }

  datatype Update = Refused(error: MapStore.Error) | Accepted(blob: Str)

  /** Storing some bytes of these siblings under the key has this outcome. */
  ghost predicate IsUpdate(limits: MapStore.Limits, key: Str, vs: seq<Version>, update: Update) {
    exists blob :: IsBlobOf(blob, vs) &&
      update == match MapStore.Refusal(limits, key, blob)
                case Some(e) => Refused(e)
                case None => Accepted(blob)
  }

  /** Fold one incoming blob into the blob stored under a key, unless the store refuses the key or the size. */
  method UpdateReplica(limits: MapStore.Limits, key: Str, stored: Str, incoming: Str) returns (update: Update)
    requires |Siblings(stored)| + |Siblings(incoming)| < 0x1_0000_0000
    ensures IsUpdate(limits, key, Folded(Siblings(stored), Siblings(incoming)), update)
  {
    hide IsBlobOf, MapStore.Refusal, Siblings;
    var blob := FoldBlobs(stored, incoming);
    var refusal := MapStore.Refusal(limits, key, blob);
    update := if refusal.Some? then Refused(refusal.value) else Accepted(blob);
  }

  datatype RSetReply = MalformedVersion | Replied(update: Update)

  /** `rset` on bytes: exactly one version must decode, and it is reconciled in. */
  method ServeRSet(limits: MapStore.Limits, key: Str, stored: Str, arg: Str) returns (reply: RSetReply)
    requires |Siblings(stored)| + 1 < 0x1_0000_0000
    ensures reply.MalformedVersion? <==> VersionCodec.Decoded(arg).None? || |VersionCodec.Decoded(arg).value| != 1
    ensures reply.Replied? ==>
              IsUpdate(limits, key, Reconciled(Siblings(stored), VersionCodec.Decoded(arg).value[0]), reply.update)
  {
    hide VersionCodec.Decoded, IsUpdate;
    var incoming := VersionCodec.Decode(arg);
    if incoming.None? || |incoming.value| != 1 { return MalformedVersion; }
    assert incoming.value == [incoming.value[0]];
    FoldedOne(Siblings(stored), incoming.value[0]);
    var update := UpdateReplica(limits, key, stored, arg);
    reply := Replied(update);
  }

  lemma FoldedOne(s: seq<Version>, v: Version)
    ensures Folded(s, [v]) == Reconciled(s, v)
  {
  }

  lemma ReportFits(sha: Sha, a: seq<Str>, b: seq<Str>)
    requires |a| == |b| && IsPow2(|a|) && 0 < |a| < 0x1_0000_0000
    ensures SyncCodec.BucketsFit(DiffOf(sha, a, b))
  {
    hide DiffOf;
    var diffs := DiffOf(sha, a, b);
    DiffIsAscending(sha, a, b);
    forall i | 0 <= i < |diffs| ensures diffs[i] < |a| { DiffIsSound(sha, a, b, diffs[i]); }
    assert Distinct(diffs);
    Pigeonhole(diffs, |a|);
  }

  /** The sets that one sync brings a key to, with the peer's set folded in. */
  ghost predicate Synced(local: Store, peer: Store, result: Store, key: Str) {
    ContentAt(result, key) == Folded(ContentAt(local, key), ContentAt(peer, key))
  }

  lemma FoldSelf(s: seq<Version>)
    requires Antichain(s)
    ensures Folded(s, s) == s
  {
    hide Antichain;
    FoldedCoveredBatch(s, s);
  }

  /** A key that is not fetched needs no folding: the peer lacks it or holds the very same blob. */
  lemma UnfetchedIsSynced(sha: Sha, leaves: nat, local: Store, peer: Store, key: Str)
    requires IsPow2(leaves) && leaves > 0 && HashesTellApart(sha, leaves, local, peer)
    requires key in local ==> Antichain(ContentAt(local, key))
    requires var diffs := DiffOf(sha, StoreLeaves(sha, leaves, local), StoreLeaves(sha, leaves, peer));
             key !in Selected(sha, leaves, peer, diffs)
    ensures Folded(ContentAt(local, key), ContentAt(peer, key)) == ContentAt(local, key)
  {
    hide StoreLeaves, DiffOf, Siblings, HashesTellApart, Antichain, IsPow2, Bucket;
    if key in peer {
      UnreportedAgree(sha, leaves, local, peer, key);
      FoldSelf(ContentAt(local, key));
    }
  }

  lemma TreeFits(sha: Sha, leaves: nat, store: Store)
    requires 0 < leaves < 0x1_0000_0000
    ensures MerkleTree.LeavesFit(StoreLeaves(sha, leaves, store))
  {
  }

  lemma SelectionFits(sha: Sha, leaves: nat, store: Store, buckets: seq<nat>)
    requires leaves > 0 && SyncCodec.EntriesFit(store)
    ensures SyncCodec.EntriesFit(Selected(sha, leaves, store, buckets))
  {
    hide Bucket;
    SubsetSize(Selected(sha, leaves, store, buckets).Keys, store.Keys);
  }

  /** Ask the peer for its tree and tell which buckets differ. */
  method DiffWithPeer(sha: Sha, leaves: int64, local: Store, peer: Store) returns (diffs: seq<nat>)
    requires NextPowerOfTwo(leaves) < 0x1_0000_0000
    ensures IsPow2(NextPowerOfTwo(leaves)) && NextPowerOfTwo(leaves) > 0
    ensures var size := NextPowerOfTwo(leaves);
            diffs == DiffOf(sha, StoreLeaves(sha, size, local), StoreLeaves(sha, size, peer))
  {
    hide MerkleTree.EncodedLeaves, MerkleTree.ReadLeaves, StoreLeaves, DiffOf, IsPow2, Atoi, Itoa;
    var tree := BuildTree(sha, leaves, local);
    AtoiItoa(leaves);
    var answer := ServeTree(sha, Itoa(leaves), peer);
    var reply := answer.value;
    var peerTree := MerkleTree.Decode(reply, sha);
    TreeFits(sha, tree.leafCount, peer);
    MerkleTree.LeavesRoundTrip(StoreLeaves(sha, tree.leafCount, peer), []);
    assert reply + [] == reply;
    diffs := tree.Diff(peerTree);
  }

  /** Ask the peer for its entries in some buckets. */
  method FetchBuckets(sha: Sha, leaves: int64, peer: Store, buckets: seq<nat>) returns (entries: Store)
    requires SyncCodec.BucketsFit(buckets) && SyncCodec.EntriesFit(peer)
    ensures NextPowerOfTwo(leaves) > 0 && entries == Selected(sha, NextPowerOfTwo(leaves), peer, buckets)
  {
    hide SyncCodec.EncodedBuckets, SyncCodec.ReadBuckets, SyncCodec.EncodedEntries, SyncCodec.ReadEntries,
         SyncCodec.IsEntryOrder, SyncCodec.BucketsFit, SyncCodec.EntriesFit, Selected, Atoi, Itoa;
    var request := SyncCodec.EncodeBuckets(buckets);
    SyncCodec.BucketsRoundTrip(buckets, []);
    assert request + [] == request;
    AtoiItoa(leaves);
    var answer := ServeBuckets(sha, Itoa(leaves), peer, request);
    var decoded := SyncCodec.DecodeEntries(answer.value);
    ghost var chosen := Selected(sha, NextPowerOfTwo(leaves), peer, buckets);
    SelectionFits(sha, NextPowerOfTwo(leaves), peer, buckets);
    ghost var order :| SyncCodec.IsEntryOrder(order, chosen) && answer.value == SyncCodec.EncodedEntries(chosen, order);
    SyncCodec.EntriesRoundTrip(chosen, order, []);
    assert answer.value + [] == answer.value;
    entries := decoded.value;
  }

  /** The key has no bytes or too many, or some encoding of these siblings does. */
  ghost predicate IsRefused(limits: MapStore.Limits, key: Str, vs: seq<Version>) {
    exists blob :: IsBlobOf(blob, vs) && !(0 < |key| <= limits.maxKeySize && |blob| <= limits.maxValueSize)
  }

  /** The siblings of a key after a batch was folded in, or as before when the store refused the outcome. */
  ghost predicate IsAbsorbed(limits: MapStore.Limits, key: Str, before: seq<Version>, batch: seq<Version>,
                             after: seq<Version>) {
    after == Folded(before, batch) || (after == before && IsRefused(limits, key, Folded(before, batch)))
  }

  /** Fold every fetched entry into the local store, key by key; an error for one key does not stop the others. */
  method AbsorbEntries(limits: MapStore.Limits, local: Store, entries: Store) returns (result: Store)
    requires forall k :: k in entries ==> |ContentAt(local, k)| + |Siblings(entries[k])| < 0x1_0000_0000
    ensures local.Keys <= result.Keys <= local.Keys + entries.Keys
    ensures forall k :: k !in entries ==> ContentAt(result, k) == ContentAt(local, k)
    ensures forall k :: k in entries ==>
              IsAbsorbed(limits, k, ContentAt(local, k), Siblings(entries[k]), ContentAt(result, k))
  {
    hide Siblings, Folded, IsUpdate, IsAbsorbed;
    NoBytesNoSiblings();
    result := local;
    var rest := entries.Keys;
    while rest != {}
      invariant rest <= entries.Keys && local.Keys <= result.Keys <= local.Keys + entries.Keys
      invariant forall k :: k !in entries || k in rest ==> ContentAt(result, k) == ContentAt(local, k)
      invariant forall k :: k in entries && k !in rest ==>
                  IsAbsorbed(limits, k, ContentAt(local, k), Siblings(entries[k]), ContentAt(result, k))
    {
      var k :| k in rest;
      var update := UpdateReplica(limits, k, if k in result then result[k] else [], entries[k]);
      UpdateAbsorbs(limits, k, ContentAt(local, k), Siblings(entries[k]), update);
      if update.Accepted? { result := result[k := update.blob]; }
      rest := rest - {k};
    }
  }

  lemma UpdateAbsorbs(limits: MapStore.Limits, key: Str, before: seq<Version>, batch: seq<Version>, update: Update)
    requires IsUpdate(limits, key, Folded(before, batch), update)
    ensures update.Accepted? ==> IsAbsorbed(limits, key, before, batch, Siblings(update.blob))
    ensures update.Refused? ==> IsAbsorbed(limits, key, before, batch, before)
  {
    hide IsBlobOf, Folded;
    var blob :| IsBlobOf(blob, Folded(before, batch)) &&
      update == match MapStore.Refusal(limits, key, blob)
                case Some(e) => Refused(e)
                case None => Accepted(blob);
    BlobHolds(blob, Folded(before, batch));
  }

  lemma BlobHolds(blob: Str, vs: seq<Version>)
    requires IsBlobOf(blob, vs)
    ensures Siblings(blob) == vs
  {
  }

  lemma NoBytesNoSiblings()
    ensures Siblings([]) == []
  {
  }

  /**
   A sync round with a peer that answers without errors and does not change meanwhile: every key
   ends up as if the peer's whole store had been reconciled in, with no tree at all, unless the local
   store refuses the outcome for that key, which then stays as it was.
   */
  method SyncWith(sha: Sha, leaves: int64, limits: MapStore.Limits, local: Store, peer: Store) returns (result: Store)
    requires forall k :: k in local ==> Antichain(ContentAt(local, k))
    requires NextPowerOfTwo(leaves) > 0 && Transferable(NextPowerOfTwo(leaves), local, peer)
    requires HashesTellApart(sha, NextPowerOfTwo(leaves), local, peer)
    ensures local.Keys <= result.Keys <= local.Keys + peer.Keys
    ensures forall k :: IsAbsorbed(limits, k, ContentAt(local, k), ContentAt(peer, k), ContentAt(result, k))
  {
    hide Antichain, HashesTellApart, IsPow2, StoreLeaves, DiffOf, Siblings, Folded, Bucket, IsRefused,
         SyncCodec.EntriesFit, SyncCodec.BucketsFit;
    ghost var size := NextPowerOfTwo(leaves);
    var diffs := DiffWithPeer(sha, leaves, local, peer);
    if |diffs| == 0 {
      result := local;
      forall k ensures IsAbsorbed(limits, k, ContentAt(local, k), ContentAt(peer, k), ContentAt(result, k)) {
        UnfetchedIsSynced(sha, size, local, peer, k);
      }
      return;
    }
    ReportFits(sha, StoreLeaves(sha, size, local), StoreLeaves(sha, size, peer));
    var entries := FetchBuckets(sha, leaves, peer, diffs);
    forall k | k in entries ensures |ContentAt(local, k)| + |Siblings(entries[k])| < 0x1_0000_0000 {
      assert ContentAt(peer, k) == Siblings(entries[k]);
    }
    result := AbsorbEntries(limits, local, entries);
    forall k ensures IsAbsorbed(limits, k, ContentAt(local, k), ContentAt(peer, k), ContentAt(result, k)) {
      if k in entries {
        assert ContentAt(peer, k) == Siblings(entries[k]);
      } else {
        UnfetchedIsSynced(sha, size, local, peer, k);
      }
    }
  }

  /** A sync loses nothing the node covered, and covers every version of the peer under a key it does not refuse. */
  lemma SyncedCovers(limits: MapStore.Limits, local: Store, peer: Store, result: Store, key: Str, clock: VClock.Clock)
    requires IsAbsorbed(limits, key, ContentAt(local, key), ContentAt(peer, key), ContentAt(result, key))
    ensures Covers(ContentAt(local, key), clock) ==> Covers(ContentAt(result, key), clock)
    ensures Covers(ContentAt(peer, key), clock) ==>
              || Covers(ContentAt(result, key), clock)
              || IsRefused(limits, key, Folded(ContentAt(local, key), ContentAt(peer, key)))
  {
    FoldedCovers(ContentAt(local, key), ContentAt(peer, key));
  }
}
