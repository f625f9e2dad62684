/**
 What a Merkle round notices (internal/merkle/merkle.go), from the hash alone: a single changed, added or
 removed key is reported, with nothing assumed of the rest of the two stores.
 */
module Detection {
  import opened Bytes
  import opened Bits
  import opened Merkle
  import opened AntiEntropy

  /** Two stores that agree on every key but one. */
  predicate AgreeExcept(local: Store, peer: Store, key: Str) {
    local - {key} == peer - {key}
  }

  function Found(store: Store, key: Str): Option<Str> {
    if key in store then Some(store[key]) else None
  }

  /** One key's entry can be taken as added last, on top of the rest of the store. */
  lemma KeyOnTop(sha: Sha, leaves: nat, store: Store, key: Str, b: nat)
    requires b < leaves && key in store
    ensures StoreLeaves(sha, leaves, store)[b] ==
              AddedTo(sha, leaves, b, StoreLeaves(sha, leaves, store - {key})[b], Entry(key, store[key]))
  {
    hide LeafOf, AddedTo;
    var rest := AnyOrder(store - {key});
    var e := Entry(key, store[key]);
    assert e !in rest;
    assert Enumerates(rest + [e], store);
    LeavesIgnoreOrder(sha, leaves, store, rest + [e]);
    LeafSnoc(sha, leaves, b, rest, e);
  }

  lemma LeafSnoc(sha: Sha, leaves: nat, b: nat, entries: seq<Entry>, e: Entry)
    requires leaves > 0
    ensures LeafOf(sha, leaves, b, entries + [e]) == AddedTo(sha, leaves, b, LeafOf(sha, leaves, b, entries), e)
  {
    assert (entries + [e])[..|entries|] == entries;
  }

  /** The leaf of a bucket with and without one key. */
  lemma LeafAround(sha: Sha, leaves: nat, store: Store, key: Str, b: nat)
    requires b < leaves
    ensures var rest := StoreLeaves(sha, leaves, store - {key})[b];
            && IsLeaf(rest)
            && StoreLeaves(sha, leaves, store)[b] ==
                 if Bucket(sha, leaves, key) == b && key in store
                 then Mixed(rest, EntryHash(sha, Entry(key, store[key]))) else rest
  {
    hide Bucket, Mixed, EntryHash, LeafOf;
    if key in store { KeyOnTop(sha, leaves, store, key, b); } else { assert store - {key} == store; }
  }

  /** Changing one key touches no other leaf. */
  lemma OtherLeavesAgree(sha: Sha, leaves: nat, local: Store, peer: Store, key: Str, b: nat)
    requires b < leaves && AgreeExcept(local, peer, key) && Bucket(sha, leaves, key) != b
    ensures StoreLeaves(sha, leaves, local)[b] == StoreLeaves(sha, leaves, peer)[b]
  {
    hide Bucket, StoreLeaves, Mixed, EntryHash;
    LeafAround(sha, leaves, local, key, b);
    LeafAround(sha, leaves, peer, key, b);
  }

  /**
   When the leaf of a changed key misses the change. A new blob is missed only if two inputs that are hashed
   collide; an added or removed key only if its digest is all zero and its bucket holds something else.
   */
  lemma ChangeIsMissedIff(sha: Sha, leaves: nat, local: Store, peer: Store, key: Str)
    requires IsPow2(leaves) && AgreeExcept(local, peer, key) && Found(local, key) != Found(peer, key)
    ensures var d := Bucket(sha, leaves, key);
            && d < leaves
            && (StoreLeaves(sha, leaves, local)[d] == StoreLeaves(sha, leaves, peer)[d] <==>
                if key in local && key in peer then sha(sha(key) + local[key]) == sha(sha(key) + peer[key])
                else
                  && sha(sha(key) + (if key in local then local[key] else peer[key])) == Zeros
                  && BucketPart(sha, leaves, local - {key}, d) != map[])
  {
    BucketInRange(sha, leaves, key);
    var d := Bucket(sha, leaves, key);
    BucketIsEmptyIff(sha, leaves, local - {key}, d);
    LeafAround(sha, leaves, local, key, d);
    LeafAround(sha, leaves, peer, key, d);
    var rest := StoreLeaves(sha, leaves, local - {key})[d];
    hide Bucket, StoreLeaves, Mixed, IsPow2, BucketPart;
    if key in local && key in peer {
      var x, y := EntryHash(sha, Entry(key, local[key])), EntryHash(sha, Entry(key, peer[key]));
      if Mixed(rest, x) == Mixed(rest, y) { MixedCancels(rest, x, y); }
    } else if key in local {
      MixedIsUnchangedIff(rest, EntryHash(sha, Entry(key, local[key])));
    } else {
      MixedIsUnchangedIff(rest, EntryHash(sha, Entry(key, peer[key])));
    }
  }

  /** Trees that differ in one leaf only have no aliased siblings. */
  lemma OneDifferenceIsUnaliased(a: seq<Str>, b: seq<Str>, d: nat)
    requires |a| == |b| && forall c :: 0 <= c < |a| && c != d ==> a[c] == b[c]
    ensures Unaliased(a, b)
  {
    forall i | 1 <= i < |a| <= 2 * i ensures !Aliased(a, b, i) {
      var l, r := 2 * i - |a|, 2 * i + 1 - |a|;
      if Aliased(a, b, i) {
        assert |a[l] + a[r]| == |b[l] + b[r]|;
        SplitEqual(a[l], a[r], b[l], b[r]);
        assert false;
      }
    }
  }

  /** No hash behind this one key's change collides. */
  ghost predicate ChangeShows(sha: Sha, local: Store, peer: Store, key: Str) {
    if key in local && key in peer then TellsApart(sha, sha(key) + local[key], sha(key) + peer[key])
    else (key in local ==> sha(sha(key) + local[key]) != Zeros) && (key in peer ==> sha(sha(key) + peer[key]) != Zeros)
  }

  /** A single change is reported: the round fetches exactly the bucket of the key that differs. */
  lemma OneChangeIsReported(sha: Sha, leaves: nat, local: Store, peer: Store, key: Str)
    requires IsPow2(leaves) && leaves > 0
    requires AgreeExcept(local, peer, key) && Found(local, key) != Found(peer, key)
    requires ChangeShows(sha, local, peer, key)
    requires NoCollision(sha, StoreLeaves(sha, leaves, local), StoreLeaves(sha, leaves, peer))
    ensures DiffOf(sha, StoreLeaves(sha, leaves, local), StoreLeaves(sha, leaves, peer)) ==
              [Bucket(sha, leaves, key)]
  {
    hide StoreLeaves, Bucket, NoCollision, DiffOf, Unaliased, IsPow2, BucketPart;
    var a, b := StoreLeaves(sha, leaves, local), StoreLeaves(sha, leaves, peer);
    var d := Bucket(sha, leaves, key);
    ChangeIsMissedIff(sha, leaves, local, peer, key);
    if key in local && key in peer { BlobsShow(sha, local, peer, key); }
    forall c | 0 <= c < leaves && c != d ensures a[c] == b[c] { OtherLeavesAgree(sha, leaves, local, peer, key, c); }
    OneDifferenceIsUnaliased(a, b, d);
    DiffIsExactIff(sha, a, b);
    DiffIsAscending(sha, a, b);
    OnlyOne(DiffOf(sha, a, b), d);
  }

  lemma BlobsShow(sha: Sha, local: Store, peer: Store, key: Str)
    requires key in local && key in peer && local[key] != peer[key]
    requires TellsApart(sha, sha(key) + local[key], sha(key) + peer[key])
    ensures sha(sha(key) + local[key]) != sha(sha(key) + peer[key])
  {
    if sha(key) + local[key] == sha(key) + peer[key] {
      SplitEqual(sha(key), local[key], sha(key), peer[key]);
      assert false;
    }
  }

  lemma OnlyOne(s: seq<nat>, d: nat)
    requires Ascending(s) && forall c :: c in s <==> c == d
    ensures s == [d]
  {
    assert d in s && (|s| > 1 ==> s[0] < s[1]);
    forall i | 0 <= i < |s| ensures s[i] == d { assert s[i] in s; }
  }

  lemma EqualPartsEqualLeaves(sha: Sha, leaves: nat, local: Store, peer: Store, d: nat)
    requires d < leaves && BucketPart(sha, leaves, local, d) == BucketPart(sha, leaves, peer, d)
    ensures StoreLeaves(sha, leaves, local)[d] == StoreLeaves(sha, leaves, peer)[d]
  {
    hide StoreLeaves, StoreMix, BucketPart;
    StoreLeafIsMix(sha, leaves, local, d);
    StoreLeafIsMix(sha, leaves, peer, d);
  }

  /** Nothing travels for nothing, whatever the hash: a key is fetched only if the stores differ within its bucket. */
  lemma FetchedBucketsDiffer(sha: Sha, leaves: nat, local: Store, peer: Store, key: Str) returns (k: Str)
    requires IsPow2(leaves) && leaves > 0
    requires var diffs := DiffOf(sha, StoreLeaves(sha, leaves, local), StoreLeaves(sha, leaves, peer));
             key in Selected(sha, leaves, peer, diffs)
    ensures Bucket(sha, leaves, k) == Bucket(sha, leaves, key) && Found(local, k) != Found(peer, k)
  {
    hide StoreLeaves, Bucket, DiffOf, IsPow2;
    var d := Bucket(sha, leaves, key);
    DiffIsSound(sha, StoreLeaves(sha, leaves, local), StoreLeaves(sha, leaves, peer), d);
    var p, q := BucketPart(sha, leaves, local, d), BucketPart(sha, leaves, peer, d);
    if p == q { EqualPartsEqualLeaves(sha, leaves, local, peer, d); }
    k := DifferingKey(p, q);
  }

  lemma DifferingKey(p: Store, q: Store) returns (k: Str)
    requires p != q
    ensures (k in p || k in q) && Found(p, k) != Found(q, k)
  {
    if k' :| k' in p && Found(p, k') != Found(q, k') {
      k := k';
    } else {
      k :| k in q && k !in p;
    }
  }
}
