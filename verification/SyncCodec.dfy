/**
 The wire forms of the anti-entropy exchange (internal/server/antientropy.go): the set of buckets a
 node asks for, and the entries its peer replies with.
 */
module SyncCodec {
  import opened Bytes
  import opened Seqs
  import opened Binenc

  // ---------------------------------------------------------------- Buckets

  predicate BucketsFit(buckets: seq<nat>) {
    |buckets| < 0x1_0000_0000 && forall i | 0 <= i < |buckets| :: buckets[i] < 0x1_0000_0000
  }

  function BucketChunks(buckets: seq<nat>): (chunks: seq<seq<byte>>)
    ensures |chunks| == |buckets|
  {
    seq(|buckets|, i requires 0 <= i < |buckets| => PutUint32(buckets[i]))
  }

  function EncodedBuckets(buckets: seq<nat>): seq<byte> {
    PutUint32(|buckets|) + PutAll(BucketChunks(buckets), |buckets|)
  }

  function BucketAt(data: seq<byte>): nat -> Read<nat> {
    (off: nat) => Uint32(data, off)
  }

  function ReadBuckets(data: seq<byte>): Read<seq<nat>> {
    match Uint32(data, 0)
    case Malformed => Malformed
    case Read(count, off) => ReadAll(BucketAt(data), off, count)
  }

  lemma BucketsRoundTrip(buckets: seq<nat>, tail: seq<byte>)
    requires BucketsFit(buckets)
    ensures ReadBuckets(EncodedBuckets(buckets) + tail) == Read(buckets, |EncodedBuckets(buckets)|)
  {
    hide Holds, PutAll, Uint, PutUint;
    var data := EncodedBuckets(buckets) + tail;
    var chunks := BucketChunks(buckets);
    var item := BucketAt(data);
    HoldsWhole(EncodedBuckets(buckets), tail);
    ReadsLength(data, 0, |buckets|, PutAll(chunks, |buckets|));
    Limits();
    forall k, o: nat {:trigger item(o), buckets[k]} | 0 <= k < |buckets| && Holds(data, o, chunks[k])
      ensures item(o) == Read(buckets[k], o + |chunks[k]|)
    {
      ReadsUint(data, o, buckets[k], 4);
    }
    ReadsList(data, 4, item, chunks, buckets);
  }

  method EncodeBuckets(buckets: seq<nat>) returns (buf: seq<byte>)
    ensures buf == EncodedBuckets(buckets)
  {
    hide PutUint;
    buf := PutUint32(|buckets|);
    assert buf == buf + PutAll(BucketChunks(buckets), 0);
    for i := 0 to |buckets|
      invariant buf == PutUint32(|buckets|) + PutAll(BucketChunks(buckets), i)
    {
      buf := buf + PutUint32(buckets[i]);
    }
  }

  method DecodeBuckets(data: seq<byte>) returns (r: Option<seq<nat>>)
    ensures r == if ReadBuckets(data).Malformed? then None else Some(ReadBuckets(data).value)
  {
    hide Uint;
    var count := Uint32(data, 0);
    if count.Malformed? { return None; }
    var buckets: seq<nat> := [];
    var cursor := count.next;
    ContinuedNil(ReadAll(BucketAt(data), cursor, count.value));
    for i := 0 to count.value
      invariant ReadBuckets(data) == Continued(buckets, ReadAll(BucketAt(data), cursor, count.value - i))
    {
      ContinuedStep(buckets, BucketAt(data), cursor, count.value - i);
      var bucket := Uint32(data, cursor);
      if bucket.Malformed? { return None; }
      buckets := buckets + [bucket.value];
      cursor := bucket.next;
    }
    assert buckets + [] == buckets;
    r := Some(buckets);
  }

  // ---------------------------------------------------------------- Entries

  type Entries = map<Str, Str>

  predicate EntriesFit(entries: Entries) {
    |entries| < 0x1_0000_0000 && forall k | k in entries :: |k| <= MaxUint16 && |entries[k]| < 0x1_0000_0000
  }

  /** An iteration order of the entries: each key once. */
  ghost predicate IsEntryOrder(order: seq<Str>, entries: Entries) {
    Distinct(order) && forall k :: k in order <==> k in entries
  }

  /** A key too long for its prefix is silently left out, its blob is not. */
  function PutPair(key: Str, blob: Str): seq<byte> {
    (if PutString(key).Some? then PutString(key).value else []) + PutBlob(blob)
  }

  function BlobOf(entries: Entries, key: Str): Str {
    if key in entries then entries[key] else []
  }

  function PairChunks(entries: Entries, order: seq<Str>): (chunks: seq<seq<byte>>)
    ensures |chunks| == |order|
    ensures forall i :: 0 <= i < |order| ==> chunks[i] == PutPair(order[i], BlobOf(entries, order[i]))
  {
    if order == [] then []
    else
      var last := order[|order| - 1];
      PairChunks(entries, order[..|order| - 1]) + [PutPair(last, BlobOf(entries, last))]
  }

  function EncodedEntries(entries: Entries, order: seq<Str>): seq<byte> {
    PutUint32(|entries|) + PutAll(PairChunks(entries, order), |order|)
  }

  function ReadPair(data: seq<byte>, off: nat): Read<(Str, Str)> {
    match String(data, off)
    case Malformed => Malformed
    case Read(key, off) =>
      match Blob(data, off)
      case Malformed => Malformed
      case Read(blob, off) => Read((key, blob), off)
  }

  function PairAt(data: seq<byte>): nat -> Read<(Str, Str)> {
    (off: nat) => ReadPair(data, off)
  }

  /** The map filled from pairs in order; a later pair overwrites an earlier one. */
  function MapOf(pairs: seq<(Str, Str)>): Entries {
    if pairs == [] then map[]
    else MapOf(pairs[..|pairs| - 1])[pairs[|pairs| - 1].0 := pairs[|pairs| - 1].1]
  }

  function ReadEntries(data: seq<byte>): Option<Entries> {
    match Uint32(data, 0)
    case Malformed => None
    case Read(count, off) =>
      match ReadAll(PairAt(data), off, count)
      case Malformed => None
      case Read(pairs, _) => Some(MapOf(pairs))
  }

  lemma ReadsPair(data: seq<byte>, off: nat, key: Str, blob: Str)
    requires |key| <= MaxUint16 && |blob| < 0x1_0000_0000 && Holds(data, off, PutPair(key, blob))
    ensures ReadPair(data, off) == Read((key, blob), off + |PutPair(key, blob)|)
  {
    hide PutBlob, Blob, String;
    HoldsSplit(data, off, PutString(key).value, PutBlob(blob));
    ReadsString(data, off, key);
    ReadsBlob(data, off + |PutString(key).value|, blob);
  }

  function PairsOf(entries: Entries, order: seq<Str>): (pairs: seq<(Str, Str)>)
    requires forall i :: 0 <= i < |order| ==> order[i] in entries
    ensures |pairs| == |order|
  {
    seq(|order|, i requires 0 <= i < |order| => (order[i], entries[order[i]]))
  }

  lemma {:induction false} MapOfContents(entries: Entries, pairs: seq<(Str, Str)>)
    requires forall i :: 0 <= i < |pairs| ==> pairs[i].0 in entries && entries[pairs[i].0] == pairs[i].1
    ensures forall k :: k in MapOf(pairs) <==> exists i :: 0 <= i < |pairs| && pairs[i].0 == k
    ensures forall k :: k in MapOf(pairs) ==> k in entries && MapOf(pairs)[k] == entries[k]
  {
    if pairs != [] {
      var init := pairs[..|pairs| - 1];
      MapOfContents(entries, init);
      forall k ensures k in MapOf(pairs) <==> exists i :: 0 <= i < |pairs| && pairs[i].0 == k {
        if k in MapOf(init) {
          var i :| 0 <= i < |init| && init[i].0 == k;
          assert pairs[i].0 == k;
        }
        if i :| 0 <= i < |pairs| && pairs[i].0 == k {
          assert i < |init| ==> init[i].0 == k;
        }
      }
    }
  }

  lemma MapOfPairs(entries: Entries, order: seq<Str>)
    requires IsEntryOrder(order, entries)
    ensures |order| == |entries| && MapOf(PairsOf(entries, order)) == entries
  {
    DistinctSize(order);
    assert (set k | k in order) == entries.Keys;
    var pairs := PairsOf(entries, order);
    MapOfContents(entries, pairs);
    forall k | k in entries ensures k in MapOf(pairs) {
      var i :| 0 <= i < |order| && order[i] == k;
      assert pairs[i].0 == k;
    }
    assert MapOf(pairs).Keys == entries.Keys;
  }

  lemma ReadsPairs(data: seq<byte>, off: nat, chunks: seq<seq<byte>>, pairs: seq<(Str, Str)>)
    requires |chunks| == |pairs| && Holds(data, off, PutAll(chunks, |pairs|))
    requires forall k {:trigger pairs[k]} :: 0 <= k < |pairs| ==>
               |pairs[k].0| <= MaxUint16 && |pairs[k].1| < 0x1_0000_0000 && chunks[k] == PutPair(pairs[k].0, pairs[k].1)
    ensures ReadAll(PairAt(data), off, |pairs|) == Read(pairs, off + |PutAll(chunks, |pairs|)|)
  {
    hide Holds, PutAll, ReadPair, PutPair;
    var item := PairAt(data);
    forall k, o: nat {:trigger item(o), pairs[k]} | 0 <= k < |pairs| && Holds(data, o, chunks[k])
      ensures item(o) == Read(pairs[k], o + |chunks[k]|)
    {
      ReadsPair(data, o, pairs[k].0, pairs[k].1);
    }
    ReadsList(data, off, item, chunks, pairs);
  }

  /** The entries come back whatever the iteration order and whatever bytes follow. */
  lemma EntriesRoundTrip(entries: Entries, order: seq<Str>, tail: seq<byte>)
    requires EntriesFit(entries) && IsEntryOrder(order, entries)
    ensures ReadEntries(EncodedEntries(entries, order) + tail) == Some(entries)
  {
    hide Holds, PutAll, PairAt, PutPair, Uint, PutUint, MapOf, ReadAll;
    var data := EncodedEntries(entries, order) + tail;
    var chunks := PairChunks(entries, order);
    var pairs := PairsOf(entries, order);
    MapOfPairs(entries, order);
    HoldsWhole(EncodedEntries(entries, order), tail);
    ReadsLength(data, 0, |entries|, PutAll(chunks, |order|));
    ReadsPairs(data, 4, chunks, pairs);
  }

  lemma PairChunksSnoc(entries: Entries, order: seq<Str>, key: Str)
    requires key in entries
    ensures PutAll(PairChunks(entries, order + [key]), |order| + 1)
              == PutAll(PairChunks(entries, order), |order|) + PutPair(key, entries[key])
  {
    hide PutPair, PutAll;
    assert (order + [key])[..|order|] == order;
    PutAllSnoc(PairChunks(entries, order), PutPair(key, entries[key]));
  }

  /** The bytes of the entries for some iteration order. */
  ghost predicate IsEncoding(buf: seq<byte>, entries: Entries) {
    exists order :: IsEntryOrder(order, entries) && buf == EncodedEntries(entries, order)
  }

  method EncodeEntries(entries: Entries) returns (buf: seq<byte>)
    ensures IsEncoding(buf, entries)
  {
    hide PutUint, PutString, PutBlob, PutAll;
    buf := PutUint32(|entries|);
    ghost var order: seq<Str> := [];
    NothingPut(entries, buf);
    var rest := entries.Keys;
    while rest != {}
      invariant rest <= entries.Keys && Distinct(order)
      invariant forall k :: k in order <==> k in entries && k !in rest
      invariant buf == PutUint32(|entries|) + PutAll(PairChunks(entries, order), |order|)
    {
      var key :| key in rest;
      PairChunksSnoc(entries, order, key);
      assert buf + PutPair(key, entries[key])
          == PutUint32(|entries|) + (PutAll(PairChunks(entries, order), |order|) + PutPair(key, entries[key]));
      buf := buf + PutPair(key, entries[key]);
      order := order + [key];
      rest := rest - {key};
    }
    assert IsEntryOrder(order, entries);
  }

  lemma NothingPut(entries: Entries, buf: seq<byte>)
    ensures buf == buf + PutAll(PairChunks(entries, []), 0)
  {
  }

  method DecodeEntries(data: seq<byte>) returns (r: Option<Entries>)
    ensures r == ReadEntries(data)
  {
    hide Uint, ReadPair;
    var count := Uint32(data, 0);
    if count.Malformed? { return None; }
    var entries: Entries := map[];
    ghost var pairs: seq<(Str, Str)> := [];
    var cursor := count.next;
    ContinuedNil(ReadAll(PairAt(data), cursor, count.value));
    for i := 0 to count.value
      invariant entries == MapOf(pairs)
      invariant ReadAll(PairAt(data), count.next, count.value) ==
                    Continued(pairs, ReadAll(PairAt(data), cursor, count.value - i))
    {
      ContinuedStep(pairs, PairAt(data), cursor, count.value - i);
      var pair := ReadPair(data, cursor);
      if pair.Malformed? { return None; }
      assert (pairs + [pair.value])[..|pairs|] == pairs;
      entries := entries[pair.value.0 := pair.value.1];
      pairs := pairs + [pair.value];
      cursor := pair.next;
    }
    assert pairs + [] == pairs;
    r := Some(entries);
  }
}
