/**
 The wire formats byte by byte. Round trips hold for any format whose two ends agree; these lemmas say which
 format it is: fields in their order, big-endian numbers, the tags of RESP2.
 */
module Layouts {
  import opened Bytes
  import opened Binenc
  import opened Membership
  import opened Versions
  import VersionCodec
  import GossipCodec
  import SyncCodec
  import MerkleTree
  import Resp

  // ---------------------------------------------------------------- Numbers

  /** A small number fills its last byte only. */
  lemma SmallNumbers(n: byte)
    ensures PutUint16(n) == [0, n] && PutUint32(n) == [0, 0, 0, n] && PutUint64(n) == [0, 0, 0, 0, 0, 0, 0, n]
  {
    assert n / 256 == 0 && n % 256 == n;
    ZeroBytes();
  }

  lemma ZeroBytes()
    ensures PutUint(0, 1) == [0] && PutUint(0, 3) == [0, 0, 0] && PutUint(0, 7) == [0, 0, 0, 0, 0, 0, 0]
  {
    assert PutUint(0, 4) == [0, 0, 0, 0];
  }

  // ---------------------------------------------------------------- Binary formats

  lemma HeadLayout(v: Version, value: byte)
    requires v.value == [value] && v.deleted
    ensures VersionCodec.PutHead(v) == [0, 0, 0, 1, value] + [1]
  {
    hide PutUint;
    SmallNumbers(1);
  }

  lemma StampLayout(v: Version, node: byte, counter: byte, at: byte)
    requires v.deleted && v.deletedAt == at && v.clock == map[[node] := counter]
    ensures VersionCodec.PutStamp(v, [[node]]) ==
              [0, 0, 0, 0, 0, 0, 0, at] + ([0, 0, 0, 1] + ([0, 1, node] + [0, 0, 0, 0, 0, 0, 0, counter]))
  {
    hide PutUint;
    SmallNumbers(1);
    SmallNumbers(at);
    SmallNumbers(counter);
    assert |v.clock| == 1;
    assert VersionCodec.PutClock(v.clock, [[node]], 1) == [];
    assert VersionCodec.PutEntry([node], counter) == [0, 1, node] + [0, 0, 0, 0, 0, 0, 0, counter];
  }

  /** A set of one tombstone: count, value, flag, deletion time, clock size, node name and counter. */
  lemma TombstoneLayout(value: byte, node: byte, counter: byte, at: byte)
    ensures var v := Version([value], map[[node] := counter], true, at);
            VersionCodec.Encoded([v], [[[node]]]) ==
              [0, 0, 0, 1] + (([0, 0, 0, 1, value] + [1])
              + ([0, 0, 0, 0, 0, 0, 0, at] + ([0, 0, 0, 1] + ([0, 1, node] + [0, 0, 0, 0, 0, 0, 0, counter]))))
  {
    hide PutUint, VersionCodec.PutHead, VersionCodec.PutStamp;
    SmallNumbers(1);
    var v := Version([value], map[[node] := counter], true, at);
    HeadLayout(v, value);
    StampLayout(v, node, counter, at);
    OneChunk(VersionCodec.Chunks([v], [[[node]]]));
  }

  /** A live version has a zero flag and no deletion time. */
  lemma LiveLayout(value: byte)
    ensures VersionCodec.Encoded([Version([value], map[], false, 0)], [[]]) ==
              [0, 0, 0, 1] + [0, 0, 0, 1, value] + [0] + [0, 0, 0, 0]
  {
    hide PutUint;
    SmallNumbers(1);
    SmallNumbers(0);
    var v := Version([value], map[], false, 0);
    assert VersionCodec.PutVersion(v, []) == [0, 0, 0, 1, value] + [0] + [0, 0, 0, 0];
    OneChunk(VersionCodec.Chunks([v], [[]]));
  }

  lemma OneChunk(chunks: seq<seq<byte>>)
    requires |chunks| == 1
    ensures PutAll(chunks, 1) == chunks[0]
  {
    assert PutAll(chunks, 0) == [];
  }

  /** A packet of one record: count, state, incarnation, ID and address. */
  lemma PacketLayout(id: byte, addr: byte, state: byte, incarnation: byte)
    ensures GossipCodec.Packet([Node([id], [addr], state, incarnation)]) ==
              [0, 1] + [state] + [0, 0, 0, 0, 0, 0, 0, incarnation] + [0, 1, id] + [0, 1, addr]
  {
    hide PutUint;
    SmallNumbers(1);
    SmallNumbers(incarnation);
    var n := Node([id], [addr], state, incarnation);
    assert GossipCodec.PutNode(n) == [state] + [0, 0, 0, 0, 0, 0, 0, incarnation] + [0, 1, id] + [0, 1, addr];
    OneChunk(GossipCodec.NodeChunks([n]));
  }

  /** A request for one bucket, and an answer with one entry. */
  lemma SyncLayout(bucket: byte, key: byte, blob: byte)
    ensures SyncCodec.EncodedBuckets([bucket]) == [0, 0, 0, 1] + [0, 0, 0, bucket]
    ensures SyncCodec.EncodedEntries(map[[key] := [blob]], [[key]]) ==
              [0, 0, 0, 1] + [0, 1, key] + [0, 0, 0, 1, blob]
  {
    hide PutUint;
    SmallNumbers(1);
    SmallNumbers(bucket);
    OneChunk(SyncCodec.BucketChunks([bucket]));
    var entries: SyncCodec.Entries := map[[key] := [blob]];
    assert |entries| == 1;
    assert SyncCodec.PutPair([key], [blob]) == [0, 1, key] + [0, 0, 0, 1, blob];
    OneChunk(SyncCodec.PairChunks(entries, [[key]]));
  }

  /** A tree of one leaf. */
  lemma TreeLayout(leaf: byte)
    ensures MerkleTree.EncodedLeaves([[leaf]]) == [0, 0, 0, 1] + [0, 0, 0, 1, leaf]
  {
    hide PutUint;
    SmallNumbers(1);
    OneChunk(MerkleTree.LeafChunks([[leaf]]));
  }

  // ---------------------------------------------------------------- RESP2

  const OK: Str := [79, 75]
  const HELLO: Str := [104, 101, 108, 108, 111]
  const GET: Str := [71, 69, 84]
  const FOO: Str := [102, 111, 111]

  /** The replies as RESP2 spells them: `+OK`, `-OK`, `:42`, `:-7`, `$5` with its bytes, and the null bulk `$-1`. */
  lemma ReplyLayout()
    ensures Resp.Encoded(Resp.Simple(OK)) == [43, 79, 75, 13, 10]
    ensures Resp.Encoded(Resp.Error(OK)) == [45, 79, 75, 13, 10]
    ensures Resp.Encoded(Resp.Integer(42)) == [58, 52, 50, 13, 10]
    ensures Resp.Encoded(Resp.Integer(-7)) == [58, 45, 55, 13, 10]
    ensures Resp.Encoded(Resp.Bulk(HELLO)) == [36, 53, 13, 10] + HELLO + [13, 10]
    ensures Resp.Encoded(Resp.Bulk([])) == [36, 48, 13, 10, 13, 10]
    ensures Resp.Encoded(Resp.NullBulk) == [36, 45, 49, 13, 10]
    ensures Resp.Encoded(Resp.NullArray) == [42, 45, 49, 13, 10]
  {
  }

  /** A command: `*2`, then two bulk strings. */
  lemma CommandLayout()
    ensures Resp.Encoded(Resp.Array([Resp.Bulk(GET), Resp.Bulk(FOO)])) ==
              [42, 50, 13, 10] + [36, 51, 13, 10] + GET + [13, 10] + [36, 51, 13, 10] + FOO + [13, 10]
  {
    var xs := [Resp.Bulk(GET), Resp.Bulk(FOO)];
    assert xs[1..] == [Resp.Bulk(FOO)] && xs[1..][1..] == [];
    assert Resp.Encoded(xs[0]) == [36, 51, 13, 10] + GET + [13, 10];
    assert Resp.Encoded(xs[1]) == [36, 51, 13, 10] + FOO + [13, 10];
    assert Resp.EncodedAll(xs[1..]) == Resp.Encoded(xs[1]);
    assert Resp.EncodedAll(xs) == Resp.Encoded(xs[0]) + Resp.EncodedAll(xs[1..]);
  }
}
