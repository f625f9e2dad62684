/**
 The Merkle tree as a mutable array of nodes, and its wire form (internal/merkle/merkle.go). Each
 method is tied to the leaves of the tree, which `Merkle` reasons about.
 */
module MerkleTree {
  import opened Bytes
  import opened Bits
  import opened Binenc
  import opened Merkle

  class Tree {
    const sha: Sha
    const leafCount: nat
    const nodes: array<Str>

    ghost predicate Valid()
      reads nodes
    {
      nodes.Length == 2 * leafCount
    }

    ghost function Leaves(): (leaves: seq<Str>)
      requires Valid()
      reads nodes
      ensures |leaves| == leafCount
    {
      nodes[leafCount..]
    }

    /** An empty tree; the leaf count is rounded up to a power of two. */
    constructor New(sha: Sha, leaves: int)
      ensures Valid() && fresh(nodes) && this.sha == sha
      ensures leafCount == NextPowerOfTwo(leaves) && IsPow2(leafCount)
      ensures Leaves() == seq(leafCount, _ => [])
    {
      this.sha := sha;
      leafCount := NextPowerOfTwo(leaves);
      nodes := new Str[2 * NextPowerOfTwo(leaves)](_ => []);
      NextPowerOfTwoIsLeast(leaves, 1);
    }

    /** A tree with given leaves and inner nodes yet to be built, as a decoder makes it. */
    constructor FromLeaves(sha: Sha, leaves: seq<Str>)
      ensures Valid() && fresh(nodes) && this.sha == sha && leafCount == |leaves| && Leaves() == leaves
    {
      this.sha := sha;
      leafCount := |leaves|;
      var n := |leaves|;
      nodes := new Str[2 * n](i requires 0 <= i < 2 * n => if i >= n then leaves[i - n] else []);
    }

    /** Mix the digest of one entry into the leaf of its bucket, byte by byte. */
    method Add(key: Str, blob: Str)
      requires Valid() && IsPow2(leafCount) && forall b :: 0 <= b < leafCount ==> IsLeaf(Leaves()[b])
      modifies nodes
      ensures Valid() && forall b :: 0 <= b < leafCount ==> IsLeaf(Leaves()[b])
      ensures forall b :: 0 <= b < leafCount ==>
                Leaves()[b] == AddedTo(sha, leafCount, b, old(Leaves())[b], Entry(key, blob))
    {
      BucketInRange(sha, leafCount, key);
      var digest := EntryHash(sha, Entry(key, blob));
      var bucket := Bucket(sha, leafCount, key);
      var at := leafCount + bucket;
      assert nodes[at] == Leaves()[bucket];
      var start := if nodes[at] == [] then Zeros else nodes[at];
      var leaf := start;
      for i := 0 to 32
        invariant |leaf| == 32 && unchanged(nodes)
        invariant forall k :: 0 <= k < 32 ==> leaf[k] == if k < i then XorByte(start[k], digest[k]) else start[k]
      {
        leaf := leaf[i := XorByte(leaf[i], digest[i])];
      }
      assert leaf == XorBytes(start, digest) == Mixed(old(nodes[at]), digest);
      nodes[at] := leaf;
    }

    /** Rebuild every inner node, children before parents. */
    method Root() returns (root: Str)
      requires Valid() && leafCount >= 1
      modifies nodes
      ensures Valid() && Leaves() == old(Leaves())
      ensures forall i :: 1 <= i < 2 * leafCount ==> nodes[i] == NodeHash(sha, Leaves(), i)
      ensures root == NodeHash(sha, Leaves(), 1)
    {
      ghost var leaves := Leaves();
      for i := leafCount downto 1
        invariant Leaves() == leaves
        invariant forall k :: i <= k < 2 * leafCount ==> nodes[k] == NodeHash(sha, leaves, k)
      {
        nodes[i] := sha(nodes[2 * i] + nodes[2 * i + 1]);
        assert Leaves() == leaves;
      }
      root := nodes[1];
    }

    /** The recursive walk: prune equal nodes, report differing leaves, append to `diffs`. */
    method Collect(other: Tree, start: nat, diffs: seq<nat>) returns (all: seq<nat>)
      requires Valid() && other.Valid() && other.leafCount == leafCount && other.sha == sha
      requires 1 <= start < 2 * leafCount
      requires forall i :: 1 <= i < 2 * leafCount ==> nodes[i] == NodeHash(sha, Leaves(), i)
      requires forall i :: 1 <= i < 2 * leafCount ==> other.nodes[i] == NodeHash(sha, other.Leaves(), i)
      ensures all == diffs + DiffFrom(sha, Leaves(), other.Leaves(), start)
      decreases 2 * leafCount - start
    {
      hide NodeHash;
      if nodes[start] == other.nodes[start] { return diffs; }
      if start >= leafCount { return diffs + [start - leafCount]; }
      all := Collect(other, 2 * start, diffs);
      all := Collect(other, 2 * start + 1, all);
    }

    /** The buckets that differ between two trees, or none when their sizes differ. */
    method Diff(other: Tree) returns (diffs: seq<nat>)
      requires Valid() && other.Valid() && other.sha == sha && leafCount >= 1
      modifies nodes, other.nodes
      ensures Valid() && other.Valid() && Leaves() == old(Leaves()) && other.Leaves() == old(other.Leaves())
      ensures diffs == if other.leafCount == 0 then [] else DiffOf(sha, Leaves(), other.Leaves())
    {
      if leafCount != other.leafCount { return []; }
      hide NodeHash, DiffFrom;
      var root := Root();
      var otherRoot := other.Root();
      assert nodes == other.nodes ==> Leaves() == other.Leaves();
      diffs := Collect(other, 1, []);
    }
  }

  // ---------------------------------------------------------------- Wire form

  predicate LeavesFit(leaves: seq<Str>) {
    |leaves| < 0x1_0000_0000 && forall i | 0 <= i < |leaves| :: |leaves[i]| < 0x1_0000_0000
  }

  function LeafChunks(leaves: seq<Str>): (chunks: seq<seq<byte>>)
    ensures |chunks| == |leaves|
  {
    seq(|leaves|, i requires 0 <= i < |leaves| => PutBlob(leaves[i]))
  }

  /** The leaf count followed by the leaves, each with its length; inner nodes are not sent. */
  function EncodedLeaves(leaves: seq<Str>): seq<byte> {
    PutUint32(|leaves|) + PutAll(LeafChunks(leaves), |leaves|)
  }

  function LeafAt(data: seq<byte>): nat -> Read<Str> {
    (off: nat) => Blob(data, off)
  }

  function ReadLeaves(data: seq<byte>): Read<seq<Str>> {
    match Uint32(data, 0)
    case Malformed => Malformed
    case Read(count, off) => ReadAll(LeafAt(data), off, count)
  }

  /** A tree survives the wire unchanged, so a diff against the decoded tree is a diff against the original. */
  lemma LeavesRoundTrip(leaves: seq<Str>, tail: seq<byte>)
    requires LeavesFit(leaves)
    ensures ReadLeaves(EncodedLeaves(leaves) + tail) == Read(leaves, |EncodedLeaves(leaves)|)
  {
    hide Holds, PutAll, Blob, PutBlob;
    var data := EncodedLeaves(leaves) + tail;
    var chunks := LeafChunks(leaves);
    var item := LeafAt(data);
    HoldsWhole(EncodedLeaves(leaves), tail);
    ReadsLength(data, 0, |leaves|, PutAll(chunks, |leaves|));
    forall k, o: nat {:trigger item(o), leaves[k]} | 0 <= k < |leaves| && Holds(data, o, chunks[k])
      ensures item(o) == Read(leaves[k], o + |chunks[k]|)
    {
      ReadsBlob(data, o, leaves[k]);
    }
    ReadsList(data, 4, item, chunks, leaves);
  }

  /** Truncated bytes of a tree are rejected. */
  lemma LeavesTruncationRejected(leaves: seq<Str>, k: nat)
    requires LeavesFit(leaves) && k < |EncodedLeaves(leaves)|
    ensures ReadLeaves(EncodedLeaves(leaves)[..k]) == Malformed
  {
    hide EncodedLeaves;
    var whole := EncodedLeaves(leaves);
    if ReadLeaves(whole[..k]).Read? {
      LeavesExtend(whole[..k], whole[k..]);
      assert whole[..k] + whole[k..] == whole == whole + [];
      LeavesRoundTrip(leaves, []);
      assert false;
    }
  }

  lemma LeavesExtend(data: seq<byte>, tail: seq<byte>)
    requires ReadLeaves(data).Read?
    ensures ReadLeaves(data + tail) == ReadLeaves(data) && ReadLeaves(data).next <= |data|
  {
    hide Blob;
    UintExtends(data, tail, 0, 4);
    var item, item' := LeafAt(data), LeafAt(data + tail);
    forall o: nat | o <= |data| && item(o).Read? ensures item'(o) == item(o) && o <= item(o).next <= |data| {
      BlobExtends(data, tail, o);
    }
    AllExtend(item, item', 4, Uint32(data, 0).value, |data|);
  }

  method Encode(tree: Tree) returns (buf: seq<byte>)
    requires tree.Valid()
    ensures buf == EncodedLeaves(tree.Leaves())
  {
    ghost var chunks := LeafChunks(tree.Leaves());
    buf := PutUint32(tree.leafCount);
    assert buf == buf + PutAll(chunks, 0);
    for l := 0 to tree.leafCount
      invariant buf == PutUint32(tree.leafCount) + PutAll(chunks, l)
    {
      var leaf := tree.nodes[tree.leafCount + l];
      assert chunks[l] == PutBlob(leaf);
      buf := buf + PutUint32(|leaf|) + leaf;
    }
  }

  method Decode(data: seq<byte>, sha: Sha) returns (tree: Tree?)
    ensures tree == null <==> ReadLeaves(data).Malformed?
    ensures tree != null ==>
              tree.Valid() && fresh(tree.nodes) && tree.sha == sha && tree.Leaves() == ReadLeaves(data).value
  {
    hide Uint, TakeBytes;
    var count := Uint32(data, 0);
    if count.Malformed? { return null; }
    var leaves: seq<Str> := [];
    var cursor := count.next;
    ContinuedNil(ReadAll(LeafAt(data), cursor, count.value));
    for l := 0 to count.value
      invariant ReadLeaves(data) == Continued(leaves, ReadAll(LeafAt(data), cursor, count.value - l))
    {
      ContinuedStep(leaves, LeafAt(data), cursor, count.value - l);
      var size := Uint32(data, cursor);
      if size.Malformed? { return null; }
      if size.value == 0 {
        EmptyBytes(data, size.next, cursor);
        leaves := leaves + [[]];
        cursor := size.next;
      } else {
        var leaf := TakeBytes(data, size.next, size.value);
        if leaf.Malformed? { return null; }
        leaves := leaves + [leaf.value];
        cursor := leaf.next;
      }
    }
    assert leaves + [] == leaves;
    tree := new Tree.FromLeaves(sha, leaves);
  }

  lemma EmptyBytes(data: seq<byte>, off: nat, cursor: nat)
    requires Uint32(data, cursor).Read? && Uint32(data, cursor).next == off
    ensures TakeBytes(data, off, 0) == Read([], off)
  {
    assert data[off..off] == [];
  }
}
