/**
 Merkle trees over (key, blob) pairs (internal/merkle/merkle.go). SHA-256 is a parameter `sha`; no
 injectivity is assumed of it except where a lemma names the inputs that must not collide.

 A tree is known by its leaves: leaf `b` sits at index `L + b` of a heap-shaped array of `2 * L`
 nodes, and every inner node hashes the concatenation of its two children.
 */
module Merkle {
  import opened Bytes
  import opened Seqs
  import opened Bits
  import opened Binenc

  const Zeros: Str := [0, 0, 0, 0, 0, 0, 0, 0, 0, 0, 0, 0, 0, 0, 0, 0, 0, 0, 0, 0, 0, 0, 0, 0, 0, 0, 0, 0, 0, 0, 0, 0]

  type Digest = d: Str | |d| == 32 witness Zeros
  type Sha = Str -> Digest

  datatype Entry = Entry(key: Str, blob: Str)

  // ---------------------------------------------------------------- Buckets and leaves

  /** The leaf a key maps to: the low bits of the first eight bytes of its hash. */
  function Bucket(sha: Sha, leaves: nat, key: Str): nat
    requires leaves > 0
  {
    And(ValueAt(sha(key), 0, 8), leaves - 1)
  }

  lemma BucketInRange(sha: Sha, leaves: nat, key: Str)
    requires IsPow2(leaves)
    ensures Bucket(sha, leaves, key) < leaves
    ensures Bucket(sha, leaves, key) == ValueAt(sha(key), 0, 8) % leaves
  {
    var k :| leaves == Pow2(k);
    MaskIsMod(ValueAt(sha(key), 0, 8), k);
  }

  /** The digest of an entry; hashing the key to a fixed width delimits it from the blob. */
  function EntryHash(sha: Sha, e: Entry): Digest {
    sha(sha(e.key) + e.blob)
  }

  function XorBytes(a: Digest, b: Digest): Digest {
    seq(32, i requires 0 <= i < 32 => XorByte(a[i], b[i]))
  }

  /** Exclusive or of two bytes; the result of `Xor` always is a byte again. */
  function XorByte(a: byte, b: byte): (r: byte)
    ensures r == Xor(a, b)
  {
    XorByteBound(a, b);
    Xor(a, b)
  }

  lemma XorByteBound(a: byte, b: byte)
    ensures Xor(a, b) < 256
  {
    assert Pow2(8) == 256;
    XorBound(a, b, 8);
  }

  /** A leaf is empty until its first entry; entry digests accumulate by exclusive or. */
  predicate IsLeaf(leaf: Str) {
    |leaf| == 0 || |leaf| == 32
  }

  function Mixed(leaf: Str, digest: Digest): (r: Str)
    requires IsLeaf(leaf)
    ensures |r| == 32
  {
    if leaf == [] then XorBytes(Zeros, digest) else XorBytes(leaf, digest)
  }

  /** What adding `e` does to leaf `b`. */
  function AddedTo(sha: Sha, leaves: nat, b: nat, leaf: Str, e: Entry): (r: Str)
    requires leaves > 0 && IsLeaf(leaf)
    ensures IsLeaf(r)
  {
    if Bucket(sha, leaves, e.key) == b then Mixed(leaf, EntryHash(sha, e)) else leaf
  }

  /** Leaf `b` after adding the entries one by one to an empty tree. */
  function LeafOf(sha: Sha, leaves: nat, b: nat, entries: seq<Entry>): (r: Str)
    requires leaves > 0
    ensures IsLeaf(r)
  {
    if entries == [] then []
    else AddedTo(sha, leaves, b, LeafOf(sha, leaves, b, entries[..|entries| - 1]), entries[|entries| - 1])
  }

  function LeavesOf(sha: Sha, leaves: nat, entries: seq<Entry>): (r: seq<Str>)
    requires leaves > 0
    ensures |r| == leaves
  {
    seq(leaves, b requires 0 <= b < leaves => LeafOf(sha, leaves, b, entries))
  }

  lemma XorBytesSwap(a: Digest, b: Digest, c: Digest)
    ensures XorBytes(XorBytes(a, b), c) == XorBytes(XorBytes(a, c), b)
  {
    forall i | 0 <= i < 32 ensures Xor(Xor(a[i], b[i]), c[i]) == Xor(Xor(a[i], c[i]), b[i]) {
      XorAssociates(a[i], b[i], c[i]);
      XorCommutes(b[i], c[i]);
      XorAssociates(a[i], c[i], b[i]);
    }
  }

  lemma AddedToSwap(sha: Sha, leaves: nat, b: nat, leaf: Str, e: Entry, f: Entry)
    requires leaves > 0 && IsLeaf(leaf)
    ensures AddedTo(sha, leaves, b, AddedTo(sha, leaves, b, leaf, e), f)
              == AddedTo(sha, leaves, b, AddedTo(sha, leaves, b, leaf, f), e)
  {
    if leaf == [] {
      XorBytesSwap(Zeros, EntryHash(sha, e), EntryHash(sha, f));
    } else {
      XorBytesSwap(leaf, EntryHash(sha, e), EntryHash(sha, f));
    }
  }

  function Dropped(entries: seq<Entry>, i: nat): seq<Entry>
    requires i < |entries|
  {
    entries[..i] + entries[i + 1..]
  }

  /** Any entry may as well have been added last. */
  lemma {:induction false} LeafMoveLast(sha: Sha, leaves: nat, b: nat, entries: seq<Entry>, i: nat)
    requires leaves > 0 && i < |entries|
    ensures LeafOf(sha, leaves, b, entries) ==
                AddedTo(sha, leaves, b, LeafOf(sha, leaves, b, Dropped(entries, i)), entries[i])
    decreases |entries|
  {
    var init := entries[..|entries| - 1];
    var last := entries[|entries| - 1];
    if i == |entries| - 1 {
      assert Dropped(entries, i) == init;
    } else {
      LeafMoveLast(sha, leaves, b, init, i);
      var rest := Dropped(entries, i);
      assert rest[..|rest| - 1] == Dropped(init, i) && rest[|rest| - 1] == last;
      AddedToSwap(sha, leaves, b, LeafOf(sha, leaves, b, Dropped(init, i)), entries[i], last);
    }
  }

  /** A leaf depends only on which entries were added, never on their order. */
  lemma {:induction false} LeafOrderIrrelevant(sha: Sha, leaves: nat, b: nat, es: seq<Entry>, fs: seq<Entry>)
    requires leaves > 0 && multiset(es) == multiset(fs)
    ensures LeafOf(sha, leaves, b, es) == LeafOf(sha, leaves, b, fs)
    decreases |es|
  {
    if es == [] {
      assert |multiset(fs)| == 0;
    } else {
      var init, last := es[..|es| - 1], es[|es| - 1];
      assert last in multiset(es) && last in multiset(fs);
      var i :| 0 <= i < |fs| && fs[i] == last;
      InitMultiset(es);
      RemoveAt(fs, i);
      LeafMoveLast(sha, leaves, b, fs, i);
      hide AddedTo;
      LeafOrderIrrelevant(sha, leaves, b, init, Dropped(fs, i));
    }
  }

  /** A leaf is empty exactly when no entry fell into its bucket. */
  lemma {:induction false} LeafIsEmptyIff(sha: Sha, leaves: nat, b: nat, entries: seq<Entry>)
    requires leaves > 0
    ensures LeafOf(sha, leaves, b, entries) == [] <==> forall e :: e in entries ==> Bucket(sha, leaves, e.key) != b
  {
    if entries != [] {
      var init, last := entries[..|entries| - 1], entries[|entries| - 1];
      LeafIsEmptyIff(sha, leaves, b, init);
      assert entries == init + [last];
      assert last in entries;
    }
  }

  // ---------------------------------------------------------------- What a leaf tells

  /** The exclusive or of the digests of some entries, straight from the bytes that are hashed. */
  function Mix(sha: Sha, entries: seq<Entry>): Digest {
    if entries == [] then Zeros
    else
      var last := entries[|entries| - 1];
      XorBytes(Mix(sha, entries[..|entries| - 1]), sha(sha(last.key) + last.blob))
  }

  function InBucket(sha: Sha, leaves: nat, b: nat): Entry -> bool
    requires leaves > 0
  {
    (e: Entry) => Bucket(sha, leaves, e.key) == b
  }

  /** A leaf is the mix of the entries of its bucket, or empty when there are none. */
  lemma {:induction false} LeafIsMix(sha: Sha, leaves: nat, b: nat, entries: seq<Entry>)
    requires leaves > 0
    ensures var own := Filter(InBucket(sha, leaves, b), entries);
            LeafOf(sha, leaves, b, entries) == if own == [] then [] else Mix(sha, own)
  {
    hide XorBytes, Bucket;
    if entries != [] {
      var init, last := entries[..|entries| - 1], entries[|entries| - 1];
      LeafIsMix(sha, leaves, b, init);
      var own := Filter(InBucket(sha, leaves, b), init);
      assert (own + [last])[..|own|] == own;
    }
  }

  /** With a single leaf every entry is in its bucket. */
  lemma OneLeafIsMix(sha: Sha, entries: seq<Entry>)
    requires entries != []
    ensures LeafOf(sha, 1, 0, entries) == Mix(sha, entries)
  {
    hide Mix, LeafOf;
    LeafIsMix(sha, 1, 0, entries);
    FilterAll(InBucket(sha, 1, 0), entries);
  }

  lemma MixOrderIrrelevant(sha: Sha, es: seq<Entry>, fs: seq<Entry>)
    requires multiset(es) == multiset(fs)
    ensures Mix(sha, es) == Mix(sha, fs)
  {
    hide Mix, LeafOf;
    assert |multiset(es)| == |es| && |multiset(fs)| == |fs|;
    if es != [] {
      OneLeafIsMix(sha, es);
      OneLeafIsMix(sha, fs);
      LeafOrderIrrelevant(sha, 1, 0, es, fs);
    }
  }

  lemma XorBytesCancels(a: Digest, b: Digest, c: Digest)
    requires XorBytes(a, b) == XorBytes(a, c)
    ensures b == c
  {
    forall i | 0 <= i < 32 ensures b[i] == c[i] {
      assert XorBytes(a, b)[i] == XorBytes(a, c)[i];
      XorCancels(a[i], b[i], c[i]);
    }
  }

  /** Mixing a digest into a leaf leaves it as it was only if the leaf has bytes and the digest is all zero. */
  lemma MixedIsUnchangedIff(leaf: Str, digest: Digest)
    requires IsLeaf(leaf)
    ensures Mixed(leaf, digest) == leaf <==> leaf != [] && digest == Zeros
  {
    if leaf != [] {
      assert XorBytes(leaf, Zeros) == leaf by {
        forall i | 0 <= i < 32 ensures XorBytes(leaf, Zeros)[i] == leaf[i] { XorCommutes(leaf[i], 0); }
      }
      if XorBytes(leaf, digest) == leaf { XorBytesCancels(leaf, digest, Zeros); }
    }
  }

  lemma MixedCancels(leaf: Str, x: Digest, y: Digest)
    requires IsLeaf(leaf) && Mixed(leaf, x) == Mixed(leaf, y)
    ensures x == y
  {
    if leaf == [] { XorBytesCancels(Zeros, x, y); } else { XorBytesCancels(leaf, x, y); }
  }

  // ---------------------------------------------------------------- Node hashes

  /** The hash at node `i`: a leaf's own bytes, or the hash of the children's concatenation. */
  function NodeHash(sha: Sha, leaves: seq<Str>, i: nat): Str
    requires 1 <= i < 2 * |leaves|
    decreases 2 * |leaves| - i
  {
    if i >= |leaves| then leaves[i - |leaves|] else sha(NodeInput(sha, leaves, i))
  }

  function NodeInput(sha: Sha, leaves: seq<Str>, i: nat): Str
    requires 1 <= i < |leaves|
    decreases 2 * |leaves| - i, 0
  {
    NodeHash(sha, leaves, 2 * i) + NodeHash(sha, leaves, 2 * i + 1)
  }

  ghost predicate Differs(sha: Sha, a: seq<Str>, b: seq<Str>, i: nat)
    requires |a| == |b| && 1 <= i < 2 * |a|
  {
    NodeHash(sha, a, i) != NodeHash(sha, b, i)
  }

  /** The walk that `collect` performs from node `i`: prune equal nodes, report differing leaves. */
  function DiffFrom(sha: Sha, a: seq<Str>, b: seq<Str>, i: nat): seq<nat>
    requires |a| == |b| && 1 <= i < 2 * |a|
    decreases 2 * |a| - i
  {
    if NodeHash(sha, a, i) == NodeHash(sha, b, i) then []
    else if i >= |a| then [i - |a|]
    else DiffFrom(sha, a, b, 2 * i) + DiffFrom(sha, a, b, 2 * i + 1)
  }

  /** `Diff` of two trees: nothing when their sizes differ. */
  function DiffOf(sha: Sha, a: seq<Str>, b: seq<Str>): seq<nat>
    requires |a| > 0 && |b| > 0
  {
    if |a| != |b| then [] else DiffFrom(sha, a, b, 1)
  }

  /** Node `j` lies in the subtree of node `i`, and every node on the way up differs. */
  ghost predicate PathDiffers(sha: Sha, a: seq<Str>, b: seq<Str>, i: nat, j: nat)
    requires |a| == |b| && 1 <= i <= j < 2 * |a|
  {
    Differs(sha, a, b, j) && (j == i || (j / 2 >= i && PathDiffers(sha, a, b, i, j / 2)))
  }

  ghost predicate Reaches(sha: Sha, a: seq<Str>, b: seq<Str>, i: nat, j: nat)
    requires |a| == |b|
  {
    1 <= i <= j < 2 * |a| && PathDiffers(sha, a, b, i, j)
  }

  lemma {:induction false} PathTop(sha: Sha, a: seq<Str>, b: seq<Str>, i: nat, j: nat)
    requires |a| == |b| && Reaches(sha, a, b, i, j)
    ensures Differs(sha, a, b, i)
    decreases j
  {
    if j != i { PathTop(sha, a, b, i, j / 2); }
  }

  lemma PathStep(sha: Sha, a: seq<Str>, b: seq<Str>, i: nat, j: nat)
    requires |a| == |b| && 1 <= i && 1 <= j < 2 * |a|
    ensures i < j ==> (Reaches(sha, a, b, i, j) <==> Differs(sha, a, b, j) && Reaches(sha, a, b, i, j / 2))
    ensures i == j ==> (Reaches(sha, a, b, i, j) <==> Differs(sha, a, b, j))
  {
  }

  /** A differing path below `i` runs through exactly one of its children. */
  lemma {:induction false} PathSplit(sha: Sha, a: seq<Str>, b: seq<Str>, i: nat, j: nat)
    requires |a| == |b| && 1 <= i < |a| && i < j < 2 * |a| && Differs(sha, a, b, i)
    ensures Reaches(sha, a, b, i, j) <==> Reaches(sha, a, b, 2 * i, j) || Reaches(sha, a, b, 2 * i + 1, j)
    decreases j
  {
    hide Differs, PathDiffers;
    PathStep(sha, a, b, i, j);
    PathStep(sha, a, b, i, i);
    PathStep(sha, a, b, 2 * i, j);
    PathStep(sha, a, b, 2 * i + 1, j);
    if j > 2 * i + 1 { PathSplit(sha, a, b, i, j / 2); }
  }

  lemma DiffAtNode(sha: Sha, a: seq<Str>, b: seq<Str>, i: nat)
    requires |a| == |b| && 1 <= i < 2 * |a|
    ensures DiffFrom(sha, a, b, i) ==
              if !Differs(sha, a, b, i) then [] else if i >= |a| then [i - |a|]
              else DiffFrom(sha, a, b, 2 * i) + DiffFrom(sha, a, b, 2 * i + 1)
  {
  }

  /** What the pruned walk reports: the leaves reachable along differing nodes only. */
  lemma {:induction false} DiffContents(sha: Sha, a: seq<Str>, b: seq<Str>, i: nat, d: nat)
    requires |a| == |b| && 1 <= i < 2 * |a|
    ensures d in DiffFrom(sha, a, b, i) <==> d < |a| && Reaches(sha, a, b, i, |a| + d)
    decreases 2 * |a| - i
  {
    hide Differs, PathDiffers, DiffFrom;
    DiffAtNode(sha, a, b, i);
    if !Differs(sha, a, b, i) {
      if d < |a| && Reaches(sha, a, b, i, |a| + d) { PathTop(sha, a, b, i, |a| + d); }
    } else if i < |a| {
      DiffContents(sha, a, b, 2 * i, d);
      DiffContents(sha, a, b, 2 * i + 1, d);
      if d < |a| { PathSplit(sha, a, b, i, |a| + d); }
    } else if d < |a| {
      PathStep(sha, a, b, i, |a| + d);
    }
  }

  /** Soundness, with no assumption on the hash: every reported bucket differs. */
  lemma DiffIsSound(sha: Sha, a: seq<Str>, b: seq<Str>, d: nat)
    requires |a| > 0 && |b| > 0 && d in DiffOf(sha, a, b)
    ensures |a| == |b| && d < |a| && a[d] != b[d]
  {
    DiffContents(sha, a, b, 1, d);
  }

  // ---------------------------------------------------------------- Completeness

  /** Hashing the two trees' inputs of any inner node does not collide. */
  ghost predicate NoCollision(sha: Sha, a: seq<Str>, b: seq<Str>)
    requires |a| == |b|
  {
    forall i :: 1 <= i < |a| && sha(NodeInput(sha, a, i)) == sha(NodeInput(sha, b, i)) ==>
      NodeInput(sha, a, i) == NodeInput(sha, b, i)
  }

  /** Two sibling leaves differ between the trees and yet concatenate to the same bytes. */
  ghost predicate Aliased(a: seq<Str>, b: seq<Str>, i: nat)
    requires |a| == |b| && i < |a| <= 2 * i
  {
    var l, r := 2 * i - |a|, 2 * i + 1 - |a|;
    a[l] + a[r] == b[l] + b[r] && (a[l] != b[l] || a[r] != b[r])
  }

  ghost predicate Unaliased(a: seq<Str>, b: seq<Str>)
    requires |a| == |b|
  {
    forall i :: 1 <= i < |a| <= 2 * i ==> !Aliased(a, b, i)
  }

  lemma SplitEqual(a: Str, b: Str, c: Str, d: Str)
    requires |a| == |c| && a + b == c + d
    ensures a == c && b == d
  {
    assert a == (a + b)[..|a|] && c == (c + d)[..|c|];
    assert b == (a + b)[|a|..] && d == (c + d)[|c|..];
  }

  /** Entries that are hashed from the same bytes have the same key digest and the same blob. */
  lemma EntriesAreDelimited(sha: Sha, e: Entry, f: Entry)
    requires sha(e.key) + e.blob == sha(f.key) + f.blob
    ensures sha(e.key) == sha(f.key) && e.blob == f.blob
  {
    SplitEqual(sha(e.key), e.blob, sha(f.key), f.blob);
  }

  /** Hashing these two inputs does not collide. */
  predicate TellsApart(sha: Sha, x: Str, y: Str) {
    sha(x) == sha(y) ==> x == y
  }

  /** A digest stands for its entry, key and blob, as long as neither of the two hashes behind it collides. */
  lemma EqualDigestsEqualEntries(sha: Sha, e: Entry, f: Entry)
    requires TellsApart(sha, e.key, f.key) && TellsApart(sha, sha(e.key) + e.blob, sha(f.key) + f.blob)
    ensures EntryHash(sha, e) == EntryHash(sha, f) <==> e == f
  {
    if EntryHash(sha, e) == EntryHash(sha, f) { EntriesAreDelimited(sha, e, f); }
  }

  /** Without collisions and aliases, equal nodes have equal children. */
  lemma EqualNodeEqualChildren(sha: Sha, a: seq<Str>, b: seq<Str>, i: nat)
    requires |a| == |b| && 1 <= i < |a| && NoCollision(sha, a, b) && Unaliased(a, b)
    requires NodeHash(sha, a, i) == NodeHash(sha, b, i)
    ensures NodeHash(sha, a, 2 * i) == NodeHash(sha, b, 2 * i)
    ensures NodeHash(sha, a, 2 * i + 1) == NodeHash(sha, b, 2 * i + 1)
  {
    assert NodeInput(sha, a, i) == NodeInput(sha, b, i);
    if 2 * i < |a| {
      SplitEqual(NodeHash(sha, a, 2 * i), NodeHash(sha, a, 2 * i + 1),
                 NodeHash(sha, b, 2 * i), NodeHash(sha, b, 2 * i + 1));
    } else {
      assert !Aliased(a, b, i);
    }
  }

  lemma {:induction false} DifferenceReachesUp(sha: Sha, a: seq<Str>, b: seq<Str>, j: nat)
    requires |a| == |b| && 1 <= j < 2 * |a| && NoCollision(sha, a, b) && Unaliased(a, b)
    requires Differs(sha, a, b, j)
    ensures Reaches(sha, a, b, 1, j)
    decreases j
  {
    if j > 1 {
      if !Differs(sha, a, b, j / 2) {
        EqualNodeEqualChildren(sha, a, b, j / 2);
        assert false;
      }
      DifferenceReachesUp(sha, a, b, j / 2);
    }
  }

  ghost predicate DiffIsExact(sha: Sha, a: seq<Str>, b: seq<Str>)
    requires |a| == |b| > 0
  {
    forall d: nat :: d in DiffOf(sha, a, b) <==> d < |a| && a[d] != b[d]
  }

  lemma ExactMeansUnaliased(sha: Sha, a: seq<Str>, b: seq<Str>, i: nat)
    requires |a| == |b| && 1 <= i < |a| <= 2 * i && DiffIsExact(sha, a, b)
    ensures !Aliased(a, b, i)
  {
    if Aliased(a, b, i) {
      var d := if a[2 * i - |a|] != b[2 * i - |a|] then 2 * i - |a| else 2 * i + 1 - |a|;
      assert d in DiffOf(sha, a, b);
      DiffContents(sha, a, b, 1, d);
      PathStep(sha, a, b, 1, |a| + d);
      PathStep(sha, a, b, 1, i);
      assert NodeInput(sha, a, i) == NodeInput(sha, b, i);
      assert false;
    }
  }

  /**
   When no inner hash collides, `Diff` reports exactly the differing buckets if and only if no two
   sibling leaves alias: children are concatenated without framing and an empty leaf has no bytes.
   */
  lemma DiffIsExactIff(sha: Sha, a: seq<Str>, b: seq<Str>)
    requires |a| == |b| > 0 && NoCollision(sha, a, b)
    ensures DiffIsExact(sha, a, b) <==> Unaliased(a, b)
  {
    if Unaliased(a, b) {
      forall d: nat ensures d in DiffOf(sha, a, b) <==> d < |a| && a[d] != b[d] {
        DiffContents(sha, a, b, 1, d);
        if d < |a| && a[d] != b[d] { DifferenceReachesUp(sha, a, b, |a| + d); }
      }
    }
    if DiffIsExact(sha, a, b) {
      forall i | 1 <= i < |a| <= 2 * i ensures !Aliased(a, b, i) { ExactMeansUnaliased(sha, a, b, i); }
    }
  }

  /** Leaf lists that differ by a digest and its empty sibling trading places have equal roots, whatever the hash. */
  lemma EmptySiblingAliases(sha: Sha, x: Digest)
    ensures DiffOf(sha, [x, []], [[], x]) == [] && DiffOf(sha, [[], x], [x, []]) == []
  {
    var a: seq<Str>, b: seq<Str> := [x, []], [[], x];
    assert NodeHash(sha, a, 2) == x && NodeHash(sha, a, 3) == [];
    assert NodeHash(sha, b, 2) == [] && NodeHash(sha, b, 3) == x;
    assert NodeInput(sha, a, 1) == x + [] == [] + x == NodeInput(sha, b, 1);
  }

  // ---------------------------------------------------------------- Order of the report

  ghost predicate Ascending(s: seq<nat>) {
    forall i, j :: 0 <= i < j < |s| ==> s[i] < s[j]
  }

  ghost predicate WithinRange(s: seq<nat>, lo: int, hi: int) {
    forall k :: 0 <= k < |s| ==> lo <= s[k] < hi
  }

  lemma AscendingConcat(s: seq<nat>, t: seq<nat>, lo: int, mid: int, hi: int)
    requires Ascending(s) && Ascending(t) && WithinRange(s, lo, mid) && WithinRange(t, mid, hi) && lo <= mid <= hi
    ensures Ascending(s + t) && WithinRange(s + t, lo, hi)
  {
  }

  /** Where the subtree of node `i`, `h` levels above the leaves, begins in the array. */
  ghost function Stretch(i: nat, h: nat): nat {
    i * Pow2(h)
  }

  lemma HalfStretch(i: nat, h: nat)
    requires h > 0
    ensures Stretch(i, h) == Stretch(2 * i, h - 1) <= Stretch(2 * i + 1, h - 1)
    ensures Stretch(2 * i + 1, h - 1) <= Stretch(2 * i + 2, h - 1) == Stretch(i + 1, h)
    ensures Stretch(i + 1, h) >= 2 * i + 2
  {
  }

  lemma NothingAscends(lo: int, hi: int)
    ensures Ascending([]) && WithinRange([], lo, hi)
  {
  }

  lemma LeafAscends(sha: Sha, a: seq<Str>, b: seq<Str>, i: nat)
    requires |a| == |b| && 1 <= i < 2 * |a| && |a| <= Stretch(i, 0)
    ensures Ascending(DiffFrom(sha, a, b, i))
    ensures WithinRange(DiffFrom(sha, a, b, i), Stretch(i, 0) - |a|, Stretch(i + 1, 0) - |a|)
  {
    hide DiffFrom, Differs;
    DiffAtNode(sha, a, b, i);
  }

  /** In a perfect tree the subtree of node `i`, `Pow2(h)` leaves wide, reports its own stretch in order. */
  lemma {:induction false} DiffAscends(sha: Sha, a: seq<Str>, b: seq<Str>, i: nat, h: nat)
    requires |a| == |b| && 1 <= i < 2 * |a|
    requires |a| <= Stretch(i, h) && Stretch(i + 1, h) <= 2 * |a|
    ensures Ascending(DiffFrom(sha, a, b, i))
    ensures WithinRange(DiffFrom(sha, a, b, i), Stretch(i, h) - |a|, Stretch(i + 1, h) - |a|)
    decreases h
  {
    hide DiffFrom, Differs, Ascending, WithinRange, Stretch;
    if h == 0 {
      LeafAscends(sha, a, b, i);
    } else {
      DiffAtNode(sha, a, b, i);
      NothingAscends(Stretch(i, h) - |a|, Stretch(i + 1, h) - |a|);
      HalfStretch(i, h);
      DiffAscends(sha, a, b, 2 * i, h - 1);
      DiffAscends(sha, a, b, 2 * i + 1, h - 1);
      AscendingConcat(DiffFrom(sha, a, b, 2 * i), DiffFrom(sha, a, b, 2 * i + 1),
                      Stretch(i, h) - |a|, Stretch(2 * i + 1, h - 1) - |a|, Stretch(i + 1, h) - |a|);
    }
  }

  /** Trees of the same power-of-two size report their buckets ascending and without repeats. */
  lemma DiffIsAscending(sha: Sha, a: seq<Str>, b: seq<Str>)
    requires |a| > 0 && |b| > 0 && IsPow2(|a|)
    ensures Ascending(DiffOf(sha, a, b))
  {
    if |a| == |b| {
      var k :| |a| == Pow2(k);
      DiffAscends(sha, a, b, 1, k);
    }
  }
}
