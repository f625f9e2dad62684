# kyria, modelled and proved in Dafny

kyria is a replicated in-memory cache in the style of Dynamo. This project models its logic in Dafny
and proves what that logic is for. `dafny verify dfyconfig.toml` checks everything.

What is modelled, in the system's own terms:

- **Replication of a key.** `VClock` and `Versions` hold vector clocks, sibling sets and
  reconciliation. `Protocol` is a step system over every node's store, the client operations in
  progress and all messages, which may be lost, delayed, duplicated and reordered: writes, deletes,
  RSETs, acknowledgements, hint parking and replay, quorum reads, read repair and anti-entropy.
  `ProtocolInvariant` proves what each step keeps; `ProtocolTheorems`, `QuorumBound` and `Handoff`
  prove the promises over all runs, `Progress` what stays possible in each.
  `Coordinator` and `HintStore` hold the loops and the mutable stores of the code itself, proved against
  the same notions.
- **Anti-entropy.** `Merkle` and `MerkleTree` hold the tree, its pruned diff and its wire form;
  `SyncCodec` and `AntiEntropy` the exchange and its effect on whole stores, `Detection` which
  changes a round notices, `Convergence` what repeated rounds achieve.
- **Membership and routing.** `Membership`, `Gossip` and `GossipExchange` hold the roster and its spread
  over a lossy network, `GossipCodec` the packet; `Ring`, `Router`, `RouterTies` and `Placement` the
  consistent-hash ring.
- **The bounded store.** `MapStore` holds the store and its eviction policies, `StoreRuns` what reads
  answer on whole runs, `Lru`, `LruBound` and `TinyLfu` what two of the policies achieve, `Sketch` the
  frequency sketch.
- **Wire formats.** `Binenc` and `VersionCodec` the binary one, `Resp` the client protocol (RESP2),
  `Layouts` the bytes themselves. `Bytes`, `Seqs`, `Bits` and `Decimals` are shared vocabulary.

Some promises turn out to need a condition that the code does not enforce. Each has a concrete
counterexample and an exact condition:

- Hinted handoff overwrites hints unconditionally from concurrent goroutines. A run never loses a
  parked version if and only if each of its parks overwrites a hint at or below the new version, or one
  that its target already covers (`Handoff.HandoffIsLosslessIff`, `Handoff.RacingParksLoseAHint`).
- An exchange of snapshots revives a node that is held dead if and only if the receiver has not, in the
  meantime, come to hold it dead at the incarnation that arrives or later
  (`GossipExchange.ExchangeRevivesIff`, `GossipExchange.InterleavedExchangeFails`).
- Merkle children are hashed without framing and an empty leaf has no bytes, so two sibling leaves can
  alias, and the diff is exact if and only if none do (`Merkle.DiffIsExactIff`). Between the trees of two
  stores that takes a colliding digest (`AntiEntropy.StoresAreUnaliased`); bytes that are no store's tree
  need none (`AntiEntropy.SwappedLeavesGoUnnoticed`).
- The ring is sorted by an unstable sort, on points that come in the roster's iteration order. Routers of
  the same members agree if and only if no two of them share a point hash, and an order-preserving sort
  would not change that (`RouterTies.RoutersAgreeIff`, `RouterTies.TieParts`).
- A pair of anti-entropy rounds brings two nodes to the same siblings, but a further round is quiet if and
  only if their stores are equal byte for byte, and one set has several encodings
  (`Convergence.RoundIsQuietIff`, `Convergence.AgreementIsNotQuiet`).

Two more bounds are shown to be exact over all runs: quorum visibility holds if and only if the capped
quorums add up to more than the replica set (`QuorumBound.ReadsSeeWritesIff`), and sampled eviction is true
LRU if and only if the cap is at most five or can never be exceeded (`LruBound.SampledLruIsLruIff`). The read
that misses a write has another coordinator than the write. A node that does not own the key redirects the
client (internal/server/handler.go:178-182), so that happens only while nodes disagree about the ring, as
around a change of members; a read always sees what its own coordinator had acknowledged
(`ProtocolTheorems.OwnWritesAreSeen`).

Modelling decisions:

- A byte is a number below 256, and Go strings and byte slices are sequences of bytes. Clocks,
  incarnations and counters are natural numbers, so they do not wrap.
- Hash functions (SHA-256, FNV-1a, maphash), times and the set of peers that answer are parameters.
  No injectivity is assumed of a hash except where a lemma names the inputs that must not collide.
- Go map iteration order is an arbitrary choice in the loops and an explicit order in the codecs.
- In a protocol run the replica set of the key is fixed and contains every coordinator, because the
  code counts the local copy unconditionally. Eviction, tombstone collection and restarts are not
  steps, because each discards the frontier on which mints build.
- Each read-modify-write of a key is one step, as the store performs it under the key's lock.

## Model

| member | source | states |
|---|---|---|
| `VClock.ScanAhead` | internal/vclock/vclock.go:74-81 | The scan that stops at the first entry ahead decides causal order, in any iteration order; a missing entry reads as 0. |
| `VClock.Compare` | internal/vclock/vclock.go:52-69 | Each of the four verdicts holds if and only if the pointwise order says so, so equality is semantic and not equality of maps. |
| `VClock.Increment` | internal/vclock/vclock.go:30-35 | The least clock strictly above the old one with the node counted up; all other counters stay. |
| `VClock.Merge` | internal/vclock/vclock.go:40-49 | The entry-by-entry fill computes the join. |
| `VClock.Join` | internal/vclock/vclock.go:40-49 | The least upper bound in the causal order. |
| `Versions.Reconcile` | internal/version/version.go:34-54 | One pass computes the reconciled set that the lemmas below characterise. |
| `Versions.ReconciledRepresents` | internal/version/version.go:34-54 | If a set is the antichain that covers a collection of versions, reconciling one more version gives the antichain that covers the collection with it. |
| `Versions.ReconciledCovers` | internal/version/version.go:34-54 | Nothing covered is ever lost, and the incoming version is covered afterwards. |
| `Versions.Fold` | internal/server/antientropy.go:228-231 | The loop every repair path runs computes the fold of a batch. |
| `Versions.FoldIsMaxima` | internal/version/version.go:34-54 | Folding any sequence in which equal clocks mean equal versions keeps exactly its clock-maximal members, pairwise concurrent. |
| `Versions.FoldOrderIrrelevant` | internal/version/version.go:34-54 | The result is the same for every order and repetition, so replicas that received the same versions hold the same set. |
| `Versions.FoldGroupingIrrelevant` | internal/version/version.go:34-54 | Exchanging reconciled sets gives the same result as exchanging the raw versions. |
| `Versions.RepresentationIsUnique` | internal/version/version.go:34-54 | What a collection of versions reconciles to is unique up to sibling order. |
| `Versions.Frontier` | internal/version/version.go:59-66 | The loop computes the frontier. |
| `Versions.FrontierIsLub` | internal/version/version.go:59-66 | The frontier is below a clock if and only if every sibling is. |
| `Versions.MintCollapses` | internal/server/coordinator.go:96-104 | A minted version is strictly above every sibling, so storing it leaves exactly that version; its clock is the frontier with the own counter one up. |
| `Versions.ReconciledFrontier` | internal/version/version.go:34-66 | On frontiers reconciling is the join, so no frontier counter ever falls. |
| `Versions.Live` | internal/version/version.go:81-91 | Exactly the versions that are not tombstones, in order. |
| `Versions.Equal` | internal/version/version.go:95-114 | The nested loops compute the one-way scan. |
| `Versions.EqualIsSymmetric` | internal/version/version.go:95-114 | On antichains the one-way scan is equality of sets both ways, on value, clock and deleted flag. |
| `Versions.EqualMeansSameVersions` | internal/version/version.go:95-114 | On antichains it holds if and only if each side has every version of the other: same value, same counters, same deleted flag. |
| `Versions.EqualNeedsNoRepair` | internal/server/coordinator.go:284-309 | A replica whose set is Equal to the merged set would not change if the merged set were pushed to it, and covers all of it. |
| `Protocol.ShapeKept` | internal/server/coordinator.go:95-309 | Every protocol step keeps names, addresses and coordinators within the cluster. |
| `ProtocolInvariant.MintKeepsInv` | internal/server/coordinator.go:95-158 | Minting a write or a tombstone keeps the whole invariant: stores represent what they saw, no counter outruns its node, equal clocks mean equal versions, acknowledged writes are covered. |
| `ProtocolInvariant.StepKeepsInv` | internal/server/coordinator.go:95-344 | Each of the sixteen kinds of step keeps the invariant. |
| `ProtocolInvariant.RunKeepsInv` | internal/server/coordinator.go:95-344 | The invariant holds after every run. |
| `ProtocolTheorems.CountersNeverOutrunTheirNode` | internal/server/coordinator.go:96-104 | In every run no version stored, in flight, parked or served has a counter for n above the frontier of n's own set. |
| `ProtocolTheorems.MintedClocksAreUnique` | internal/server/coordinator.go:96-104 | No two writes or deletes of a run share a clock, and a later one is never at or below an earlier one. |
| `ProtocolTheorems.EqualClocksMeanEqualVersions` | internal/server/coordinator.go:149-158 | Equal clocks mean the same version wherever the two copies are. |
| `ProtocolTheorems.CoordinatorMintsRise` | internal/server/coordinator.go:96-104 | The mints of one coordinator form a strictly rising chain. |
| `ProtocolTheorems.SameSeenSameSiblings` | internal/server/handler.go:275-291 | Nodes that have folded in the same versions store the same siblings, whatever the order and however often. |
| `ProtocolTheorems.CoverageIsNeverLost` | internal/server/handler.go:275-291 | What a node covers at one point of a run it covers at every later point. |
| `ProtocolTheorems.StrictQuorumsMeet` | cmd/kyria/config.go:163-175 | R + W > N makes the capped quorums meet, also when fewer than N replicas exist. |
| `ProtocolTheorems.QuorumsOverlap` | internal/server/coordinator.go:326-344 | A write quorum and a read quorum of the same replica set share a member. |
| `ProtocolTheorems.QuorumReadSeesAcknowledgedWrites` | internal/server/coordinator.go:199-256 | When quorums meet, every successful read of every run covers each write that had replied OK before the read began, by whichever coordinator. |
| `ProtocolTheorems.OwnWritesAreSeen` | internal/server/coordinator.go:199-256 | Whatever R and W are, a read covers every write that its own coordinator had acknowledged before it began. |
| `ProtocolTheorems.LogServesClients` | internal/server/coordinator.go:95-191 | Over every run the log is the clients' writes and deletes in order: a write logs a live version of its value, a delete an empty tombstone with its time. |
| `ProtocolTheorems.QuorumsAreExact` | internal/server/coordinator.go:326-344 | An operation that replied counted exactly its quorum, or all replicas if they are fewer, and nobody beyond. |
| `ProtocolTheorems.ClientReplyMeans` | internal/server/coordinator.go:273-277 | A miss if and only if no sibling is live; otherwise the first live one answers. |
| `ProtocolTheorems.ReadYourWrites` | internal/server/coordinator.go:199-278 | When the acknowledged operation is the newest, the read answers the value the client wrote, and a miss after a delete. |
| `ProtocolTheorems.LocalRepairHeals` | internal/server/coordinator.go:292-301 | In every run, a coordinator that has repaired itself covers the merged set of that read at every later point. |
| `ProtocolTheorems.RepairHeals` | internal/server/coordinator.go:284-309 | In every run each responder covers the merged set once repair has skipped it as Equal, healed the coordinator itself, or got every push applied. |
| `Progress.ConvergenceIsReachable` | internal/server/antientropy.go:201-234 | From every reachable state anti-entropy steps alone lead to a state in which every node stores what all versions ever minted reconcile to. |
| `Progress.ConvergedAgree` | internal/server/antientropy.go:201-234 | Nodes that have got there store the same siblings. |
| `Progress.MintedIsCovered` | internal/server/coordinator.go:95-104 | At every point of every run each minted version, acknowledged or not, is covered at some node. |
| `Progress.WriteCanSucceedIff` | internal/server/coordinator.go:113-140 | From a reachable state a write or delete can still succeed if and only if it has replied or at least a quorum of replicas has no hint parked for it. |
| `Progress.ReadCanSucceed` | internal/server/coordinator.go:216-256 | From every reachable state any read under way can still reach its quorum and reply. |
| `Progress.HintCanBeDelivered` | internal/server/handoff.go:178-198 | From every reachable state any parked hint can be delivered: its target covers it and the hint is gone. |
| `Progress.StaleResponderCanBeHealed` | internal/server/coordinator.go:284-318 | A responder that a finished read found behind can be brought to cover the whole merged set. |
| `QuorumBound.ApartQuorumsMiss` | cmd/kyria/config.go:163-175 | For every configuration whose quorums need not meet there is a run in which a successful read misses a write that had replied OK. |
| `QuorumBound.ReadsSeeWritesIff` | cmd/kyria/config.go:163-175 | Quorum visibility over all runs holds if and only if the capped quorums add up to more than the replica set. |
| `Handoff.ParkLosesNothingIff` | internal/server/handoff.go:44-54 | One park loses no parked version if and only if the hint it overwrites is at or below the new version or already covered by the target. |
| `Handoff.StepLosesNothingIff` | internal/server/handoff.go:44-99 | From a state that has lost nothing, the only steps that lose something are the parks that fail that condition. |
| `Handoff.HandoffIsLosslessIff` | internal/server/handoff.go:44-99 | A run accounts for every parked version at each of its points if and only if each of its parks meets that condition where it happens. |
| `Handoff.MintOrderIsSafe` | internal/server/coordinator.go:119-129 | A park that arrives in mint order always meets that condition. |
| `Handoff.DropLosesNothing` | internal/server/handoff.go:84-99 | The conditional remove loses nothing, whatever was parked between snapshot and remove. |
| `Handoff.HandoffIsLossless` | internal/server/handoff.go:44-99 | So in every run with parks in mint order, each version ever parked stays covered by the hint still there or by the target's store. |
| `Handoff.RacingParksLoseAHint` | internal/server/coordinator.go:119-129 | Without that order the promise fails: a concrete run in which the older of two writes parks last and the newer version is lost. |
| `HintStore.Store.Add` | internal/server/handoff.go:44-54 | Overwrites the hint of its target and key and no other. |
| `HintStore.Store.Snapshot` | internal/server/handoff.go:60-77 | The copy holds exactly the parked hints. |
| `HintStore.Store.Remove` | internal/server/handoff.go:84-99 | Drops the hint only while the parked blob equals the delivered one, and a target once it has no hints left; every other hint stays. |
| `HintStore.Store.Size` | internal/server/handoff.go:104-114 | The number of (target, key) pairs with a hint, summed target by target. |
| `HintStore.Store.ReplayOnce` | internal/server/handoff.go:178-212 | Each hint is delivered or fails on its own, with parks arriving at any point of the sweep: nothing newer is lost, nothing that failed is dropped, what landed undisturbed is gone, and the number delivered is returned. |
| `HintStore.Store.Receive` | internal/server/handoff.go:44-54 | Parks that arrive in the middle of a sweep keep what it has achieved and are kept themselves, the newest for each key. |
| `HintStore.Store.Deliver` | internal/server/handoff.go:188-198 | A delivery that lands removes its hint unless something else is parked there by now; one that fails changes nothing. |
| `Coordinator.Replica.Write` | internal/server/coordinator.go:95-104 | Mints strictly above every sibling and replaces them all; other keys stay. |
| `Coordinator.Replica.Delete` | internal/server/coordinator.go:145-158 | Mints a tombstone that hides every sibling and tells whether a live value was there. |
| `Coordinator.Replica.RSet` | internal/server/handler.go:275-291 | Reconciles without minting: nothing covered is lost and the version is covered. |
| `Coordinator.Replica.Absorb` | internal/server/coordinator.go:284-309 | Folds a whole set in: what either side covered is covered afterwards. |
| `Coordinator.PeersExcept` | internal/server/coordinator.go:347-355 | Every replica but self, each as often as listed. |
| `Coordinator.Gather` | internal/server/coordinator.go:326-344 | With the local copy counted first and an early stop, the quorum is met if and only if enough peers acknowledge, and the count is exact when it is not met. |
| `Coordinator.ReadLoop` | internal/server/coordinator.go:199-256 | The merged set represents exactly what the counted responders returned, the local set among them; quorum is met if and only if enough replicas answer. |
| `Coordinator.ReadRepair` | internal/server/coordinator.go:284-309 | Skips the responders whose answer is Equal, folds the merged set in at the coordinator, and at each other responder folds in the versions whose own push landed. |
| `Coordinator.Push` | internal/server/coordinator.go:303-307 | Pushes version by version and passes over those that fail. |
| `Coordinator.RepairCovers` | internal/server/coordinator.go:284-309 | No store loses coverage, and every responder that repair got through to covers the merged set afterwards. |
| `Coordinator.RepairAddsOnlyWhatLanded` | internal/server/coordinator.go:284-318 | What repair adds to a peer is a merged version whose own push landed. |
| `Binenc.ReadsUint` | internal/binenc/binenc.go:22-87 | A big-endian number comes back wherever it was written, for every width it fits. |
| `Binenc.ReadsString` | internal/binenc/binenc.go:44-100 | A length-prefixed string comes back with the offset after it. |
| `Binenc.ReadsBool` | internal/binenc/binenc.go:54-126 | A flag comes back. |
| `Binenc.StringExtends` | internal/binenc/binenc.go:91-100 | A successful read does not depend on the bytes after it and stays in bounds. |
| `Binenc.BoolExtends` | internal/binenc/binenc.go:116-126 | A successful read does not depend on the bytes after it and stays in bounds. |
| `Binenc.ReadsList` | internal/binenc/binenc.go:22-126 | A list written chunk by chunk comes back item by item. |
| `VersionCodec.Encode` | internal/version/version.go:117-135 | The bytes are the encoding for some iteration order of each clock. |
| `VersionCodec.Decode` | internal/version/version.go:138-189 | The cursor loop computes the decoder that the lemmas characterise. |
| `VersionCodec.RoundTrip` | internal/version/version.go:117-189 | Decoding inverts encoding for every clock iteration order and any trailing bytes, up to the deletion time of a live version, which is not carried over. |
| `VersionCodec.RoundTripIff` | internal/version/version.go:117-189 | For every set whatever its sizes: it comes back exactly if and only if its names, lengths, counters and times fit and no live version carries a deletion time. |
| `VersionCodec.TruncationIsRejected` | internal/version/version.go:138-189 | Every non-empty strict prefix is rejected. |
| `VersionCodec.SetExtends` | internal/version/version.go:138-189 | A successful decode does not depend on trailing bytes. |
| `VersionCodec.EncodingIsInjective` | internal/server/handoff.go:84-99 | Equal blobs hold equal sets, so comparing blobs before removing a hint compares versions. |
| `VersionCodec.DecodedStorable` | internal/version/version.go:138-189 | Whatever decodes has encodable sizes and no deletion time unless deleted. |
| `VersionCodec.StorableRoundTrip` | internal/version/version.go:117-189 | Such a set survives the wire exactly. |
| `Bits.NextPowerOfTwoIsLeast` | internal/merkle/merkle.go:209-214 | The least power of two that is at least n, and 1 for n at most 1. |
| `Bits.MaskIsMod` | internal/merkle/merkle.go:58-61 | Masking with a power of two less one is the remainder. |
| `Merkle.BucketInRange` | internal/merkle/merkle.go:58-61 | A bucket is the first eight hash bytes modulo the leaf count, so it lies in range. |
| `Merkle.LeafOrderIrrelevant` | internal/merkle/merkle.go:71-89 | A leaf depends only on which entries were added, never on their order. |
| `Merkle.LeafIsEmptyIff` | internal/merkle/merkle.go:71-89 | A leaf is empty if and only if no entry fell into its bucket. |
| `Merkle.EntriesAreDelimited` | internal/merkle/merkle.go:71-89 | Hashing the key to a fixed width delimits it: entries hashed from the same bytes agree on key digest and blob. |
| `Merkle.EqualDigestsEqualEntries` | internal/merkle/merkle.go:71-77 | If the hash keeps apart the two keys and the two inputs of key digest and blob, equal entry digests mean equal entries. |
| `Merkle.LeafIsMix` | internal/merkle/merkle.go:71-89 | A leaf is the exclusive or of sha(sha(key) + blob) over the entries of its bucket, or empty when there are none. |
| `Merkle.MixedIsUnchangedIff` | internal/merkle/merkle.go:78-89 | Adding an entry leaves a leaf as it was if and only if the leaf is not empty and the digest is all zero. |
| `Merkle.DiffContents` | internal/merkle/merkle.go:141-153 | The pruned walk reports exactly the leaves reachable along differing nodes. |
| `Merkle.DiffIsSound` | internal/merkle/merkle.go:112-153 | With no assumption on the hash, every reported bucket differs. |
| `Merkle.DiffIsExactIff` | internal/merkle/merkle.go:97-153 | When no inner hash collides, exactly the differing buckets are reported if and only if no two sibling leaves concatenate to the same bytes. |
| `Merkle.EmptySiblingAliases` | internal/merkle/merkle.go:97-105 | Two leaf lists that differ by a digest and its empty sibling trading places are reported equal, because children are hashed without framing. |
| `Merkle.DiffIsAscending` | internal/merkle/merkle.go:112-153 | Buckets are reported ascending and without repeats. |
| `MerkleTree.Tree.New` | internal/merkle/merkle.go:34-40 | An empty tree with the leaf count rounded up to a power of two. |
| `MerkleTree.Tree.Add` | internal/merkle/merkle.go:71-89 | Changes the leaf of the key's bucket by the entry digest and no other leaf. |
| `MerkleTree.Tree.Root` | internal/merkle/merkle.go:97-105 | Fills every inner node with the hash of its children, leaves untouched. |
| `MerkleTree.Tree.Collect` | internal/merkle/merkle.go:141-153 | Appends the pruned walk from a node. |
| `MerkleTree.Tree.Diff` | internal/merkle/merkle.go:112-124 | The diff of the two trees' leaves, or nothing when sizes differ. |
| `MerkleTree.Encode` | internal/merkle/merkle.go:159-170 | Writes the leaf count and the leaves. |
| `MerkleTree.Decode` | internal/merkle/merkle.go:176-206 | Fails if and only if the bytes are malformed, and otherwise yields a tree with the leaves read. |
| `MerkleTree.LeavesRoundTrip` | internal/merkle/merkle.go:159-206 | Leaves survive the wire, so a diff against the decoded tree is a diff against the original. |
| `MerkleTree.LeavesTruncationRejected` | internal/merkle/merkle.go:176-206 | Truncated bytes are rejected. |
| `SyncCodec.BucketsRoundTrip` | internal/server/antientropy.go:24-53 | A bucket list survives the wire with any trailing bytes. |
| `SyncCodec.EntriesRoundTrip` | internal/server/antientropy.go:57-100 | An entry map survives the wire in every iteration order with any trailing bytes. |
| `SyncCodec.EncodeBuckets` | internal/server/antientropy.go:24-31 | The loop writes the encoding. |
| `SyncCodec.DecodeBuckets` | internal/server/antientropy.go:35-53 | The cursor loop reads it, and errors if and only if it is malformed. |
| `SyncCodec.EncodeEntries` | internal/server/antientropy.go:57-67 | The bytes are the encoding for some iteration order of the map. |
| `SyncCodec.DecodeEntries` | internal/server/antientropy.go:71-100 | The cursor loop reads it, and errors if and only if it is malformed. |
| `AntiEntropy.LeavesIgnoreOrder` | internal/server/handler.go:310-322 | Two replicas that range over the same store in different orders build the same leaves. |
| `AntiEntropy.BuildTree` | internal/server/antientropy.go:202-203 | The tree over the whole store. |
| `AntiEntropy.ServeTree` | internal/server/handler.go:310-322 | The encoded tree over the local store, or a refusal if and only if the leaf count does not parse. |
| `AntiEntropy.ServeBuckets` | internal/server/handler.go:328-353 | Exactly the entries of the requested buckets, or a refusal if and only if the leaf count does not parse or the bucket set is malformed. |
| `AntiEntropy.ServeRSet` | internal/server/handler.go:275-291 | An error if and only if not exactly one version decodes; otherwise the encoded reconciled set is stored, or refused by the store's size checks. |
| `AntiEntropy.UpdateReplica` | internal/server/antientropy.go:224-232 | Stores bytes that decode to the fold of what both blobs held, or is refused by the store's size checks. |
| `AntiEntropy.StoresAreUnaliased` | internal/merkle/merkle.go:97-105 | Between the trees of two stores, sibling leaves alias only if two buckets with different contents have the same exclusive or of entry digests. |
| `Detection.ChangeIsMissedIff` | internal/merkle/merkle.go:71-89 | For two stores that differ under one key, the leaf of that key misses it if and only if the two inputs that are hashed collide, or, for a key on one side only, its digest is all zero in a bucket in use. |
| `Detection.OneChangeIsReported` | internal/merkle/merkle.go:112-154 | A single changed, added or removed key is reported, and its bucket alone, when none of the hashes on its way collide; nothing is assumed of the rest of the stores. |
| `Detection.FetchedBucketsDiffer` | internal/server/antientropy.go:210-222 | Whatever the hash, a key is fetched only if the stores differ under some key of its bucket. |
| `AntiEntropy.SwappedLeavesGoUnnoticed` | internal/merkle/merkle.go:176-206 | Bytes that are no store's tree can alias without any collision: a tree with two leaves swapped decodes, differs in both buckets and is reported equal. |
| `AntiEntropy.UnreportedAgree` | internal/server/antientropy.go:210-213 | Outside the reported buckets two stores agree key by key when no digest collides. |
| `AntiEntropy.DiffWithPeer` | internal/server/antientropy.go:202-213 | The diff against the peer's tree as it arrives over the wire is the diff of the two stores. |
| `AntiEntropy.FetchBuckets` | internal/server/antientropy.go:215-219 | What arrives is exactly the peer's entries of the requested buckets. |
| `AntiEntropy.AbsorbEntries` | internal/server/antientropy.go:223-233 | Each fetched key is folded in, or stays as it was when the store refuses it; all other keys stay. |
| `AntiEntropy.SyncWith` | internal/server/antientropy.go:201-234 | After a round with a quiescent peer that answers, every key is as if the peer's whole store had been reconciled in with no tree at all, or as before if the local store refuses that outcome. |
| `AntiEntropy.SyncedCovers` | internal/server/antientropy.go:201-234 | Nothing covered before is lost, and every version of the peer is covered under each key that is not refused. |
| `Convergence.PairOfRoundsConverges` | internal/server/antientropy.go:201-234 | After a node has synced from its peer and the peer from it, both hold the same siblings for every key, when equal clocks mean equal versions and neither store refuses the key. |
| `Convergence.ThereAndBackAgrees` | internal/version/version.go:34-54 | Reconciling one sibling set into another and the outcome back into the first leaves the same siblings on both sides. |
| `Convergence.RoundIsQuietIff` | internal/server/antientropy.go:210-213 | When no hash collides, a round finds nothing to fetch if and only if the two stores are equal byte for byte. |
| `Convergence.OneSetTwoBlobs` | internal/version/version.go:117-135 | A sibling with two clock entries has two different encodings, and both decode to it. |
| `Convergence.AgreementIsNotQuiet` | internal/version/version.go:129-132 | Agreement on siblings does not suffice: one set has two encodings, by map iteration order, and two stores that hold one each are reported different. |
| `Membership.Members.constructor` | internal/cluster/membership.go:49-67 | Only self, forced alive. |
| `Membership.Members.Bump` | internal/cluster/membership.go:72-80 | Self's incarnation rises by one; all other entries stay. |
| `Membership.Members.Merge` | internal/cluster/membership.go:90-127 | The loop computes the record-by-record merge and keeps self present and alive. |
| `Membership.Members.DetectFailures` | internal/cluster/membership.go:131-145 | Exactly the alive others that were silent for longer than the timeout become dead. |
| `Membership.Members.Snapshot` | internal/cluster/membership.go:163-173 | Each member's record once, in any order. |
| `Membership.Members.Alive` | internal/cluster/membership.go:176-188 | Exactly the alive members, each once, self among them. |
| `Membership.OnlyNewsRenews` | internal/cluster/membership.go:90-127 | An entry counts as seen exactly when its rank rises; its address changes only with a strictly higher incarnation, never for self. |
| `Membership.NewsIsTakenWhole` | internal/cluster/membership.go:95-125 | For a node other than self a record that is new or of a higher incarnation is taken whole, address included; on a tie only the deader state is, and an older one not at all. |
| `Membership.HeldAddressWasHeardFirst` | internal/cluster/membership.go:90-127 | After any batch the address held for a node is the one it was first heard with at the incarnation held; self's never changes. |
| `Membership.LastSeenIsFirstHeard` | internal/cluster/membership.go:90-127 | After any batch an entry dates from the first record with the rank it holds. |
| `Membership.SilenceIsFatalIff` | internal/cluster/membership.go:131-145 | A node held alive is declared dead if and only if its rank was first heard more than the timeout ago. |
| `Membership.OthersAreSpared` | internal/cluster/membership.go:131-145 | Self and whatever is not alive are left as they are. |
| `Membership.MergeKeepsTopRank` | internal/cluster/membership.go:90-127 | For every node but self, any batch of records leaves exactly the highest (incarnation, state) rank heard. |
| `Membership.MergeOrderIrrelevant` | internal/cluster/membership.go:90-127 | So the rank depends only on the set of records seen, not on order, repetition or time. |
| `Membership.MergeBatches` | internal/cluster/membership.go:90-127 | Merging batch after batch is merging the batches strung together, so batching does not matter either. |
| `Membership.SelfOutbidsEveryClaim` | internal/cluster/membership.go:103-112 | Self ends at the maximum of its start and one above the highest claim that it is not alive. |
| `Gossip.StepKeepsInv` | internal/cluster/gossip.go:192-267 | A heartbeat, a failure detection, a send and a delivery of any earlier packet each keep the invariant. |
| `Gossip.RunKeepsInv` | internal/cluster/gossip.go:192-267 | It holds after every run with lost, delayed, duplicated and reordered packets. |
| `Gossip.NobodyIsAhead` | internal/cluster/gossip.go:192-267 | No roster and no packet of any run carries an incarnation above its node's own. |
| `Gossip.AddressesAreTrue` | internal/cluster/membership.go:90-127 | On every run every record of a node, in any roster or packet, gives the address that node started with. |
| `Gossip.SelfStaysAlive` | internal/cluster/membership.go:90-127 | Self is present and alive in its own roster at every point of every run. |
| `Gossip.RankNeverFalls` | internal/cluster/membership.go:90-145 | Between any two points of a run no roster forgets a member and no rank falls. |
| `Gossip.HeartbeatOutrunsAll` | internal/cluster/membership.go:72-80 | A heartbeat puts a node strictly ahead of everything others hold or have ever sent about it. |
| `Gossip.SnapshotRevivesIff` | internal/cluster/membership.go:90-127 | A snapshot in which a node is alive makes its receiver hold that node alive if and only if the receiver knows nothing at least as recent to the contrary. |
| `GossipExchange.OldBeliefNeverBlocks` | internal/cluster/membership.go:90-127 | In every run, what i held about j when it sent its snapshot never stands against the snapshot j sends after merging it. |
| `GossipExchange.ExchangeRevivesIff` | internal/cluster/membership.go:90-127 | In every run, after i sends, j merges, j sends and i merges, with anything in between, i holds j alive if and only if at that receipt i holds no record of j as not alive at the incarnation of j's snapshot or later. |
| `GossipExchange.ExchangeRevives` | internal/cluster/membership.go:163-173 | So i holds j alive whenever it has learnt nothing new about j since its own snapshot. |
| `GossipExchange.InterleavedExchangeFails` | internal/cluster/gossip.go:230-267 | Without the condition the promise fails: a concrete run of whole rounds in which j times out at i and a duplicate of j's snapshot does not revive it. |
| `GossipCodec.Marshal` | internal/cluster/gossip.go:74-93 | An error if and only if the count or a name does not fit its 16-bit prefix, else the packet. |
| `GossipCodec.Unmarshal` | internal/cluster/gossip.go:99-136 | The cursor loop reads the packet and errors if and only if it is malformed. |
| `GossipCodec.RoundTrip` | internal/cluster/gossip.go:74-136 | A packet comes back node for node with any trailing bytes. |
| `GossipCodec.TruncationIsRejected` | internal/cluster/gossip.go:99-136 | A datagram cut short is never taken for a packet. |
| `Ring.LabelIsInjective` | internal/cluster/ring.go:41-46 | No two virtual points share a hashed name. |
| `Ring.Circle.Add` | internal/cluster/ring.go:41-46 | Appends one point per virtual node and changes nothing else. |
| `Ring.Circle.Sort` | internal/cluster/ring.go:49-53 | Some order by hash of the same points. |
| `Ring.Circle.Remove` | internal/cluster/ring.go:56-60 | Drops exactly the node's points and keeps the rest sorted. |
| `Ring.Circle.FindIndex` | internal/cluster/ring.go:107-116 | The binary search with wrap-around finds where the clockwise walk of the key begins. |
| `Ring.Circle.Get` | internal/cluster/ring.go:64-73 | The first node of that walk, or none on an empty ring. |
| `Ring.Circle.GetN` | internal/cluster/ring.go:78-103 | The first n nodes of the walk, each counted when first met; none for n at most 0. |
| `Ring.FirstSeenMeans` | internal/cluster/ring.go:85-100 | The nodes met on a walk, each once, in the order in which they are first met. |
| `Ring.ReplicasMean` | internal/cluster/ring.go:75-103 | Exactly min(n, nodes on the ring) distinct nodes of the ring, headed by the owner. |
| `Ring.RemovalShifts` | internal/cluster/ring.go:56-103 | For every key and n, the replicas after removing x are the earlier n + 1 with x dropped, cut to n, ties and wrap-around included. |
| `Ring.RemovalKeepsOwners` | internal/cluster/ring.go:56-73 | No key whose owner was not x changes owner. |
| `Ring.WithoutSorted` | internal/cluster/ring.go:55-60 | Removal keeps a sorted ring sorted. |
| `Router.Router.constructor` | internal/cluster/router.go:41-56 | The first ring is built from the alive members. |
| `Router.Router.Build` | internal/cluster/router.go:61-72 | The published ring is sorted and holds exactly the points of the alive members. |
| `Router.Router.Rebuild` | internal/cluster/router.go:61-79 | A whole new ring of the alive members replaces the old one. |
| `Router.Router.OwnerOf` | internal/cluster/router.go:106-108 | None if and only if there are no members; otherwise a member. |
| `Router.Router.IsLocal` | internal/cluster/router.go:111-114 | True if and only if self owns the key. |
| `Router.Router.Owners` | internal/cluster/router.go:118-120 | Exactly min(n, members) distinct members. |
| `Router.AddOrderIrrelevant` | internal/cluster/router.go:61-70 | The order in which nodes are added does not change the collection of points. |
| `Router.RoutersAgree` | internal/cluster/router.go:61-79 | Two routers with the same alive IDs agree on every owner and replica list, whatever the iteration order, when no two nodes share a point hash. |
| `RouterTies.ArrangedKeepsOrder` | internal/cluster/ring.go:49-53 | The reference sort keeps the order of points with the same hash. |
| `RouterTies.TieParts` | internal/cluster/router.go:61-70 | Even under one fixed order-preserving sort, two iteration orders of the roster give the label of a tied point different owners. |
| `RouterTies.RoutersAgreeIff` | internal/cluster/ring.go:49-53 | Over all orders of the roster, routers of the same members agree on every key's replica list if and only if no two members share a point hash, both for every order an unstable sort may produce and for one fixed order-preserving sort. |
| `Placement.VirtualPointsKeepApart` | internal/cluster/ring.go:41-46 | If the hash keeps the names of virtual points apart, a ring has its number of points for each member, no two at one place. |
| `Placement.EveryLabelHasAPoint` | internal/cluster/ring.go:41-46 | Each member has a point at the hash of each of its names. |
| `Placement.ApartLabelsAgree` | internal/cluster/router.go:61-70 | Under the same condition any two routers of the members agree on every key. |
| `Placement.OnlyItsOwnKeysMove` | internal/cluster/router.go:61-70 | Between the rings with and without one member, a key owned by another keeps its owner, and the replica list is the old one with that member out and the next one moved up. |
| `Sketch.CellInRow` | internal/store/sketch.go:51-54 | Every computed index lies inside its own row. |
| `Sketch.CellIsDoubleHashed` | internal/store/sketch.go:51-54 | For widths up to 2^32 the column is (h1 + row * h2) modulo the width, for the two halves of the hash. |
| `Sketch.TallyIsCount` | internal/store/sketch.go:59-98 | Counting up to 15 and halving as one goes comes to a sum of hits per cycle, capped and then halved at the end of each complete cycle. |
| `Sketch.CountIsOccurrences` | internal/store/sketch.go:59-74 | Before the first aging pass a key's count is min(occurrences, 15). |
| `Sketch.CountOverACycle` | internal/store/sketch.go:59-98 | From the end of a cycle on occurrences are added to what was left, capped; the pass that ends the next cycle halves the result. |
| `Sketch.CellCountsItsOwn` | internal/store/sketch.go:59-98 | In every sequential run each cell is the count, cycle by cycle, of the additions that land in it. |
| `Sketch.EstimateIsNeverLow` | internal/store/sketch.go:59-98 | An estimate is at least the key's own count and at most 15. |
| `Sketch.EstimateIsExact` | internal/store/sketch.go:77-89 | It is exact when some row keeps the key apart from every other key added. |
| `Sketch.CellsStayCapped` | internal/store/sketch.go:59-98 | No cell ever passes 15. |
| `Sketch.CountMin.constructor` | internal/store/sketch.go:31-45 | Width is a power of two of at least the capacity; the aging period is ten times the capacity. |
| `Sketch.CountMin.Add` | internal/store/sketch.go:59-74 | The row loop and the aging pass carry the sketch of a history to the sketch of the history with the key appended. |
| `Sketch.CountMin.EstimateOf` | internal/store/sketch.go:77-89 | The running minimum is the estimate, never below the key's own count. |
| `Sketch.CountMin.Reset` | internal/store/sketch.go:93-98 | Every counter halved, the addition count zeroed. |
| `MapStore.Store.Get` | internal/store/map_store.go:102-117 | A live entry is returned and its access recorded; an expired or absent one changes nothing. |
| `MapStore.Store.SampleVictim` | internal/store/map_store.go:224-248 | The weakest of a sample of min(5, incumbents) incumbents in any iteration order; none if and only if the newcomer is alone. |
| `MapStore.Store.EvictIfNeeded` | internal/store/map_store.go:193-216 | Over the cap, the sampled victim or the newcomer goes, as admission decides; otherwise nothing changes. |
| `MapStore.Store.Put` | internal/store/map_store.go:147-178 | Refuses bad sizes and leaves the store alone, or stores and enforces the cap. |
| `MapStore.Store.SetValue` | internal/store/map_store.go:122-124 | A set without expiry that admission may refuse. |
| `MapStore.Store.SetValueWithTTL` | internal/store/map_store.go:136-141 | A non-positive time to live is refused; otherwise a set that expires. |
| `MapStore.Store.UpdateReplica` | internal/store/map_store.go:128-132 | A read and a set of fn(old) that bypasses admission. |
| `MapStore.Store.DeleteKey` | internal/store/map_store.go:251-255 | Removes the key and tells whether it was there. |
| `MapStore.Store.DeleteKeyIf` | internal/store/map_store.go:284-295 | Removes a live key exactly when the predicate holds of its value. |
| `MapStore.CapHolds` | internal/store/map_store.go:147-216 | With a policy and a cap of at least 1, no state of any run holds more entries than the cap. |
| `MapStore.RefusedSetChangesNothing` | internal/store/map_store.go:193-216 | A set that is refused leaves the key-to-entry map unchanged; only TinyLFU refuses, and only new keys. |
| `MapStore.AcceptedSetBinds` | internal/store/map_store.go:147-216 | An accepted set binds its key until it expires, keeps the entries that stay, and drops at most one, only on overflow. |
| `MapStore.WriteFailsIff` | internal/store/map_store.go:126-156 | Each error of a write has its own case: a time to live that is not positive, an empty key, a key over its limit, a value over its limit; in every other case it stores. |
| `MapStore.UpdateReplicaBinds` | internal/store/map_store.go:126-132 | UpdateReplica stores if and only if key and fn(old) are within their limits; then it is admitted, binds its key to fn(old) and removes at most one other key. |
| `StoreRuns.HeldIsLastWritten` | internal/store/map_store.go:102-216 | On every run and under every policy, whatever a key holds is what its last accepted write put there. |
| `StoreRuns.ReadsAnswerTheLastWrite` | internal/store/map_store.go:102-118 | A read that finds its key answers the last accepted write of it, neither removed since nor expired. |
| `StoreRuns.UnboundedStoreIsExact` | internal/store/map_store.go:102-118 | Without a policy a read finds the last accepted write unless it has expired. |
| `StoreRuns.LfuCountsReads` | internal/store/policy.go:58-68 | On every LFU run an entry's eviction priority is the base count and the live reads since its last accepted write. |
| `Lru.SampledLruIsExactIff` | internal/store/map_store.go:180-248 | The victim must be the least recently touched incumbent if and only if there are at most five incumbents. |
| `Lru.StepRefines` | internal/store/policy.go:25-40 | When a sample takes in all incumbents, each operation acts as on an ideal recency list, with the same reply. |
| `Lru.RunRefinesIdeal` | internal/store/policy.go:25-40 | So does every run: each overflow drops exactly the least recently touched entry. |
| `LruBound.LargeStoreStrays` | internal/store/map_store.go:180-248 | For every cap above five and enough storable keys there is a run whose last read the ideal store would answer differently. |
| `LruBound.SampledLruIsLruIff` | internal/store/map_store.go:180-248 | Over all runs the store answers as the ideal recency list if and only if the cap is at most five or there are too few storable keys to overflow it. |
| `TinyLfu.TouchesAre` | internal/store/policy.go:89-90 | Each operation touches its own key only: once for a read that found it and once for a write that was not refused. |
| `TinyLfu.RunSketches` | internal/store/policy.go:75-93 | On every run the policy's sketch is exactly the sketch of the keys touched so far. |
| `TinyLfu.EvictedForABetterKey` | internal/store/policy.go:95-100 | An incumbent is evicted by a set, with or without a time to live, only if its own count is below the newcomer's estimate. |
| `TinyLfu.AdmittedIfBetter` | internal/store/policy.go:98-100 | A newcomer to a full store is admitted if its estimate tops that of every incumbent, and refused if it tops none. |
| `Decimals.DecimalMeans` | internal/protocol/resp.go:313-315 | A printed numeral consists of digits that spell the number. |
| `Decimals.WrapAccumulates` | internal/protocol/resp.go:204-213 | Wrapping to 64 bits at every step equals wrapping once at the end, sign included. |
| `Decimals.AtoiItoa` | internal/server/handler.go:311-314 | The leaf count a peer prints is the leaf count parsed, for every 64-bit integer. |
| `Decimals.AtoiOfDecimal` | internal/server/handler.go:311-314 | A plus sign is accepted, and a number beyond 64 bits is refused. |
| `Resp.ParseInt` | internal/protocol/resp.go:193-215 | The loop computes the 64-bit wrapped value of an optional sign and digits, and errors on anything else. |
| `Resp.ItoaParses` | internal/protocol/resp.go:193-215 | Every int64, the minimum included, is parsed back from its numeral. |
| `Resp.Reader.NextLine` | internal/protocol/resp.go:179-188 | The text up to the next CRLF; a stream error when the stream or the buffer ends first, a protocol error when the CR is missing. |
| `Resp.Reader.Decode` | internal/protocol/resp.go:106-173 | The recursive reader computes the decoder that the lemmas characterise, with its two kinds of failure, and advances to its end. |
| `Resp.Writer.Encode` | internal/protocol/resp.go:250-284 | The recursive writer asks for exactly the encoding; a connection that fails after any number of bytes has taken exactly that prefix, and the first error sticks. |
| `Resp.Writer.Write` | internal/protocol/resp.go:296-306 | Writes nothing more once a write has failed. |
| `Resp.CutReplyIsNotRead` | internal/protocol/resp.go:242-246 | A reply cut short by a failing connection is read as a stream error, never as another reply or a protocol error. |
| `Resp.RoundTripIff` | internal/protocol/resp.go:106-284 | Followed by any bytes, a value is read back and exactly those bytes are left, if and only if at every depth its texts are free of line feeds and fit the buffer, its numbers are 64-bit and its sizes are within the limits. |
| `Resp.NoPrefixDecodes` | internal/protocol/resp.go:106-173 | No strict prefix of an encoding decodes, and each fails as a stream error, so a dropped connection is never blamed on the protocol. |
| `Resp.ProtocolErrorStays` | internal/protocol/resp.go:224-233 | A protocol error is final: no bytes that follow would mend it. |
| `Resp.DecodedFits` | internal/protocol/resp.go:106-215 | Whatever is decoded from any bytes respects the limits at every depth. |
| `Resp.DecodedExtends` | internal/protocol/resp.go:106-173 | A successful decode does not depend on the bytes after it. |
| `Layouts.TombstoneLayout` | internal/version/version.go:117-135 | The bytes of a set of one tombstone, field by field. |
| `Layouts.LiveLayout` | internal/version/version.go:117-135 | The bytes of a set of one live version: a zero flag and no deletion time. |
| `Layouts.PacketLayout` | internal/cluster/gossip.go:74-93 | The bytes of a packet of one record: count, state, incarnation, ID, address. |
| `Layouts.SyncLayout` | internal/server/antientropy.go:24-68 | The bytes of a request for one bucket and of an answer with one entry. |
| `Layouts.TreeLayout` | internal/merkle/merkle.go:159-172 | The bytes of a tree of one leaf. |
| `Layouts.ReplyLayout` | internal/protocol/resp.go:250-292 | The RESP2 spelling of each kind of reply, nulls included. |
| `Layouts.CommandLayout` | internal/protocol/resp.go:250-292 | The RESP2 spelling of a command. |

## Left out

- Wrap-around of 64-bit clock counters, incarnations and sketch sizes, and of 32-bit lengths and counts in `Encode` and `encodeEntries`: sizes are required to fit their prefixes where the code would truncate them.
- VersionCodec.RoundTrip: requires node IDs of at most 65535 bytes and lengths of 32 bits, because `Encode` drops the error for a longer ID and truncates a longer length; VersionCodec.RoundTripIff says for every set whether it comes back.
- VersionCodec.TruncationIsRejected: requires the same sizes, for the same reason.
- VersionCodec.EncodingIsInjective: requires the same sizes, for the same reason.
- MerkleTree.Decode: leaf counts from 2^31 on, where the code's doubled 32-bit count overflows, are treated as if it did not.
- Tombstone collection, TTL expiry and eviction inside protocol runs, and node restarts: each loses the frontier that mints build on.
- Changes of the replica set during a quorum argument.
- Fairness: that gossip, replay or anti-entropy eventually run is not stated, only what they keep, what they achieve when they do, and when success is still possible.
- Deadlines, connection pools and retries: a failed or timed-out peer call is a step that does not happen, or one whose answer is never counted.
- Lock striping in `sharded_store.go`; atomicity of one key's update is taken as given.
- The janitor, the tombstone collector, tickers, Stop handshakes, logging, telemetry and the STATS and NODES commands: easy or without hard invariants.
- What LFU achieves beyond its priorities being read counts: its counts only grow and it has no refinement target.
- Races on sketch counters under the read lock: sketch and store runs are sequential.
- Load balance of the ring, random peer choice and the internals of the hash functions.
- Resp.Reader.Decode: does not say where the stream stands after an error, since both ends drop the connection then.
- Resp.Reader.NextLine: does not say where the stream stands after an error, for the same reason.
- Resp.Writer.Encode: does not model a value with an unknown type tag, which no constructor builds.
- Resp.RoundTripIff: needs a buffer of at least 22 bytes, which holds the longest integer line; the code uses the default of 4096.
- AntiEntropy.UpdateReplica: requires fewer than 2^32 siblings on both sides together, because the encoded count has 32 bits.
- AntiEntropy.ServeRSet: requires fewer than 2^32 - 1 stored siblings, for the same reason.
- AntiEntropy.AbsorbEntries: requires fewer than 2^32 siblings for each key, for the same reason.
- MerkleTree.LeavesRoundTrip: requires fewer than 2^32 leaves, because the encoded count has 32 bits.
- AntiEntropy.SyncWith: assumes a peer that answers without errors and does not change meanwhile, as its promise does, and that neither inner nodes nor buckets of different contents collide; Detection.ChangeIsMissedIff says from the hash alone when one change is missed.
- Ring.Circle.Sort: which of two points with one hash comes first is left open, as the library's sort leaves it.
- Router.Router.Rebuild: the log line on a changed member list is not modelled.
- MapStore.Store.Put: copying of the value is implicit, since values are immutable here.
