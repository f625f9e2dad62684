/**
 The bytes of a sibling set (internal/version/version.go `Encode` and `Decode`). A clock is written
 in the iteration order of a Go map, so one set has many encodings; the order is a parameter here.
 */
module VersionCodec {
  import opened Bytes
  import opened VClock
  import opened Versions
  import opened Seqs
  import opened Binenc
  import opened Decimals

  /** An iteration order of a clock: each of its nodes once. */
  ghost predicate IsOrder(order: seq<Str>, c: Clock) {
    Distinct(order) && forall n :: n in order <==> n in c
  }

  ghost predicate AreOrders(orders: seq<seq<Str>>, vs: seq<Version>) {
    |orders| == |vs| && forall i :: 0 <= i < |vs| ==> IsOrder(orders[i], vs[i].clock)
  }

  /** A signed 64-bit number as its unsigned two's-complement form, and back. */
  function ToUint64(x: int): nat {
    x % 0x1_0000_0000_0000_0000
  }

  function FromUint64(x: nat): int {
    if x >= 0x8000_0000_0000_0000 then x - 0x1_0000_0000_0000_0000 else x
  }

  /** What the Go types and the length prefixes allow: 64-bit counters and times, 32-bit lengths, 16-bit names. */
  predicate Fits(v: Version) {
    |v.value| < 0x1_0000_0000 && IsInt64(v.deletedAt) && ClockFits(v.clock)
  }

  predicate ClockFits(c: Clock) {
    |c| < 0x1_0000_0000 && forall n | n in c :: |n| <= MaxUint16 && c[n] < 0x1_0000_0000_0000_0000
  }

  predicate AllFit(vs: seq<Version>) {
    |vs| < 0x1_0000_0000 && forall i | 0 <= i < |vs| :: Fits(vs[i])
  }

  // ---------------------------------------------------------------- Encode

  /** A name that is too long is silently left out. */
  function PutEntry(n: Str, counter: nat): seq<byte> {
    (if PutString(n).Some? then PutString(n).value else []) + PutUint64(counter)
  }

  /** The entries of a clock from the `i`-th on. */
  function PutClock(c: Clock, order: seq<Str>, i: nat): seq<byte>
    decreases |order| - i
  {
    if i >= |order| then [] else PutEntry(order[i], At(c, order[i])) + PutClock(c, order, i + 1)
  }

  function PutTime(v: Version): seq<byte> {
    if v.deleted then PutUint64(ToUint64(v.deletedAt)) else []
  }

  /** The first half of a version: its value, length-prefixed, and the deleted flag. */
  function PutHead(v: Version): seq<byte> {
    PutBlob(v.value) + PutBool(v.deleted)
  }

  /** The second half: the deletion time of a tombstone, then the clock with its size in front. */
  function PutStamp(v: Version, order: seq<Str>): seq<byte> {
    PutTime(v) + (PutUint32(|v.clock|) + PutClock(v.clock, order, 0))
  }

  function PutVersion(v: Version, order: seq<Str>): seq<byte> {
    PutHead(v) + PutStamp(v, order)
  }

  function Chunks(vs: seq<Version>, orders: seq<seq<Str>>): (chunks: seq<seq<byte>>)
    requires |orders| == |vs|
    ensures |chunks| == |vs|
  {
    seq(|vs|, i requires 0 <= i < |vs| => PutVersion(vs[i], orders[i]))
  }

  function Encoded(vs: seq<Version>, orders: seq<seq<Str>>): seq<byte>
    requires |orders| == |vs|
  {
    PutUint32(|vs|) + PutAll(Chunks(vs, orders), |vs|)
  }

  // ---------------------------------------------------------------- Decode

  function ReadEntry(b: seq<byte>, off: nat): Read<(Str, nat)> {
    match String(b, off)
    case Malformed => Malformed
    case Read(node, off) =>
      match Uint64(b, off)
      case Malformed => Malformed
      case Read(counter, off) => Read((node, counter), off)
  }

  function ReadClock(b: seq<byte>, off: nat, n: nat, clock: Clock): Read<Clock>
    decreases n
  {
    if n == 0 then Read(clock, off)
    else
      match ReadEntry(b, off)
      case Malformed => Malformed
      case Read(e, off) => ReadClock(b, off, n - 1, clock[e.0 := e.1])
  }

  function ReadTime(b: seq<byte>, off: nat, deleted: bool): Read<nat> {
    if deleted then Uint64(b, off) else Read(0, off)
  }

  function ReadHead(b: seq<byte>, off: nat): Read<(Str, bool)> {
    match Blob(b, off)
    case Malformed => Malformed
    case Read(value, off) =>
      match Bool(b, off)
      case Malformed => Malformed
      case Read(deleted, off) => Read((value, deleted), off)
  }

  function ReadStamp(b: seq<byte>, off: nat, deleted: bool): Read<(nat, Clock)> {
    match ReadTime(b, off, deleted)
    case Malformed => Malformed
    case Read(deletedAt, off) =>
      match Uint32(b, off)
      case Malformed => Malformed
      case Read(clockN, off) =>
        match ReadClock(b, off, clockN, map[])
        case Malformed => Malformed
        case Read(clock, off) => Read((deletedAt, clock), off)
  }

  function ReadVersion(b: seq<byte>, off: nat): Read<Version> {
    match ReadHead(b, off)
    case Malformed => Malformed
    case Read(head, off) =>
      match ReadStamp(b, off, head.1)
      case Malformed => Malformed
      case Read(stamp, off) => Read(Version(head.0, stamp.1, head.1, FromUint64(stamp.0)), off)
  }

  function VersionAt(b: seq<byte>): nat -> Read<Version> {
    (off: nat) => ReadVersion(b, off)
  }

  function ReadSet(b: seq<byte>): Read<seq<Version>> {
    match Uint32(b, 0)
    case Malformed => Malformed
    case Read(count, off) => ReadAll(VersionAt(b), off, count)
  }

  /** No bytes at all are the empty set; otherwise whatever follows the encoded set is ignored. */
  function Decoded(b: seq<byte>): Option<seq<Version>> {
    if b == [] then Some([])
    else
      match ReadSet(b)
      case Malformed => None
      case Read(vs, _) => Some(vs)
  }

  // ---------------------------------------------------------------- Round trip

  /** What survives the wire: the deletion time of a live version does not. */
  function Normal(v: Version): Version {
    if v.deleted then v else v.(deletedAt := 0)
  }

  function NormalAll(vs: seq<Version>): (r: seq<Version>)
    ensures |r| == |vs| && forall i :: 0 <= i < |vs| ==> r[i] == Normal(vs[i])
  {
    seq(|vs|, i requires 0 <= i < |vs| => Normal(vs[i]))
  }

  /** The clock built by reading the nodes of `order` from the `i`-th on, on top of `clock`. */
  ghost function Overlay(c: Clock, order: seq<Str>, i: nat, clock: Clock): Clock
    decreases |order| - i
  {
    if i >= |order| then clock else Overlay(c, order, i + 1, clock[order[i] := At(c, order[i])])
  }

  lemma ReadsEntry(b: seq<byte>, off: nat, n: Str, counter: nat)
    requires |n| <= MaxUint16 && counter < 0x1_0000_0000_0000_0000 && Holds(b, off, PutEntry(n, counter))
    ensures ReadEntry(b, off) == Read((n, counter), off + |PutEntry(n, counter)|)
  {
    Limits();
    HoldsSplit(b, off, PutString(n).value, PutUint64(counter));
    ReadsString(b, off, n);
    ReadsUint(b, off + |PutString(n).value|, counter, 8);
  }

  lemma {:induction false} ReadsClock(b: seq<byte>, off: nat, c: Clock, order: seq<Str>, i: nat, clock: Clock)
    requires forall n :: n in order ==> |n| <= MaxUint16 && At(c, n) < 0x1_0000_0000_0000_0000
    requires i <= |order| && Holds(b, off, PutClock(c, order, i))
    ensures ReadClock(b, off, |order| - i, clock) == Read(Overlay(c, order, i, clock), off + |PutClock(c, order, i)|)
    decreases |order| - i
  {
    if i < |order| {
      var n := order[i];
      var entry := PutEntry(n, At(c, n));
      HoldsSplit(b, off, entry, PutClock(c, order, i + 1));
      ReadsEntry(b, off, n, At(c, n));
      ReadsClock(b, off + |entry|, c, order, i + 1, clock[n := At(c, n)]);
    }
  }

  lemma {:induction false} OverlayContents(c: Clock, order: seq<Str>, i: nat, clock: Clock)
    requires forall n :: n in order ==> n in c
    requires i <= |order| && forall n :: n in clock <==> n in order[..i]
    requires forall n :: n in clock ==> n in c && clock[n] == c[n]
    ensures forall n :: n in Overlay(c, order, i, clock) <==> n in order
    ensures forall n :: n in Overlay(c, order, i, clock) ==> Overlay(c, order, i, clock)[n] == c[n]
    decreases |order| - i
  {
    if i < |order| {
      assert order[..i + 1] == order[..i] + [order[i]];
      OverlayContents(c, order, i + 1, clock[order[i] := At(c, order[i])]);
    } else {
      assert order[..i] == order;
    }
  }

  lemma OrderSize(order: seq<Str>, c: Clock)
    requires IsOrder(order, c)
    ensures |order| == |c| && Overlay(c, order, 0, map[]) == c
  {
    DistinctSize(order);
    assert (set n | n in order) == c.Keys;
    OverlayContents(c, order, 0, map[]);
    assert Overlay(c, order, 0, map[]).Keys == c.Keys;
  }

  /** The tail of a version: its deletion time, if any, and its clock. */
  lemma ReadsTime(b: seq<byte>, off: nat, v: Version)
    requires Fits(v) && Holds(b, off, PutTime(v))
    ensures ReadTime(b, off, v.deleted).Read?
    ensures ReadTime(b, off, v.deleted).next == off + |PutTime(v)|
    ensures FromUint64(ReadTime(b, off, v.deleted).value) == Normal(v).deletedAt
  {
    Limits();
    if v.deleted { ReadsUint(b, off, ToUint64(v.deletedAt), 8); }
  }

  lemma ReadsHead(b: seq<byte>, off: nat, v: Version)
    requires Fits(v) && Holds(b, off, PutHead(v))
    ensures ReadHead(b, off) == Read((v.value, v.deleted), off + |PutHead(v)|)
  {
    HoldsSplit(b, off, PutBlob(v.value), PutBool(v.deleted));
    ReadsBlob(b, off, v.value);
    ReadsBool(b, off + |PutBlob(v.value)|, v.deleted);
  }

  lemma ReadsSizedClock(b: seq<byte>, off: nat, v: Version, order: seq<Str>)
    requires Fits(v) && IsOrder(order, v.clock)
    requires Holds(b, off, PutUint32(|v.clock|) + PutClock(v.clock, order, 0))
    ensures Uint32(b, off) == Read(|v.clock|, off + 4)
    ensures ReadClock(b, off + 4, |v.clock|, map[]) == Read(v.clock, off + 4 + |PutClock(v.clock, order, 0)|)
  {
    ReadsLength(b, off, |v.clock|, PutClock(v.clock, order, 0));
    OrderSize(order, v.clock);
    ReadsClock(b, off + 4, v.clock, order, 0, map[]);
  }

  lemma ReadsStamp(b: seq<byte>, off: nat, v: Version, order: seq<Str>)
    requires Fits(v) && IsOrder(order, v.clock) && Holds(b, off, PutStamp(v, order))
    ensures ReadStamp(b, off, v.deleted).Read? && ReadStamp(b, off, v.deleted).next == off + |PutStamp(v, order)|
    ensures ReadStamp(b, off, v.deleted).value.1 == v.clock
    ensures FromUint64(ReadStamp(b, off, v.deleted).value.0) == Normal(v).deletedAt
  {
    hide ReadClock, IsOrder, PutUint;
    HoldsSplit(b, off, PutTime(v), PutUint32(|v.clock|) + PutClock(v.clock, order, 0));
    ReadsTime(b, off, v);
    ReadsSizedClock(b, off + |PutTime(v)|, v, order);
  }

  lemma VersionFromHalves(b: seq<byte>, off: nat, mid: nat, v: Version)
    requires ReadHead(b, off) == Read((v.value, v.deleted), mid)
    requires ReadStamp(b, mid, v.deleted).Read? && ReadStamp(b, mid, v.deleted).value.1 == v.clock
    requires FromUint64(ReadStamp(b, mid, v.deleted).value.0) == Normal(v).deletedAt
    ensures ReadVersion(b, off) == Read(Normal(v), ReadStamp(b, mid, v.deleted).next)
  {
  }

  lemma ReadsVersion(b: seq<byte>, off: nat, v: Version, order: seq<Str>)
    requires Fits(v) && IsOrder(order, v.clock) && Holds(b, off, PutVersion(v, order))
    ensures ReadVersion(b, off) == Read(Normal(v), off + |PutVersion(v, order)|)
  {
    hide Fits, IsOrder, ReadHead, ReadStamp, PutHead, PutStamp, Holds;
    var mid := off + |PutHead(v)|;
    HoldsSplit(b, off, PutHead(v), PutStamp(v, order));
    assert ReadVersion(b, off) == Read(Normal(v), mid + |PutStamp(v, order)|) by {
      ReadsHead(b, off, v);
      ReadsStamp(b, mid, v, order);
      VersionFromHalves(b, off, mid, v);
    }
  }

  lemma ReadsChunks(b: seq<byte>, off: nat, chunks: seq<seq<byte>>, vs: seq<Version>, orders: seq<seq<Str>>)
    requires AreOrders(orders, vs) && AllFit(vs) && |chunks| == |vs|
    requires forall k {:trigger vs[k]} :: 0 <= k < |vs| ==> chunks[k] == PutVersion(vs[k], orders[k])
    requires Holds(b, off, PutAll(chunks, |vs|))
    ensures ReadAll(VersionAt(b), off, |vs|) == Read(NormalAll(vs), off + |PutAll(chunks, |vs|)|)
  {
    hide Fits, IsOrder, ReadVersion, PutVersion, Holds, PutAll;
    var item := VersionAt(b);
    var normal := NormalAll(vs);
    forall k, o: nat {:trigger item(o), normal[k]} | 0 <= k < |normal| && Holds(b, o, chunks[k])
      ensures item(o) == Read(normal[k], o + |chunks[k]|)
    {
      ReadsVersion(b, o, vs[k], orders[k]);
    }
    ReadsList(b, off, item, chunks, normal);
  }

  lemma ReadsSet(vs: seq<Version>, orders: seq<seq<Str>>, tail: seq<byte>)
    requires AreOrders(orders, vs) && AllFit(vs)
    ensures ReadSet(Encoded(vs, orders) + tail) == Read(NormalAll(vs), |Encoded(vs, orders)|)
  {
    var b := Encoded(vs, orders) + tail;
    var chunks := Chunks(vs, orders);
    HoldsWhole(Encoded(vs, orders), tail);
    ReadsLength(b, 0, |vs|, PutAll(chunks, |vs|));
    ReadsChunks(b, 4, chunks, vs, orders);
  }

  /**
   Decoding inverts encoding for every iteration order and whatever bytes follow, up to the
   deletion time of versions that are not deleted.
   */
  lemma RoundTrip(vs: seq<Version>, orders: seq<seq<Str>>, tail: seq<byte>)
    requires AreOrders(orders, vs) && AllFit(vs)
    ensures Decoded(Encoded(vs, orders) + tail) == Some(NormalAll(vs))
  {
    ReadsSet(vs, orders, tail);
  }

  // ---------------------------------------------------------------- Truncation

  lemma EntryExtends(b: seq<byte>, tail: seq<byte>, off: nat)
    requires ReadEntry(b, off).Read?
    ensures ReadEntry(b + tail, off) == ReadEntry(b, off) && off <= ReadEntry(b, off).next <= |b|
  {
    StringExtends(b, tail, off);
    UintExtends(b, tail, String(b, off).next, 8);
  }

  lemma {:induction false} ClockExtends(b: seq<byte>, tail: seq<byte>, off: nat, n: nat, clock: Clock)
    requires ReadClock(b, off, n, clock).Read? && off <= |b|
    ensures ReadClock(b + tail, off, n, clock) == ReadClock(b, off, n, clock)
    ensures off <= ReadClock(b, off, n, clock).next <= |b|
    decreases n
  {
    if n > 0 {
      EntryExtends(b, tail, off);
      var e := ReadEntry(b, off).value;
      ClockExtends(b, tail, ReadEntry(b, off).next, n - 1, clock[e.0 := e.1]);
    }
  }

  lemma HeadExtends(b: seq<byte>, tail: seq<byte>, off: nat)
    requires ReadHead(b, off).Read?
    ensures ReadHead(b + tail, off) == ReadHead(b, off) && off <= ReadHead(b, off).next <= |b|
  {
    BlobExtends(b, tail, off);
    BoolExtends(b, tail, Blob(b, off).next);
  }

  lemma StampExtends(b: seq<byte>, tail: seq<byte>, off: nat, deleted: bool)
    requires ReadStamp(b, off, deleted).Read? && off <= |b|
    ensures ReadStamp(b + tail, off, deleted) == ReadStamp(b, off, deleted)
    ensures off <= ReadStamp(b, off, deleted).next <= |b|
  {
    if deleted { UintExtends(b, tail, off, 8); }
    var end := ReadTime(b, off, deleted).next;
    UintExtends(b, tail, end, 4);
    ClockExtends(b, tail, end + 4, Uint32(b, end).value, map[]);
  }

  lemma VersionExtends(b: seq<byte>, tail: seq<byte>, off: nat)
    requires ReadVersion(b, off).Read? && off <= |b|
    ensures ReadVersion(b + tail, off) == ReadVersion(b, off)
    ensures off <= ReadVersion(b, off).next <= |b|
  {
    HeadExtends(b, tail, off);
    StampExtends(b, tail, ReadHead(b, off).next, ReadHead(b, off).value.1);
  }

  /** A successful decode never depends on the bytes after the set it read. */
  lemma SetExtends(b: seq<byte>, tail: seq<byte>)
    requires ReadSet(b).Read?
    ensures ReadSet(b + tail) == ReadSet(b) && ReadSet(b).next <= |b|
  {
    UintExtends(b, tail, 0, 4);
    var item := VersionAt(b);
    var item' := VersionAt(b + tail);
    forall o: nat | o <= |b| && item(o).Read? ensures item'(o) == item(o) && o <= item(o).next <= |b| {
      VersionExtends(b, tail, o);
    }
    AllExtend(item, item', 4, Uint32(b, 0).value, |b|);
  }

  /** Every non-empty strict prefix of an encoding is rejected. */
  lemma TruncationIsRejected(vs: seq<Version>, orders: seq<seq<Str>>, k: nat)
    requires AreOrders(orders, vs) && AllFit(vs) && 0 < k < |Encoded(vs, orders)|
    ensures Decoded(Encoded(vs, orders)[..k]) == None
  {
    hide Encoded, ReadSet, AllFit;
    var b := Encoded(vs, orders);
    if ReadSet(b[..k]).Read? {
      SetExtends(b[..k], b[k..]);
      assert b[..k] + b[k..] == b == b + [];
      ReadsSet(vs, orders, []);
      assert false;
    }
  }

  /** Different sets never share bytes, so comparing blobs compares versions. */
  lemma EncodingIsInjective(vs: seq<Version>, orders: seq<seq<Str>>, ws: seq<Version>, orders': seq<seq<Str>>)
    requires AreOrders(orders, vs) && AllFit(vs) && AreOrders(orders', ws) && AllFit(ws)
    requires Encoded(vs, orders) == Encoded(ws, orders')
    ensures NormalAll(vs) == NormalAll(ws)
  {
    ReadsSet(vs, orders, []);
    ReadsSet(ws, orders', []);
  }

  // ---------------------------------------------------------------- Whatever decodes can be encoded again

  lemma EntryFits(b: seq<byte>, off: nat)
    requires ReadEntry(b, off).Read?
    ensures |ReadEntry(b, off).value.0| <= MaxUint16 && ReadEntry(b, off).value.1 < 0x1_0000_0000_0000_0000
  {
    Limits();
    ValueBound(b, off, 2);
    ValueBound(b, String(b, off).next, 8);
  }

  ghost predicate EntriesFit(c: Clock) {
    forall n :: n in c ==> |n| <= MaxUint16 && c[n] < 0x1_0000_0000_0000_0000
  }

  lemma {:induction false} ReadClockFits(b: seq<byte>, off: nat, n: nat, clock: Clock)
    requires ReadClock(b, off, n, clock).Read? && EntriesFit(clock)
    ensures EntriesFit(ReadClock(b, off, n, clock).value) && |ReadClock(b, off, n, clock).value| <= |clock| + n
    decreases n
  {
    hide ReadEntry;
    if n > 0 {
      EntryFits(b, off);
      var e := ReadEntry(b, off);
      var next := clock[e.value.0 := e.value.1];
      assert next.Keys == clock.Keys + {e.value.0};
      ReadClockFits(b, e.next, n - 1, next);
    }
  }

  lemma ReadTimeFits(b: seq<byte>, off: nat, deleted: bool)
    requires ReadTime(b, off, deleted).Read?
    ensures IsInt64(FromUint64(ReadTime(b, off, deleted).value))
    ensures !deleted ==> FromUint64(ReadTime(b, off, deleted).value) == 0
  {
    Limits();
    if deleted { ValueBound(b, off, 8); }
  }

  lemma LengthFits(b: seq<byte>, off: nat)
    requires Uint32(b, off).Read?
    ensures Uint32(b, off).value < 0x1_0000_0000
  {
    Limits();
    ValueBound(b, off, 4);
  }

  /** A version as it can stand in a store: of encodable size, and with no deletion time unless deleted. */
  predicate Storable(v: Version) {
    Fits(v) && Normal(v) == v
  }

  lemma ReadVersionStorable(b: seq<byte>, off: nat)
    requires ReadVersion(b, off).Read?
    ensures Storable(ReadVersion(b, off).value)
  {
    hide Uint, Bool, ReadTime, ReadClock, FromUint64, IsInt64;
    var head := ReadHead(b, off);
    LengthFits(b, off);
    ReadTimeFits(b, head.next, head.value.1);
    var end := ReadTime(b, head.next, head.value.1).next;
    LengthFits(b, end);
    var size := Uint32(b, end);
    ReadClockFits(b, size.next, size.value, map[]);
  }

  /** Any set that decodes consists of storable versions. */
  lemma DecodedStorable(b: seq<byte>)
    requires Decoded(b).Some?
    ensures |Decoded(b).value| < 0x1_0000_0000
    ensures forall i :: 0 <= i < |Decoded(b).value| ==> Storable(Decoded(b).value[i])
  {
    hide Uint, ReadVersion, Storable;
    if b != [] {
      LengthFits(b, 0);
      var item := VersionAt(b);
      forall o: nat | item(o).Read? ensures Storable(item(o).value) { ReadVersionStorable(b, o); }
      AllSatisfy(item, Uint32(b, 0).next, Uint32(b, 0).value, v => Storable(v));
    }
  }

  /** The bytes of a set for some iteration order of each of its clocks. */
  ghost predicate IsEncoding(buf: seq<byte>, vs: seq<Version>) {
    exists orders :: AreOrders(orders, vs) && buf == Encoded(vs, orders)
  }

  /** Encoding storable versions and decoding the bytes gives the very same set back. */
  lemma StorableRoundTrip(vs: seq<Version>, buf: seq<byte>)
    requires IsEncoding(buf, vs) && |vs| < 0x1_0000_0000 && forall i :: 0 <= i < |vs| ==> Storable(vs[i])
    ensures Decoded(buf) == Some(vs)
  {
    hide Fits, Decoded, Encoded;
    var orders :| AreOrders(orders, vs) && buf == Encoded(vs, orders);
    assert AllFit(vs);
    assert NormalAll(vs) == vs;
    RoundTrip(vs, orders, []);
    assert buf + [] == buf;
  }

  /**
   A set of any kind comes back if and only if it is storable: node names of at most 65535 bytes, lengths
   of 32 bits, counters and times of 64 bits, and no deletion time on a live version.
   */
  lemma RoundTripIff(vs: seq<Version>, buf: seq<byte>)
    requires IsEncoding(buf, vs)
    ensures Decoded(buf) == Some(vs) <==> |vs| < 0x1_0000_0000 && forall i :: 0 <= i < |vs| ==> Storable(vs[i])
  {
    hide Decoded, Storable, IsEncoding;
    if Decoded(buf) == Some(vs) { DecodedStorable(buf); }
    if |vs| < 0x1_0000_0000 && forall i :: 0 <= i < |vs| ==> Storable(vs[i]) { StorableRoundTrip(vs, buf); }
  }

  // ---------------------------------------------------------------- The loops

  lemma {:induction false} PutClockSnoc(c: Clock, order: seq<Str>, n: Str, i: nat)
    requires i <= |order|
    ensures PutClock(c, order + [n], i) == PutClock(c, order, i) + PutEntry(n, At(c, n))
    decreases |order| - i
  {
    hide PutEntry;
    if i < |order| {
      PutClockSnoc(c, order, n, i + 1);
      assert (order + [n])[i] == order[i];
    } else {
      assert (order + [n])[i] == n;
      assert PutClock(c, order + [n], i + 1) == [];
    }
  }

  /** Write a clock's entries in whatever order the map yields them. */
  method EncodeClock(c: Clock) returns (buf: seq<byte>, ghost order: seq<Str>)
    ensures IsOrder(order, c) && buf == PutClock(c, order, 0)
  {
    buf, order := [], [];
    var rest := c.Keys;
    while rest != {}
      invariant rest <= c.Keys && Distinct(order)
      invariant forall n :: n in order <==> n in c && n !in rest
      invariant buf == PutClock(c, order, 0)
    {
      var n :| n in rest;
      PutClockSnoc(c, order, n, 0);
      buf := buf + PutEntry(n, c[n]);
      order := order + [n];
      rest := rest - {n};
    }
  }

  method EncodeVersion(v: Version) returns (buf: seq<byte>, ghost order: seq<Str>)
    ensures IsOrder(order, v.clock) && buf == PutVersion(v, order)
  {
    var entries;
    entries, order := EncodeClock(v.clock);
    buf := PutUint32(|v.value|) + v.value;
    buf := buf + PutBool(v.deleted);
    if v.deleted { buf := buf + PutTime(v); }
    buf := buf + PutUint32(|v.clock|);
    buf := buf + entries;
    assert buf == PutVersion(v, order);
  }

  method Encode(vs: seq<Version>) returns (buf: seq<byte>)
    ensures IsEncoding(buf, vs)
  {
    hide PutVersion, IsOrder, PutUint32;
    ghost var orders: seq<seq<Str>> := [];
    buf := PutUint32(|vs|);
    ghost var chunks: seq<seq<byte>> := [];
    assert buf == PutUint32(|vs|) + PutAll(chunks, 0);
    for i := 0 to |vs|
      invariant |chunks| == |orders| == i
      invariant forall k {:trigger orders[k]} :: 0 <= k < i ==>
                  IsOrder(orders[k], vs[k].clock) && chunks[k] == PutVersion(vs[k], orders[k])
      invariant buf == PutUint32(|vs|) + PutAll(chunks, i)
    {
      var bytes, order := EncodeVersion(vs[i]);
      PutAllPrefix(chunks, chunks + [bytes], i);
      assert PutUint32(|vs|) + PutAll(chunks + [bytes], i + 1) == buf + bytes;
      buf := buf + bytes;
      orders := orders + [order];
      chunks := chunks + [bytes];
    }
    assert chunks == Chunks(vs, orders);
    assert AreOrders(orders, vs) && buf == Encoded(vs, orders);
  }

  /** Read one version at `cursor`: value, flag, deletion time if flagged, then the clock entry by entry. */
  method DecodeVersion(b: seq<byte>, start: nat) returns (r: Read<Version>)
    ensures r == ReadVersion(b, start)
  {
    hide Blob, Bool, ReadTime, Uint, ReadEntry;
    var head := ReadHead(b, start);
    if head.Malformed? { return Malformed; }
    var time := ReadTime(b, head.next, head.value.1);
    if time.Malformed? { return Malformed; }
    var size := Uint32(b, time.next);
    if size.Malformed? { return Malformed; }
    var clock: Clock := map[];
    var cursor := size.next;
    for k := 0 to size.value
      invariant ReadClock(b, size.next, size.value, map[]) == ReadClock(b, cursor, size.value - k, clock)
    {
      var e := ReadEntry(b, cursor);
      if e.Malformed? { return Malformed; }
      clock := clock[e.value.0 := e.value.1];
      cursor := e.next;
    }
    r := Read(Version(head.value.0, clock, head.value.1, FromUint64(time.value)), cursor);
  }

  method Decode(b: seq<byte>) returns (r: Option<seq<Version>>)
    ensures r == Decoded(b)
  {
    hide ReadVersion, Uint;
    if b == [] { return Some([]); }
    var count := Uint32(b, 0);
    if count.Malformed? { return None; }
    var results: seq<Version> := [];
    var cursor := count.next;
    ContinuedNil(ReadAll(VersionAt(b), cursor, count.value));
    for i := 0 to count.value
      invariant ReadSet(b) == Continued(results, ReadAll(VersionAt(b), cursor, count.value - i))
    {
      ContinuedStep(results, VersionAt(b), cursor, count.value - i);
      var v := DecodeVersion(b, cursor);
      if v.Malformed? { return None; }
      results := results + [v.value];
      cursor := v.next;
    }
    assert results + [] == results;
    r := Some(results);
  }
}
