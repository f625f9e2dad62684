/**
 Big-endian primitives (internal/binenc/binenc.go). Encoders append to a buffer; decoders read at
 an offset and answer with the advanced offset, or find the input malformed.

 Two facts carry every codec proof: a decoder reads back what its encoder put at the offset, and a
 successful read is unchanged by bytes that follow it.
 */
module Binenc {
  import opened Bytes

  function Pow256(w: nat): (p: nat)
    ensures p > 0
  {
    if w == 0 then 1 else 256 * Pow256(w - 1)
  }

  const MaxUint16: nat := 0xFFFF

  /** The `w` low-order bytes of `n`, most significant first; higher bytes are truncated away. */
  function PutUint(n: nat, w: nat): (b: seq<byte>)
    ensures |b| == w
  {
    if w == 0 then [] else PutUint(n / 256, w - 1) + [n % 256]
  }

  /** The number spelled by the `w` bytes at `off`, most significant first. */
  function ValueAt(data: seq<byte>, off: nat, w: nat): nat
    requires off + w <= |data|
  {
    if w == 0 then 0 else 256 * ValueAt(data, off, w - 1) + data[off + w - 1]
  }

  function PutUint16(n: nat): seq<byte> { PutUint(n, 2) }
  function PutUint32(n: nat): seq<byte> { PutUint(n, 4) }
  function PutUint64(n: nat): seq<byte> { PutUint(n, 8) }

  function PutBool(value: bool): seq<byte> { [if value then 1 else 0] }

  /** A string with its length in front; one too long for the prefix is an error and writes nothing. */
  function PutString(value: Str): Option<seq<byte>> {
    if |value| > MaxUint16 then None else Some(PutUint16(|value|) + value)
  }

  function Uint(data: seq<byte>, off: nat, w: nat): (r: Read<nat>) {
    if |data| - off < w then Malformed else Read(ValueAt(data, off, w), off + w)
  }

  function Uint16(data: seq<byte>, off: nat): Read<nat> { Uint(data, off, 2) }
  function Uint32(data: seq<byte>, off: nat): Read<nat> { Uint(data, off, 4) }
  function Uint64(data: seq<byte>, off: nat): Read<nat> { Uint(data, off, 8) }

  function TakeBytes(data: seq<byte>, off: nat, n: nat): Read<Str> {
    if |data| - off < n then Malformed else Read(data[off..off + n], off + n)
  }

  function String(data: seq<byte>, off: nat): Read<Str> {
    match Uint16(data, off)
    case Malformed => Malformed
    case Read(n, off) => TakeBytes(data, off, n)
  }

  function Bool(data: seq<byte>, off: nat): Read<bool> {
    if |data| - off < 1 || data[off] > 1 then Malformed else Read(data[off] == 1, off + 1)
  }

  lemma Limits()
    ensures Pow256(2) == 0x1_0000 && Pow256(4) == 0x1_0000_0000 && Pow256(8) == 0x1_0000_0000_0000_0000
  {
  }

  // ---------------------------------------------------------------- Chunks at an offset

  /** The bytes of `data` at `off` are `chunk`. */
  predicate Holds(data: seq<byte>, off: nat, chunk: seq<byte>) {
    off + |chunk| <= |data| && forall i | 0 <= i < |chunk| :: data[off + i] == chunk[i]
  }

  lemma HoldsSplit(data: seq<byte>, off: nat, a: seq<byte>, b: seq<byte>)
    ensures Holds(data, off, a + b) <==> Holds(data, off, a) && Holds(data, off + |a|, b)
  {
    var ab := a + b;
    if Holds(data, off, ab) {
      assert forall i | 0 <= i < |a| :: ab[i] == a[i];
      forall i | 0 <= i < |b| ensures data[off + |a| + i] == b[i] {
        assert ab[|a| + i] == b[i];
      }
    }
    if Holds(data, off, a) && Holds(data, off + |a|, b) {
      forall i | 0 <= i < |ab| ensures data[off + i] == ab[i] {
        if i >= |a| { assert data[off + |a| + (i - |a|)] == b[i - |a|]; }
      }
    }
  }

  lemma HoldsWhole(data: seq<byte>, tail: seq<byte>)
    ensures Holds(data + tail, 0, data)
  {
  }

  lemma ReadsBytes(data: seq<byte>, off: nat, chunk: seq<byte>)
    requires Holds(data, off, chunk)
    ensures TakeBytes(data, off, |chunk|) == Read(chunk, off + |chunk|)
  {
    assert data[off..off + |chunk|] == chunk;
  }

  lemma {:induction false} ReadsValue(data: seq<byte>, off: nat, n: nat, w: nat)
    requires n < Pow256(w) && Holds(data, off, PutUint(n, w))
    ensures ValueAt(data, off, w) == n
  {
    if w > 0 {
      var high := PutUint(n / 256, w - 1);
      HoldsSplit(data, off, high, [n % 256]);
      ReadsValue(data, off, n / 256, w - 1);
      assert data[off + |high| + 0] == [n % 256][0];
    }
  }

  lemma ReadsUint(data: seq<byte>, off: nat, n: nat, w: nat)
    requires n < Pow256(w) && Holds(data, off, PutUint(n, w))
    ensures Uint(data, off, w) == Read(n, off + w)
  {
    ReadsValue(data, off, n, w);
  }

  lemma ReadsString(data: seq<byte>, off: nat, value: Str)
    requires |value| <= MaxUint16 && Holds(data, off, PutString(value).value)
    ensures String(data, off) == Read(value, off + |PutString(value).value|)
  {
    Limits();
    HoldsSplit(data, off, PutUint16(|value|), value);
    ReadsUint(data, off, |value|, 2);
    ReadsBytes(data, off + 2, value);
  }

  lemma ReadsBool(data: seq<byte>, off: nat, value: bool)
    requires Holds(data, off, PutBool(value))
    ensures Bool(data, off) == Read(value, off + 1)
  {
    assert data[off + 0] == PutBool(value)[0];
  }

  // ---------------------------------------------------------------- Bytes that follow

  lemma {:induction false} ValueExtends(data: seq<byte>, tail: seq<byte>, off: nat, w: nat)
    requires off + w <= |data|
    ensures ValueAt(data + tail, off, w) == ValueAt(data, off, w)
  {
    if w > 0 { ValueExtends(data, tail, off, w - 1); }
  }

  lemma UintExtends(data: seq<byte>, tail: seq<byte>, off: nat, w: nat)
    requires Uint(data, off, w).Read?
    ensures Uint(data + tail, off, w) == Uint(data, off, w)
    ensures Uint(data, off, w).next == off + w <= |data|
  {
    ValueExtends(data, tail, off, w);
  }

  lemma BytesExtend(data: seq<byte>, tail: seq<byte>, off: nat, n: nat)
    requires TakeBytes(data, off, n).Read?
    ensures TakeBytes(data + tail, off, n) == TakeBytes(data, off, n)
    ensures TakeBytes(data, off, n).next == off + n <= |data|
  {
    assert (data + tail)[off..off + n] == data[off..off + n];
  }

  lemma StringExtends(data: seq<byte>, tail: seq<byte>, off: nat)
    requires String(data, off).Read?
    ensures String(data + tail, off) == String(data, off)
    ensures off + 2 <= String(data, off).next <= |data|
  {
    UintExtends(data, tail, off, 2);
    BytesExtend(data, tail, off + 2, Uint16(data, off).value);
  }

  lemma BoolExtends(data: seq<byte>, tail: seq<byte>, off: nat)
    requires Bool(data, off).Read?
    ensures Bool(data + tail, off) == Bool(data, off)
    ensures Bool(data, off).next == off + 1 <= |data|
  {
  }

  lemma {:induction false} ValueBound(data: seq<byte>, off: nat, w: nat)
    requires off + w <= |data|
    ensures ValueAt(data, off, w) < Pow256(w)
  {
    if w > 0 { ValueBound(data, off, w - 1); }
  }

  // ---------------------------------------------------------------- Blobs and lists

  /** A byte string with a 32-bit length in front, as every codec writes values, leaves and blobs. */
  function PutBlob(blob: Str): seq<byte> {
    PutUint32(|blob|) + blob
  }

  function Blob(data: seq<byte>, off: nat): Read<Str> {
    match Uint32(data, off)
    case Malformed => Malformed
    case Read(n, off) => TakeBytes(data, off, n)
  }

  lemma ReadsLength(data: seq<byte>, off: nat, n: nat, rest: seq<byte>)
    requires n < 0x1_0000_0000 && Holds(data, off, PutUint32(n) + rest)
    ensures Uint32(data, off) == Read(n, off + 4) && Holds(data, off + 4, rest)
  {
    Limits();
    HoldsSplit(data, off, PutUint32(n), rest);
    ReadsUint(data, off, n, 4);
  }

  lemma ReadsBlob(data: seq<byte>, off: nat, blob: Str)
    requires |blob| < 0x1_0000_0000 && Holds(data, off, PutBlob(blob))
    ensures Blob(data, off) == Read(blob, off + |PutBlob(blob)|)
  {
    ReadsLength(data, off, |blob|, blob);
    ReadsBytes(data, off + 4, blob);
  }

  lemma BlobExtends(data: seq<byte>, tail: seq<byte>, off: nat)
    requires Blob(data, off).Read?
    ensures Blob(data + tail, off) == Blob(data, off)
    ensures off + 4 <= Blob(data, off).next <= |data|
  {
    UintExtends(data, tail, off, 4);
    BytesExtend(data, tail, off + 4, Uint32(data, off).value);
  }

  /** The first `n` chunks of a buffer, one after the other. */
  function PutAll(chunks: seq<seq<byte>>, n: nat): seq<byte>
    requires n <= |chunks|
  {
    if n == 0 then [] else PutAll(chunks, n - 1) + chunks[n - 1]
  }

  /** Read `n` items, each starting where the previous one ended. */
  function ReadAll<T>(item: nat -> Read<T>, off: nat, n: nat): Read<seq<T>>
    decreases n
  {
    if n == 0 then Read([], off)
    else
      match item(off)
      case Malformed => Malformed
      case Read(x, off) =>
        match ReadAll(item, off, n - 1)
        case Malformed => Malformed
        case Read(xs, off) => Read([x] + xs, off)
  }

  lemma {:induction false} PutAllHolds(data: seq<byte>, off: nat, chunks: seq<seq<byte>>, n: nat, i: nat)
    requires i < n <= |chunks| && Holds(data, off, PutAll(chunks, n))
    ensures Holds(data, off + |PutAll(chunks, i)|, chunks[i])
    ensures |PutAll(chunks, i + 1)| == |PutAll(chunks, i)| + |chunks[i]|
  {
    HoldsSplit(data, off, PutAll(chunks, n - 1), chunks[n - 1]);
    if i < n - 1 { PutAllHolds(data, off, chunks, n - 1, i); }
  }

  lemma {:induction false} PutAllPrefix(chunks: seq<seq<byte>>, more: seq<seq<byte>>, n: nat)
    requires n <= |chunks| <= |more| && forall i :: 0 <= i < n ==> chunks[i] == more[i]
    ensures PutAll(chunks, n) == PutAll(more, n)
  {
    if n > 0 { PutAllPrefix(chunks, more, n - 1); }
  }

  lemma PutAllSnoc(chunks: seq<seq<byte>>, last: seq<byte>)
    ensures PutAll(chunks + [last], |chunks| + 1) == PutAll(chunks, |chunks|) + last
  {
    PutAllPrefix(chunks, chunks + [last], |chunks|);
  }

  /** Prepend items already read to what reading on yields; the invariant of every decoding loop. */
  function Continued<T>(done: seq<T>, rest: Read<seq<T>>): Read<seq<T>> {
    match rest
    case Malformed => Malformed
    case Read(xs, next) => Read(done + xs, next)
  }

  lemma ContinuedNil<T>(rest: Read<seq<T>>)
    ensures Continued([], rest) == rest
  {
    if rest.Read? { assert [] + rest.value == rest.value; }
  }

  lemma ContinuedStep<T>(done: seq<T>, item: nat -> Read<T>, off: nat, n: nat)
    requires n > 0
    ensures Continued(done, ReadAll(item, off, n)) ==
              if item(off).Malformed? then Malformed
              else Continued(done + [item(off).value], ReadAll(item, item(off).next, n - 1))
  {
    if item(off).Read? && ReadAll(item, item(off).next, n - 1).Read? {
      var xs := ReadAll(item, item(off).next, n - 1).value;
      assert done + ([item(off).value] + xs) == done + [item(off).value] + xs;
    }
  }

  /** The items come back in order when each chunk spells its item. */
  lemma {:induction false} ReadsAll<T>(item: nat -> Read<T>, off: nat, chunks: seq<seq<byte>>, xs: seq<T>, i: nat)
    requires |chunks| == |xs| && i <= |xs|
    requires forall k {:trigger xs[k]} :: 0 <= k < |xs| ==>
               item(off + |PutAll(chunks, k)|) == Read(xs[k], off + |PutAll(chunks, k + 1)|)
    ensures ReadAll(item, off + |PutAll(chunks, i)|, |xs| - i) == Read(xs[i..], off + |PutAll(chunks, |xs|)|)
    decreases |xs| - i
  {
    if i < |xs| {
      assert item(off + |PutAll(chunks, i)|) == Read(xs[i], off + |PutAll(chunks, i + 1)|);
      ReadsAll(item, off, chunks, xs, i + 1);
      assert [xs[i]] + xs[i + 1..] == xs[i..];
    }
  }

  /** A whole list comes back when each of its chunks spells its item wherever the chunk stands. */
  lemma ReadsList<T>(data: seq<byte>, off: nat, item: nat -> Read<T>, chunks: seq<seq<byte>>, xs: seq<T>)
    requires |chunks| == |xs| && Holds(data, off, PutAll(chunks, |xs|))
    requires forall k, o: nat {:trigger item(o), xs[k]} ::
               0 <= k < |xs| && Holds(data, o, chunks[k]) ==> item(o) == Read(xs[k], o + |chunks[k]|)
    ensures ReadAll(item, off, |xs|) == Read(xs, off + |PutAll(chunks, |xs|)|)
  {
    forall k {:trigger xs[k]} | 0 <= k < |xs|
      ensures item(off + |PutAll(chunks, k)|) == Read(xs[k], off + |PutAll(chunks, k + 1)|)
    {
      PutAllHolds(data, off, chunks, |xs|, k);
    }
    ReadsAll(item, off, chunks, xs, 0);
    assert xs[0..] == xs;
  }

  /** Every item of a list that was read satisfies what each single read guarantees. */
  lemma {:induction false} AllSatisfy<T>(item: nat -> Read<T>, off: nat, n: nat, good: T -> bool)
    requires ReadAll(item, off, n).Read?
    requires forall o: nat :: item(o).Read? ==> good(item(o).value)
    ensures |ReadAll(item, off, n).value| == n
    ensures forall k :: 0 <= k < n ==> good(ReadAll(item, off, n).value[k])
    decreases n
  {
    if n > 0 { AllSatisfy(item, item(off).next, n - 1, good); }
  }

  lemma {:induction false} AllExtend<T>(item: nat -> Read<T>, item': nat -> Read<T>, off: nat, n: nat, size: nat)
    requires off <= size && ReadAll(item, off, n).Read?
    requires forall o: nat :: o <= size && item(o).Read? ==> item'(o) == item(o) && o <= item(o).next <= size
    ensures ReadAll(item', off, n) == ReadAll(item, off, n) && off <= ReadAll(item, off, n).next <= size
    decreases n
  {
    if n > 0 { AllExtend(item, item', item(off).next, n - 1, size); }
  }
}
