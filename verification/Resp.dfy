/**
 RESP2, the wire format towards clients and peers (internal/protocol/resp.go): a printer and a
 recursive reader over a buffered stream. `room` is the size of the reader's buffer, which a line
 with its terminator must fit in.
 */
module Resp {
  import opened Bytes
  import opened Binenc
  import opened Decimals

  /** The null bulk and the null array are apart from the empty ones. */
  datatype Value =
    | Simple(text: Str)
    | Error(text: Str)
    | Integer(number: int)
    | NullBulk
    | Bulk(bytes: Str)
    | NullArray
    | Array(elems: seq<Value>)

  /** Input that breaks the protocol, as against a stream that ends or overruns the buffer too early. */
  datatype Failure = ProtocolError | StreamError

  datatype Parse<T> = Failed(why: Failure) | Parsed(value: T, next: nat)

  const CR: byte := 13
  const LF: byte := 10
  const CRLF: Str := [CR, LF]

  const MAX_BULK_SIZE: int := 0x2000_0000
  const MAX_ARRAY_COUNT: int := 0x10_0000

  const COLON: byte := 58
  const DOLLAR: byte := 36
  const STAR: byte := 42

  // ---------------------------------------------------------------- Printing

  function Line(tag: byte, text: Str): Str {
    [tag] + (text + CRLF)
  }

  function Encoded(v: Value): (b: Str)
    ensures |b| > 0
    decreases v, 0
  {
    match v
    case Simple(text) => Line(PLUS, text)
    case Error(text) => Line(MINUS, text)
    case Integer(n) => Line(COLON, Itoa(n))
    case NullBulk => Line(DOLLAR, Itoa(-1))
    case Bulk(b) => Line(DOLLAR, Itoa(|b|)) + (b + CRLF)
    case NullArray => Line(STAR, Itoa(-1))
    case Array(xs) => Line(STAR, Itoa(|xs|)) + EncodedAll(xs)
  }

  function EncodedAll(xs: seq<Value>): Str
    decreases xs
  {
    if xs == [] then [] else Encoded(xs[0]) + EncodedAll(xs[1..])
  }

  // ---------------------------------------------------------------- Reading

  /** The place of the first line feed from `off` on, or the end of the data. */
  function NextFeed(data: Str, off: nat): (j: nat)
    requires off <= |data|
    ensures off <= j <= |data|
    ensures forall k :: off <= k < j ==> data[k] != LF
    ensures j < |data| ==> data[j] == LF
    decreases |data| - off
  {
    if off == |data| || data[off] == LF then off else NextFeed(data, off + 1)
  }

  function ReadLine(data: Str, off: nat, room: nat): (r: Parse<Str>)
    requires off <= |data|
    ensures r.Parsed? ==> off < r.next <= |data|
  {
    var j := NextFeed(data, off);
    if j == |data| || j - off >= room then Failed(StreamError)
    else if j == off || data[j - 1] != CR then Failed(ProtocolError)
    else Parsed(data[off..j - 1], j + 1)
  }

  function ParsedInt(b: Str): Option<int> {
    var neg := b != [] && b[0] == MINUS;
    var digits := if neg then b[1..] else b;
    if digits == [] || !AllDigits(digits) then None
    else Some(Wrap(if neg then -DigitsValue(digits) else DigitsValue(digits)))
  }

  function Decoded(data: Str, off: nat, room: nat): (r: Parse<Value>)
    requires off <= |data|
    ensures r.Parsed? ==> off < r.next <= |data|
    decreases |data| - off, 0
  {
    if off == |data| then Failed(StreamError)
    else
      match ReadLine(data, off + 1, room)
      case Failed(why) => Failed(why)
      case Parsed(line, next) =>
        var tag := data[off];
        if tag == PLUS then Parsed(Simple(line), next)
        else if tag == MINUS then Parsed(Error(line), next)
        else if (tag != COLON && tag != DOLLAR && tag != STAR) || ParsedInt(line).None? then Failed(ProtocolError)
        else
          var n := ParsedInt(line).value;
          if tag == COLON then Parsed(Integer(n), next)
          else if tag == DOLLAR then
            if n < 0 then Parsed(NullBulk, next)
            else if n > MAX_BULK_SIZE then Failed(ProtocolError)
            else if |data| - next < n + 2 then Failed(StreamError)
            else Parsed(Bulk(data[next..next + n]), next + n + 2)
          else
            if n < 0 then Parsed(NullArray, next)
            else if n > MAX_ARRAY_COUNT then Failed(ProtocolError)
            else
              match DecodedAll(data, next, n, room)
              case Failed(why) => Failed(why)
              case Parsed(xs, end) => Parsed(Array(xs), end)
  }

  function DecodedAll(data: Str, off: nat, n: nat, room: nat): (r: Parse<seq<Value>>)
    requires off <= |data|
    ensures r.Parsed? ==> off <= r.next <= |data| && |r.value| == n
    decreases |data| - off, 1
  {
    if n == 0 then Parsed([], off)
    else
      match Decoded(data, off, room)
      case Failed(why) => Failed(why)
      case Parsed(x, next) =>
        match DecodedAll(data, next, n - 1, room)
        case Failed(why) => Failed(why)
        case Parsed(xs, end) => Parsed([x] + xs, end)
  }

  // ---------------------------------------------------------------- What survives the wire

  /** A buffer that takes the longest integer line, as every buffer in use does. */
  const MIN_ROOM: nat := 22

  predicate LineFits(text: Str, room: nat) {
    LF !in text && |text| + 2 <= room
  }

  predicate Fits(v: Value, room: nat)
    decreases v, 0
  {
    match v
    case Simple(text) => LineFits(text, room)
    case Error(text) => LineFits(text, room)
    case Integer(n) => IsInt64(n)
    case NullBulk => true
    case Bulk(b) => |b| <= MAX_BULK_SIZE
    case NullArray => true
    case Array(xs) => |xs| <= MAX_ARRAY_COUNT && AllFit(xs, room)
  }

  predicate AllFit(xs: seq<Value>, room: nat)
    decreases xs
  {
    forall i | 0 <= i < |xs| :: Fits(xs[i], room)
  }

  lemma ReadsLine(data: Str, off: nat, text: Str, room: nat)
    requires LineFits(text, room) && Holds(data, off, text + CRLF)
    ensures ReadLine(data, off, room) == Parsed(text, off + |text| + 2)
  {
    HoldsSplit(data, off, text, CRLF);
    ReadsBytes(data, off, text);
    var j := NextFeed(data, off);
    var cr := off + |text|;
    assert data[cr + 0] == CRLF[0] && data[cr + 1] == CRLF[1];
    forall k | off <= k <= cr ensures data[k] != LF {
      if k < cr { assert data[off + (k - off)] == text[k - off]; }
    }
  }

  lemma ItoaParses(i: int)
    requires IsInt64(i)
    ensures ParsedInt(Itoa(i)) == Some(i) && LineFits(Itoa(i), MIN_ROOM)
  {
    var n := if i < 0 then -i else i;
    DecimalMeans(n);
    assert Pow10(19) == 10_000_000_000_000_000_000 by { Pow10Nineteen(); }
    DecimalLength(n, 19);
    var digits := Decimal(n);
    if i < 0 { assert Itoa(i)[1..] == digits; }
    assert IsDigit(digits[0]);
  }

  lemma Pow10Nineteen()
    ensures Pow10(19) == 10_000_000_000_000_000_000
  {
    assert Pow10(4) == 10_000;
    assert Pow10(8) == 1_0000_0000;
    assert Pow10(12) == 1_0000_0000_0000;
    assert Pow10(16) == 1_0000_0000_0000_0000;
  }

  /** A tag, a number line and what follows are read as tag, number and rest. */
  lemma ReadsHeader(data: Str, off: nat, tag: byte, n: int, rest: Str, room: nat)
    requires IsInt64(n) && room >= MIN_ROOM && Holds(data, off, Line(tag, Itoa(n)) + rest)
    ensures off < |data| && data[off] == tag
    ensures var next := off + |Line(tag, Itoa(n))|;
            && ReadLine(data, off + 1, room) == Parsed(Itoa(n), next)
            && ParsedInt(Itoa(n)) == Some(n) && Holds(data, next, rest)
  {
    hide Itoa, ParsedInt, ReadLine;
    ItoaParses(n);
    HoldsSplit(data, off, Line(tag, Itoa(n)), rest);
    ReadsTag(data, off, tag, Itoa(n));
    ReadsLine(data, off + 1, Itoa(n), room);
  }

  lemma ReadsTag(data: Str, off: nat, tag: byte, text: Str)
    requires Holds(data, off, Line(tag, text))
    ensures off < |data| && data[off] == tag && Holds(data, off + 1, text + CRLF)
  {
    HoldsSplit(data, off, [tag], text + CRLF);
    assert data[off + 0] == [tag][0];
  }

  /** Wherever a value that fits is written, it is read back, and reading stops at its end. */
  lemma {:induction false} ReadsOne(data: Str, off: nat, v: Value, room: nat)
    requires Fits(v, room) && room >= MIN_ROOM && Holds(data, off, Encoded(v))
    ensures Decoded(data, off, room) == Parsed(v, off + |Encoded(v)|)
    decreases v, 0
  {
    hide Itoa, ParsedInt, ReadLine, Line, LineFits, Holds;
    match v {
      case Simple(text) => ReadsText(data, off, PLUS, text, room);
      case Error(text) => ReadsText(data, off, MINUS, text, room);
      case Integer(n) => ReadsNumber(data, off, COLON, n, room);
      case NullBulk => ReadsNumber(data, off, DOLLAR, -1, room);
      case Bulk(b) => ReadsBulk(data, off, b, room);
      case NullArray => ReadsNumber(data, off, STAR, -1, room);
      case Array(xs) =>
        ReadsHeader(data, off, STAR, |xs|, EncodedAll(xs), room);
        ReadsMany(data, off + |Line(STAR, Itoa(|xs|))|, xs, room);
    }
  }

  lemma ReadsText(data: Str, off: nat, tag: byte, text: Str, room: nat)
    requires LineFits(text, room) && Holds(data, off, Line(tag, text))
    ensures off < |data| && data[off] == tag && ReadLine(data, off + 1, room) == Parsed(text, off + |Line(tag, text)|)
  {
    ReadsTag(data, off, tag, text);
    ReadsLine(data, off + 1, text, room);
  }

  lemma ReadsNumber(data: Str, off: nat, tag: byte, n: int, room: nat)
    requires IsInt64(n) && room >= MIN_ROOM && Holds(data, off, Line(tag, Itoa(n)))
    ensures off < |data| && data[off] == tag
    ensures ReadLine(data, off + 1, room) == Parsed(Itoa(n), off + |Line(tag, Itoa(n))|)
    ensures ParsedInt(Itoa(n)) == Some(n)
  {
    assert Line(tag, Itoa(n)) + [] == Line(tag, Itoa(n));
    ReadsHeader(data, off, tag, n, [], room);
  }

  lemma ReadsBulk(data: Str, off: nat, b: Str, room: nat)
    requires |b| <= MAX_BULK_SIZE && room >= MIN_ROOM && Holds(data, off, Line(DOLLAR, Itoa(|b|)) + (b + CRLF))
    ensures Decoded(data, off, room) == Parsed(Bulk(b), off + |Line(DOLLAR, Itoa(|b|)) + (b + CRLF)|)
  {
    hide Itoa, ParsedInt, ReadLine;
    ReadsHeader(data, off, DOLLAR, |b|, b + CRLF, room);
    var next := off + |Line(DOLLAR, Itoa(|b|))|;
    HoldsSplit(data, next, b, CRLF);
    ReadsBytes(data, next, b);
  }

  lemma {:induction false} ReadsMany(data: Str, off: nat, xs: seq<Value>, room: nat)
    requires AllFit(xs, room) && room >= MIN_ROOM && Holds(data, off, EncodedAll(xs))
    ensures DecodedAll(data, off, |xs|, room) == Parsed(xs, off + |EncodedAll(xs)|)
    decreases xs
  {
    hide Holds, Decoded, Encoded, Fits;
    if xs != [] {
      HoldsSplit(data, off, Encoded(xs[0]), EncodedAll(xs[1..]));
      ReadsOne(data, off, xs[0], room);
      ReadsMany(data, off + |Encoded(xs[0])|, xs[1..], room);
      assert [xs[0]] + xs[1..] == xs;
    }
  }

  // ---------------------------------------------------------------- Only what fits is ever read

  lemma LineReadFits(data: Str, off: nat, room: nat)
    requires off <= |data| && ReadLine(data, off, room).Parsed?
    ensures LineFits(ReadLine(data, off, room).value, room)
  {
  }

  lemma {:induction false} DecodedFits(data: Str, off: nat, room: nat)
    requires off <= |data| && Decoded(data, off, room).Parsed?
    ensures Fits(Decoded(data, off, room).value, room)
    decreases |data| - off, 0
  {
    hide ReadLine, LineFits;
    LineReadFits(data, off + 1, room);
    var line := ReadLine(data, off + 1, room);
    if data[off] == STAR && ParsedInt(line.value).value >= 0 {
      DecodedAllFit(data, line.next, ParsedInt(line.value).value, room);
    }
  }

  lemma {:induction false} DecodedAllFit(data: Str, off: nat, n: nat, room: nat)
    requires off <= |data| && DecodedAll(data, off, n, room).Parsed?
    ensures AllFit(DecodedAll(data, off, n, room).value, room)
    decreases |data| - off, 1
  {
    hide Decoded, Fits;
    if n > 0 {
      DecodedFits(data, off, room);
      DecodedAllFit(data, Decoded(data, off, room).next, n - 1, room);
    }
  }

  /**
   Printed and read back, with anything following, a value returns and exactly the following bytes
   are left, if and only if its texts are free of line feeds and fit the buffer, its numbers are
   64-bit, and its sizes respect the declared limits, at every depth.
   */
  lemma RoundTripIff(v: Value, tail: Str, room: nat)
    requires room >= MIN_ROOM
    ensures Decoded(Encoded(v) + tail, 0, room) == Parsed(v, |Encoded(v)|) <==> Fits(v, room)
  {
    hide Encoded, Decoded, Fits;
    if Fits(v, room) {
      HoldsWhole(Encoded(v), tail);
      ReadsOne(Encoded(v) + tail, 0, v, room);
    }
    if Decoded(Encoded(v) + tail, 0, room) == Parsed(v, |Encoded(v)|) {
      DecodedFits(Encoded(v) + tail, 0, room);
    }
  }

  // ---------------------------------------------------------------- Bytes that follow

  lemma LineExtends(data: Str, tail: Str, off: nat, room: nat)
    requires off <= |data| && ReadLine(data, off, room).Parsed?
    ensures ReadLine(data + tail, off, room) == ReadLine(data, off, room)
  {
    var j := NextFeed(data, off);
    assert forall k :: off <= k <= j ==> (data + tail)[k] == data[k];
    assert NextFeed(data + tail, off) == j;
    assert (data + tail)[off..j - 1] == data[off..j - 1];
  }

  lemma {:induction false} DecodedExtends(data: Str, tail: Str, off: nat, room: nat)
    requires off <= |data| && Decoded(data, off, room).Parsed?
    ensures Decoded(data + tail, off, room) == Decoded(data, off, room)
    decreases |data| - off, 0
  {
    hide ReadLine, ParsedInt;
    LineExtends(data, tail, off + 1, room);
    var line := ReadLine(data, off + 1, room);
    if data[off] == STAR && ParsedInt(line.value).value >= 0 {
      DecodedAllExtend(data, tail, line.next, ParsedInt(line.value).value, room);
    } else if data[off] == DOLLAR && ParsedInt(line.value).value >= 0 {
      var n := ParsedInt(line.value).value;
      assert (data + tail)[line.next..line.next + n] == data[line.next..line.next + n];
    }
  }

  lemma {:induction false} DecodedAllExtend(data: Str, tail: Str, off: nat, n: nat, room: nat)
    requires off <= |data| && DecodedAll(data, off, n, room).Parsed?
    ensures DecodedAll(data + tail, off, n, room) == DecodedAll(data, off, n, room)
    decreases |data| - off, 1
  {
    hide Decoded;
    if n > 0 {
      DecodedExtends(data, tail, off, room);
      DecodedAllExtend(data, tail, Decoded(data, off, room).next, n - 1, room);
    }
  }

  lemma LineErrorStays(data: Str, tail: Str, off: nat, room: nat)
    requires off <= |data| && ReadLine(data, off, room) == Failed(ProtocolError)
    ensures ReadLine(data + tail, off, room) == Failed(ProtocolError)
  {
    var j := NextFeed(data, off);
    assert forall k :: off <= k <= j ==> (data + tail)[k] == data[k];
    assert NextFeed(data + tail, off) == j;
  }

  /** A protocol error is final: no bytes that might still arrive would mend it. */
  lemma {:induction false} ProtocolErrorStays(data: Str, tail: Str, off: nat, room: nat)
    requires off <= |data| && Decoded(data, off, room) == Failed(ProtocolError)
    ensures Decoded(data + tail, off, room) == Failed(ProtocolError)
    decreases |data| - off, 0
  {
    hide ReadLine, ParsedInt;
    var line := ReadLine(data, off + 1, room);
    if line.Failed? {
      LineErrorStays(data, tail, off + 1, room);
    } else {
      LineExtends(data, tail, off + 1, room);
      if data[off] == STAR && ParsedInt(line.value).Some? && 0 <= ParsedInt(line.value).value <= MAX_ARRAY_COUNT {
        ProtocolErrorsStay(data, tail, line.next, ParsedInt(line.value).value, room);
      }
    }
  }

  lemma {:induction false} ProtocolErrorsStay(data: Str, tail: Str, off: nat, n: nat, room: nat)
    requires off <= |data| && DecodedAll(data, off, n, room) == Failed(ProtocolError)
    ensures DecodedAll(data + tail, off, n, room) == Failed(ProtocolError)
    decreases |data| - off, 1
  {
    hide Decoded;
    if Decoded(data, off, room).Failed? {
      ProtocolErrorStays(data, tail, off, room);
    } else {
      DecodedExtends(data, tail, off, room);
      ProtocolErrorsStay(data, tail, Decoded(data, off, room).next, n - 1, room);
    }
  }

  /** A stream that ends inside a value fails as a stream, and is never blamed on the peer's protocol. */
  lemma NoPrefixDecodes(v: Value, n: nat, room: nat)
    requires Fits(v, room) && room >= MIN_ROOM && n < |Encoded(v)|
    ensures Decoded(Encoded(v)[..n], 0, room) == Failed(StreamError)
  {
    hide Encoded, Decoded, Fits;
    var data, tail := Encoded(v)[..n], Encoded(v)[n..];
    assert data + tail == Encoded(v) == Encoded(v) + [];
    RoundTripIff(v, [], room);
    if Decoded(data, 0, room).Parsed? {
      DecodedExtends(data, tail, 0, room);
    } else if Decoded(data, 0, room).why == ProtocolError {
      ProtocolErrorStays(data, tail, 0, room);
    }
  }

  // ---------------------------------------------------------------- The reader and the writer

  /** Accumulate the digits in a signed 64-bit variable. */
  method ParseInt(b: Str) returns (r: Option<int>)
    ensures r == ParsedInt(b)
  {
    if |b| == 0 { return None; }
    var digits, neg := b, false;
    if b[0] == MINUS {
      digits, neg := b[1..], true;
      if |digits| == 0 { return None; }
    }
    var n := 0;
    for i := 0 to |digits|
      invariant AllDigits(digits[..i]) && n == Wrap(DigitsValue(digits[..i]))
    {
      if digits[i] < ZERO || digits[i] > ZERO + 9 {
        assert !IsDigit(digits[i]);
        return None;
      }
      var d := digits[i] - ZERO;
      assert digits[..i + 1][..i] == digits[..i];
      WrapAccumulates(DigitsValue(digits[..i]), d);
      n := Wrap(n * 10 + d);
    }
    assert digits[..|digits|] == digits;
    WrapAccumulates(DigitsValue(digits), 0);
    if neg { n := Wrap(-n); }
    r := Some(n);
  }

  class Reader {
    const data: Str
    const room: nat
    var pos: nat

    ghost predicate Valid()
      reads this
    {
      pos <= |data|
    }

    constructor (data: Str, room: nat)
      ensures Valid() && this.data == data && this.room == room && pos == 0
    {
      this.data := data;
      this.room := room;
      pos := 0;
    }

    /** The next line without its terminator, and where it ends. */
    method NextLine() returns (r: Parse<Str>)
      requires Valid()
      modifies this
      ensures Valid() && old(pos) <= pos
      ensures r == ReadLine(data, old(pos), room) && (r.Parsed? ==> pos == r.next)
    {
      var j := pos;
      while j < |data| && data[j] != LF && j - pos < room
        invariant pos <= j <= |data| && NextFeed(data, pos) == NextFeed(data, j)
      {
        j := j + 1;
      }
      if j == |data| || j - pos >= room { return Failed(StreamError); }
      var line := data[pos..j + 1];
      if |line| < 2 || line[|line| - 2] != CR { return Failed(ProtocolError); }
      assert line[..|line| - 2] == data[pos..j - 1];
      pos := j + 1;
      r := Parsed(line[..|line| - 2], pos);
    }

    /** Exactly one value, arrays recursively, and where it ends. */
    method Decode() returns (r: Parse<Value>)
      requires Valid()
      modifies this
      ensures Valid() && old(pos) <= pos
      ensures r == Decoded(data, old(pos), room) && (r.Parsed? ==> pos == r.next)
      decreases |data| - pos, 0
    {
      hide ReadLine, ParsedInt;
      if pos == |data| { return Failed(StreamError); }
      var tag := data[pos];
      pos := pos + 1;
      var header := NextLine();
      if header.Failed? { return Failed(header.why); }
      var line := header.value;
      if tag == PLUS { return Parsed(Simple(line), pos); }
      if tag == MINUS { return Parsed(Error(line), pos); }
      if tag != COLON && tag != DOLLAR && tag != STAR { return Failed(ProtocolError); }
      var parsed := ParseInt(line);
      if parsed.None? { return Failed(ProtocolError); }
      var n := parsed.value;
      if tag == COLON { return Parsed(Integer(n), pos); }
      if tag == DOLLAR {
        if n < 0 { return Parsed(NullBulk, pos); }
        if n > MAX_BULK_SIZE { return Failed(ProtocolError); }
        if |data| - pos < n + 2 { return Failed(StreamError); }
        var bytes := data[pos..pos + n];
        pos := pos + n + 2;
        return Parsed(Bulk(bytes), pos);
      }
      if n < 0 { return Parsed(NullArray, pos); }
      if n > MAX_ARRAY_COUNT { return Failed(ProtocolError); }
      r := DecodeElements(n);
    }

    method DecodeElements(n: nat) returns (r: Parse<Value>)
      requires Valid()
      modifies this
      ensures Valid() && old(pos) <= pos
      ensures var all := DecodedAll(data, old(pos), n, room);
              r == if all.Failed? then Failed(all.why) else Parsed(Array(all.value), all.next)
      ensures r.Parsed? ==> pos == r.next
      decreases |data| - pos, 1
    {
      hide Decoded;
      var elems: seq<Value> := [];
      JoinedToNothing(DecodedAll(data, pos, n, room));
      for i := 0 to n
        invariant Valid() && old(pos) <= pos
        invariant DecodedAll(data, old(pos), n, room) == Joined(elems, DecodedAll(data, pos, n - i, room))
      {
        JoinedValue(elems, data, pos, n - i, room);
        var x := Decode();
        if x.Failed? { return Failed(x.why); }
        elems := elems + [x.value];
      }
      assert elems + [] == elems;
      r := Parsed(Array(elems), pos);
    }
  }

  /** Prepend values already read to what reading on yields. */
  function Joined(done: seq<Value>, rest: Parse<seq<Value>>): Parse<seq<Value>> {
    match rest
    case Failed(why) => Failed(why)
    case Parsed(xs, next) => Parsed(done + xs, next)
  }

  lemma JoinedToNothing(rest: Parse<seq<Value>>)
    ensures Joined([], rest) == rest
  {
    if rest.Parsed? { assert [] + rest.value == rest.value; }
  }

  lemma JoinedValue(done: seq<Value>, data: Str, off: nat, n: nat, room: nat)
    requires n > 0 && off <= |data|
    ensures Joined(done, DecodedAll(data, off, n, room)) ==
              if Decoded(data, off, room).Failed? then Failed(Decoded(data, off, room).why)
              else Joined(done + [Decoded(data, off, room).value],
                  DecodedAll(data, Decoded(data, off, room).next, n - 1, room))
  {
    if Decoded(data, off, room).Parsed? {
      var x := Decoded(data, off, room).value;
      var rest := DecodedAll(data, Decoded(data, off, room).next, n - 1, room);
      if rest.Parsed? { assert done + ([x] + rest.value) == done + [x] + rest.value; }
    }
  }

  /** The part of a message that a connection takes before it fails. */
  function Accepted(message: Str, budget: nat): Str {
    if |message| <= budget then message else message[..budget]
  }

  /**
   The writer that remembers the first error: the connection takes `budget` bytes and then fails, and
   once it has failed nothing more is written. `wanted` is all that was asked for.
   */
  class Writer {
    const budget: nat
    var sent: Str
    var failed: bool
    ghost var wanted: Str

    ghost predicate Valid()
      reads this
    {
      sent == Accepted(wanted, budget) && (failed <==> |wanted| > budget)
    }

    constructor (budget: nat)
      ensures Valid() && this.budget == budget && wanted == []
    {
      this.budget := budget;
      sent, wanted, failed := [], [], false;
    }

    method Write(b: Str)
      requires Valid()
      modifies this
      ensures Valid() && wanted == old(wanted) + b
    {
      if !failed {
        var room := budget - |sent|;
        if |b| <= room { sent := sent + b; } else { sent, failed := sent + b[..room], true; }
      }
      wanted := wanted + b;
    }

    method WriteLine(tag: byte, text: Str)
      requires Valid()
      modifies this
      ensures Valid() && wanted == old(wanted) + Line(tag, text)
    {
      Write([tag]);
      Write(text);
      Write(CRLF);
    }

    /** Writes the encoding, or as much of it as the connection takes, and fails exactly when that is not all. */
    method Encode(v: Value)
      requires Valid()
      modifies this
      ensures Valid() && wanted == old(wanted) + Encoded(v)
      decreases v, 0
    {
      hide Line, Accepted, Valid;
      match v {
        case Simple(text) => WriteLine(PLUS, text);
        case Error(text) => WriteLine(MINUS, text);
        case Integer(n) => WriteLine(COLON, Itoa(n));
        case NullBulk => WriteLine(DOLLAR, Itoa(-1));
        case Bulk(b) =>
          WriteLine(DOLLAR, Itoa(|b|));
          Write(b);
          Write(CRLF);
        case NullArray => WriteLine(STAR, Itoa(-1));
        case Array(xs) =>
          WriteLine(STAR, Itoa(|xs|));
          EncodeAll(xs);
      }
    }

    method EncodeAll(xs: seq<Value>)
      requires Valid()
      modifies this
      ensures Valid() && wanted == old(wanted) + EncodedAll(xs)
      decreases xs
    {
      hide Accepted;
      for i := 0 to |xs|
        invariant Valid() && wanted + EncodedAll(xs[i..]) == old(wanted) + EncodedAll(xs)
      {
        assert xs[i..][0] == xs[i] && xs[i..][1..] == xs[i + 1..];
        Encode(xs[i]);
      }
      assert xs[|xs|..] == [];
    }
  }

  /** A reply that the connection cut short never reads as some other reply, and never as a protocol error. */
  lemma CutReplyIsNotRead(v: Value, budget: nat, room: nat)
    requires Fits(v, room) && room >= MIN_ROOM
    ensures Decoded(Accepted(Encoded(v), budget), 0, room) ==
              if |Encoded(v)| <= budget then Parsed(v, |Encoded(v)|) else Failed(StreamError)
  {
    hide Encoded, Decoded, Fits;
    if |Encoded(v)| <= budget {
      RoundTripIff(v, [], room);
      assert Encoded(v) + [] == Encoded(v);
    } else {
      NoPrefixDecodes(v, budget, room);
    }
  }
}
