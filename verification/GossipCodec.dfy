/** The gossip packet (internal/cluster/gossip.go `marshal` and `unmarshal`). */
module GossipCodec {
  import opened Bytes
  import opened Binenc
  import opened Membership

  /** What the Go types allow: an 8-bit state and a 64-bit incarnation. */
  predicate InRange(nodes: seq<Node>) {
    forall i | 0 <= i < |nodes| :: nodes[i].state < 0x100 && nodes[i].incarnation < 0x1_0000_0000_0000_0000
  }

  predicate NamesFit(n: Node) {
    |n.id| <= MaxUint16 && |n.addr| <= MaxUint16
  }

  predicate AllNamesFit(nodes: seq<Node>) {
    forall i | 0 <= i < |nodes| :: NamesFit(nodes[i])
  }

  function PutName(name: Str): seq<byte> { PutUint16(|name|) + name }

  function PutNode(n: Node): seq<byte> {
    [n.state % 256] + (PutUint64(n.incarnation) + (PutName(n.id) + PutName(n.addr)))
  }

  function NodeChunks(nodes: seq<Node>): (chunks: seq<seq<byte>>)
    ensures |chunks| == |nodes|
  {
    seq(|nodes|, i requires 0 <= i < |nodes| => PutNode(nodes[i]))
  }

  function Packet(nodes: seq<Node>): seq<byte> {
    PutUint16(|nodes|) + PutAll(NodeChunks(nodes), |nodes|)
  }

  function ReadNode(data: seq<byte>, off: nat): Read<Node> {
    if |data| - off < 1 then Malformed
    else
      match Uint64(data, off + 1)
      case Malformed => Malformed
      case Read(incarnation, next) =>
        match String(data, next)
        case Malformed => Malformed
        case Read(id, next) =>
          match String(data, next)
          case Malformed => Malformed
          case Read(addr, next) => Read(Node(id, addr, data[off], incarnation), next)
  }

  function NodeAt(data: seq<byte>): nat -> Read<Node> {
    (off: nat) => ReadNode(data, off)
  }

  function ReadPacket(data: seq<byte>): Read<seq<Node>> {
    match Uint16(data, 0)
    case Malformed => Malformed
    case Read(count, off) => ReadAll(NodeAt(data), off, count)
  }

  lemma ReadsNode(data: seq<byte>, off: nat, n: Node)
    requires InRange([n]) && NamesFit(n) && Holds(data, off, PutNode(n))
    ensures ReadNode(data, off) == Read(n, off + |PutNode(n)|)
  {
    hide PutUint, Uint, String;
    var id, addr := PutName(n.id), PutName(n.addr);
    assert [n][0] == n;
    HoldsSplit(data, off, [n.state % 256], PutUint64(n.incarnation) + (id + addr));
    assert data[off + 0] == [n.state % 256][0];
    HoldsSplit(data, off + 1, PutUint64(n.incarnation), id + addr);
    HoldsSplit(data, off + 9, id, addr);
    Limits();
    ReadsUint(data, off + 1, n.incarnation, 8);
    ReadsString(data, off + 9, n.id);
    ReadsString(data, off + 9 + |id|, n.addr);
  }

  /** A packet comes back node for node, whatever bytes follow it. */
  lemma RoundTrip(nodes: seq<Node>, tail: seq<byte>)
    requires |nodes| <= MaxUint16 && InRange(nodes) && AllNamesFit(nodes)
    ensures ReadPacket(Packet(nodes) + tail) == Read(nodes, |Packet(nodes)|)
  {
    hide Holds, PutAll, Uint, PutUint, PutNode, ReadNode, NamesFit;
    var data := Packet(nodes) + tail;
    var chunks := NodeChunks(nodes);
    var item := NodeAt(data);
    HoldsWhole(Packet(nodes), tail);
    HoldsSplit(data, 0, PutUint16(|nodes|), PutAll(chunks, |nodes|));
    Limits();
    ReadsUint(data, 0, |nodes|, 2);
    forall k, o: nat {:trigger item(o), nodes[k]} | 0 <= k < |nodes| && Holds(data, o, chunks[k])
      ensures item(o) == Read(nodes[k], o + |chunks[k]|)
    {
      assert InRange([nodes[k]]) && NamesFit(nodes[k]);
      ReadsNode(data, o, nodes[k]);
    }
    ReadsList(data, 2, item, chunks, nodes);
  }

  lemma NodeExtends(data: seq<byte>, tail: seq<byte>, off: nat)
    requires ReadNode(data, off).Read?
    ensures ReadNode(data + tail, off) == ReadNode(data, off) && off < ReadNode(data, off).next <= |data|
  {
    hide Uint, String;
    UintExtends(data, tail, off + 1, 8);
    var next := Uint64(data, off + 1).next;
    StringExtends(data, tail, next);
    StringExtends(data, tail, String(data, next).next);
  }

  lemma PacketExtends(data: seq<byte>, tail: seq<byte>)
    requires ReadPacket(data).Read?
    ensures ReadPacket(data + tail) == ReadPacket(data) && ReadPacket(data).next <= |data|
  {
    hide Uint, ReadNode;
    UintExtends(data, tail, 0, 2);
    var item, item' := NodeAt(data), NodeAt(data + tail);
    forall o: nat | o <= |data| && item(o).Read? ensures item'(o) == item(o) && o <= item(o).next <= |data| {
      NodeExtends(data, tail, o);
    }
    AllExtend(item, item', 2, Uint16(data, 0).value, |data|);
  }

  /** No datagram cut short is taken for a packet. */
  lemma TruncationIsRejected(nodes: seq<Node>, n: nat)
    requires |nodes| <= MaxUint16 && InRange(nodes) && AllNamesFit(nodes) && n < |Packet(nodes)|
    ensures ReadPacket(Packet(nodes)[..n]).Malformed?
  {
    hide ReadPacket, Packet;
    var data, tail := Packet(nodes)[..n], Packet(nodes)[n..];
    if ReadPacket(data).Read? {
      PacketExtends(data, tail);
      assert data + tail == Packet(nodes) == Packet(nodes) + [];
      RoundTrip(nodes, []);
      assert false;
    }
  }

  /** An error exactly when the count or some name does not fit its 16-bit prefix. */
  method Marshal(nodes: seq<Node>) returns (r: Option<seq<byte>>)
    ensures r == if |nodes| <= MaxUint16 && AllNamesFit(nodes) then Some(Packet(nodes)) else None
  {
    hide PutUint;
    if |nodes| > MaxUint16 { return None; }
    var buf := PutUint16(|nodes|);
    assert buf == buf + PutAll(NodeChunks(nodes), 0);
    for i := 0 to |nodes|
      invariant AllNamesFit(nodes[..i]) && buf == PutUint16(|nodes|) + PutAll(NodeChunks(nodes), i)
    {
      var n := nodes[i];
      buf := buf + [n.state % 256];
      buf := buf + PutUint64(n.incarnation);
      var id := PutString(n.id);
      if id.None? { return None; }
      buf := buf + id.value;
      var addr := PutString(n.addr);
      if addr.None? { return None; }
      buf := buf + addr.value;
    }
    assert nodes[..|nodes|] == nodes;
    r := Some(buf);
  }

  method Unmarshal(data: seq<byte>) returns (r: Option<seq<Node>>)
    ensures r == if ReadPacket(data).Malformed? then None else Some(ReadPacket(data).value)
  {
    hide Uint, String;
    var count := Uint16(data, 0);
    if count.Malformed? { return None; }
    var nodes: seq<Node> := [];
    var cursor := count.next;
    ContinuedNil(ReadAll(NodeAt(data), cursor, count.value));
    for i := 0 to count.value
      invariant ReadPacket(data) == Continued(nodes, ReadAll(NodeAt(data), cursor, count.value - i))
    {
      ContinuedStep(nodes, NodeAt(data), cursor, count.value - i);
      if |data| - cursor < 1 { return None; }
      var state := data[cursor];
      var incarnation := Uint64(data, cursor + 1);
      if incarnation.Malformed? { return None; }
      var id := String(data, incarnation.next);
      if id.Malformed? { return None; }
      var addr := String(data, id.next);
      if addr.Malformed? { return None; }
      nodes := nodes + [Node(id.value, addr.value, state, incarnation.value)];
      cursor := addr.next;
    }
    assert nodes + [] == nodes;
    r := Some(nodes);
  }
}
