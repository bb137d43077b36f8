/** The DHT wire format of qvs-dht. */
module DhtCodec {
  import opened Wrappers
  import opened Bytes
  import opened Identifiers

  newtype u16 = x: int | 0 <= x < 0x1_0000

  type Bytes4 = s: bytes | |s| == 4 witness [0, 0, 0, 0]
  type Bytes6 = s: bytes | |s| == 6 witness [0, 0, 0, 0, 0, 0]

  const MAGIC: Bytes4 := [0x51, 0x56, 0x44, 0x54]
  const PROTOCOL_VERSION: byte := 1

  datatype MessageType = PingType | FindNodeType | FindPeersType | AnnounceType

  datatype Header = Header(magic: Bytes4, msgType: MessageType, txnId: u16, ver: byte)

  datatype NodeInfo = NodeInfo(nodeId: NodeId, ip: Bytes4, port: u16)

  datatype Values = Peers(peers: seq<Bytes6>) | Nodes(nodes: seq<NodeInfo>)

  datatype Message =
    | Ping(header: Header, nodeId: NodeId)
    | PingResponse(header: Header, nodeId: NodeId)
    | FindNode(header: Header, nodeId: NodeId, target: NodeId)
    | FindNodeResponse(header: Header, nodeId: NodeId, nodes: seq<NodeInfo>)
    | FindPeers(header: Header, nodeId: NodeId, infoHash: NodeId)
    | FindPeersResponse(header: Header, nodeId: NodeId, values: Values)
    | Announce(header: Header, nodeId: NodeId, infoHash: NodeId, token: Bytes4, port: u16)
    | AnnounceResponse(header: Header, nodeId: NodeId)

  datatype CodecError =
    | HeaderTooShort
    | InvalidMagic
    | UnknownType
    | UnsupportedVersion
    | NodeInfoTooShort
    | PingTooShort
    | FindNodeTooShort
    | FindPeersTooShort
    | ResponseTooShort
    | AnnounceTooShort
    | AnnounceIncomplete

  // ----- Fields -----

  function Be16(n: u16): bytes {
    [(n / 256) as byte, (n % 256) as byte]
  }

  function FromBe16(hi: byte, lo: byte): u16 {
    hi as u16 * 256 + lo as u16
  }

  lemma Be16RoundTrip(n: u16)
    ensures FromBe16(Be16(n)[0], Be16(n)[1]) == n
  {
  }

  function TypeByte(t: MessageType): byte {
    match t
    case PingType => 0
    case FindNodeType => 1
    case FindPeersType => 2
    case AnnounceType => 3
  }

  function TypeFromByte(b: byte): Option<MessageType> {
    if b == 0 then Some(PingType)
    else if b == 1 then Some(FindNodeType)
    else if b == 2 then Some(FindPeersType)
    else if b == 3 then Some(AnnounceType)
    else None
  }

  /** The magic and the version written are the constants, whatever the header holds. */
  function EncodeHeader(h: Header): bytes {
    MAGIC + [TypeByte(h.msgType)] + Be16(h.txnId) + [PROTOCOL_VERSION]
  }

  function DecodeHeader(data: bytes): Result<(Header, bytes), CodecError> {
    if |data| < 8 then Err(HeaderTooShort)
    else if data[..4] != MAGIC then Err(InvalidMagic)
    else
      match TypeFromByte(data[4])
      case None => Err(UnknownType)
      case Some(t) =>
        if data[7] != PROTOCOL_VERSION then Err(UnsupportedVersion)
        else Ok((Header(data[..4], t, FromBe16(data[5], data[6]), data[7]), data[8..]))
  }

  function EncodeNode(n: NodeInfo): (r: bytes)
    ensures |r| == 26
  {
    n.nodeId + n.ip + Be16(n.port)
  }

  function DecodeNode(data: bytes): Result<(NodeInfo, bytes), CodecError> {
    if |data| < 26 then Err(NodeInfoTooShort)
    else Ok((NodeInfo(data[..20], data[20..24], FromBe16(data[24], data[25])), data[26..]))
  }

  // ----- Lists -----

  function EncodeNodes(nodes: seq<NodeInfo>): (r: bytes)
    ensures |r| == 26 * |nodes|
  {
    if nodes == [] then [] else EncodeNode(nodes[0]) + EncodeNodes(nodes[1..])
  }

  function EncodePeers(peers: seq<Bytes6>): (r: bytes)
    ensures |r| == 6 * |peers|
  {
    if peers == [] then [] else peers[0] + EncodePeers(peers[1..])
  }

  /** As many whole nodes as there are; a remainder is dropped. */
  function DecodeNodes(data: bytes): seq<NodeInfo> {
    if |data| < 26 then []
    else
      var (node, rest) := DecodeNode(data).value;
      [node] + DecodeNodes(rest)
  }

  /** At most `count` whole nodes. */
  function DecodeSomeNodes(data: bytes, count: nat): (r: seq<NodeInfo>)
    ensures 26 * |r| <= |data|
  {
    if count == 0 || |data| < 26 then []
    else
      var (node, rest) := DecodeNode(data).value;
      [node] + DecodeSomeNodes(rest, count - 1)
  }

  function DecodeSomePeers(data: bytes, count: nat): (r: seq<Bytes6>)
    ensures 6 * |r| <= |data|
  {
    if count == 0 || |data| < 6 then []
    else [data[..6]] + DecodeSomePeers(data[6..], count - 1)
  }

  // ----- Messages -----

  function EncodeValues(v: Values): bytes {
    match v
    case Peers(peers) => [0] + Be16((|peers| % 0x1_0000) as u16) + EncodePeers(peers)
    case Nodes(nodes) => [1] + Be16((|nodes| % 0x1_0000) as u16) + EncodeNodes(nodes)
  }

  function Payload(m: Message): bytes {
    match m
    case Ping(_, _) => []
    case PingResponse(_, _) => []
    case FindNode(_, _, target) => target
    case FindNodeResponse(_, _, nodes) => EncodeNodes(nodes)
    case FindPeers(_, _, infoHash) => infoHash
    case FindPeersResponse(_, _, values) => EncodeValues(values)
    case Announce(_, _, infoHash, token, port) => infoHash + token + Be16(port)
    case AnnounceResponse(_, _) => [0]
  }

  /** `DhtMessage::encode`: header, node identifier, and what the variant adds. */
  function Encode(m: Message): bytes {
    EncodeHeader(m.header) + m.nodeId + Payload(m)
  }

  function DecodeValues(rest: bytes): Result<Values, CodecError>
    requires |rest| > 40
  {
    var tag, payload := rest[40], rest[41..];
    if |payload| < 2 then Err(ResponseTooShort)
    else
      var count := FromBe16(payload[0], payload[1]) as nat;
      var data := payload[2..];
      Ok(if tag == 0 then Peers(DecodeSomePeers(data, count)) else Nodes(DecodeSomeNodes(data, count)))
  }

  /** What follows the header, read by message type and length. */
  function DecodeBody(header: Header, rest: bytes): Result<Message, CodecError> {
    match header.msgType
    case PingType =>
      if |rest| < 20 then Err(PingTooShort) else Ok(Ping(header, rest[..20]))
    case FindNodeType =>
      if |rest| < 20 then Err(FindNodeTooShort)
      else if |rest| == 40 then Ok(FindNode(header, rest[..20], rest[20..40]))
      else Ok(FindNodeResponse(header, rest[..20], DecodeNodes(rest[20..])))
    case FindPeersType =>
      if |rest| < 40 then Err(FindPeersTooShort)
      else if |rest| == 40 then Ok(FindPeers(header, rest[..20], rest[20..40]))
      else
        var values :- DecodeValues(rest);
        Ok(FindPeersResponse(header, rest[..20], values))
    case AnnounceType =>
      if |rest| < 21 then Err(AnnounceTooShort)
      else if |rest| == 21 then Ok(AnnounceResponse(header, rest[..20]))
      else if |rest| >= 46 then
        Ok(Announce(header, rest[..20], rest[20..40], rest[40..44], FromBe16(rest[44], rest[45])))
      else Err(AnnounceIncomplete)
  }

  /** `DhtMessage::decode`. */
  function Decode(data: bytes): Result<Message, CodecError> {
    var (header, rest) :- DecodeHeader(data);
    DecodeBody(header, rest)
  }

  /** `DhtMessage::encode`, appending to a local buffer. */
  method EncodeMessage(m: Message) returns (buf: bytes)
    ensures buf == Encode(m)
  {
    buf := EncodeHeader(m.header);
    buf := buf + m.nodeId;
    match m
    case Ping(_, _) =>
    case PingResponse(_, _) =>
    case FindNode(_, _, target) =>
      buf := buf + target;
    case FindNodeResponse(_, _, nodes) =>
      buf := AppendNodes(buf, nodes);
    case FindPeers(_, _, infoHash) =>
      buf := buf + infoHash;
    case FindPeersResponse(_, _, values) =>
      buf := AppendValues(buf, values);
    case Announce(_, _, infoHash, token, port) =>
      assert buf + (infoHash + token + Be16(port)) == buf + infoHash + token + Be16(port);
      buf := buf + infoHash;
      buf := buf + token;
      buf := buf + Be16(port);
    case AnnounceResponse(_, _) =>
      buf := buf + [0];
  }

  method AppendValues(buf: bytes, values: Values) returns (r: bytes)
    ensures r == buf + EncodeValues(values)
  {
    match values
    case Peers(peers) =>
      r := buf + [0];
      r := r + Be16((|peers| % 0x1_0000) as u16);
      r := AppendPeers(r, peers);
    case Nodes(nodes) =>
      r := buf + [1];
      r := r + Be16((|nodes| % 0x1_0000) as u16);
      r := AppendNodes(r, nodes);
  }

  method AppendNodes(buf: bytes, nodes: seq<NodeInfo>) returns (r: bytes)
    ensures r == buf + EncodeNodes(nodes)
  {
    r := buf;
    for i := 0 to |nodes|
      invariant r + EncodeNodes(nodes[i..]) == buf + EncodeNodes(nodes)
    {
      assert nodes[i..][1..] == nodes[i + 1..];
      assert EncodeNodes(nodes[i..]) == EncodeNode(nodes[i]) + EncodeNodes(nodes[i + 1..]);
      var node, rest := EncodeNode(nodes[i]), EncodeNodes(nodes[i + 1..]);
      assert r + (node + rest) == r + node + rest;
      r := r + EncodeNode(nodes[i]);
    }
  }

  method AppendPeers(buf: bytes, peers: seq<Bytes6>) returns (r: bytes)
    ensures r == buf + EncodePeers(peers)
  {
    r := buf;
    for i := 0 to |peers|
      invariant r + EncodePeers(peers[i..]) == buf + EncodePeers(peers)
    {
      assert peers[i..][1..] == peers[i + 1..];
      assert r + (peers[i] + EncodePeers(peers[i + 1..])) == r + peers[i] + EncodePeers(peers[i + 1..]);
      r := r + peers[i];
    }
  }

  /** The loop of a FindNode response: whole nodes while at least 26 bytes remain. */
  method ReadNodes(data: bytes) returns (nodes: seq<NodeInfo>)
    ensures nodes == DecodeNodes(data)
  {
    nodes := [];
    var remaining := data;
    while |remaining| >= 26
      invariant nodes + DecodeNodes(remaining) == DecodeNodes(data)
      decreases |remaining|
    {
      var pair := DecodeNode(remaining).value;
      nodes := nodes + [pair.0];
      remaining := pair.1;
    }
  }

  method ReadValues(rest: bytes) returns (r: Result<Values, CodecError>)
    requires |rest| > 40
    ensures r == DecodeValues(rest)
  {
    var tag, payload := rest[40], rest[41..];
    if |payload| < 2 {
      return Err(ResponseTooShort);
    }
    var count := FromBe16(payload[0], payload[1]) as nat;
    if tag == 0 {
      var peers := ReadSomePeers(payload[2..], count);
      r := Ok(Peers(peers));
    } else {
      var nodes := ReadSomeNodes(payload[2..], count);
      r := Ok(Nodes(nodes));
    }
  }

  /** A counted loop that stops early when bytes run out. */
  method ReadSomePeers(data: bytes, count: nat) returns (peers: seq<Bytes6>)
    ensures peers == DecodeSomePeers(data, count)
  {
    peers := [];
    var rem := data;
    for i := 0 to count
      invariant peers + DecodeSomePeers(rem, count - i) == DecodeSomePeers(data, count)
    {
      if |rem| < 6 {
        assert peers + [] == peers;
        return;
      }
      SomePeersStep(peers, rem, count - i);
      peers := peers + [rem[..6]];
      rem := rem[6..];
    }
    assert peers + [] == peers;
  }

  lemma SomePeersStep(peers: seq<Bytes6>, rem: bytes, n: nat)
    requires n > 0 && |rem| >= 6
    ensures peers + DecodeSomePeers(rem, n) == peers + [rem[..6]] + DecodeSomePeers(rem[6..], n - 1)
  {
    assert DecodeSomePeers(rem, n) == [rem[..6]] + DecodeSomePeers(rem[6..], n - 1);
  }

  method ReadSomeNodes(data: bytes, count: nat) returns (nodes: seq<NodeInfo>)
    ensures nodes == DecodeSomeNodes(data, count)
  {
    nodes := [];
    var rem := data;
    for i := 0 to count
      invariant nodes + DecodeSomeNodes(rem, count - i) == DecodeSomeNodes(data, count)
    {
      if |rem| < 26 {
        assert nodes + [] == nodes;
        return;
      }
      var pair := DecodeNode(rem).value;
      nodes := nodes + [pair.0];
      rem := pair.1;
    }
    assert nodes + [] == nodes;
  }

  /** `DhtMessage::decode`, running the list loops where the variant holds a list. */
  method DecodeMessage(data: bytes) returns (r: Result<Message, CodecError>)
    ensures r == Decode(data)
  {
    var pair :- DecodeHeader(data);
    var header, rest := pair.0, pair.1;
    if header.msgType == FindNodeType && |rest| >= 20 && |rest| != 40 {
      var nodes := ReadNodes(rest[20..]);
      r := Ok(FindNodeResponse(header, rest[..20], nodes));
    } else if header.msgType == FindPeersType && |rest| > 40 {
      var values :- ReadValues(rest);
      r := Ok(FindPeersResponse(header, rest[..20], values));
    } else {
      r := DecodeBody(header, rest);
    }
  }

  // ----- The bytes on the wire -----

  /** Two bytes, the high one first. */
  ghost predicate BigEndian16(hi: byte, lo: byte, n: int) {
    hi as int * 256 + lo as int == n
  }

  ghost predicate NodeAt(wire: bytes, at: nat, n: NodeInfo) {
    && at + 26 <= |wire|
    && wire[at..at + 20] == n.nodeId && wire[at + 20..at + 24] == n.ip
    && BigEndian16(wire[at + 24], wire[at + 25], n.port as int)
  }

  ghost predicate PeerAt(wire: bytes, at: nat, peer: bytes) {
    at + 6 <= |wire| && wire[at..at + 6] == peer
  }

  /** A tag, 0 for peers and 1 for nodes, the low 16 bits of the count, and the elements one after the other. */
  ghost predicate ValuesLayout(p: bytes, v: Values) {
    && |p| >= 3
    && match v
       case Peers(peers) =>
         && p[0] == 0 && BigEndian16(p[1], p[2], |peers| % 65536) && |p| == 3 + 6 * |peers|
         && forall i :: 0 <= i < |peers| ==> PeerAt(p, 3 + 6 * i, peers[i])
       case Nodes(nodes) =>
         && p[0] == 1 && BigEndian16(p[1], p[2], |nodes| % 65536) && |p| == 3 + 26 * |nodes|
         && forall i :: 0 <= i < |nodes| ==> NodeAt(p, 3 + 26 * i, nodes[i])
  }

  /** What follows the sender's identifier. */
  ghost predicate PayloadLayout(p: bytes, m: Message) {
    match m
    case Ping(_, _) => p == []
    case PingResponse(_, _) => p == []
    case FindNode(_, _, target) => p == target
    case FindNodeResponse(_, _, nodes) =>
      |p| == 26 * |nodes| && forall i :: 0 <= i < |nodes| ==> NodeAt(p, 26 * i, nodes[i])
    case FindPeers(_, _, infoHash) => p == infoHash
    case FindPeersResponse(_, _, values) => ValuesLayout(p, values)
    case Announce(_, _, infoHash, token, port) =>
      |p| == 26 && p[..20] == infoHash && p[20..24] == token && BigEndian16(p[24], p[25], port as int)
    case AnnounceResponse(_, _) => p == [0]
  }

  /** `QVDT`, the type, the transaction, version 1, the sender, and the payload of the variant. */
  ghost predicate Layout(wire: bytes, m: Message) {
    && |wire| >= 28 && wire[..4] == [0x51, 0x56, 0x44, 0x54]
    && (match m.header.msgType
        case PingType => wire[4] == 0
        case FindNodeType => wire[4] == 1
        case FindPeersType => wire[4] == 2
        case AnnounceType => wire[4] == 3)
    && BigEndian16(wire[5], wire[6], m.header.txnId as int) && wire[7] == 1
    && wire[8..28] == m.nodeId && PayloadLayout(wire[28..], m)
  }

  lemma {:induction false} NodesLayout(nodes: seq<NodeInfo>, i: nat)
    requires i < |nodes|
    ensures NodeAt(EncodeNodes(nodes), 26 * i, nodes[i])
  {
    var first, rest := EncodeNode(nodes[0]), EncodeNodes(nodes[1..]);
    if i == 0 {
      NodeLayout(nodes[0], rest);
    } else {
      NodesLayout(nodes[1..], i - 1);
      NodeAtLater(first, rest, 26 * (i - 1), nodes[i]);
    }
  }

  lemma NodeLayout(n: NodeInfo, rest: bytes)
    ensures NodeAt(EncodeNode(n) + rest, 0, n)
  {
    var wire := EncodeNode(n) + rest;
    assert wire[20..24] == n.ip;
    assert wire[24] == Be16(n.port)[0] && wire[25] == Be16(n.port)[1];
  }

  lemma NodeAtLater(front: bytes, wire: bytes, at: nat, n: NodeInfo)
    requires NodeAt(wire, at, n)
    ensures NodeAt(front + wire, |front| + at, n)
  {
    var all := front + wire;
    assert all[|front| + at..|front| + at + 20] == wire[at..at + 20];
    assert all[|front| + at + 20..|front| + at + 24] == wire[at + 20..at + 24];
  }

  lemma {:induction false} PeersLayout(peers: seq<Bytes6>, i: nat)
    requires i < |peers|
    ensures PeerAt(EncodePeers(peers), 6 * i, peers[i])
  {
    if i == 0 {
      assert EncodePeers(peers)[..6] == peers[0];
    } else {
      PeersLayout(peers[1..], i - 1);
      PeerAtLater(peers[0], EncodePeers(peers[1..]), 6 * (i - 1), peers[i]);
    }
  }

  lemma PeerAtLater(front: bytes, wire: bytes, at: nat, peer: bytes)
    requires PeerAt(wire, at, peer)
    ensures PeerAt(front + wire, |front| + at, peer)
  {
    assert (front + wire)[|front| + at..|front| + at + 6] == wire[at..at + 6];
  }

  lemma ValuesLaidOut(v: Values)
    ensures ValuesLayout(EncodeValues(v), v)
  {
    match v
    case Peers(peers) =>
      var front := [0] + Be16((|peers| % 0x1_0000) as u16);
      forall i | 0 <= i < |peers| ensures PeerAt(EncodeValues(v), 3 + 6 * i, peers[i]) {
        PeersLayout(peers, i);
        PeerAtLater(front, EncodePeers(peers), 6 * i, peers[i]);
      }
    case Nodes(nodes) =>
      var front := [1] + Be16((|nodes| % 0x1_0000) as u16);
      forall i | 0 <= i < |nodes| ensures NodeAt(EncodeValues(v), 3 + 26 * i, nodes[i]) {
        NodesLayout(nodes, i);
        NodeAtLater(front, EncodeNodes(nodes), 26 * i, nodes[i]);
      }
  }

  lemma PayloadLaidOut(m: Message)
    ensures PayloadLayout(Payload(m), m)
  {
    match m
    case FindNodeResponse(_, _, nodes) =>
      forall i | 0 <= i < |nodes| ensures NodeAt(Payload(m), 26 * i, nodes[i]) {
        NodesLayout(nodes, i);
      }
    case FindPeersResponse(_, _, values) => ValuesLaidOut(values);
    case Announce(_, _, infoHash, token, port) =>
      var p := Payload(m);
      assert p[20..24] == token && p[24] == Be16(port)[0] && p[25] == Be16(port)[1];
    case _ =>
  }

  /** Every message is laid out so, byte by byte. */
  lemma LaidOut(m: Message)
    ensures Layout(Encode(m), m)
  {
    hide Payload, PayloadLayout;
    PayloadLaidOut(m);
    var wire := Encode(m);
    assert wire[..4] == MAGIC && wire[8..28] == m.nodeId && wire[28..] == Payload(m);
    assert wire[5] == Be16(m.header.txnId)[0] && wire[6] == Be16(m.header.txnId)[1];
  }

  /** What is read as a message: the header, and a length the type byte allows. */
  ghost predicate Readable(data: bytes) {
    && |data| >= 28 && data[..4] == [0x51, 0x56, 0x44, 0x54] && data[7] == 1
    && (data[4] <= 1 || (data[4] == 2 && |data| >= 48 && (|data| > 48 ==> |data| >= 51))
        || (data[4] == 3 && (|data| == 29 || |data| >= 54)))
  }

  /** Nothing else is read, and the transaction and the sender are where they were written. */
  lemma DecodeIff(data: bytes)
    ensures Decode(data).Ok? <==> Readable(data)
    ensures Decode(data).Ok? ==>
              var m := Decode(data).value;
              BigEndian16(data[5], data[6], m.header.txnId as int) && m.nodeId == data[8..28]
    ensures Decode(data).Ok? ==>
              match Decode(data).value
              case Ping(_, _) => data[4] == 0
              case FindNode(_, _, target) => data[4] == 1 && |data| == 48 && target == data[28..]
              case FindNodeResponse(_, _, nodes) => data[4] == 1 && |data| != 48 && |nodes| == (|data| - 28) / 26
              case FindPeers(_, _, infoHash) => data[4] == 2 && |data| == 48 && infoHash == data[28..]
              case FindPeersResponse(_, _, values) => data[4] == 2 && |data| > 50 && (values.Peers? <==> data[48] == 0)
              case Announce(_, _, infoHash, token, port) =>
                && data[4] == 3 && |data| >= 54 && infoHash == data[28..48] && token == data[48..52]
                && BigEndian16(data[52], data[53], port as int)
              case AnnounceResponse(_, _) => data[4] == 3 && |data| == 29
              case _ => false
  {
    if DecodeHeader(data).Ok? {
      var rest := data[8..];
      if |rest| >= 20 {
        DecodeNodesCount(rest[20..]);
      }
      if |rest| >= 40 {
        assert rest[20..40] == data[28..48];
      }
      if |rest| >= 44 {
        assert rest[40..44] == data[48..52];
      }
    }
  }

  lemma {:induction false} DecodeNodesCount(data: bytes)
    ensures |DecodeNodes(data)| == |data| / 26
  {
    if |data| >= 26 {
      DecodeNodesCount(data[26..]);
    }
  }

  // ----- Round trips -----

  ghost predicate WellFormed(h: Header) {
    h.magic == MAGIC && h.ver == PROTOCOL_VERSION
  }

  /** The type byte a variant is sent under. */
  function TypeOf(m: Message): MessageType {
    match m
    case Ping(_, _) => PingType
    case PingResponse(_, _) => PingType
    case FindNode(_, _, _) => FindNodeType
    case FindNodeResponse(_, _, _) => FindNodeType
    case FindPeers(_, _, _) => FindPeersType
    case FindPeersResponse(_, _, _) => FindPeersType
    case Announce(_, _, _, _, _) => AnnounceType
    case AnnounceResponse(_, _) => AnnounceType
  }

  lemma HeaderRoundTrip(h: Header, rest: bytes)
    ensures DecodeHeader(EncodeHeader(h) + rest)
            == Ok((h.(magic := MAGIC, ver := PROTOCOL_VERSION), rest))
  {
    var data := EncodeHeader(h) + rest;
    assert data[..4] == MAGIC;
    assert data[4] == TypeByte(h.msgType) && data[5..7] == Be16(h.txnId) && data[7] == PROTOCOL_VERSION;
    assert data[5] == Be16(h.txnId)[0] && data[6] == Be16(h.txnId)[1];
    assert data[8..] == rest;
    Be16RoundTrip(h.txnId);
  }

  lemma {:induction false} NodesRoundTrip(nodes: seq<NodeInfo>)
    ensures DecodeNodes(EncodeNodes(nodes)) == nodes
  {
    if nodes != [] {
      NodeRoundTrip(nodes[0], EncodeNodes(nodes[1..]));
      NodesRoundTrip(nodes[1..]);
    }
  }

  lemma NodeRoundTrip(n: NodeInfo, rest: bytes)
    ensures DecodeNode(EncodeNode(n) + rest) == Ok((n, rest))
  {
    var data := EncodeNode(n) + rest;
    assert data[..20] == n.nodeId && data[20..24] == n.ip;
    assert data[24] == Be16(n.port)[0] && data[25] == Be16(n.port)[1];
    assert data[26..] == rest;
    Be16RoundTrip(n.port);
  }

  /** Under the right type byte a body is read back, unless it is one of the two broken responses. */
  lemma BodyRoundTrip(m: Message)
    requires m.header.msgType == TypeOf(m) && !m.PingResponse? && !m.FindPeersResponse?
    ensures DecodeBody(m.header, m.nodeId + Payload(m)) == Ok(m)
  {
    var rest := m.nodeId + Payload(m);
    assert rest[..20] == m.nodeId && rest[20..] == Payload(m);
    match m
    case FindNodeResponse(_, _, nodes) =>
      assert 20 + 26 * |nodes| != 40;
      NodesRoundTrip(nodes);
    case Announce(_, _, infoHash, token, port) =>
      assert rest[20..40] == infoHash && rest[40..44] == token;
      assert rest[44] == Be16(port)[0] && rest[45] == Be16(port)[1];
      Be16RoundTrip(port);
    case FindNode(_, _, target) =>
      assert rest[20..40] == target;
    case FindPeers(_, _, infoHash) =>
      assert rest[20..40] == infoHash;
    case _ =>
  }

  /** The tag is written 20 bytes before it is read, so no peer response ever comes back as sent. */
  lemma FindPeersResponseNeverReadBack(h: Header, nodeId: NodeId, values: Values)
    ensures DecodeBody(h, nodeId + EncodeValues(values)) != Ok(FindPeersResponse(h, nodeId, values))
  {
    var rest := nodeId + EncodeValues(values);
    if h.msgType == FindPeersType && |rest| > 40 && DecodeValues(rest).Ok? {
      var data := rest[41..][2..];
      if values.Peers? {
        assert |data| == 6 * |values.peers| - 20;
      } else {
        assert |data| == 26 * |values.nodes| - 20;
      }
    }
  }

  /** Whatever is sent is decoded from its own body, under a header with the protocol's constants. */
  lemma DecodeOfEncode(m: Message)
    ensures Decode(Encode(m))
            == DecodeBody(m.header.(magic := MAGIC, ver := PROTOCOL_VERSION), m.nodeId + Payload(m))
  {
    HeaderRoundTrip(m.header, m.nodeId + Payload(m));
    assert Encode(m) == EncodeHeader(m.header) + (m.nodeId + Payload(m));
  }

  /**
   A message comes back as sent if and only if its header carries the protocol's magic, version and the
   variant's type byte, and it is neither a ping response nor a peer response.
   */
  lemma RoundTripIff(m: Message)
    ensures Decode(Encode(m)) == Ok(m)
       <==> WellFormed(m.header) && m.header.msgType == TypeOf(m) && !m.PingResponse? && !m.FindPeersResponse?
  {
    DecodeOfEncode(m);
    var h := m.header.(magic := MAGIC, ver := PROTOCOL_VERSION);
    if WellFormed(m.header) {
      assert h == m.header;
    }
    if m.FindPeersResponse? {
      FindPeersResponseNeverReadBack(h, m.nodeId, m.values);
    } else if m.header.msgType == TypeOf(m) && !m.PingResponse? && WellFormed(m.header) {
      BodyRoundTrip(m);
    } else {
      DecodedShape(h, m.nodeId + Payload(m));
    }
  }

  /** Whatever decodes carries the decoded header, under its own type byte, and is never a ping response. */
  lemma DecodedShape(h: Header, rest: bytes)
    ensures DecodeBody(h, rest).Ok? ==>
              var m := DecodeBody(h, rest).value; m.header == h && TypeOf(m) == h.msgType && !m.PingResponse?
  {
  }

  /** A ping response arrives as a ping. */
  lemma PingResponseArrivesAsPing(h: Header, nodeId: NodeId)
    requires WellFormed(h) && h.msgType == PingType
    ensures Decode(Encode(PingResponse(h, nodeId))) == Ok(Ping(h, nodeId))
  {
    DecodeOfEncode(PingResponse(h, nodeId));
    assert h.(magic := MAGIC, ver := PROTOCOL_VERSION) == h && nodeId + [] == nodeId;
  }

  /** A request and the response that shares its type byte never have the same length. */
  lemma TypesShareNoLength(a: Message, b: Message)
    requires TypeOf(a) == TypeOf(b) && TypeOf(a) != PingType
    requires |Encode(a)| == |Encode(b)|
    ensures (a.FindNode? <==> b.FindNode?) && (a.FindPeers? <==> b.FindPeers?) && (a.Announce? <==> b.Announce?)
  {
    assert |Payload(a)| == |Payload(b)|;
  }
}
