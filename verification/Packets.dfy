/**
  UDP, TCP and IPv4 packets on the wire: what the senders put into their buffers and what
  the receivers make of a frame (source/network/udp.c, tcp.c, ipv4.c, net.c).
 */
module Packets {
  import opened Basics
  import opened Checksum

  type u16 = x: nat | x < 0x1_0000
  type u32 = x: nat | x < 0x1_0000_0000

  const TCP: byte := 6
  const UDP: byte := 17
  const MTU := 1500
  const TCP_WINDOW: u16 := 32768
  const BROADCAST: u32 := 0xFFFF_FFFF
  const TYPE_IPV4: u16 := 0x0800

  // ----------------------------------------------------------------
  // Fields
  // ----------------------------------------------------------------

  function Be16(v: u16): (r: Bytes)
    ensures |r| == 2
  {
    [v / 256, v % 256]
  }

  function Be32(v: u32): (r: Bytes)
    ensures |r| == 4
  {
    [v / 0x100_0000, v / 0x1_0000 % 256, v / 256 % 256, v % 256]
  }

  function Get16(d: Bytes, i: nat): u16
    requires i + 2 <= |d|
  {
    256 * d[i] as int + d[i + 1] as int
  }

  function Get32(d: Bytes, i: nat): u32
    requires i + 4 <= |d|
  {
    0x100_0000 * d[i] as int + 0x1_0000 * d[i + 1] as int + 256 * d[i + 2] as int + d[i + 3] as int
  }

  lemma Get16Put(v: u16, d: Bytes, i: nat)
    requires i + 2 <= |d| && d[i] == v / 256 && d[i + 1] == v % 256
    ensures Get16(d, i) == v
  {
  }

  lemma Get32Put(v: u32, d: Bytes, i: nat)
    requires i + 4 <= |d| && d[i..i + 4] == Be32(v)
    ensures Get32(d, i) == v
  {
    assert d[i] == d[i..i + 4][0] && d[i + 1] == d[i..i + 4][1] && d[i + 2] == d[i..i + 4][2] && d[i + 3] == d[i..i + 4][3];
    WordBytes(v);
  }

  // ----------------------------------------------------------------
  // Checksum fields
  // ----------------------------------------------------------------

  /** The pseudo header of UDP and TCP; the length is cut to 16 bits. */
  function Pseudo(source: u32, destination: u32, protocol: byte, size: nat): Bytes {
    Be32(source) + Be32(destination) + [0, protocol] + Be16(size % 0x1_0000)
  }

  function Total(source: u32, destination: u32, protocol: byte, segment: Bytes): nat {
    Words(Pseudo(source, destination, protocol, |segment|)) + Words(segment)
  }

  function UdpChecksum(source: u32, destination: u32, segment: Bytes): u16 {
    var sum := Fold(Total(source, destination, UDP, segment));
    FoldIsResidue(Total(source, destination, UDP, segment));
    if sum == ONES then ONES else ONES - sum
  }

  function TcpChecksum(source: u32, destination: u32, segment: Bytes): u16 {
    FoldIsResidue(Total(source, destination, TCP, segment));
    ONES - Fold(Total(source, destination, TCP, segment))
  }

  function Put16(d: Bytes, k: nat, v: u16): (r: Bytes)
    requires k + 2 <= |d|
    ensures |r| == |d|
  {
    d[k := v / 256][k + 1 := v % 256]
  }

  /** The pseudo header is never all zero. */
  lemma PseudoNotZero(source: u32, destination: u32, protocol: byte, size: nat)
    requires protocol > 0
    ensures Words(Pseudo(source, destination, protocol, size)) > 0
  {
    var p := Pseudo(source, destination, protocol, size);
    assert Word(p, 8) == protocol;
    assert Words(p) == Word(p, 0) + WordsFrom(p, 2);
    assert WordsFrom(p, 2) == Word(p, 2) + WordsFrom(p, 4);
    assert WordsFrom(p, 4) == Word(p, 4) + WordsFrom(p, 6);
    assert WordsFrom(p, 6) == Word(p, 6) + WordsFrom(p, 8);
  }

  /** The pseudo header adds both addresses, the protocol and the length in 16 bits. */
  lemma PseudoSum(source: u32, destination: u32, protocol: byte, size: nat)
    ensures Words(Pseudo(source, destination, protocol, size)) ==
            source / 0x1_0000 + source % 0x1_0000 + destination / 0x1_0000 + destination % 0x1_0000
            + protocol + size % 0x1_0000
  {
    var p := Pseudo(source, destination, protocol, size);
    Halves(source);
    Halves(destination);
    assert Word(p, 0) == source / 0x1_0000 && Word(p, 2) == source % 0x1_0000;
    assert Word(p, 4) == destination / 0x1_0000 && Word(p, 6) == destination % 0x1_0000;
    assert Word(p, 8) == protocol && Word(p, 10) == size % 0x1_0000;
    SixWords(p);
  }

  lemma Halves(v: u32)
    ensures 256 * Be32(v)[0] as int + Be32(v)[1] as int == v / 0x1_0000
    ensures 256 * Be32(v)[2] as int + Be32(v)[3] as int == v % 0x1_0000
  {
    WordBytes(v);
  }

  lemma SixWords(p: Bytes)
    requires |p| == 12
    ensures Words(p) == Word(p, 0) + Word(p, 2) + Word(p, 4) + Word(p, 6) + Word(p, 8) + Word(p, 10)
  {
    assert WordsFrom(p, 8) == Word(p, 8) + WordsFrom(p, 10);
    assert WordsFrom(p, 6) == Word(p, 6) + WordsFrom(p, 8);
    assert WordsFrom(p, 4) == Word(p, 4) + WordsFrom(p, 6);
    assert WordsFrom(p, 2) == Word(p, 2) + WordsFrom(p, 4);
  }

  /** A message whose empty checksum field receives the complement of its sum checks. */
  lemma FieldCompletes(d: Bytes, k: nat, v: u16, other: nat)
    requires k + 2 <= |d| && k % 2 == 0 && d[k] == 0 && d[k + 1] == 0
    requires var s := Fold(other + Words(d)); v == ONES - s || (s == ONES && v == ONES)
    ensures Fold(other + Words(Put16(d, k, v))) == ONES
  {
    var t := Put16(d, k, v);
    assert Word(t, k) == v && Word(d, k) == 0;
    WordChange(d, t, k, 0);
    ComplementCompletes(other + Words(d), v);
  }

  /** Every UDP segment checksummed by the sender checks at the receiver; the field is never 0. */
  lemma UdpFieldChecks(source: u32, destination: u32, segment: Bytes)
    requires |segment| >= 8 && segment[6] == 0 && segment[7] == 0
    ensures var v := UdpChecksum(source, destination, segment);
            v != 0 && Fold(Total(source, destination, UDP, Put16(segment, 6, v))) == ONES
  {
    var v := UdpChecksum(source, destination, segment);
    FieldCompletes(segment, 6, v, Words(Pseudo(source, destination, UDP, |segment|)));
  }

  lemma TcpFieldChecks(source: u32, destination: u32, segment: Bytes)
    requires |segment| >= 20 && segment[16] == 0 && segment[17] == 0
    ensures TcpChecksum(source, destination, Put16(segment, 16, TcpChecksum(source, destination, segment))) == 0
  {
    var v := TcpChecksum(source, destination, segment);
    FieldCompletes(segment, 16, v, Words(Pseudo(source, destination, TCP, |segment|)));
  }

  // ----------------------------------------------------------------
  // Receivers
  // ----------------------------------------------------------------

  /** What a UDP handler is given. */
  datatype Delivery = Delivery(sourceIp: u32, sourcePort: u16, destinationPort: u16, payload: Bytes)

  function UdpAccept(source: u32, destination: u32, segment: Bytes): Option<Delivery> {
    if |segment| < 8 then None else
    var sourcePort, destinationPort, length := Get16(segment, 0), Get16(segment, 2), Get16(segment, 4);
    if sourcePort == 0 || destinationPort == 0 || length < 8 || length > |segment| then None else
    if Get16(segment, 6) != 0 && Fold(Total(source, destination, UDP, segment[..length])) != ONES then None else
    Some(Delivery(source, sourcePort, destinationPort, segment[8..length]))
  }

  /** udp_receive, up to the search for a handler. */
  method UdpReceive(source: u32, destination: u32, segment: Bytes) returns (r: Option<Delivery>)
    ensures r == UdpAccept(source, destination, segment)
  {
    if |segment| < 8 {
      return None;
    }
    var sourcePort, destinationPort, length := Get16(segment, 0), Get16(segment, 2), Get16(segment, 4);
    var received := Get16(segment, 6);
    if sourcePort == 0 || destinationPort == 0 || length < 8 || length > |segment| {
      return None;
    }
    if received != 0 {
      var sum := SegmentSum(source, destination, UDP, segment[..length]);
      sum := FoldCarries(sum);
      if sum != ONES {
        return None;
      }
    }
    return Some(Delivery(source, sourcePort, destinationPort, segment[8..length]));
  }

  /** The two checksum_add calls over pseudo header and segment. */
  method SegmentSum(source: u32, destination: u32, protocol: byte, segment: Bytes) returns (sum: nat)
    requires |segment| <= 0x2_0000
    ensures sum == Fold(Total(source, destination, protocol, segment)) && sum <= ONES
  {
    var pseudo := Pseudo(source, destination, protocol, |segment|);
    sum := ChecksumAdd(pseudo, 0);
    sum := ChecksumAdd(segment, sum);
    FoldAbsorbs(Words(pseudo), Words(segment));
  }

  /** udp_checksum */
  method ComputeUdpChecksum(source: u32, destination: u32, segment: Bytes) returns (v: u16)
    requires |segment| <= 0x2_0000
    ensures v == UdpChecksum(source, destination, segment)
  {
    var sum := SegmentSum(source, destination, UDP, segment);
    v := ONES - sum;
    if v == 0 {
      v := ONES;
    }
  }

  /** tcp_checksum */
  method ComputeTcpChecksum(source: u32, destination: u32, segment: Bytes) returns (v: u16)
    requires |segment| <= 0x2_0000
    ensures v == TcpChecksum(source, destination, segment)
  {
    var sum := SegmentSum(source, destination, TCP, segment);
    sum := FoldCarries(sum);
    v := ONES - sum;
  }

  datatype Segment = Segment(sourcePort: u16, destinationPort: u16, sequence: u32, acknowledgment: u32, flags: byte)

  /** The part of tcp_receive before the search for a connection; address is the host's own. */
  function TcpAccept(address: u32, source: u32, destination: u32, segment: Bytes): Option<Segment> {
    if |segment| < 20 || destination != address then None else
    var headerSize := segment[12] as int / 16 * 4;
    if headerSize < 20 || headerSize > |segment| then None else
    if TcpChecksum(source, destination, segment) != 0 then None else
    Some(Segment(Get16(segment, 0), Get16(segment, 2), Get32(segment, 4), Get32(segment, 8), segment[13]))
  }

  method TcpReceive(address: u32, source: u32, destination: u32, segment: Bytes) returns (r: Option<Segment>)
    requires |segment| <= 0x2_0000
    ensures r == TcpAccept(address, source, destination, segment)
  {
    if |segment| < 20 || destination != address {
      return None;
    }
    var headerSize := segment[12] as int / 16 * 4;
    if headerSize < 20 || headerSize > |segment| {
      return None;
    }
    var v := ComputeTcpChecksum(source, destination, segment);
    if v != 0 {
      return None;
    }
    return Some(Segment(Get16(segment, 0), Get16(segment, 2), Get32(segment, 4), Get32(segment, 8), segment[13]));
  }

  /** The address part of RootNetConfig. */
  datatype Config = Config(configured: bool, address: u32)

  datatype Packet = Packet(protocol: byte, source: u32, destination: u32, payload: Bytes)

  predicate ForUs(config: Config, destination: u32) {
    config.configured ==> destination == config.address || destination == BROADCAST
  }

  /** ipv4_receive on the packet inside a frame. */
  function Ipv4Accept(config: Config, packet: Bytes): Option<Packet> {
    if |packet| < 20 || packet[0] as int / 16 != 4 then None else
    var headerSize := packet[0] as int % 16 * 4;
    if headerSize < 20 || headerSize > |packet| then None else
    var length := Get16(packet, 2);
    if length < headerSize || length > |packet| then None else
    if Fold(Words(packet[..headerSize])) != ONES then None else
    if Get16(packet, 6) % 0x4000 != 0 then None else
    var source, destination := Get32(packet, 12), Get32(packet, 16);
    if !ForUs(config, destination) then None else
    Some(Packet(packet[9], source, destination, packet[headerSize..length]))
  }

  method Ipv4Receive(config: Config, frame: Bytes) returns (r: Option<Packet>)
    ensures r == if |frame| < 34 then None else Ipv4Accept(config, frame[14..])
  {
    if |frame| < 34 {
      return None;
    }
    var packet := frame[14..];
    if packet[0] as int / 16 != 4 {
      return None;
    }
    var headerSize := packet[0] as int % 16 * 4;
    if headerSize < 20 || headerSize > |packet| {
      return None;
    }
    var length := Get16(packet, 2);
    if length < headerSize || length > |packet| {
      return None;
    }
    var v := Ipv4Checksum(packet[..headerSize]);
    if v != 0 {
      return None;
    }
    if Get16(packet, 6) % 0x4000 != 0 {
      return None;
    }
    var source, destination := Get32(packet, 12), Get32(packet, 16);
    if config.configured && destination != config.address && destination != BROADCAST {
      return None;
    }
    return Some(Packet(packet[9], source, destination, packet[headerSize..length]));
  }

  // ----------------------------------------------------------------
  // Exactly what is accepted
  // ----------------------------------------------------------------

  /**
    A UDP segment is taken exactly when both ports are set, the stated length covers the
    header and lies inside the segment, and the checksum is absent or the words of pseudo
    header and stated segment sum to a multiple of 65535.
   */
  lemma UdpAcceptIff(source: u32, destination: u32, s: Bytes)
    ensures UdpAccept(source, destination, s).Some? <==>
            && |s| >= 8 && (s[0] > 0 || s[1] > 0) && (s[2] > 0 || s[3] > 0)
            && 8 <= Get16(s, 4) <= |s|
            && ((s[6] == 0 && s[7] == 0) || Total(source, destination, 17, s[..Get16(s, 4)]) % 65535 == 0)
    ensures UdpAccept(source, destination, s).Some? ==>
              UdpAccept(source, destination, s).value.payload == s[8..Get16(s, 4)]
  {
    if |s| >= 8 && 8 <= Get16(s, 4) <= |s| {
      var length := Get16(s, 4);
      PseudoNotZero(source, destination, UDP, length);
      AllOnesIff(Total(source, destination, UDP, s[..length]));
    }
  }

  /** A TCP segment is taken exactly by its addressee, with a header of at least 20 bytes inside it and a sum that checks. */
  lemma TcpAcceptIff(address: u32, source: u32, destination: u32, s: Bytes)
    ensures TcpAccept(address, source, destination, s).Some? <==>
            && destination == address && |s| >= 20 && 80 <= s[12] && s[12] as int / 16 * 4 <= |s|
            && Total(source, destination, 6, s) % 65535 == 0
  {
    PseudoNotZero(source, destination, TCP, |s|);
    AllOnesIff(Total(source, destination, TCP, s));
    FoldIsResidue(Total(source, destination, TCP, s));
  }

  /**
    An IPv4 packet is taken exactly when it is version 4, its header and stated length lie
    inside it, its header sums to a multiple of 65535, it is no fragment and it is for this
    host or for everybody.
   */
  lemma Ipv4AcceptIff(config: Config, p: Bytes)
    ensures Ipv4Accept(config, p).Some? <==>
            && |p| >= 20 && 0x45 <= p[0] < 0x50
            && 4 * (p[0] - 0x40) <= Get16(p, 2) <= |p|
            && Words(p[..4 * (p[0] - 0x40)]) % 65535 == 0
            && p[6] % 64 == 0 && p[7] == 0
            && (config.configured ==> Get32(p, 16) == config.address || Get32(p, 16) == 0xFFFF_FFFF)
  {
    if |p| >= 20 && 0x45 <= p[0] < 0x50 && 4 * (p[0] - 0x40) <= |p| {
      var header := p[..4 * (p[0] - 0x40)];
      AllOnesIff(Words(header));
      assert Words(header) == Word(header, 0) + WordsFrom(header, 2);
      assert Word(header, 0) >= 256 * header[0] as int;
    }
    if |p| >= 20 {
      NoFragment(p[6], p[7]);
    }
  }

  lemma NoFragment(a: byte, b: byte)
    ensures (256 * a as int + b as int) % 0x4000 == 0 <==> a % 64 == 0 && b == 0
  {
    assert 256 * a as int + b as int == 0x4000 * (a as int / 64) + (256 * (a as int % 64) + b as int);
  }

  // ----------------------------------------------------------------
  // What the senders put on the wire
  // ----------------------------------------------------------------

  function UdpBytes(sourcePort: u16, destinationPort: u16, checksum: u16, payload: Bytes): (r: Bytes)
    requires |payload| <= MTU
    ensures |r| == 8 + |payload|
  {
    Be16(sourcePort) + Be16(destinationPort) + Be16(8 + |payload|) + Be16(checksum) + payload
  }

  function UdpSegment(source: u32, destination: u32, sourcePort: u16, destinationPort: u16, payload: Bytes): (r: Bytes)
    requires |payload| <= MTU
    ensures |r| == 8 + |payload|
  {
    UdpBytes(sourcePort, destinationPort,
             UdpChecksum(source, destination, UdpBytes(sourcePort, destinationPort, 0, payload)), payload)
  }

  /** A header of send_segment; the opening one carries the maximum segment size, 1460. */
  function TcpBytes(h: Segment, opening: bool, checksum: u16): (r: Bytes)
    ensures |r| == if opening then 24 else 20
  {
    Be16(h.sourcePort) + Be16(h.destinationPort) + Be32(h.sequence) + Be32(h.acknowledgment)
    + [if opening then 0x60 else 0x50, h.flags] + Be16(TCP_WINDOW) + Be16(checksum) + Be16(0)
    + (if opening then [2, 4] + Be16(1460) else [])
  }

  function TcpSegment(source: u32, destination: u32, h: Segment, opening: bool): Bytes {
    TcpBytes(h, opening, TcpChecksum(source, destination, TcpBytes(h, opening, 0)))
  }

  function Ipv4Header(size: u16, id: u16, protocol: byte, checksum: u16, source: u32, destination: u32): (r: Bytes)
    ensures |r| == 20
  {
    [0x45, 0] + Be16(size) + Be16(id) + Be16(0x4000) + [64, protocol] + Be16(checksum) + Be32(source) + Be32(destination)
  }

  function CompleteHeader(size: u16, id: u16, protocol: byte, source: u32, destination: u32): (r: Bytes)
    ensures |r| == 20
  {
    var empty := Ipv4Header(size, id, protocol, 0, source, destination);
    FoldIsResidue(Words(empty));
    Ipv4Header(size, id, protocol, ONES - Fold(Words(empty)), source, destination)
  }

  function Ipv4Packet(id: u16, protocol: byte, source: u32, destination: u32, payload: Bytes): (r: Bytes)
    requires 20 + |payload| <= MTU
    ensures |r| == 20 + |payload|
  {
    CompleteHeader(20 + |payload|, id, protocol, source, destination) + payload
  }

  /** net_send_ethernet: short frames are padded to 60 bytes. */
  function Frame(to: Bytes, from: Bytes, kind: u16, payload: Bytes): Bytes
    requires |to| == 6 && |from| == 6
  {
    to + from + Be16(kind) + payload + Zeros(if |payload| < 46 then 46 - |payload| else 0)
  }

  // ----------------------------------------------------------------
  // Everything sent is accepted and read back
  // ----------------------------------------------------------------

  /** The segment udp_send_to builds is delivered with its payload, whatever bytes follow it. */
  lemma UdpRoundTrip(source: u32, destination: u32, sourcePort: u16, destinationPort: u16, payload: Bytes, rest: Bytes)
    requires |payload| <= MTU && sourcePort != 0 && destinationPort != 0
    ensures UdpAccept(source, destination, UdpSegment(source, destination, sourcePort, destinationPort, payload) + rest)
            == Some(Delivery(source, sourcePort, destinationPort, payload))
  {
    var empty := UdpBytes(sourcePort, destinationPort, 0, payload);
    var v := UdpChecksum(source, destination, empty);
    var segment := UdpSegment(source, destination, sourcePort, destinationPort, payload);
    UdpFieldChecks(source, destination, empty);
    assert segment == Put16(empty, 6, v);
    UdpFields(sourcePort, destinationPort, v, payload);
    SameFront(segment, rest);
  }

  lemma SameFront(segment: Bytes, rest: Bytes)
    requires |segment| >= 8
    ensures var s := segment + rest;
            && Get16(s, 0) == Get16(segment, 0) && Get16(s, 2) == Get16(segment, 2)
            && Get16(s, 4) == Get16(segment, 4) && Get16(s, 6) == Get16(segment, 6)
            && s[..|segment|] == segment && s[8..|segment|] == segment[8..]
  {
  }

  lemma UdpFields(sourcePort: u16, destinationPort: u16, checksum: u16, payload: Bytes)
    requires |payload| <= MTU
    ensures var s := UdpBytes(sourcePort, destinationPort, checksum, payload);
            && Get16(s, 0) == sourcePort && Get16(s, 2) == destinationPort && Get16(s, 4) == 8 + |payload|
            && Get16(s, 6) == checksum && s[8..8 + |payload|] == payload
  {
  }

  lemma TcpFields(h: Segment, opening: bool, checksum: u16)
    ensures var s := TcpBytes(h, opening, checksum);
            && Segment(Get16(s, 0), Get16(s, 2), Get32(s, 4), Get32(s, 8), s[13]) == h
            && s[12] as int / 16 * 4 == |s| && s[16] == checksum / 256 && s[17] == checksum % 256
            && Get16(s, 14) == TCP_WINDOW && Get16(s, 18) == 0
            && (opening ==> s[20] == 2 && s[21] == 4 && Get16(s, 22) == 1460)
  {
    var s := TcpBytes(h, opening, checksum);
    Get16Put(h.sourcePort, s, 0);
    Get16Put(h.destinationPort, s, 2);
    assert s[4..8] == Be32(h.sequence);
    assert s[8..12] == Be32(h.acknowledgment);
    Get32Put(h.sequence, s, 4);
    Get32Put(h.acknowledgment, s, 8);
  }

  /** Every segment of send_segment is accepted by the host it is addressed to, with the same fields. */
  lemma TcpRoundTrip(source: u32, destination: u32, h: Segment, opening: bool)
    ensures TcpAccept(destination, source, destination, TcpSegment(source, destination, h, opening)) == Some(h)
  {
    var empty := TcpBytes(h, opening, 0);
    var v := TcpChecksum(source, destination, empty);
    TcpFields(h, opening, 0);
    TcpFieldChecks(source, destination, empty);
    assert TcpSegment(source, destination, h, opening) == Put16(empty, 16, v);
    TcpFields(h, opening, v);
  }

  lemma HeaderFields(size: u16, id: u16, protocol: byte, checksum: u16, source: u32, destination: u32, rest: Bytes)
    ensures var p := Ipv4Header(size, id, protocol, checksum, source, destination) + rest;
            && p[0] == 0x45 && p[1] == 0 && p[8] == 64 && p[9] == protocol
            && Get16(p, 2) == size && Get16(p, 4) == id && Get16(p, 6) == 0x4000 && Get16(p, 10) == checksum
            && Get32(p, 12) == source && Get32(p, 16) == destination
  {
    var h := Ipv4Header(size, id, protocol, checksum, source, destination);
    var p := h + rest;
    assert h[0] == 0x45 && h[1] == 0 && h[8] == 64 && h[9] == protocol;
    Get16Put(size, p, 2);
    Get16Put(id, p, 4);
    Get16Put(checksum, p, 10);
    Get16Put(0x4000, p, 6);
    assert p[12..16] == Be32(source);
    assert p[16..20] == Be32(destination);
    Get32Put(source, p, 12);
    Get32Put(destination, p, 16);
  }

  lemma HeaderChecks(size: u16, id: u16, protocol: byte, source: u32, destination: u32)
    ensures Fold(Words(CompleteHeader(size, id, protocol, source, destination))) == ONES
  {
    var empty := Ipv4Header(size, id, protocol, 0, source, destination);
    FoldIsResidue(Words(empty));
    var v: u16 := ONES - Fold(Words(empty));
    assert empty[10] == 0 && empty[11] == 0;
    FieldCompletes(empty, 10, v, 0);
    assert Put16(empty, 10, v) == Ipv4Header(size, id, protocol, v, source, destination);
  }

  /** The packet ipv4_send_packet builds is accepted by its addressee with its payload, padding behind it or not. */
  lemma {:induction false} Ipv4RoundTrip(config: Config, id: u16, protocol: byte, source: u32, destination: u32, payload: Bytes, padding: Bytes)
    requires 20 + |payload| <= MTU && ForUs(config, destination)
    ensures Ipv4Accept(config, Ipv4Packet(id, protocol, source, destination, payload) + padding)
            == Some(Packet(protocol, source, destination, payload))
  {
    var size: u16 := 20 + |payload|;
    var empty := Ipv4Header(size, id, protocol, 0, source, destination);
    var header := CompleteHeader(size, id, protocol, source, destination);
    HeaderChecks(size, id, protocol, source, destination);
    FoldIsResidue(Words(empty));
    HeaderFields(size, id, protocol, ONES - Fold(Words(empty)), source, destination, payload + padding);
    PacketParts(header, payload, padding);
    Accepted(config, header + (payload + padding), protocol, source, destination, 20 + |payload|);
  }

  lemma PacketParts(header: Bytes, payload: Bytes, padding: Bytes)
    requires |header| == 20
    ensures header + payload + padding == header + (payload + padding)
    ensures var p := header + (payload + padding); p[..20] == header && p[20..20 + |payload|] == payload
  {
  }

  /** What a packet without options must say to be accepted. */
  lemma Accepted(config: Config, packet: Bytes, protocol: byte, source: u32, destination: u32, size: nat)
    requires 20 <= size <= |packet| && packet[0] == 0x45 && packet[9] == protocol
    requires Get16(packet, 2) == size && Get16(packet, 6) == 0x4000
    requires Get32(packet, 12) == source && Get32(packet, 16) == destination && ForUs(config, destination)
    requires Fold(Words(packet[..20])) == ONES
    ensures Ipv4Accept(config, packet) == Some(Packet(protocol, source, destination, packet[20..size]))
  {
  }

  lemma FrameCarries(to: Bytes, from: Bytes, packet: Bytes)
    requires |to| == 6 && |from| == 6
    ensures var frame := Frame(to, from, TYPE_IPV4, packet);
            && frame[14..] == packet + Zeros(if |packet| < 46 then 46 - |packet| else 0)
            && |frame| >= 60 && Get16(frame, 12) == TYPE_IPV4
  {
    Get16Put(TYPE_IPV4, Frame(to, from, TYPE_IPV4, packet), 12);
  }

  /** From udp_send_to on one host to the handler on another: every payload arrives unchanged. */
  lemma {:induction false} UdpEndToEnd(config: Config, to: Bytes, from: Bytes, id: u16, source: u32, destination: u32,
                    sourcePort: u16, destinationPort: u16, payload: Bytes)
    requires 28 + |payload| <= MTU && sourcePort != 0 && destinationPort != 0 && ForUs(config, destination)
    requires |to| == 6 && |from| == 6
    ensures var segment := UdpSegment(source, destination, sourcePort, destinationPort, payload);
            var frame := Frame(to, from, TYPE_IPV4, Ipv4Packet(id, UDP, source, destination, segment));
            var packet := Ipv4Accept(config, frame[14..]);
            && |frame| >= 60 && Get16(frame, 12) == TYPE_IPV4
            && packet == Some(Packet(UDP, source, destination, segment))
            && UdpAccept(source, destination, packet.value.payload) == Some(Delivery(source, sourcePort, destinationPort, payload))
  {
    var segment := UdpSegment(source, destination, sourcePort, destinationPort, payload);
    var packet := Ipv4Packet(id, UDP, source, destination, segment);
    var padding := Zeros(if |packet| < 46 then 46 - |packet| else 0);
    FrameCarries(to, from, packet);
    Ipv4RoundTrip(config, id, UDP, source, destination, segment, padding);
    UdpRoundTrip(source, destination, sourcePort, destinationPort, payload, []);
    assert segment + [] == segment;
  }

  // ----------------------------------------------------------------
  // Wrong bytes
  // ----------------------------------------------------------------

  ghost predicate WrongByte(s: Bytes, t: Bytes, k: nat) {
    |s| == |t| && k < |s| && t[k] != s[k] && forall i :: 0 <= i < |s| && i != k ==> t[i] == s[i]
  }

  /** An accepted TCP segment with one wrong byte is never accepted. */
  lemma TcpWrongByte(address: u32, source: u32, destination: u32, s: Bytes, t: Bytes, k: nat)
    requires TcpAccept(address, source, destination, s).Some? && WrongByte(s, t, k)
    ensures TcpAccept(address, source, destination, t).None?
  {
    PseudoNotZero(source, destination, TCP, |s|);
    FoldIsResidue(Total(source, destination, TCP, s));
    FoldIsResidue(Total(source, destination, TCP, t));
    WrongByteDetected(s, t, k, Words(Pseudo(source, destination, TCP, |s|)));
  }

  /**
    A UDP segment accepted by its checksum, with one wrong byte outside the length field, is
    accepted exactly when the error turned the checksum field to 0, which disables the check,
    or lies behind the length the segment states.
   */
  lemma UdpWrongByteIff(source: u32, destination: u32, s: Bytes, t: Bytes, k: nat)
    requires UdpAccept(source, destination, s).Some? && Get16(s, 6) != 0 && WrongByte(s, t, k)
    requires k != 4 && k != 5
    ensures UdpAccept(source, destination, t).Some? <==> Get16(t, 6) == 0 || k >= Get16(s, 4)
  {
    var length := Get16(s, 4);
    var a, b := s[..length], t[..length];
    assert Get16(t, 4) == length;
    if k < length {
      PseudoNotZero(source, destination, UDP, length);
      assert WrongByte(a, b, k);
      WrongByteDetected(a, b, k, Words(Pseudo(source, destination, UDP, length)));
    } else {
      assert a == b;
    }
  }
}
