/**
  The sending half of the network stack (source/network/udp.c, tcp.c, ipv4.c, net.c),
  writing its packets field by field into fixed buffers.
 */
module NetStack {
  import opened Basics
  import opened Checksum
  import opened Packets

  // ----------------------------------------------------------------
  // Buffer stores
  // ----------------------------------------------------------------

  /** net_write_be16 */
  method Write16(a: array<byte>, k: nat, v: u16)
    requires k + 2 <= a.Length
    modifies a
    ensures a[..] == Put16(old(a[..]), k, v)
    ensures forall i :: 0 <= i < a.Length && !(k <= i < k + 2) ==> a[i] == old(a[i])
  {
    a[k] := v / 256;
    a[k + 1] := v % 256;
  }

  /** net_write_be32 */
  method Write32(a: array<byte>, k: nat, v: u32)
    requires k + 4 <= a.Length
    modifies a
    ensures a[..] == old(a[..k]) + Be32(v) + old(a[k + 4..])
    ensures forall i :: 0 <= i < a.Length && !(k <= i < k + 4) ==> a[i] == old(a[i])
  {
    a[k], a[k + 1], a[k + 2], a[k + 3] := v / 0x100_0000, v / 0x1_0000 % 256, v / 256 % 256, v % 256;
  }

  /** root_memzero of the first n bytes from k on */
  method Zero(a: array<byte>, k: nat, n: nat)
    requires k + n <= a.Length
    modifies a
    ensures a[..] == old(a[..k]) + Zeros(n) + old(a[k + n..])
  {
    var i := 0;
    while i < n
      invariant i <= n
      invariant forall j :: 0 <= j < a.Length ==> a[j] == if k <= j < k + i then 0 else old(a[j])
    {
      a[k + i] := 0;
      i := i + 1;
    }
  }

  /** root_memcpy into a buffer */
  method Copy(a: array<byte>, k: nat, d: Bytes)
    requires k + |d| <= a.Length
    modifies a
    ensures a[..] == old(a[..k]) + d + old(a[k + |d|..])
  {
    var i := 0;
    while i < |d|
      invariant i <= |d|
      invariant forall j :: 0 <= j < a.Length ==> a[j] == if k <= j < k + i then d[j - k] else old(a[j])
    {
      a[k + i] := d[i];
      i := i + 1;
    }
  }

  // ----------------------------------------------------------------
  // The stack
  // ----------------------------------------------------------------

  class Stack {
    const segmentBuffer: array<byte>   // transmit_buffer of udp.c and tcp.c
    const packetBuffer: array<byte>    // packet_buffer of ipv4.c
    const frameBuffer: array<byte>     // transmit_buffer of net.c
    const mac: Bytes
    var config: Config
    var nextId: u16                    // next_identification

    ghost predicate Valid() {
      && segmentBuffer.Length == MTU && packetBuffer.Length == MTU && frameBuffer.Length == 2048 && |mac| == 6
      && segmentBuffer != packetBuffer && packetBuffer != frameBuffer && segmentBuffer != frameBuffer
    }

    constructor (mac: Bytes, config: Config)
      requires |mac| == 6
      ensures Valid() && this.mac == mac && this.config == config && nextId == 1
      ensures fresh(segmentBuffer) && fresh(packetBuffer) && fresh(frameBuffer)
    {
      this.mac := mac;
      this.config := config;
      nextId := 1;
      segmentBuffer := new byte[MTU](_ => 0);
      packetBuffer := new byte[MTU](_ => 0);
      frameBuffer := new byte[2048](_ => 0);
    }

    /** The header and payload stores of udp_send_to. */
    method StoreUdp(destination: u32, sourcePort: u16, destinationPort: u16, payload: Bytes)
      requires Valid() && 8 + |payload| <= MTU
      modifies segmentBuffer
      ensures segmentBuffer[..8 + |payload|] == UdpSegment(config.address, destination, sourcePort, destinationPort, payload)
    {
      var size := 8 + |payload|;
      Zero(segmentBuffer, 0, size);
      StoreUdpFields(sourcePort, destinationPort, size);
      Copy(segmentBuffer, 8, payload);
      ghost var empty := UdpBytes(sourcePort, destinationPort, 0, payload);
      assert segmentBuffer[..size] == empty;
      var checksum := ComputeUdpChecksum(config.address, destination, segmentBuffer[..size]);
      Write16(segmentBuffer, 6, checksum);
      assert segmentBuffer[..size] == Put16(empty, 6, checksum);
    }

    method StoreUdpFields(sourcePort: u16, destinationPort: u16, size: u16)
      requires Valid()
      modifies segmentBuffer
      ensures segmentBuffer[..8] == Be16(sourcePort) + Be16(destinationPort) + Be16(size) + Be16(0)
    {
      Write16(segmentBuffer, 0, sourcePort);
      Write16(segmentBuffer, 2, destinationPort);
      Write16(segmentBuffer, 4, size);
      Write16(segmentBuffer, 6, 0);
    }

    /** The stores of send_segment. */
    method StoreTcp(destination: u32, h: Segment, opening: bool) returns (size: nat)
      requires Valid()
      modifies segmentBuffer
      ensures size <= MTU && segmentBuffer[..size] == TcpSegment(config.address, destination, h, opening)
    {
      size := if opening then 24 else 20;
      ghost var empty := TcpBytes(h, opening, 0);
      StoreTcpFields(h, opening);
      var checksum := ComputeTcpChecksum(config.address, destination, segmentBuffer[..size]);
      Write16(segmentBuffer, 16, checksum);
      assert segmentBuffer[..size] == Put16(empty, 16, checksum);
    }

    method StoreTcpFields(h: Segment, opening: bool)
      requires Valid()
      modifies segmentBuffer
      ensures segmentBuffer[..if opening then 24 else 20] == TcpBytes(h, opening, 0)
    {
      var size := if opening then 24 else 20;
      Zero(segmentBuffer, 0, size);
      StoreNumbers(h);
      StoreFlags(h, size);
      assert segmentBuffer[..20] == segmentBuffer[..12] + segmentBuffer[12..20];
      if opening {
        StoreOption();
      }
    }

    /** The MSS option of an opening segment. */
    method StoreOption()
      requires Valid()
      modifies segmentBuffer
      ensures segmentBuffer[..24] == old(segmentBuffer[..20]) + ([2, 4] + Be16(1460))
    {
      segmentBuffer[20] := 2;
      segmentBuffer[21] := 4;
      Write16(segmentBuffer, 22, 1460);
    }

    method StoreNumbers(h: Segment)
      requires Valid()
      modifies segmentBuffer
      ensures segmentBuffer[..12] == Be16(h.sourcePort) + Be16(h.destinationPort) + Be32(h.sequence) + Be32(h.acknowledgment)
    {
      Write16(segmentBuffer, 0, h.sourcePort);
      Write16(segmentBuffer, 2, h.destinationPort);
      Write32(segmentBuffer, 4, h.sequence);
      Write32(segmentBuffer, 8, h.acknowledgment);
    }

    method StoreFlags(h: Segment, size: nat)
      requires Valid() && size in {20, 24}
      modifies segmentBuffer
      ensures segmentBuffer[12..20] == [if size == 24 then 0x60 else 0x50, h.flags] + Be16(TCP_WINDOW) + Be16(0) + Be16(0)
      ensures segmentBuffer[..12] == old(segmentBuffer[..12])
    {
      segmentBuffer[12] := size / 4 * 16;
      segmentBuffer[13] := h.flags;
      Write16(segmentBuffer, 14, TCP_WINDOW);
      Write16(segmentBuffer, 16, 0);
      Write16(segmentBuffer, 18, 0);
    }

    /** build_header; the identification counter wraps at 16 bits. */
    method BuildHeader(size: u16, protocol: byte, destination: u32)
      requires Valid()
      modifies this`nextId, packetBuffer
      ensures nextId == (old(nextId) + 1) % 0x1_0000
      ensures packetBuffer[..20] == CompleteHeader(size, old(nextId), protocol, config.address, destination)
      ensures forall i :: 20 <= i < MTU ==> packetBuffer[i] == old(packetBuffer[i])
    {
      StoreHeader(size, nextId, protocol, destination);
      ghost var empty := Ipv4Header(size, nextId, protocol, 0, config.address, destination);
      nextId := (nextId + 1) % 0x1_0000;
      var checksum := Ipv4Checksum(packetBuffer[..20]);
      FoldIsResidue(Words(empty));
      Write16(packetBuffer, 10, checksum);
      assert packetBuffer[..20] == Put16(empty, 10, checksum);
    }

    method StoreHeader(size: u16, id: u16, protocol: byte, destination: u32)
      requires Valid()
      modifies packetBuffer
      ensures packetBuffer[..20] == Ipv4Header(size, id, protocol, 0, config.address, destination)
      ensures forall i :: 20 <= i < MTU ==> packetBuffer[i] == old(packetBuffer[i])
    {
      packetBuffer[0], packetBuffer[1] := 0x45, 0;
      Write16(packetBuffer, 2, size);
      Write16(packetBuffer, 4, id);
      Write16(packetBuffer, 6, 0x4000);
      packetBuffer[8], packetBuffer[9] := 64, protocol;
      Write16(packetBuffer, 10, 0);
      ghost var front := [0x45, 0] + Be16(size) + Be16(id) + Be16(0x4000) + [64, protocol] + Be16(0);
      assert packetBuffer[..12] == front;
      Write32(packetBuffer, 12, config.address);
      assert packetBuffer[..16] == front + Be32(config.address);
      Write32(packetBuffer, 16, destination);
    }

    /** What ipv4_send_packet requires before it takes an identification. */
    predicate Sendable(destination: u32, size: nat, resolved: Option<Bytes>)
      reads this`config
    {
      config.configured && destination != 0 && 20 + size <= MTU && resolved.Some?
    }

    /** ipv4_send_packet; resolved is the answer of net_resolve_ipv4, ready that of net_device_ready. */
    method SendPacket(destination: u32, protocol: byte, payload: Bytes, resolved: Option<Bytes>, ready: bool)
      returns (frame: Option<Bytes>)
      requires Valid() && (resolved.Some? ==> |resolved.value| == 6)
      modifies this`nextId, packetBuffer, frameBuffer
      ensures frame.Some? <==> Sendable(destination, |payload|, resolved) && ready
      ensures nextId == if Sendable(destination, |payload|, resolved) then (old(nextId) + 1) % 0x1_0000 else old(nextId)
      ensures frame.Some? ==> frame.value == Frame(resolved.value, mac, TYPE_IPV4,
                                                   Ipv4Packet(old(nextId), protocol, config.address, destination, payload))
    {
      var size := 20 + |payload|;
      if !config.configured || destination == 0 || size > MTU || resolved.None? {
        return None;
      }
      Zero(packetBuffer, 0, size);
      BuildHeader(size, protocol, destination);
      Copy(packetBuffer, 20, payload);
      assert packetBuffer[..size] == Ipv4Packet(old(nextId), protocol, config.address, destination, payload);
      frame := SendEthernet(resolved.value, TYPE_IPV4, packetBuffer[..size], ready);
    }

    /** net_send_ethernet, up to handing the frame to the device. */
    method SendEthernet(to: Bytes, kind: u16, payload: Bytes, ready: bool) returns (frame: Option<Bytes>)
      requires Valid() && |to| == 6
      modifies frameBuffer
      ensures frame == if ready && |payload| <= MTU then Some(Frame(to, mac, kind, payload)) else None
    {
      if !ready || |payload| > MTU || 14 + |payload| > frameBuffer.Length {
        return None;
      }
      StoreFrame(to, kind, payload);
      var size := 14 + |payload|;
      if size < 60 {
        Zero(frameBuffer, size, 60 - size);
        size := 60;
      }
      assert frameBuffer[..size] == Frame(to, mac, kind, payload);
      frame := Some(frameBuffer[..size]);
    }

    method StoreFrame(to: Bytes, kind: u16, payload: Bytes)
      requires Valid() && |to| == 6 && |payload| <= MTU
      modifies frameBuffer
      ensures frameBuffer[..14 + |payload|] == to + mac + Be16(kind) + payload
    {
      Copy(frameBuffer, 0, to);
      assert frameBuffer[..6] == to;
      Copy(frameBuffer, 6, mac);
      assert frameBuffer[..12] == to + mac;
      Write16(frameBuffer, 12, kind);
      assert frameBuffer[..14] == to + mac + Be16(kind);
      Copy(frameBuffer, 14, payload);
    }

    /** udp_send_to */
    method SendUdp(destination: u32, sourcePort: u16, destinationPort: u16, payload: Bytes, resolved: Option<Bytes>, ready: bool)
      returns (frame: Option<Bytes>)
      requires Valid() && (resolved.Some? ==> |resolved.value| == 6)
      modifies this`nextId, segmentBuffer, packetBuffer, frameBuffer
      ensures frame.Some? <==> && config.configured && destination != 0 && destination != BROADCAST
                               && sourcePort != 0 && destinationPort != 0 && 28 + |payload| <= MTU && resolved.Some? && ready
      ensures frame.Some? ==> frame.value == Frame(resolved.value, mac, TYPE_IPV4,
                                                   Ipv4Packet(old(nextId), UDP, config.address, destination,
                                                              UdpSegment(config.address, destination, sourcePort, destinationPort, payload)))
    {
      if !config.configured || destination == 0 || destination == BROADCAST || sourcePort == 0 || destinationPort == 0
         || 8 + |payload| > MTU
      {
        return None;
      }
      StoreUdp(destination, sourcePort, destinationPort, payload);
      frame := SendPacket(destination, UDP, segmentBuffer[..8 + |payload|], resolved, ready);
    }

    /** send_segment */
    method SendTcp(destination: u32, h: Segment, opening: bool, resolved: Option<Bytes>, ready: bool) returns (frame: Option<Bytes>)
      requires Valid() && (resolved.Some? ==> |resolved.value| == 6)
      modifies this`nextId, segmentBuffer, packetBuffer, frameBuffer
      ensures frame.Some? <==> config.configured && destination != 0 && resolved.Some? && ready
      ensures frame.Some? ==> frame.value == Frame(resolved.value, mac, TYPE_IPV4,
                                                   Ipv4Packet(old(nextId), TCP, config.address, destination,
                                                              TcpSegment(config.address, destination, h, opening)))
    {
      if !config.configured {
        return None;
      }
      var size := StoreTcp(destination, h, opening);
      frame := SendPacket(destination, TCP, segmentBuffer[..size], resolved, ready);
    }
  }

  /** Between two hosts: what udp_send_to hands to its device arrives at the handler of the addressee. */
  method Exchange(sender: Stack, receiver: Config, destination: u32, sourcePort: u16, destinationPort: u16, payload: Bytes,
                  resolved: Option<Bytes>, ready: bool) returns (sent: bool, r: Option<Delivery>)
    requires sender.Valid() && (resolved.Some? ==> |resolved.value| == 6) && ForUs(receiver, destination)
    modifies sender`nextId, sender.segmentBuffer, sender.packetBuffer, sender.frameBuffer
    ensures sent <==> && sender.config.configured && destination != 0 && destination != BROADCAST
                      && sourcePort != 0 && destinationPort != 0 && 28 + |payload| <= MTU && resolved.Some? && ready
    ensures r == if sent then Some(Delivery(sender.config.address, sourcePort, destinationPort, payload)) else None
  {
    ghost var id := sender.nextId;
    var frame := sender.SendUdp(destination, sourcePort, destinationPort, payload, resolved, ready);
    if frame.None? {
      return false, None;
    }
    UdpEndToEnd(receiver, resolved.value, sender.mac, id, sender.config.address, destination, sourcePort, destinationPort, payload);
    var packet := Ipv4Receive(receiver, frame.value);
    r := UdpReceive(packet.value.source, packet.value.destination, packet.value.payload);
    sent := true;
  }
}
