/** DHCP packets in hand-made IP and UDP headers: sending, and the checks on receipt. */
module RawPacket {
  import opened Words
  import opened Checksum

  const IP_SIZE := 20
  const HEADERS_SIZE := 28
  const DATA_SIZE := 548
  const IP_UDP_DHCP_SIZE := 576
  const UDP_DHCP_SIZE := 556
  /** The receive buffer. */
  const PACKET_SIZE := 656
  const CLIENT_PORT := 68
  const IPPROTO_UDP: u8 := 17
  const IPDEFTTL: u8 := 64
  const COOKIE: seq<u8> := [0x63, 0x82, 0x53, 0x63]

  /** An IP header without options; `check` is the checksum field as stored. */
  function IpHeader(first: u8, totLen: u16, ttl: u8, check: seq<u8>, saddr: seq<u8>, daddr: seq<u8>): (r: seq<u8>)
    requires |check| == 2 && |saddr| == 4 && |daddr| == 4
    ensures |r| == IP_SIZE
  {
    ([first, 0] + Be16(totLen) + [0, 0, 0, 0, ttl, IPPROTO_UDP]) + check + (saddr + daddr)
  }

  function Udp(sport: u16, dport: u16, check: seq<u8>, data: seq<u8>): (r: seq<u8>)
    requires |check| == 2
    ensures |r| == 8 + |data|
  {
    (Be16(sport) + Be16(dport) + Be16(UDP_DHCP_SIZE)) + check + data
  }

  /** Where a packet comes from and goes to. */
  datatype Route = Route(saddr: seq<u8>, sport: u16, daddr: seq<u8>, dport: u16)

  predicate RouteOk(r: Route) {
    |r.saddr| == 4 && |r.daddr| == 4
  }

  /** What the UDP checksum covers: the packet with the header fields cleared that the pseudo header does not have. */
  function ChecksumView(r: Route, data: seq<u8>): (s: seq<u8>)
    requires RouteOk(r)
    ensures |s| == HEADERS_SIZE + |data|
  {
    IpHeader(0, UDP_DHCP_SIZE, 0, [0, 0], r.saddr, r.daddr) + Udp(r.sport, r.dport, [0, 0], data)
  }

  function FieldFor(bs: seq<u8>): (r: seq<u8>)
    ensures |r| == 2
  {
    Le16(0xffff - Folded(WordSum(bs)))
  }

  /** The frame that goes out. */
  function Frame(r: Route, data: seq<u8>): (s: seq<u8>)
    requires RouteOk(r)
    ensures |s| == HEADERS_SIZE + |data|
  {
    var ip := IpHeader(0x45, IP_UDP_DHCP_SIZE, IPDEFTTL, [0, 0], r.saddr, r.daddr);
    IpHeader(0x45, IP_UDP_DHCP_SIZE, IPDEFTTL, FieldFor(ip), r.saddr, r.daddr)
    + Udp(r.sport, r.dport, FieldFor(ChecksumView(r, data)), data)
  }

  /** `dhcp_send_raw_packet`. */
  method SendRawPacket(r: Route, data: seq<u8>) returns (frame: seq<u8>)
    requires RouteOk(r) && |data| == DATA_SIZE
    ensures frame == Frame(r, data)
  {
    var udpCheck := DhcpChecksum(ChecksumView(r, data));
    var ipCheck := DhcpChecksum(IpHeader(0x45, IP_UDP_DHCP_SIZE, IPDEFTTL, [0, 0], r.saddr, r.daddr));
    frame := IpHeader(0x45, IP_UDP_DHCP_SIZE, IPDEFTTL, Le16(ipCheck), r.saddr, r.daddr)
             + Udp(r.sport, r.dport, Le16(udpCheck), data);
  }

  // ---------- Receiving

  function Host16(p: seq<u8>, i: nat): (r: u16)
    requires i + 1 < |p|
  {
    p[i + 1] as int * 0x100 + p[i]
  }

  function Net16(p: seq<u8>, i: nat): (r: u16)
    requires i + 1 < |p|
  {
    p[i] as int * 0x100 + p[i + 1]
  }

  function Zeroed(p: seq<u8>, i: nat): (r: seq<u8>)
    requires i + 1 < |p|
    ensures |r| == |p|
  {
    p[i := 0][i + 1 := 0]
  }

  /** `sanity_check`. */
  predicate Sane(p: seq<u8>, bytes: nat)
    requires |p| >= HEADERS_SIZE && bytes >= IP_SIZE
  {
    p[9] == IPPROTO_UDP && p[0] / 0x10 == 4 && p[0] % 0x10 == 5
    && Net16(p, 22) == CLIENT_PORT && Net16(p, 24) == (bytes - IP_SIZE) % 0x1_0000
  }

  /** The packet as the UDP checksum of the receiver covers it. */
  function ReceiverView(p: seq<u8>): (r: seq<u8>)
    requires |p| >= HEADERS_SIZE
    ensures |r| == |p|
  {
    var cleared := [0, 0, p[24], p[25], 0, 0, 0, 0, 0, p[9], 0, 0] + p[12..];
    Zeroed(cleared, 26)
  }

  /** Length, header fields and both checksums of a received packet are in order. */
  predicate Accepted(p: seq<u8>)
    requires |p| >= 4
  {
    var totLen := Net16(p, 2);
    && HEADERS_SIZE <= totLen <= |p|
    && Sane(p, totLen)
    && Host16(p, 10) == 0xffff - Folded(WordSum(Zeroed(p[..IP_SIZE], 10)))
    && var check := Host16(p, 26);
    || check == 0
    || check == Folded(WordSum(ReceiverView(p)[..IP_SIZE]))
    || check == 0xffff - Folded(WordSum(ReceiverView(p)[..totLen]))
  }

  predicate HasCookie(data: seq<u8>) {
    |data| >= 240 && data[236..240] == COOKIE
  }

  /** `dhcp_recv_l2_packet` on the octets of one read. */
  method RecvL2Packet(frame: seq<u8>) returns (data: Option<seq<u8>>)
    requires |frame| <= PACKET_SIZE
    ensures data.Some? <==> |frame| >= 4 && Accepted(frame) && HasCookie(frame[HEADERS_SIZE..Net16(frame, 2)])
    ensures data.Some? ==> data.value == frame[HEADERS_SIZE..Net16(frame, 2)]
  {
    var bytes := |frame|;
    if bytes < 4 {
      return None;
    }
    var totLen := Net16(frame, 2);
    if bytes > totLen {
      bytes := totLen;
    } else if bytes < totLen {
      return None;
    }
    if bytes < HEADERS_SIZE || !Sane(frame, bytes) {
      return None;
    }
    var check := Host16(frame, 10);
    var c := DhcpChecksum(Zeroed(frame[..IP_SIZE], 10));
    if check != c {
      return None;
    }
    var view := ReceiverView(frame);
    check := Host16(frame, 26);
    if check != 0 {
      var partial := DhcpChecksum(view[..IP_SIZE]);
      c := DhcpChecksum(view[..bytes]);
      if check != 0xffff - partial && check != c {
        return None;
      }
    }
    var payload := frame[HEADERS_SIZE..bytes];
    if |payload| < 240 || payload[236..240] != COOKIE {
      return None;
    }
    return Some(payload);
  }

  lemma {:induction false} FrameFields(r: Route, data: seq<u8>)
    requires RouteOk(r) && |data| == DATA_SIZE
    ensures var p := Frame(r, data);
            && Net16(p, 2) == IP_UDP_DHCP_SIZE
            && (Sane(p, IP_UDP_DHCP_SIZE) <==> r.dport == CLIENT_PORT)
            && p[HEADERS_SIZE..IP_UDP_DHCP_SIZE] == data
            && Host16(p, 10)
                == 0xffff - Folded(WordSum(IpHeader(0x45, IP_UDP_DHCP_SIZE, IPDEFTTL, [0, 0], r.saddr, r.daddr)))
            && Host16(p, 26) == 0xffff - Folded(WordSum(ChecksumView(r, data)))
  {
    assert Frame(r, data)[HEADERS_SIZE..IP_UDP_DHCP_SIZE] == data;
  }

  lemma {:induction false} FrameViews(r: Route, data: seq<u8>)
    requires RouteOk(r) && |data| == DATA_SIZE
    ensures var p := Frame(r, data);
            && Zeroed(p[..IP_SIZE], 10) == IpHeader(0x45, IP_UDP_DHCP_SIZE, IPDEFTTL, [0, 0], r.saddr, r.daddr)
            && ReceiverView(p) == ChecksumView(r, data)
  {
    var p := Frame(r, data);
    assert Zeroed(p[..IP_SIZE], 10) == IpHeader(0x45, IP_UDP_DHCP_SIZE, IPDEFTTL, [0, 0], r.saddr, r.daddr);
    assert ReceiverView(p) == ChecksumView(r, data);
  }

  /** Every frame sent to the client port passes the checks of the receiver; frames to other ports do not. */
  lemma {:induction false} SentFramesAreAccepted(r: Route, data: seq<u8>)
    requires RouteOk(r) && |data| == DATA_SIZE
    ensures Accepted(Frame(r, data)) <==> r.dport == CLIENT_PORT
    ensures Frame(r, data)[HEADERS_SIZE..Net16(Frame(r, data), 2)] == data
  {
    FrameFields(r, data);
    FrameViews(r, data);
    var p := Frame(r, data);
    assert ReceiverView(p)[..IP_UDP_DHCP_SIZE] == ReceiverView(p);
  }

  /** The IP header of every frame sums to zero, as any receiver will find. */
  lemma {:induction false} SentHeadersVerify(r: Route, data: seq<u8>)
    requires RouteOk(r)
    ensures WordSum(Frame(r, data)[..IP_SIZE]) % 0xffff == 0
  {
    var before := [0x45, 0] + Be16(IP_UDP_DHCP_SIZE) + [0, 0, 0, 0, IPDEFTTL, IPPROTO_UDP];
    ChecksumVerifies(before, r.saddr + r.daddr);
    assert Frame(r, data)[..IP_SIZE] ==
           before + FieldFor(before + [0, 0] + (r.saddr + r.daddr)) + (r.saddr + r.daddr);
  }

  /**
   What one end sends to the client port as DHCP data, the other end receives; to any other
   port, or without the magic cookie, nothing.
   */
  method SendAndReceive(r: Route, data: seq<u8>) returns (received: Option<seq<u8>>)
    requires RouteOk(r) && |data| == DATA_SIZE
    ensures received == if r.dport == CLIENT_PORT && HasCookie(data) then Some(data) else None
  {
    var frame := SendRawPacket(r, data);
    SentFramesAreAccepted(r, data);
    received := RecvL2Packet(frame);
  }
}
