/** The raw IP/UDP frame around a DHCP packet: dhcp_send_raw_packet of
    src/gdhcp/common.c builds it, dhcp_recv_l2_packet of src/gdhcp/client.c
    checks and opens it. Both fill in a pseudo-header for the UDP checksum, in
    different ways; sender and receiver may differ in byte order. */
module Frame {
  import opened Bytes
  import opened Checksum

  const IP_SIZE: nat := 20
  const HEADERS: nat := 28
  const PACKET_SIZE: nat := 628       // struct dhcp_packet
  const FULL_SIZE: nat := 656         // struct ip_udp_dhcp_packet
  const IP_UDP_DHCP_SIZE: nat := 576  // without EXTEND_FOR_BUGGY_SERVERS
  const UDP_DHCP_SIZE: nat := 556
  const COOKIE: nat := 236            // offset of the magic in a packet
  const IPPROTO_UDP: byte := 17
  const CLIENT_PORT: nat := 68

  type Addr = a: bytes | |a| == 4 witness [0, 0, 0, 0]

  predicate HasMagic(packet: bytes)
    requires |packet| >= COOKIE + 4
  {
    packet[COOKIE] == 0x63 && packet[COOKIE + 1] == 0x82 && packet[COOKIE + 2] == 0x53 && packet[COOKIE + 3] == 0x63
  }

  /** A 16-bit field in network order. */
  function Net16(hi: byte, lo: byte): (w: nat)
    ensures w < WORD
  {
    256 * hi + lo
  }

  /** The IP header with its checksum field cleared. */
  function IpPlain(f: bytes): (h: bytes)
    requires |f| >= HEADERS
    ensures |h| == IP_SIZE
  {
    f[..IP_SIZE][10 := 0][11 := 0]
  }

  /** One byte of the frame as the UDP checksum sees it: of the IP header only
      protocol and addresses, with the UDP length in place of the total length,
      and the UDP checksum cleared. */
  function PseudoByte(f: bytes, i: nat): byte
    requires |f| >= HEADERS && i < |f|
  {
    if i == 2 then f[24] else if i == 3 then f[25]
    else if i < 9 || i == 10 || i == 11 || i == 26 || i == 27 then 0
    else f[i]
  }

  function Pseudo(f: bytes, n: nat): (p: bytes)
    requires HEADERS <= |f| && n <= |f|
    ensures |p| == n && forall i :: 0 <= i < n ==> p[i] == PseudoByte(f, i)
  {
    seq(n, i requires 0 <= i < n => PseudoByte(f, i))
  }

  // ----- sending -----

  /** What is transmitted: fixed header fields, the addresses and ports, the first
      548 bytes of the packet, and both checksums. */
  predicate IsFrame(f: bytes, packet: bytes, saddr: Addr, daddr: Addr, sport: nat, dport: nat, big: bool)
    requires |packet| == PACKET_SIZE && sport < WORD && dport < WORD
  {
    && |f| == IP_UDP_DHCP_SIZE
    && f[0] == 0x45 && f[1] == 0 && Net16(f[2], f[3]) == IP_UDP_DHCP_SIZE
    && f[4] == f[5] == f[6] == f[7] == 0 && f[8] == 64 && f[9] == IPPROTO_UDP
    && (f[10], f[11]) == Store(Check(IpPlain(f), big), big)
    && f[12..16] == saddr && f[16..20] == daddr
    && Net16(f[20], f[21]) == sport && Net16(f[22], f[23]) == dport && Net16(f[24], f[25]) == UDP_DHCP_SIZE
    && (f[26], f[27]) == Store(Check(Pseudo(f, IP_UDP_DHCP_SIZE), big), big)
    && f[HEADERS..] == packet[..IP_UDP_DHCP_SIZE - HEADERS]
  }

  method Put16(p: array<byte>, at: nat, v: nat)
    requires at + 1 < p.Length && v < WORD
    modifies p
    ensures p[at] == v / 256 && p[at + 1] == v % 256
    ensures forall i :: 0 <= i < p.Length && i != at && i != at + 1 ==> p[i] == old(p[i])
  {
    p[at] := v / 256;
    p[at + 1] := v % 256;
  }

  method PutWord(p: array<byte>, at: nat, v: nat, big: bool)
    requires at + 1 < p.Length && v < WORD
    modifies p
    ensures (p[at], p[at + 1]) == Store(v, big)
    ensures forall i :: 0 <= i < p.Length && i != at && i != at + 1 ==> p[i] == old(p[i])
  {
    var (a, b) := Store(v, big);
    p[at] := a;
    p[at + 1] := b;
  }

  /** The headers as they stand when the UDP checksum is computed. */
  method FillPseudo(p: array<byte>, packet: bytes, saddr: Addr, daddr: Addr, sport: nat, dport: nat)
    requires p.Length == FULL_SIZE && |packet| == PACKET_SIZE && sport < WORD && dport < WORD
    requires forall i :: 0 <= i < p.Length ==> p[i] == 0
    modifies p
    ensures forall i :: 0 <= i < 9 && i != 2 && i != 3 ==> p[i] == 0
    ensures p[2] == p[24] && p[3] == p[25] && p[9] == IPPROTO_UDP && p[10] == p[11] == p[26] == p[27] == 0
    ensures p[12..16] == saddr && p[16..20] == daddr
    ensures Net16(p[20], p[21]) == sport && Net16(p[22], p[23]) == dport && Net16(p[24], p[25]) == UDP_DHCP_SIZE
    ensures forall i :: 0 <= i < PACKET_SIZE ==> p[HEADERS + i] == packet[i]
  {
    CopyInto(p, HEADERS, packet);
    p[9] := IPPROTO_UDP;
    CopyInto(p, 12, saddr);
    CopyInto(p, 16, daddr);
    Put16(p, 20, sport);
    Put16(p, 22, dport);
    Put16(p, 24, UDP_DHCP_SIZE);
    p[2] := p[24];
    p[3] := p[25];
  }

  /** The UDP checksum over the pseudo-header and the packet. */
  method SealUdp(p: array<byte>, big: bool)
    requires p.Length == FULL_SIZE
    modifies p
    ensures (p[26], p[27]) == Store(Check(old(p[..IP_UDP_DHCP_SIZE]), big), big)
    ensures forall i :: 0 <= i < p.Length && i != 26 && i != 27 ==> p[i] == old(p[i])
  {
    var check := DhcpChecksum(p[..IP_UDP_DHCP_SIZE], big);
    PutWord(p, 26, check, big);
  }

  /** The IP header proper; its total length replaces the UDP length. */
  method SealIp(p: array<byte>, big: bool)
    requires p.Length == FULL_SIZE && p[10] == p[11] == 0
    modifies p
    ensures p[0] == 0x45 && p[8] == 64 && Net16(p[2], p[3]) == IP_UDP_DHCP_SIZE
    ensures (p[10], p[11]) == Store(Check(IpPlain(p[..]), big), big)
    ensures forall i :: 0 <= i < p.Length && i !in {0, 2, 3, 8, 10, 11} ==> p[i] == old(p[i])
  {
    Put16(p, 2, IP_UDP_DHCP_SIZE);
    p[0] := 0x45;
    p[8] := 64;
    ghost var plain := p[..IP_SIZE];
    var check := DhcpChecksum(p[..IP_SIZE], big);
    PutWord(p, 10, check, big);
    assert IpPlain(p[..]) == plain;
  }

  /** The finished frame f against the buffer g that the UDP checksum was taken over. */
  lemma Assembled(f: bytes, g: bytes, big: bool)
    requires |f| == |g| == FULL_SIZE && f[9] == IPPROTO_UDP
    requires forall i :: 0 <= i < 9 && i != 2 && i != 3 ==> g[i] == 0
    requires g[2] == g[24] && g[3] == g[25] && g[10] == g[11] == g[26] == g[27] == 0
    requires forall i :: 0 <= i < |f| && i !in {0, 2, 3, 8, 10, 11, 26, 27} ==> f[i] == g[i]
    ensures Pseudo(f[..IP_UDP_DHCP_SIZE], IP_UDP_DHCP_SIZE) == g[..IP_UDP_DHCP_SIZE]
    ensures IpPlain(f[..IP_UDP_DHCP_SIZE]) == IpPlain(f)
  {
    var h := f[..IP_UDP_DHCP_SIZE];
    forall i | 0 <= i < IP_UDP_DHCP_SIZE
      ensures PseudoByte(h, i) == g[i]
    {
    }
  }

  /** Build the frame in place; the total length field first holds the UDP length. */
  method BuildFrame(packet: bytes, saddr: Addr, daddr: Addr, sport: nat, dport: nat, big: bool) returns (p: array<byte>)
    requires |packet| == PACKET_SIZE && sport < WORD && dport < WORD
    ensures p.Length == FULL_SIZE && fresh(p)
    ensures IsFrame(p[..IP_UDP_DHCP_SIZE], packet, saddr, daddr, sport, dport, big)
  {
    hide Check, Store, Pseudo, IpPlain;
    p := new byte[FULL_SIZE](_ => 0);
    FillPseudo(p, packet, saddr, daddr, sport, dport);
    ghost var g := p[..];
    assert p[..IP_UDP_DHCP_SIZE] == g[..IP_UDP_DHCP_SIZE];
    SealUdp(p, big);
    SealIp(p, big);
    ghost var f := p[..];
    assert p[..IP_UDP_DHCP_SIZE] == f[..IP_UDP_DHCP_SIZE];
    Assembled(f, g, big);
    Fields(f, g, packet, saddr, daddr);
  }

  lemma Fields(f: bytes, g: bytes, packet: bytes, saddr: Addr, daddr: Addr)
    requires |f| == |g| == FULL_SIZE && |packet| == PACKET_SIZE
    requires forall i :: 12 <= i < |f| && i != 26 && i != 27 ==> f[i] == g[i]
    requires g[12..16] == saddr && g[16..20] == daddr
    requires forall i :: 0 <= i < PACKET_SIZE ==> g[HEADERS + i] == packet[i]
    ensures var h := f[..IP_UDP_DHCP_SIZE];
            h[12..16] == saddr && h[16..20] == daddr && h[HEADERS..] == packet[..IP_UDP_DHCP_SIZE - HEADERS]
  {
    var h := f[..IP_UDP_DHCP_SIZE];
    assert h[12..16] == g[12..16] && h[16..20] == g[16..20];
  }

  // ----- receiving -----

  /** What the receiver makes of a read: nothing, a payload, or a copy whose
      length (total length minus headers) has gone below zero. */
  datatype Received = Rejected | Payload(data: bytes) | Underflow

  predicate Sane(p: bytes, n: nat)
    requires |p| >= HEADERS
  {
    && p[9] == IPPROTO_UDP && p[0] / 16 == 4 && p[0] % 16 == 5
    && Net16(p[22], p[23]) == CLIENT_PORT && Net16(p[24], p[25]) == (n - IP_SIZE) % WORD
  }

  /** dhcp_recv_l2_packet on the bytes of one read. */
  function Receive(p: bytes, big: bool): Received {
    if |p| < HEADERS then Rejected
    else
      var n := Net16(p[2], p[3]);
      if |p| < n || !Sane(p, n) then Rejected
      else if Load(p[10], p[11], big) != Check(IpPlain(p), big) then Rejected
      else
        var check := Load(p[26], p[27], big);
        if check != 0 && check != Check(Pseudo(p, n), big) then Rejected
        else if n < HEADERS then Underflow
        else if n < HEADERS + COOKIE + 4 || !HasMagic(p[HEADERS..n]) then Rejected
        else Payload(p[HEADERS..n])
  }

  /** The receiver modifies its copy of the frame: it clears everything in front of
      the protocol, then puts the UDP length where the total length was. */
  method MakePseudo(p: array<byte>, ghost f: bytes)
    requires HEADERS <= |f| <= p.Length && forall i :: 0 <= i < |f| ==> p[i] == if i == 10 || i == 11 then 0 else f[i]
    modifies p
    ensures forall i :: 0 <= i < |f| ==> p[i] == PseudoByte(f, i)
  {
    for i := 0 to 9
      invariant forall k :: 0 <= k < i ==> p[k] == 0
      invariant forall k :: i <= k < p.Length ==> p[k] == old(p[k])
    {
      p[i] := 0;
    }
    p[2] := p[24];
    p[3] := p[25];
    p[26] := 0;
    p[27] := 0;
  }

  /** The IP checksum test; it clears the checksum field on the way. */
  method IpChecked(p: array<byte>, ghost f: bytes, big: bool) returns (ok: bool)
    requires HEADERS <= |f| <= p.Length && forall i :: 0 <= i < |f| ==> p[i] == f[i]
    modifies p
    ensures ok <==> Load(f[10], f[11], big) == Check(IpPlain(f), big)
    ensures forall i :: 0 <= i < |f| ==> p[i] == if i == 10 || i == 11 then 0 else f[i]
  {
    var check := Load(p[10], p[11], big);
    p[10] := 0;
    p[11] := 0;
    assert p[..IP_SIZE] == IpPlain(f);
    var expected := DhcpChecksum(p[..IP_SIZE], big);
    ok := check == expected;
  }

  /** The UDP checksum test over the declared length n, on the modified header. */
  method UdpChecked(p: array<byte>, n: nat, ghost f: bytes, big: bool) returns (ok: bool)
    requires HEADERS <= |f| <= p.Length && n <= |f| && n <= 0x1_0000
    requires forall i :: 0 <= i < |f| ==> p[i] == if i == 10 || i == 11 then 0 else f[i]
    modifies p
    ensures ok <==> Load(f[26], f[27], big) in {0, Check(Pseudo(f, n), big)}
    ensures forall i :: HEADERS <= i < |f| ==> p[i] == f[i]
  {
    var check := Load(p[26], p[27], big);
    MakePseudo(p, f);
    assert p[..n] == Pseudo(f, n);
    var expected := DhcpChecksum(p[..n], big);
    ok := check == 0 || check == expected;
  }

  method RecvL2Packet(buf: bytes, big: bool) returns (r: Received)
    requires |buf| <= FULL_SIZE
    ensures r == Receive(buf, big)
  {
    hide Check, HasMagic, Load, Pseudo, IpPlain;
    if |buf| < HEADERS {
      return Rejected;
    }
    var p := new byte[FULL_SIZE](_ => 0);
    CopyInto(p, 0, buf);
    var n := Net16(p[2], p[3]);
    if |buf| < n {
      return Rejected;
    }
    if p[9] != IPPROTO_UDP || p[0] / 16 != 4 || p[0] % 16 != 5 || Net16(p[22], p[23]) != CLIENT_PORT
       || Net16(p[24], p[25]) != (n - IP_SIZE) % WORD {
      return Rejected;
    }
    var ok := IpChecked(p, buf, big);
    if !ok {
      return Rejected;
    }
    ok := UdpChecked(p, n, buf, big);
    if !ok {
      return Rejected;
    }
    if n < HEADERS {
      return Underflow;
    }
    assert p[HEADERS..n] == buf[HEADERS..n];
    if n < HEADERS + COOKIE + 4 || !HasMagic(p[HEADERS..n]) {
      return Rejected;
    }
    return Payload(p[HEADERS..n]);
  }

  /** A frame is opened to the packet it was built around, whatever the byte orders
      of the two hosts and whatever trails the frame in the read. */
  lemma FrameRoundTrip(f: bytes, packet: bytes, saddr: Addr, daddr: Addr, sport: nat, trailer: bytes,
                       sender: bool, receiver: bool)
    requires |packet| == PACKET_SIZE && sport < WORD && HasMagic(packet)
    requires IsFrame(f, packet, saddr, daddr, sport, CLIENT_PORT, sender)
    ensures Receive(f + trailer, receiver) == Payload(packet[..IP_UDP_DHCP_SIZE - HEADERS])
  {
    hide Check, Store;
    var p := f + trailer;
    assert IpPlain(p) == IpPlain(f);
    assert Pseudo(p, IP_UDP_DHCP_SIZE) == Pseudo(f, IP_UDP_DHCP_SIZE);
    SameBytes(IpPlain(f), sender, receiver);
    SameBytes(Pseudo(f, IP_UDP_DHCP_SIZE), sender, receiver);
    assert p[HEADERS..IP_UDP_DHCP_SIZE] == f[HEADERS..];
  }

  // ----- what else is accepted -----

  /** A read fills at most the frame buffer, so a payload never exceeds a packet; and it is
      what follows the headers, up to the declared length. */
  lemma PayloadBound(p: bytes, big: bool)
    requires |p| <= FULL_SIZE
    ensures match Receive(p, big)
            case Payload(data) =>
              COOKIE + 4 <= |data| <= PACKET_SIZE && HEADERS + |data| == Net16(p[2], p[3]) <= |p|
              && data == p[HEADERS..HEADERS + |data|]
            case _ => true
  {
  }

  /** A frame with its addresses, ports, lengths and checksums in order, for the DHCP client:
      20 bytes of IPv4 header, protocol 17, port 68, and the checksums right, that of UDP
      unless it is 0. */
  predicate Proper(p: bytes, big: bool) {
    && |p| >= 28 && |p| >= Net16(p[2], p[3])
    && p[0] == 0x45 && p[9] == 17 && Net16(p[22], p[23]) == 68
    && Net16(p[24], p[25]) == (Net16(p[2], p[3]) - 20) % 0x1_0000
    && Load(p[10], p[11], big) == Check(IpPlain(p), big)
    && Load(p[26], p[27], big) in {0, Check(Pseudo(p, Net16(p[2], p[3])), big)}
  }

  /** A payload is handed over if and only if the frame is proper, and its payload begins as
      a packet with the DHCP cookie 99, 130, 83, 99 behind 236 bytes. */
  lemma PayloadIff(p: bytes, big: bool)
    ensures Receive(p, big).Payload? <==>
            && Proper(p, big) && Net16(p[2], p[3]) >= 28 + 240
            && p[264] == 99 && p[265] == 130 && p[266] == 83 && p[267] == 99
  {
    hide Check, Load;
  }

  /** Of any frame that hands over a payload, and that carries a UDP checksum, damage to any
      one byte of the payload makes the receiver reject it. */
  lemma DamageRejected(p: bytes, big: bool, k: nat, x: byte)
    requires Receive(p, big).Payload? && Load(p[26], p[27], big) != 0
    requires 28 <= k < Net16(p[2], p[3]) && x != p[k]
    ensures Receive(p[k := x], big) == Rejected
  {
    var q, n := p[k := x], Net16(p[2], p[3]);
    hide Check, Load, HasMagic;
    assert IpPlain(q) == IpPlain(p);
    assert Pseudo(q, n) == Pseudo(p, n)[k := x];
    OneByteShows(Pseudo(p, n), k, x, big);
  }

  /** What a frame whose declared total length is below the headers has to get right. */
  predicate ShortFrame(p: bytes, big: bool) {
    Proper(p, big) && Net16(p[2], p[3]) < HEADERS
  }

  /** The copy of negative length is reached by exactly these frames; every other read is
      rejected or copies no more than a packet holds. */
  lemma UnderflowIff(p: bytes, big: bool)
    ensures Receive(p, big) == Underflow <==> ShortFrame(p, big)
  {
    hide Check;
  }

  /** A header that declares n bytes, without a UDP checksum. */
  function ShortHeader(n: nat, saddr: Addr, daddr: Addr, sum: (byte, byte)): (p: bytes)
    requires n < HEADERS
    ensures |p| == HEADERS
  {
    [0x45, 0, 0, n, 0, 0, 0, 0, 64, IPPROTO_UDP, sum.0, sum.1] + saddr + daddr
    + [0, 0, 0, CLIENT_PORT, if n < IP_SIZE then 255 else 0, if n < IP_SIZE then 236 + n else n - IP_SIZE, 0, 0]
  }

  /** Such a frame exists for every declared length below 28, with any addresses. */
  lemma UnderflowExample(n: nat, saddr: Addr, daddr: Addr, big: bool)
    requires n < HEADERS
    ensures exists sum: (byte, byte) :: Receive(ShortHeader(n, saddr, daddr, sum), big) == Underflow
  {
    var q := ShortHeader(n, saddr, daddr, (0, 0));
    var sum := Store(Check(IpPlain(q), big), big);
    var p := ShortHeader(n, saddr, daddr, sum);
    hide Check, Store;
    assert IpPlain(p) == IpPlain(q);
    UnderflowIff(p, big);
  }
}
