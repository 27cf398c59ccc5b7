/** The DHCP server of src/gdhcp/server.c on values: its lease table, the
    operations on it, and one step per received packet. LeaseServer.dfy shows
    that the list and hash of lease objects refine this. */
module LeaseTable {
  import opened Bytes
  import opened Wrappers

  type Mac = m: bytes | |m| == 6 witness [0, 0, 0, 0, 0, 0]

  const MAC_BCAST: Mac := [255, 255, 255, 255, 255, 255]
  const MAC_ANY: Mac := [0, 0, 0, 0, 0, 0]

  const OFFER_TIME: nat := 300

  /** One lease; expire is in seconds, addresses are in host order. */
  datatype Lease = Lease(expire: int, nip: nat, mac: Mac)

  /** The lease list, latest expiry first. */
  type Table = seq<Lease>

  /** An address in host order, a uint32_t. */
  type Address = ip: nat | ip <= LAST_ADDRESS

  const LAST_ADDRESS: nat := 0xffff_ffff

  datatype Config = Config(startIp: Address, endIp: Address, serverNip: nat, leaseSeconds: nat)

  function ByMac(t: Table, mac: Mac): Option<Lease> {
    if t == [] then None else if t[0].mac == mac then Some(t[0]) else ByMac(t[1..], mac)
  }

  function ByNip(t: Table, nip: nat): Option<Lease> {
    if t == [] then None else if t[0].nip == nip then Some(t[0]) else ByNip(t[1..], nip)
  }

  /** Truncation of a 64-bit difference to a C int. */
  function ToInt32(x: int): int {
    (x + 0x8000_0000) % 0x1_0000_0000 - 0x8000_0000
  }

  /** compare_expire: positive when b expires later than a. */
  function CompareExpire(a: int, b: int): int {
    ToInt32(b - a)
  }

  /** g_list_insert_sorted: before the first element that does not expire later. */
  function Insert(t: Table, l: Lease): Table {
    if t == [] then [l]
    else if CompareExpire(l.expire, t[0].expire) <= 0 then [l] + t
    else [t[0]] + Insert(t[1..], l)
  }

  /** The table without the leases of an address and of a client. */
  function Without(t: Table, nip: nat, mac: Mac): Table {
    if t == [] then []
    else if t[0].nip == nip || t[0].mac == mac then Without(t[1..], nip, mac)
    else [t[0]] + Without(t[1..], nip, mac)
  }

  predicate Leasable(cfg: Config, nip: nat, mac: Mac) {
    nip != 0 && cfg.startIp <= nip <= cfg.endIp && mac != MAC_BCAST && mac != MAC_ANY
  }

  /** add_lease: replace whatever the address or the client had. Expiry 0 stands
      for a full lease time from now. */
  function AddLease(cfg: Config, t: Table, expire: nat, mac: Mac, nip: nat, now: int): Option<Table> {
    if !Leasable(cfg, nip, mac) then None
    else Some(Insert(Without(t, nip, mac), Lease(if expire == 0 then now + cfg.leaseSeconds else expire, nip, mac)))
  }

  /** lease_set_expire takes its time as 32 bits. */
  function SetExpire(t: Table, l: Lease, now: int): Table {
    Insert(Without(t, l.nip, l.mac), l.(expire := now % 0x1_0000_0000))
  }

  predicate Expired(l: Lease, now: int) {
    l.expire < now
  }

  /** Network and broadcast addresses (.0 and .255) are never handed out. */
  predicate Usable(ip: nat) {
    ip % 256 != 0 && ip % 256 != 255
  }

  function FirstFree(t: Table, ip: nat, endIp: nat): Option<nat>
    decreases endIp + 1 - ip
  {
    if ip > endIp then None
    else if Usable(ip) && ByNip(t, ip).None? then Some(ip)
    else FirstFree(t, ip + 1, endIp)
  }

  /** find_free_or_expired_nip. In a range up to the last address there is, the loop counter
      wraps around to 0 and the search goes on below the range. */
  function FindFreeOrExpired(cfg: Config, t: Table, now: int): nat {
    match FirstFree(t, cfg.startIp, cfg.endIp)
    case Some(ip) => ip
    case None =>
      if cfg.endIp == LAST_ADDRESS then
        match FirstFree(t, 0, LAST_ADDRESS)
        case Some(ip) => ip
        case None => 0
      else if t != [] && Expired(t[|t| - 1], now) then t[|t| - 1].nip else 0
  }

  /** Otherwise every usable address is leased, and the loop does not end. */
  predicate SearchEnds(cfg: Config, t: Table) {
    cfg.endIp < LAST_ADDRESS || FirstFree(t, 0, LAST_ADDRESS).Some?
  }

  /** check_requested_nip: in range, and free or expired. */
  predicate MayRequest(cfg: Config, t: Table, nip: nat, now: int) {
    && nip != 0 && cfg.startIp <= nip <= cfg.endIp
    && match ByNip(t, nip)
       case None => true
       case Some(l) => Expired(l, now)
  }

  // ----- packets -----

  const BOOTREQUEST: nat := 1
  const DISCOVER: nat := 1
  const REQUEST: nat := 3
  const DECLINE: nat := 4
  const RELEASE: nat := 7
  const INFORM: nat := 8

  /** A received packet as far as the server looks at it. */
  datatype Packet = Packet(op: nat, hlen: nat, msgType: Option<nat>, serverId: Option<nat>,
                           requestedIp: Option<nat>, ciaddr: nat, chaddr: Mac)

  datatype Reply = Offer(nip: nat) | Ack(nip: nat) | Nak | InformAck

  datatype Stepped = Stepped(table: Table, reply: Option<Reply>)

  /** check_packet_type: 0 for packets to ignore. */
  function PacketType(p: Packet): nat {
    if p.hlen != 6 || p.op != BOOTREQUEST || p.msgType.None? then 0
    else if p.msgType.value < DISCOVER || p.msgType.value > INFORM then 0
    else p.msgType.value
  }

  function Requested(p: Packet): nat {
    match p.requestedIp
    case None => 0
    case Some(nip) => nip
  }

  function OfferedNip(cfg: Config, t: Table, p: Packet, now: int): nat {
    match ByMac(t, p.chaddr)
    case Some(l) => l.nip
    case None => if MayRequest(cfg, t, Requested(p), now) then Requested(p) else FindFreeOrExpired(cfg, t, now)
  }

  function OnDiscover(cfg: Config, t: Table, p: Packet, now: int): Stepped {
    var nip := OfferedNip(cfg, t, p, now);
    if nip == 0 then Stepped(t, None)
    else
      match AddLease(cfg, t, OFFER_TIME, p.chaddr, nip, now)
      case None => Stepped(t, None)
      case Some(t') => Stepped(t', Some(Offer(nip)))
  }

  function OnRequest(cfg: Config, t: Table, p: Packet, now: int): Stepped {
    var nip := if Requested(p) == 0 then p.ciaddr else Requested(p);
    var lease := ByMac(t, p.chaddr);
    if nip == 0 then Stepped(t, None)
    else if lease.Some? && nip == lease.value.nip then
      match AddLease(cfg, t, 0, p.chaddr, nip, now)
      case None => Stepped(t, Some(Ack(nip)))
      case Some(t') => Stepped(t', Some(Ack(nip)))
    else if p.serverId.Some? || lease.None? then Stepped(t, Some(Nak))
    else Stepped(t, None)
  }

  function OnDecline(t: Table, p: Packet): Stepped {
    match ByMac(t, p.chaddr)
    case None => Stepped(t, None)
    case Some(l) =>
      if p.serverId.Some? && p.requestedIp.Some? && Requested(p) == l.nip then Stepped(Without(t, l.nip, l.mac), None)
      else Stepped(t, None)
  }

  function OnRelease(t: Table, p: Packet, now: int): Stepped {
    match ByMac(t, p.chaddr)
    case None => Stepped(t, None)
    case Some(l) =>
      if p.serverId.Some? && p.ciaddr == l.nip then Stepped(SetExpire(t, l, now), None)
      else Stepped(t, None)
  }

  /** listener_event: what one packet does to the table, and the reply. */
  function Step(cfg: Config, t: Table, p: Packet, now: int): Stepped {
    var kind := PacketType(p);
    if p.serverId.Some? && p.serverId.value != cfg.serverNip then Stepped(t, None)
    else if kind == DISCOVER then OnDiscover(cfg, t, p, now)
    else if kind == REQUEST then OnRequest(cfg, t, p, now)
    else if kind == DECLINE then OnDecline(t, p)
    else if kind == RELEASE then OnRelease(t, p, now)
    else if kind == INFORM then Stepped(t, Some(InformAck))
    else Stepped(t, None)
  }

  // ----- the table invariant -----

  /** No lease in t has l's address or client. */
  predicate Apart(l: Lease, t: Table) {
    t == [] || (t[0].nip != l.nip && t[0].mac != l.mac && Apart(l, t[1..]))
  }

  /** No address and no client twice. */
  predicate Distinct(t: Table) {
    t == [] || (Apart(t[0], t[1..]) && Distinct(t[1..]))
  }

  predicate AllLeasable(cfg: Config, t: Table) {
    t == [] || (Leasable(cfg, t[0].nip, t[0].mac) && AllLeasable(cfg, t[1..]))
  }

  /** What every step keeps whatever the clock says. */
  predicate Consistent(cfg: Config, t: Table) {
    Distinct(t) && AllLeasable(cfg, t)
  }

  predicate AtMost(t: Table, e: int) {
    t == [] || (t[0].expire <= e && AtMost(t[1..], e))
  }

  /** Latest expiry first. */
  predicate Sorted(t: Table) {
    t == [] || (AtMost(t[1..], t[0].expire) && Sorted(t[1..]))
  }

  lemma {:induction false} ApartAt(l: Lease, t: Table)
    ensures Apart(l, t) <==> forall i :: 0 <= i < |t| ==> t[i].nip != l.nip && t[i].mac != l.mac
  {
    if t != [] {
      ApartAt(l, t[1..]);
      assert forall i :: 0 < i < |t| ==> t[i] == t[1..][i - 1];
      assert forall i :: 0 <= i < |t| - 1 ==> t[1..][i] == t[i + 1];
    }
  }

  /** The invariant read by index: addresses and clients are pairwise different. */
  lemma {:induction false} DistinctPairs(t: Table)
    requires Distinct(t)
    ensures forall i, j :: 0 <= i < j < |t| ==> t[i].nip != t[j].nip && t[i].mac != t[j].mac
  {
    if t != [] {
      DistinctPairs(t[1..]);
      ApartAt(t[0], t[1..]);
      forall i, j | 0 <= i < j < |t|
        ensures t[i].nip != t[j].nip && t[i].mac != t[j].mac
      {
        assert t[j] == t[1..][j - 1] && (i > 0 ==> t[i] == t[1..][i - 1]);
      }
    }
  }

  lemma {:induction false} AtMostAt(t: Table, e: int)
    requires AtMost(t, e)
    ensures forall i :: 0 <= i < |t| ==> t[i].expire <= e
  {
    if t != [] {
      AtMostAt(t[1..], e);
      assert forall i :: 0 < i < |t| ==> t[i] == t[1..][i - 1];
    }
  }

  /** The order read by index. */
  lemma {:induction false} SortedPairs(t: Table)
    requires Sorted(t)
    ensures forall i, j :: 0 <= i < j < |t| ==> t[i].expire >= t[j].expire
  {
    if t != [] {
      SortedPairs(t[1..]);
      AtMostAt(t[1..], t[0].expire);
      forall i, j | 0 <= i < j < |t|
        ensures t[i].expire >= t[j].expire
      {
        assert t[j] == t[1..][j - 1] && (i > 0 ==> t[i] == t[1..][i - 1]);
      }
    }
  }

  lemma {:induction false} WithoutApart(x: Lease, t: Table, nip: nat, mac: Mac)
    requires Apart(x, t)
    ensures Apart(x, Without(t, nip, mac))
  {
    if t != [] {
      WithoutApart(x, t[1..], nip, mac);
    }
  }

  lemma {:induction false} WithoutClears(x: Lease, t: Table)
    ensures Apart(x, Without(t, x.nip, x.mac))
  {
    if t != [] {
      WithoutClears(x, t[1..]);
    }
  }

  lemma {:induction false} WithoutDistinct(t: Table, nip: nat, mac: Mac)
    requires Distinct(t)
    ensures Distinct(Without(t, nip, mac))
  {
    if t != [] {
      WithoutDistinct(t[1..], nip, mac);
      WithoutApart(t[0], t[1..], nip, mac);
    }
  }

  lemma {:induction false} WithoutLeasable(cfg: Config, t: Table, nip: nat, mac: Mac)
    requires AllLeasable(cfg, t)
    ensures AllLeasable(cfg, Without(t, nip, mac))
  {
    if t != [] {
      WithoutLeasable(cfg, t[1..], nip, mac);
    }
  }

  lemma {:induction false} WithoutAtMost(t: Table, nip: nat, mac: Mac, e: int)
    requires AtMost(t, e)
    ensures AtMost(Without(t, nip, mac), e)
  {
    if t != [] {
      WithoutAtMost(t[1..], nip, mac, e);
    }
  }

  lemma {:induction false} WithoutSorted(t: Table, nip: nat, mac: Mac)
    requires Sorted(t)
    ensures Sorted(Without(t, nip, mac))
  {
    if t != [] {
      WithoutSorted(t[1..], nip, mac);
      WithoutAtMost(t[1..], nip, mac, t[0].expire);
    }
  }

  lemma {:induction false} InsertApart(x: Lease, t: Table, l: Lease)
    requires Apart(x, t) && x.nip != l.nip && x.mac != l.mac
    ensures Apart(x, Insert(t, l))
  {
    if t != [] {
      InsertApart(x, t[1..], l);
    }
  }

  lemma {:induction false} InsertDistinct(t: Table, l: Lease)
    requires Distinct(t) && Apart(l, t)
    ensures Distinct(Insert(t, l))
  {
    if t != [] {
      InsertDistinct(t[1..], l);
      InsertApart(t[0], t[1..], l);
    }
  }

  lemma {:induction false} InsertLeasable(cfg: Config, t: Table, l: Lease)
    requires AllLeasable(cfg, t) && Leasable(cfg, l.nip, l.mac)
    ensures AllLeasable(cfg, Insert(t, l))
  {
    if t != [] {
      InsertLeasable(cfg, t[1..], l);
    }
  }

  lemma {:induction false} AtMostWeaken(t: Table, d: int, e: int)
    requires AtMost(t, d) && d <= e
    ensures AtMost(t, e)
  {
    if t != [] {
      AtMostWeaken(t[1..], d, e);
    }
  }

  lemma {:induction false} InsertAtMost(t: Table, l: Lease, e: int)
    requires AtMost(t, e) && l.expire <= e
    ensures AtMost(Insert(t, l), e)
  {
    if t != [] {
      InsertAtMost(t[1..], l, e);
    }
  }

  // ----- look-ups -----

  lemma {:induction false} ApartLookup(l: Lease, t: Table)
    requires Apart(l, t)
    ensures ByMac(t, l.mac).None? && ByNip(t, l.nip).None?
  {
    if t != [] {
      ApartLookup(l, t[1..]);
    }
  }

  lemma {:induction false} ApartFrom(l: Lease, t: Table, mac: Mac)
    requires Apart(l, t) && ByMac(t, mac).Some?
    ensures var x := ByMac(t, mac).value; x.mac == mac && x.mac != l.mac && x.nip != l.nip
  {
    if t[0].mac != mac {
      ApartFrom(l, t[1..], mac);
    }
  }

  /** The two look-ups agree: a client's lease is the lease of its address. */
  lemma {:induction false} LookupsAgree(t: Table, mac: Mac)
    requires Distinct(t) && ByMac(t, mac).Some?
    ensures var l := ByMac(t, mac).value; l.mac == mac && ByNip(t, l.nip) == Some(l)
  {
    if t[0].mac != mac {
      LookupsAgree(t[1..], mac);
      ApartFrom(t[0], t[1..], mac);
    }
  }

  lemma {:induction false} LeasableLookup(cfg: Config, t: Table, mac: Mac)
    requires AllLeasable(cfg, t) && ByMac(t, mac).Some?
    ensures Leasable(cfg, ByMac(t, mac).value.nip, mac)
  {
    if t[0].mac != mac {
      LeasableLookup(cfg, t[1..], mac);
    }
  }

  /** Clearing keeps exactly the leases of other clients and other addresses. */
  lemma {:induction false} WithoutByMac(t: Table, nip: nat, mac: Mac, m: Mac)
    requires Distinct(t)
    ensures ByMac(Without(t, nip, mac), m) ==
            match ByMac(t, m)
            case None => None
            case Some(l) => if l.nip == nip || m == mac then None else Some(l)
  {
    if t != [] {
      WithoutByMac(t[1..], nip, mac, m);
      if t[0].mac == m {
        ApartLookup(t[0], t[1..]);
      }
    }
  }

  lemma {:induction false} InsertByMac(t: Table, l: Lease, m: Mac)
    requires Apart(l, t)
    ensures ByMac(Insert(t, l), m) == if m == l.mac then Some(l) else ByMac(t, m)
  {
    if t != [] {
      InsertByMac(t[1..], l, m);
    }
  }

  /** A new lease replaces those of its address and its client, and no others. */
  lemma PutByMac(t: Table, l: Lease, m: Mac)
    requires Distinct(t)
    ensures ByMac(Insert(Without(t, l.nip, l.mac), l), m) ==
            if m == l.mac then Some(l)
            else match ByMac(t, m)
                 case None => None
                 case Some(x) => if x.nip == l.nip then None else Some(x)
  {
    WithoutClears(l, t);
    InsertByMac(Without(t, l.nip, l.mac), l, m);
    WithoutByMac(t, l.nip, l.mac, m);
  }

  lemma PutConsistent(cfg: Config, t: Table, l: Lease)
    requires Consistent(cfg, t) && Leasable(cfg, l.nip, l.mac)
    ensures Consistent(cfg, Insert(Without(t, l.nip, l.mac), l))
  {
    WithoutClears(l, t);
    WithoutDistinct(t, l.nip, l.mac);
    WithoutLeasable(cfg, t, l.nip, l.mac);
    InsertDistinct(Without(t, l.nip, l.mac), l);
    InsertLeasable(cfg, Without(t, l.nip, l.mac), l);
  }

  /** Every step keeps the table consistent. */
  lemma StepConsistent(cfg: Config, t: Table, p: Packet, now: int)
    requires Consistent(cfg, t)
    ensures Consistent(cfg, Step(cfg, t, p, now).table)
  {
    hide Insert, Without, Distinct, AllLeasable;
    var nip := OfferedNip(cfg, t, p, now);
    if Leasable(cfg, nip, p.chaddr) {
      PutConsistent(cfg, t, Lease(OFFER_TIME, nip, p.chaddr));
    }
    var lease := ByMac(t, p.chaddr);
    if lease.Some? {
      var l := lease.value;
      LookupsAgree(t, p.chaddr);
      LeasableLookup(cfg, t, p.chaddr);
      PutConsistent(cfg, t, Lease(now + cfg.leaseSeconds, l.nip, p.chaddr));
      PutConsistent(cfg, t, l.(expire := now % 0x1_0000_0000));
      WithoutDistinct(t, l.nip, l.mac);
      WithoutLeasable(cfg, t, l.nip, l.mac);
    }
  }
}
