/** What the DHCP server answers, and what it records: for every packet the reply and the
    leases afterwards, told by the fields of the packet and the leases before. */
module LeaseReplies {
  import opened LeaseRuns
  import opened LeaseTable
  import opened Wrappers

  /** The server handles the packet as a message of that type. */
  predicate Heard(cfg: Config, p: Packet, kind: nat) {
    && p.op == 1 && p.hlen == 6 && p.msgType == Some(kind)
    && (p.serverId.None? || p.serverId == Some(cfg.serverNip))
  }

  /** The address a REQUEST is about: option 50, or else ciaddr. */
  function Wanted(p: Packet): nat {
    if p.requestedIp.Some? && p.requestedIp.value != 0 then p.requestedIp.value else p.ciaddr
  }

  /** An address that a client may ask for: in the range, and leased by nobody whose lease
      has not expired. */
  predicate Available(cfg: Config, t: Table, nip: nat, now: int) {
    && 0 < nip && cfg.startIp <= nip <= cfg.endIp
    && forall i :: 0 <= i < |t| && t[i].nip == nip ==> t[i].expire < now
  }

  /** No client but this one is touched. */
  ghost predicate OthersKeep(t: Table, t': Table, mac: Mac) {
    forall m: Mac :: m != mac ==> ByMac(t', m) == ByMac(t, m)
  }

  /** Messages of other types and for other servers are ignored. */
  lemma Ignored(cfg: Config, t: Table, p: Packet, now: int)
    ensures !(Heard(cfg, p, 1) || Heard(cfg, p, 3) || Heard(cfg, p, 4) || Heard(cfg, p, 7) || Heard(cfg, p, 8))
            ==> Step(cfg, t, p, now) == Stepped(t, None)
  {
    hide OnDiscover, OnRequest, OnDecline, OnRelease;
  }

  lemma HeardKind(cfg: Config, t: Table, p: Packet, now: int, kind: nat)
    requires Heard(cfg, p, kind)
    ensures kind == 1 ==> Step(cfg, t, p, now) == OnDiscover(cfg, t, p, now)
    ensures kind == 3 ==> Step(cfg, t, p, now) == OnRequest(cfg, t, p, now)
    ensures kind == 4 ==> Step(cfg, t, p, now) == OnDecline(t, p)
    ensures kind == 7 ==> Step(cfg, t, p, now) == OnRelease(t, p, now)
    ensures kind == 8 ==> Step(cfg, t, p, now) == Stepped(t, Some(InformAck))
  {
    hide OnDiscover, OnRequest, OnDecline, OnRelease;
  }

  // ----- DISCOVER -----

  lemma AvailableIff(cfg: Config, t: Table, nip: nat, now: int)
    requires Distinct(t)
    ensures Available(cfg, t, nip, now) <==> MayRequest(cfg, t, nip, now)
  {
    hide Distinct;
    if ByNip(t, nip).Some? {
      var k := FoundIn(t, nip);
      hide ByNip;
      forall i | 0 <= i < |t| && t[i].nip == nip
        ensures ByNip(t, nip) == Some(t[i])
      {
        LookupAt(t, i);
      }
    } else {
      forall i | 0 <= i < |t|
        ensures t[i].nip != nip
      {
        LookupAt(t, i);
      }
    }
  }

  /** A client that has a lease is offered its address again, whatever it asks for. */
  lemma DiscoverOwn(cfg: Config, t: Table, p: Packet, now: int)
    requires Consistent(cfg, t) && Heard(cfg, p, 1) && ByMac(t, p.chaddr).Some?
    ensures Step(cfg, t, p, now).reply == Some(Offer(ByMac(t, p.chaddr).value.nip))
  {
    LeasableLookup(cfg, t, p.chaddr);
    HeardKind(cfg, t, p, now, 1);
    hide Insert, Without, Step, FindFreeOrExpired;
  }

  predicate Ordinary(mac: Mac) {
    mac != [255, 255, 255, 255, 255, 255] && mac != [0, 0, 0, 0, 0, 0]
  }

  /** One without a lease is offered the address it asks for, if it may have it. */
  lemma DiscoverRequested(cfg: Config, t: Table, p: Packet, now: int, nip: nat)
    requires Consistent(cfg, t) && Heard(cfg, p, 1) && ByMac(t, p.chaddr).None? && Ordinary(p.chaddr)
    requires p.requestedIp == Some(nip) && Available(cfg, t, nip, now)
    ensures Step(cfg, t, p, now).reply == Some(Offer(nip))
  {
    AvailableIff(cfg, t, nip, now);
    HeardKind(cfg, t, p, now, 1);
    hide Insert, Without, Step, FindFreeOrExpired, MayRequest;
  }

  predicate AsksInVain(cfg: Config, t: Table, p: Packet, now: int) {
    p.requestedIp.None? || !Available(cfg, t, p.requestedIp.value, now)
  }

  /** Otherwise it is offered the first address that is in the range, does not end in 0 or
      255, and is leased to nobody. */
  lemma DiscoverFree(cfg: Config, t: Table, p: Packet, now: int, nip: nat)
    requires Consistent(cfg, t) && Heard(cfg, p, 1) && ByMac(t, p.chaddr).None? && Ordinary(p.chaddr)
    requires AsksInVain(cfg, t, p, now)
    requires cfg.startIp <= nip <= cfg.endIp && Unused(t, nip)
    requires forall x: nat :: cfg.startIp <= x < nip ==> !Unused(t, x)
    ensures Step(cfg, t, p, now).reply == Some(Offer(nip))
  {
    InVain(cfg, t, p, now);
    HeardKind(cfg, t, p, now, 1);
    FirstFreeLeast(t, cfg.startIp, cfg.endIp);
    UnusedIff(t, nip);
    var f := FirstFree(t, cfg.startIp, cfg.endIp);
    assert Usable(nip) && ByNip(t, nip).None?;
    UnusedIff(t, f.value);
    hide Insert, Without, Step, MayRequest, FirstFree, ByNip, ByMac, Unused;
  }

  predicate Unused(t: Table, nip: nat) {
    nip % 256 != 0 && nip % 256 != 255 && forall i :: 0 <= i < |t| ==> t[i].nip != nip
  }

  lemma UnusedIff(t: Table, nip: nat)
    ensures Unused(t, nip) <==> Usable(nip) && ByNip(t, nip).None?
  {
    AbsentIff(t, nip);
  }

  lemma {:induction false} AbsentIff(t: Table, nip: nat)
    ensures ByNip(t, nip).None? <==> forall i :: 0 <= i < |t| ==> t[i].nip != nip
  {
    if t != [] {
      AbsentIff(t[1..], nip);
      assert forall i :: 0 < i < |t| ==> t[i] == t[1..][i - 1];
      assert forall i :: 0 <= i < |t| - 1 ==> t[1..][i] == t[i + 1];
    }
  }

  lemma InVain(cfg: Config, t: Table, p: Packet, now: int)
    requires Consistent(cfg, t) && AsksInVain(cfg, t, p, now)
    ensures !MayRequest(cfg, t, Requested(p), now)
  {
    AvailableIff(cfg, t, Requested(p), now);
  }

  /** Without such an address, and in a range below the last one: the address of a lease
      that has expired, no later than any other; if there is none, nothing. */
  lemma DiscoverExpired(cfg: Config, t: Table, p: Packet, now: int)
    requires Consistent(cfg, t) && Sorted(t)
    requires Heard(cfg, p, 1) && ByMac(t, p.chaddr).None? && Ordinary(p.chaddr) && AsksInVain(cfg, t, p, now)
    requires cfg.endIp < 0xffff_ffff && forall x: nat :: cfg.startIp <= x <= cfg.endIp ==> !Unused(t, x)
    ensures match Step(cfg, t, p, now).reply
            case None => forall i :: 0 <= i < |t| ==> t[i].expire >= now
            case Some(r) =>
              r.Offer? && exists i :: 0 <= i < |t| && t[i].nip == r.nip && t[i].expire < now
                                      && forall j :: 0 <= j < |t| ==> t[i].expire <= t[j].expire
  {
    InVain(cfg, t, p, now);
    NoneFree(cfg, t);
    FreeAddressSearch(cfg, t, now);
    HeardKind(cfg, t, p, now, 1);
    var r := FindFreeOrExpired(cfg, t, now);
    if r != 0 {
      OldestLeasable(cfg, t, now, r, p.chaddr);
    }
    hide Insert, Without, Step, MayRequest, FindFreeOrExpired, ByNip, ByMac, HasFree, Distinct, AllLeasable, Sorted;
  }

  lemma NoneFree(cfg: Config, t: Table)
    requires forall x: nat :: cfg.startIp <= x <= cfg.endIp ==> !Unused(t, x)
    ensures !HasFree(cfg, t)
  {
    forall x: nat | cfg.startIp <= x <= cfg.endIp
      ensures !FreeAt(cfg, t, x)
    {
      UnusedIff(t, x);
    }
  }

  /** An offer is recorded until 300, in place of what the address and the client had; a
      DISCOVER that is not answered leaves the table as it was. */
  lemma OfferRecords(cfg: Config, t: Table, p: Packet, now: int)
    requires Consistent(cfg, t) && Heard(cfg, p, 1)
    ensures var s := Step(cfg, t, p, now);
            match s.reply
            case None => s.table == t
            case Some(r) =>
              r.Offer? && cfg.startIp <= r.nip <= cfg.endIp && r.nip > 0
              && ByMac(s.table, p.chaddr) == Some(Lease(300, r.nip, p.chaddr))
              && forall m: Mac :: m != p.chaddr ==>
                   ByMac(s.table, m) ==
                   if ByMac(t, m).Some? && ByMac(t, m).value.nip == r.nip then None else ByMac(t, m)
  {
    HeardKind(cfg, t, p, now, 1);
    var l := Lease(300, OfferedNip(cfg, t, p, now), p.chaddr);
    forall m: Mac
      ensures ByMac(Insert(Without(t, l.nip, l.mac), l), m) ==
              if m == l.mac then Some(l)
              else if ByMac(t, m).Some? && ByMac(t, m).value.nip == l.nip then None else ByMac(t, m)
    {
      PutByMac(t, l, m);
    }
    hide ByMac, Insert, Without, OfferedNip, Step;
  }

  // ----- REQUEST -----

  /** A REQUEST is acknowledged if and only if the client has a lease of the address it is
      about. It is refused if and only if the client has no lease at all, or names this server
      and is about another address than its own; a REQUEST about no address is ignored. */
  lemma RequestAnswered(cfg: Config, t: Table, p: Packet, now: int)
    requires Heard(cfg, p, 3)
    ensures var r, lease := Step(cfg, t, p, now).reply, ByMac(t, p.chaddr);
            r == if Wanted(p) == 0 then None
                 else if lease.Some? && lease.value.nip == Wanted(p) then Some(Ack(Wanted(p)))
                 else if lease.None? || p.serverId.Some? then Some(Nak)
                 else None
  {
    HeardKind(cfg, t, p, now, 3);
    hide ByMac, Insert, Without, Step;
  }

  /** Acknowledgements and refusals are replies to REQUESTs and to nothing else. */
  lemma OnlyRequests(cfg: Config, t: Table, p: Packet, now: int)
    ensures Step(cfg, t, p, now).reply.Some? ==>
              match Step(cfg, t, p, now).reply.value
              case Offer(_) => Heard(cfg, p, 1)
              case Ack(_) => Heard(cfg, p, 3)
              case Nak => Heard(cfg, p, 3)
              case InformAck => Heard(cfg, p, 8)
  {
    hide ByMac, Insert, Without, AddLease, OfferedNip;
  }

  /** An acknowledgement gives the client its full time from now and touches no other
      client; a REQUEST that is not acknowledged changes nothing. */
  lemma RequestRecords(cfg: Config, t: Table, p: Packet, now: int)
    requires Consistent(cfg, t) && Heard(cfg, p, 3)
    ensures var s := Step(cfg, t, p, now);
            if s.reply.Some? && s.reply.value.Ack? then
              ByMac(s.table, p.chaddr) == Some(Lease(now + cfg.leaseSeconds, s.reply.value.nip, p.chaddr))
              && OthersKeep(t, s.table, p.chaddr)
            else s.table == t
  {
    HeardKind(cfg, t, p, now, 3);
    var lease := ByMac(t, p.chaddr);
    if lease.Some? {
      LookupsAgree(t, p.chaddr);
      LeasableLookup(cfg, t, p.chaddr);
      Renewed(cfg, t, lease.value, Lease(now + cfg.leaseSeconds, lease.value.nip, p.chaddr));
    }
    hide ByMac, ByNip, Insert, Without, Step, Distinct, AllLeasable, OthersKeep;
  }

  /** Putting a client's lease back with another expiry. */
  lemma Renewed(cfg: Config, t: Table, l: Lease, l': Lease)
    requires Consistent(cfg, t) && ByMac(t, l.mac) == Some(l) && l'.nip == l.nip && l'.mac == l.mac
    ensures var t' := Insert(Without(t, l.nip, l.mac), l');
            ByMac(t', l.mac) == Some(l') && OthersKeep(t, t', l.mac)
  {
    var t' := Insert(Without(t, l.nip, l.mac), l');
    forall m: Mac
      ensures ByMac(t', m) == if m == l.mac then Some(l') else ByMac(t, m)
    {
      PutByMac(t, l', m);
      SameClient(t, l.mac, m);
    }
  }

  lemma SameClient(t: Table, a: Mac, b: Mac)
    requires Distinct(t)
    ensures ByMac(t, a).Some? && ByMac(t, b).Some? && ByMac(t, a).value.nip == ByMac(t, b).value.nip ==> a == b
  {
    if ByMac(t, a).Some? && ByMac(t, b).Some? {
      LookupsAgree(t, a);
      LookupsAgree(t, b);
    }
  }

  // ----- DECLINE, RELEASE, INFORM -----

  /** The client declines its own lease to this server. */
  predicate Declines(cfg: Config, t: Table, p: Packet) {
    Heard(cfg, p, 4) && p.serverId.Some? && ByMac(t, p.chaddr).Some?
    && p.requestedIp == Some(ByMac(t, p.chaddr).value.nip)
  }

  /** A DECLINE is never answered. One of the client's own address leaves client and address
      without a lease; any other changes nothing. */
  lemma DeclineEnds(cfg: Config, t: Table, p: Packet, now: int)
    requires Consistent(cfg, t) && Heard(cfg, p, 4)
    ensures var s := Step(cfg, t, p, now);
            && s.reply == None
            && if Declines(cfg, t, p) then
                 ByMac(s.table, p.chaddr) == None && ByNip(s.table, ByMac(t, p.chaddr).value.nip) == None
                 && OthersKeep(t, s.table, p.chaddr)
               else s.table == t
  {
    HeardKind(cfg, t, p, now, 4);
    if ByMac(t, p.chaddr).Some? {
      var l := ByMac(t, p.chaddr).value;
      LookupsAgree(t, p.chaddr);
      WithoutClears(l, t);
      ApartLookup(l, Without(t, l.nip, l.mac));
      forall m: Mac | m != l.mac
        ensures ByMac(Without(t, l.nip, l.mac), m) == ByMac(t, m)
      {
        WithoutByMac(t, l.nip, l.mac, m);
        SameClient(t, l.mac, m);
      }
    }
    hide ByMac, ByNip, Without, Step, Distinct, AllLeasable;
  }

  predicate Releases(cfg: Config, t: Table, p: Packet) {
    Heard(cfg, p, 7) && p.serverId.Some? && ByMac(t, p.chaddr).Some? && p.ciaddr == ByMac(t, p.chaddr).value.nip
  }

  /** A RELEASE is never answered. One of the client's own address makes its lease expire now,
      as 32 bits of the clock have it; any other changes nothing. */
  lemma ReleaseExpires(cfg: Config, t: Table, p: Packet, now: int)
    requires Consistent(cfg, t) && Heard(cfg, p, 7)
    ensures var s, lease := Step(cfg, t, p, now), ByMac(t, p.chaddr);
            && s.reply == None
            && if Releases(cfg, t, p) then
                 ByMac(s.table, p.chaddr) == Some(Lease(now % 0x1_0000_0000, lease.value.nip, p.chaddr))
                 && OthersKeep(t, s.table, p.chaddr)
               else s.table == t
  {
    HeardKind(cfg, t, p, now, 7);
    if ByMac(t, p.chaddr).Some? {
      var l := ByMac(t, p.chaddr).value;
      LookupsAgree(t, p.chaddr);
      Renewed(cfg, t, l, l.(expire := now % 0x1_0000_0000));
    }
    hide ByMac, ByNip, Insert, Without, Step, Distinct, AllLeasable, OthersKeep;
  }

  /** An INFORM is answered and changes nothing. */
  lemma InformAnswered(cfg: Config, t: Table, p: Packet, now: int)
    requires Heard(cfg, p, 8)
    ensures Step(cfg, t, p, now) == Stepped(t, Some(InformAck))
  {
    HeardKind(cfg, t, p, now, 8);
  }

  // ----- reading the table -----

  /** In every run from an empty table: no client and no address is leased twice, every
      address is in the range and not 0, no lease is of a broadcast or empty hardware address,
      and looking up a client or an address finds its lease. */
  lemma TableRead(cfg: Config, run: seq<Event>, i: nat, j: nat)
    requires i < j < |TableAfter(cfg, [], run)|
    ensures var t := TableAfter(cfg, [], run);
            && t[i].nip != t[j].nip && t[i].mac != t[j].mac
            && ByMac(t, t[j].mac) == Some(t[j]) && ByNip(t, t[i].nip) == Some(t[i])
            && Ordinary(t[i].mac) && cfg.startIp <= t[i].nip <= cfg.endIp && t[i].nip > 0
  {
    RunConsistent(cfg, [], run);
    var t := TableAfter(cfg, [], run);
    hide TableAfter;
    DistinctPairs(t);
    LookupAt(t, i);
    LookupAt(t, j);
    LeasableAt(cfg, t, i);
  }
}
