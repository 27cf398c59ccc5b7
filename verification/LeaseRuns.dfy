/** Properties of whole runs of the DHCP server: the invariant, who may disturb
    a lease, and when an address can pass to another client. */
module LeaseRuns {
  import opened LeaseTable
  import opened Wrappers

  // ----- the free-address search -----

  lemma {:induction false} FirstFreeLeast(t: Table, ip: nat, endIp: nat)
    ensures match FirstFree(t, ip, endIp)
            case Some(r) =>
              && ip <= r <= endIp && Usable(r) && ByNip(t, r).None?
              && forall x: nat :: ip <= x < r && Usable(x) ==> ByNip(t, x).Some?
            case None => forall x: nat :: ip <= x <= endIp && Usable(x) ==> ByNip(t, x).Some?
    decreases endIp + 1 - ip
  {
    if ip <= endIp && !(Usable(ip) && ByNip(t, ip).None?) {
      FirstFreeLeast(t, ip + 1, endIp);
    }
  }

  lemma {:induction false} LeasableAt(cfg: Config, t: Table, i: nat)
    requires AllLeasable(cfg, t) && i < |t|
    ensures Leasable(cfg, t[i].nip, t[i].mac)
  {
    if i > 0 {
      LeasableAt(cfg, t[1..], i - 1);
    }
  }

  lemma {:induction false} LookupAt(t: Table, i: nat)
    requires Distinct(t) && i < |t|
    ensures ByNip(t, t[i].nip) == Some(t[i]) && ByMac(t, t[i].mac) == Some(t[i])
  {
    if i > 0 {
      LookupAt(t[1..], i - 1);
      ApartAt(t[0], t[1..]);
    }
  }

  lemma {:induction false} FoundIn(t: Table, nip: nat) returns (i: nat)
    requires ByNip(t, nip).Some?
    ensures i < |t| && t[i] == ByNip(t, nip).value && t[i].nip == nip
  {
    if t[0].nip == nip {
      i := 0;
    } else {
      i := FoundIn(t[1..], nip);
      i := i + 1;
    }
  }

  predicate Free(t: Table, ip: nat) {
    Usable(ip) && ByNip(t, ip).None?
  }

  predicate FreeAt(cfg: Config, t: Table, ip: nat) {
    cfg.startIp <= ip <= cfg.endIp && Free(t, ip)
  }

  ghost predicate HasFree(cfg: Config, t: Table) {
    exists x: nat :: FreeAt(cfg, t, x)
  }

  predicate HasExpired(t: Table, now: int) {
    exists j :: 0 <= j < |t| && Expired(t[j], now)
  }

  /** The address of an expired lease that no other lease expires before. */
  predicate Oldest(t: Table, now: int, nip: nat) {
    exists i :: 0 <= i < |t| && t[i].nip == nip && Expired(t[i], now)
                && forall j :: 0 <= j < |t| ==> t[i].expire <= t[j].expire
  }

  /** The search returns the least free usable address; without one, the address of
      an expired lease that no other lease expires before; and 0 only when every
      usable address is leased and no lease has expired. A range that ends at the last
      address is different: without a free address in it, the least free one below it is
      returned, whether a lease has expired or not. */
  lemma FreeAddressSearch(cfg: Config, t: Table, now: int)
    requires Consistent(cfg, t) && Sorted(t)
    ensures HasFree(cfg, t) ==>
              var r := FindFreeOrExpired(cfg, t, now);
              FreeAt(cfg, t, r) && forall x: nat :: FreeAt(cfg, t, x) ==> r <= x
    ensures !HasFree(cfg, t) && cfg.endIp < LAST_ADDRESS ==>
              var r := FindFreeOrExpired(cfg, t, now);
              if r == 0 then !HasExpired(t, now) else Oldest(t, now, r)
    ensures !HasFree(cfg, t) && cfg.endIp == LAST_ADDRESS && SearchEnds(cfg, t) ==>
              var r := FindFreeOrExpired(cfg, t, now);
              Free(t, r) && r < cfg.startIp && forall x: nat :: Free(t, x) && x <= LAST_ADDRESS ==> r <= x
  {
    hide ByNip, Distinct, AllLeasable, Sorted;
    FirstFreeLeast(t, cfg.startIp, cfg.endIp);
    FirstFreeLeast(t, 0, LAST_ADDRESS);
    SortedPairs(t);
    var f := FirstFree(t, cfg.startIp, cfg.endIp);
    if f.Some? {
      assert FreeAt(cfg, t, f.value);
    } else if cfg.endIp < LAST_ADDRESS && t != [] {
      var last := |t| - 1;
      LeasableAt(cfg, t, last);
      assert forall j :: 0 <= j < |t| ==> t[last].expire <= t[j].expire;
    }
  }

  /** The search ends unless the range is the whole address space, from 1 or 0 on, and every
      usable address in it is leased. */
  lemma SearchEndsIff(cfg: Config, t: Table)
    requires Consistent(cfg, t)
    ensures !SearchEnds(cfg, t) <==>
            cfg.startIp <= 1 && cfg.endIp == LAST_ADDRESS && !HasFree(cfg, t)
  {
    hide ByNip, Distinct, AllLeasable;
    FirstFreeLeast(t, 0, LAST_ADDRESS);
    if ByNip(t, 1).Some? {
      var i := FoundIn(t, 1);
      LeasableAt(cfg, t, i);
    }
    assert !Usable(0);
    assert Free(t, 1) ==> FirstFree(t, 0, LAST_ADDRESS).Some?;
    if cfg.startIp <= 1 && cfg.endIp == LAST_ADDRESS && SearchEnds(cfg, t) {
      assert FreeAt(cfg, t, FirstFree(t, 0, LAST_ADDRESS).value);
    }
  }

  lemma OfferReply(cfg: Config, t: Table, p: Packet, now: int)
    requires Discovers(cfg, p) && ByMac(t, p.chaddr).None? && !MayRequest(cfg, t, Requested(p), now)
    ensures Step(cfg, t, p, now).reply.Some? <==> Leasable(cfg, FindFreeOrExpired(cfg, t, now), p.chaddr)
    ensures p.chaddr != MAC_BCAST && p.chaddr != MAC_ANY
  {
    hide FindFreeOrExpired, MayRequest, ByMac, ByNip, Insert, Without;
  }

  /** A client without a lease that asks for nothing it may have is offered an address if and
      only if one is free, or else some lease has expired and the range does not end at the
      last address. */
  lemma OfferedIff(cfg: Config, t: Table, p: Packet, now: int)
    requires Consistent(cfg, t) && Sorted(t) && SearchEnds(cfg, t)
    requires Discovers(cfg, p) && ByMac(t, p.chaddr).None? && !MayRequest(cfg, t, Requested(p), now)
    ensures Step(cfg, t, p, now).reply.Some? <==>
            HasFree(cfg, t) || (cfg.endIp < LAST_ADDRESS && HasExpired(t, now))
  {
    OfferReply(cfg, t, p, now);
    FreeAddressSearch(cfg, t, now);
    var r := FindFreeOrExpired(cfg, t, now);
    hide *;
    if HasFree(cfg, t) {
      FreeLeasable(cfg, t, r, p.chaddr);
    } else if cfg.endIp < LAST_ADDRESS {
      if r != 0 {
        OldestLeasable(cfg, t, now, r, p.chaddr);
      } else {
        Unleasable(cfg, r, p.chaddr);
      }
    } else {
      Unleasable(cfg, r, p.chaddr);
    }
  }

  lemma FreeLeasable(cfg: Config, t: Table, nip: nat, mac: Mac)
    requires FreeAt(cfg, t, nip) && mac != MAC_BCAST && mac != MAC_ANY
    ensures Leasable(cfg, nip, mac)
  {
  }

  lemma OldestLeasable(cfg: Config, t: Table, now: int, nip: nat, mac: Mac)
    requires Consistent(cfg, t) && Oldest(t, now, nip) && mac != MAC_BCAST && mac != MAC_ANY
    ensures Leasable(cfg, nip, mac) && HasExpired(t, now)
  {
    hide Distinct, AllLeasable;
    var i :| 0 <= i < |t| && t[i].nip == nip && Expired(t[i], now);
    LeasableAt(cfg, t, i);
  }

  lemma Unleasable(cfg: Config, nip: nat, mac: Mac)
    requires nip == 0 || nip < cfg.startIp
    ensures !Leasable(cfg, nip, mac)
  {
  }

  // ----- who may disturb a lease -----

  /** DISCOVER never takes an unexpired lease away from another client. */
  lemma OfferSparesOthers(cfg: Config, t: Table, p: Packet, now: int, l: Lease)
    requires Consistent(cfg, t) && ByMac(t, l.mac) == Some(l) && !Expired(l, now) && p.chaddr != l.mac
    ensures OfferedNip(cfg, t, p, now) != l.nip
  {
    hide Distinct, AllLeasable, Insert, Without;
    LookupsAgree(t, l.mac);
    LeasableLookup(cfg, t, l.mac);
    if ByMac(t, p.chaddr).Some? {
      LookupsAgree(t, p.chaddr);
    } else {
      FirstFreeLeast(t, cfg.startIp, cfg.endIp);
      FirstFreeLeast(t, 0, LAST_ADDRESS);
      if t != [] {
        LookupAt(t, |t| - 1);
      }
    }
  }

  /** An unexpired lease is changed only by a message from its own client. */
  lemma OthersCannotTouch(cfg: Config, t: Table, p: Packet, now: int, l: Lease)
    requires Consistent(cfg, t) && ByMac(t, l.mac) == Some(l) && !Expired(l, now) && p.chaddr != l.mac
    ensures ByMac(Step(cfg, t, p, now).table, l.mac) == Some(l)
  {
    hide Distinct, AllLeasable, Insert, Without, OfferedNip;
    OfferSparesOthers(cfg, t, p, now, l);
    LookupsAgree(t, l.mac);
    PutByMac(t, Lease(OFFER_TIME, OfferedNip(cfg, t, p, now), p.chaddr), l.mac);
    if ByMac(t, p.chaddr).Some? {
      var x := ByMac(t, p.chaddr).value;
      LookupsAgree(t, p.chaddr);
      PutByMac(t, Lease(now + cfg.leaseSeconds, x.nip, p.chaddr), l.mac);
      PutByMac(t, x.(expire := now % 0x1_0000_0000), l.mac);
      WithoutByMac(t, x.nip, x.mac, l.mac);
    }
  }

  /** The messages by which a client gives up or downgrades its lease. */
  predicate Relinquishes(p: Packet, mac: Mac) {
    p.chaddr == mac && PacketType(p) in {DISCOVER, DECLINE, RELEASE}
  }

  /** The client itself can only renew its lease otherwise. */
  lemma OwnerKeeps(cfg: Config, t: Table, p: Packet, now: int, l: Lease)
    requires Consistent(cfg, t) && ByMac(t, l.mac) == Some(l) && p.chaddr == l.mac && !Relinquishes(p, l.mac)
    ensures var l' := ByMac(Step(cfg, t, p, now).table, l.mac);
            l' == Some(l) || l' == Some(l.(expire := now + cfg.leaseSeconds))
  {
    hide Distinct, AllLeasable, Insert, Without;
    LookupsAgree(t, l.mac);
    PutByMac(t, l.(expire := now + cfg.leaseSeconds), l.mac);
  }

  /** An acknowledged lease is in the table with its full time. */
  lemma AckRecords(cfg: Config, t: Table, p: Packet, now: int, nip: nat)
    requires Consistent(cfg, t) && Step(cfg, t, p, now).reply == Some(Ack(nip))
    ensures ByMac(t, p.chaddr).Some? && ByMac(t, p.chaddr).value.nip == nip
    ensures ByMac(Step(cfg, t, p, now).table, p.chaddr) == Some(Lease(now + cfg.leaseSeconds, nip, p.chaddr))
  {
    hide Distinct, AllLeasable, Insert, Without;
    LookupsAgree(t, p.chaddr);
    LeasableLookup(cfg, t, p.chaddr);
    PutByMac(t, Lease(now + cfg.leaseSeconds, nip, p.chaddr), p.chaddr);
  }

  // ----- runs -----

  datatype Event = Event(packet: Packet, at: int)

  function TableAfter(cfg: Config, t: Table, run: seq<Event>): Table {
    if run == [] then t
    else
      var e := run[|run| - 1];
      Step(cfg, TableAfter(cfg, t, run[..|run| - 1]), e.packet, e.at).table
  }

  predicate Ordered(run: seq<Event>) {
    forall i, j :: 0 <= i <= j < |run| ==> run[i].at <= run[j].at
  }

  /** The reply to the i-th event. */
  function ReplyAt(cfg: Config, t: Table, run: seq<Event>, i: nat): Option<Reply>
    requires i < |run|
  {
    Step(cfg, TableAfter(cfg, t, run[..i]), run[i].packet, run[i].at).reply
  }

  lemma TableNext(cfg: Config, t: Table, run: seq<Event>, i: nat)
    requires i < |run|
    ensures TableAfter(cfg, t, run[..i + 1]) ==
            Step(cfg, TableAfter(cfg, t, run[..i]), run[i].packet, run[i].at).table
  {
    assert run[..i + 1][..i] == run[..i];
  }

  lemma {:induction false} RunConsistent(cfg: Config, t: Table, run: seq<Event>)
    requires Consistent(cfg, t)
    ensures Consistent(cfg, TableAfter(cfg, t, run))
  {
    hide Step, Consistent;
    if run != [] {
      var e := run[|run| - 1];
      RunConsistent(cfg, t, run[..|run| - 1]);
      StepConsistent(cfg, TableAfter(cfg, t, run[..|run| - 1]), e.packet, e.at);
    }
  }

  /** Between an acknowledgement and event k the lease stands, unless it expires
      or its client relinquishes it. */
  lemma {:induction false} LeaseStands(cfg: Config, t: Table, run: seq<Event>, i: nat, k: nat, nip: nat)
    requires Consistent(cfg, t) && Ordered(run) && i < k <= |run|
    requires ReplyAt(cfg, t, run, i) == Some(Ack(nip))
    requires forall x :: i < x < k ==> run[x].at <= run[i].at + cfg.leaseSeconds
                                       && !Relinquishes(run[x].packet, run[i].packet.chaddr)
    ensures var l := ByMac(TableAfter(cfg, t, run[..k]), run[i].packet.chaddr);
            l.Some? && l.value.nip == nip && l.value.mac == run[i].packet.chaddr
            && l.value.expire >= run[i].at + cfg.leaseSeconds
    decreases k - i
  {
    hide Step, Consistent, Relinquishes;
    var m, x := run[i].packet.chaddr, k - 1;
    var s, e := TableAfter(cfg, t, run[..x]), run[x];
    RunConsistent(cfg, t, run[..x]);
    TableNext(cfg, t, run, x);
    if x == i {
      AckRecords(cfg, s, e.packet, e.at, nip);
    } else {
      LeaseStands(cfg, t, run, i, x, nip);
      var l := ByMac(s, m).value;
      if e.packet.chaddr == m {
        OwnerKeeps(cfg, s, e.packet, e.at, l);
      } else {
        OthersCannotTouch(cfg, s, e.packet, e.at, l);
      }
    }
  }

  /** Safety: in every run with a nondecreasing clock, an address acknowledged to
      one client is acknowledged to another only after the first lease has run
      out or its client has sent a DISCOVER, DECLINE or RELEASE. */
  lemma AckSafety(cfg: Config, t: Table, run: seq<Event>, i: nat, j: nat, nip: nat)
    requires Consistent(cfg, t) && Ordered(run) && i < j < |run|
    requires ReplyAt(cfg, t, run, i) == Some(Ack(nip)) && ReplyAt(cfg, t, run, j) == Some(Ack(nip))
    requires run[i].packet.chaddr != run[j].packet.chaddr
    ensures run[j].at > run[i].at + cfg.leaseSeconds
            || exists x :: i < x < j && Relinquishes(run[x].packet, run[i].packet.chaddr)
  {
    hide Step, Consistent, Relinquishes;
    if run[j].at <= run[i].at + cfg.leaseSeconds
       && forall x :: i < x < j ==> !Relinquishes(run[x].packet, run[i].packet.chaddr) {
      var s := TableAfter(cfg, t, run[..j]);
      RunConsistent(cfg, t, run[..j]);
      LeaseStands(cfg, t, run, i, j, nip);
      AckRecords(cfg, s, run[j].packet, run[j].at, nip);
      SameNipSameMac(cfg, s, run[i].packet.chaddr, run[j].packet.chaddr);
    }
  }

  lemma SameNipSameMac(cfg: Config, t: Table, a: Mac, b: Mac)
    requires Consistent(cfg, t) && ByMac(t, a).Some? && ByMac(t, b).Some?
    requires ByMac(t, a).value.nip == ByMac(t, b).value.nip
    ensures a == b
  {
    LookupsAgree(t, a);
    LookupsAgree(t, b);
  }

  // ----- what an offer is worth -----

  predicate Discovers(cfg: Config, p: Packet) {
    && PacketType(p) == DISCOVER && (p.serverId.None? || p.serverId.value == cfg.serverNip)
    && p.chaddr != MAC_BCAST && p.chaddr != MAC_ANY
  }

  /** An offer is recorded as expiring at the absolute time 300. So another client without
      a lease that asks for the offered address is offered it as well, at any time later
      than that and at no other. */
  lemma OfferReserves(cfg: Config, t: Table, p: Packet, now: int, nip: nat, q: Packet, later: int)
    requires Consistent(cfg, t) && Step(cfg, t, p, now).reply == Some(Offer(nip))
    requires Discovers(cfg, q) && q.chaddr != p.chaddr && ByMac(t, q.chaddr).None? && Requested(q) == nip
    ensures Step(cfg, Step(cfg, t, p, now).table, q, later).reply == Some(Offer(nip)) <==> later > OFFER_TIME
  {
    hide Distinct, AllLeasable, Insert, Without, FindFreeOrExpired;
    var t', l := Step(cfg, t, p, now).table, Lease(OFFER_TIME, nip, p.chaddr);
    StepConsistent(cfg, t, p, now);
    PutByMac(t, l, p.chaddr);
    PutByMac(t, l, q.chaddr);
    LookupsAgree(t', p.chaddr);
    if later <= OFFER_TIME {
      OfferSparesOthers(cfg, t', q, later, l);
    }
  }

  const SMALL := Config(1, 2, 9, 3600)
  const ALICE: Mac := [2, 0, 0, 0, 0, 1]
  const BOB: Mac := [2, 0, 0, 0, 0, 2]

  function Ask(kind: nat, nip: nat, mac: Mac): Packet {
    Packet(BOOTREQUEST, 6, Some(kind), None, Some(nip), 0, mac)
  }

  lemma Single(l: Lease, nip: nat, mac: Mac)
    ensures ByNip([l], nip) == if l.nip == nip then Some(l) else None
    ensures ByMac([l], mac) == if l.mac == mac then Some(l) else None
    ensures Without([l], nip, mac) == if l.nip == nip || l.mac == mac then [] else [l]
  {
    var t := [l];
    assert t[1..] == [] && t[0] == l;
  }

  lemma TwoClients()
    ensures ALICE != BOB && Leasable(SMALL, 1, ALICE) && Leasable(SMALL, 1, BOB) && Leasable(SMALL, 2, BOB)
  {
    assert ALICE[5] != BOB[5] && ALICE[0] != MAC_BCAST[0] && ALICE[0] != MAC_ANY[0];
    assert BOB[0] != MAC_BCAST[0] && BOB[0] != MAC_ANY[0];
  }

  /** The first client of an empty table is offered its choice. */
  lemma FirstOffer(now: int)
    ensures Step(SMALL, [], Ask(DISCOVER, 1, ALICE), now) ==
            Stepped([Lease(OFFER_TIME, 1, ALICE)], Some(Offer(1)))
  {
    TwoClients();
  }

  lemma SecondOffer(now: int)
    requires now > OFFER_TIME
    ensures Step(SMALL, [Lease(OFFER_TIME, 1, ALICE)], Ask(DISCOVER, 1, BOB), now) ==
            Stepped([Lease(OFFER_TIME, 1, BOB)], Some(Offer(1)))
  {
    TwoClients();
    Single(Lease(OFFER_TIME, 1, ALICE), 1, BOB);
    hide ByNip, ByMac, Without;
  }

  lemma OfferRefused(now: int)
    ensures Step(SMALL, [Lease(OFFER_TIME, 1, BOB)], Ask(REQUEST, 1, ALICE), now) ==
            Stepped([Lease(OFFER_TIME, 1, BOB)], Some(Nak))
  {
    TwoClients();
    Single(Lease(OFFER_TIME, 1, BOB), 1, ALICE);
    hide ByNip, ByMac, Without;
  }

  lemma TablesOfThree(cfg: Config, a: Event, b: Event, c: Event) returns (run: seq<Event>)
    ensures run == [a, b, c] && TableAfter(cfg, [], run[..0]) == []
    ensures TableAfter(cfg, [], run[..1]) == Step(cfg, [], a.packet, a.at).table
    ensures TableAfter(cfg, [], run[..2]) == Step(cfg, TableAfter(cfg, [], run[..1]), b.packet, b.at).table
    ensures TableAfter(cfg, [], run) == Step(cfg, TableAfter(cfg, [], run[..2]), c.packet, c.at).table
  {
    hide Step;
    run := [a, b, c];
    TableNext(cfg, [], run, 0);
    TableNext(cfg, [], run, 1);
    TableNext(cfg, [], run, 2);
    assert run[..0] == [] && run[..3] == run;
  }

  /** From an empty table, at any time later than 300: two clients are offered the same
      address, and the first to have been offered it is refused when it asks for it. */
  lemma SharedOffer(now: nat) returns (run: seq<Event>)
    requires now > OFFER_TIME
    ensures run == [Event(Ask(DISCOVER, 1, ALICE), now), Event(Ask(DISCOVER, 1, BOB), now),
                    Event(Ask(REQUEST, 1, ALICE), now)]
    ensures ReplyAt(SMALL, [], run, 0) == ReplyAt(SMALL, [], run, 1) == Some(Offer(1))
    ensures ReplyAt(SMALL, [], run, 2) == Some(Nak)
  {
    hide Step, TableAfter;
    run := TablesOfThree(SMALL, Event(Ask(DISCOVER, 1, ALICE), now), Event(Ask(DISCOVER, 1, BOB), now),
                         Event(Ask(REQUEST, 1, ALICE), now));
    FirstOffer(now);
    SecondOffer(now);
    OfferRefused(now);
  }
}
