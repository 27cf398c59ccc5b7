/** The order of the lease list. Expiry times are compared by a difference cut to a C int
    (compare_expire of src/gdhcp/server.c), so the list is sorted only while the times in
    it lie close together. */
module LeaseOrder {
  import opened LeaseRuns
  import opened LeaseTable
  import opened Wrappers

  const HALF: int := 0x8000_0000
  const FULL: int := 0x1_0000_0000

  /** All expiry times lie in a window of 2^31 seconds from lo. */
  predicate Within(t: Table, lo: int) {
    t == [] || (lo <= t[0].expire < lo + HALF && Within(t[1..], lo))
  }

  ghost predicate Close(t: Table) {
    exists lo :: Within(t, lo)
  }

  lemma {:induction false} WithinAt(t: Table, lo: int)
    ensures Within(t, lo) <==> forall i :: 0 <= i < |t| ==> lo <= t[i].expire < lo + HALF
  {
    if t != [] {
      WithinAt(t[1..], lo);
      assert forall i :: 0 < i < |t| ==> t[i] == t[1..][i - 1];
      assert forall i :: 0 <= i < |t| - 1 ==> t[1..][i] == t[i + 1];
    }
  }

  lemma {:induction false} Earliest(t: Table) returns (k: nat)
    requires t != []
    ensures k < |t| && forall i :: 0 <= i < |t| ==> t[k].expire <= t[i].expire
  {
    if |t| == 1 {
      k := 0;
    } else {
      k := Earliest(t[1..]);
      var m := t[1..][k].expire;
      assert forall i :: 0 < i < |t| ==> t[i] == t[1..][i - 1];
      k := if t[0].expire <= m then 0 else k + 1;
    }
  }

  /** A window exists if and only if all differences stay below 2^31. */
  lemma CloseIff(t: Table)
    ensures Close(t) <==> forall i, j :: 0 <= i < |t| && 0 <= j < |t| ==> t[i].expire - t[j].expire < HALF
  {
    if Close(t) {
      var lo :| Within(t, lo);
      WithinAt(t, lo);
    }
    if t == [] {
      assert Within(t, 0);
    } else if forall i, j :: 0 <= i < |t| && 0 <= j < |t| ==> t[i].expire - t[j].expire < HALF {
      var k := Earliest(t);
      WithinAt(t, t[k].expire);
    }
  }

  // ----- one insertion -----

  /** The comparison tells the truth if and only if the difference fits a C int. */
  lemma CompareTells(a: int, b: int)
    requires -FULL < b - a < FULL
    ensures (CompareExpire(a, b) <= 0 <==> b <= a) <==> -HALF <= b - a < HALF
  {
  }

  /** Inserting at expiry e stops at the right place. */
  predicate Placed(t: Table, e: int) {
    t == []
    || -HALF <= t[0].expire - e <= 0
    || (0 < t[0].expire - e < HALF && Placed(t[1..], e))
  }

  predicate Near(t: Table, e: int) {
    t == [] || (-FULL < t[0].expire - e < FULL && Near(t[1..], e))
  }

  lemma {:induction false} InsertHolds(t: Table, l: Lease, e: int)
    requires AtMost(Insert(t, l), e)
    ensures l.expire <= e
  {
    if t != [] && CompareExpire(l.expire, t[0].expire) > 0 {
      assert Insert(t, l)[1..] == Insert(t[1..], l);
      InsertHolds(t[1..], l, e);
    }
  }

  lemma {:induction false} InsertPlaced(t: Table, l: Lease)
    requires Sorted(t) && Near(t, l.expire)
    ensures Sorted(Insert(t, l)) <==> Placed(t, l.expire)
  {
    if t != [] {
      var d := t[0].expire - l.expire;
      CompareTells(l.expire, t[0].expire);
      if CompareExpire(l.expire, t[0].expire) <= 0 {
        assert Insert(t, l) == [l] + t && ([l] + t)[1..] == t;
        if d <= 0 {
          AtMostWeaken(t[1..], t[0].expire, l.expire);
        }
      } else {
        var u := Insert(t[1..], l);
        assert Insert(t, l) == [t[0]] + u && ([t[0]] + u)[1..] == u;
        InsertPlaced(t[1..], l);
        if d > 0 {
          InsertAtMost(t[1..], l, t[0].expire);
        } else if AtMost(u, t[0].expire) {
          InsertHolds(t[1..], l, t[0].expire);
        }
      }
    }
  }

  lemma {:induction false} PlacedAt(t: Table, e: int)
    requires Sorted(t)
    ensures Placed(t, e) <==>
            (t == [] || t[0].expire - e < HALF)
            && ((forall i :: 0 <= i < |t| ==> t[i].expire - e >= -HALF)
                || exists i :: 0 <= i < |t| && -HALF <= t[i].expire - e <= 0)
  {
    SortedPairs(t);
    if t != [] {
      var d := t[0].expire - e;
      if 0 < d < HALF {
        PlacedAt(t[1..], e);
        assert forall i :: 0 < i < |t| ==> t[i] == t[1..][i - 1];
        assert forall i :: 0 <= i < |t| - 1 ==> t[1..][i] == t[i + 1];
      }
    }
  }

  lemma {:induction false} NearAt(t: Table, e: int)
    ensures Near(t, e) <==> forall i :: 0 <= i < |t| ==> -FULL < t[i].expire - e < FULL
  {
    if t != [] {
      NearAt(t[1..], e);
      assert forall i :: 0 < i < |t| ==> t[i] == t[1..][i - 1];
      assert forall i :: 0 <= i < |t| - 1 ==> t[1..][i] == t[i + 1];
    }
  }

  /** Inserting into a sorted list leaves it sorted if and only if the first entry is not
      2^31 seconds or more later, and either no entry is more than 2^31 seconds earlier or
      some entry that is not later stops the search before those that are. */
  lemma InsertSortedIff(t: Table, l: Lease)
    requires Sorted(t) && forall i :: 0 <= i < |t| ==> -FULL < t[i].expire - l.expire < FULL
    ensures Sorted(Insert(t, l)) <==>
            (t == [] || t[0].expire - l.expire < HALF)
            && ((forall i :: 0 <= i < |t| ==> t[i].expire - l.expire >= -HALF)
                || exists i :: 0 <= i < |t| && -HALF <= t[i].expire - l.expire <= 0)
  {
    NearAt(t, l.expire);
    InsertPlaced(t, l);
    PlacedAt(t, l.expire);
  }

  lemma {:induction false} WithinPlaced(t: Table, lo: int, e: int)
    requires Within(t, lo) && lo <= e < lo + HALF
    ensures Placed(t, e) && Near(t, e)
  {
    if t != [] {
      WithinPlaced(t[1..], lo, e);
    }
  }

  lemma {:induction false} InsertWithin(t: Table, l: Lease, lo: int)
    ensures Within(Insert(t, l), lo) <==> Within(t, lo) && lo <= l.expire < lo + HALF
  {
    if t != [] {
      if CompareExpire(l.expire, t[0].expire) <= 0 {
        assert Insert(t, l)[1..] == t;
      } else {
        assert Insert(t, l)[1..] == Insert(t[1..], l);
        InsertWithin(t[1..], l, lo);
      }
    }
  }

  lemma PutSorted(t: Table, l: Lease)
    requires Sorted(t) && Close(Insert(Without(t, l.nip, l.mac), l))
    ensures Sorted(Insert(Without(t, l.nip, l.mac), l))
  {
    var r := Without(t, l.nip, l.mac);
    var lo :| Within(Insert(r, l), lo);
    WithoutSorted(t, l.nip, l.mac);
    InsertWithin(r, l, lo);
    WithinPlaced(r, lo, l.expire);
    InsertPlaced(r, l);
  }

  // ----- steps and runs -----

  /** A step leaves the list sorted if the expiry times it leaves lie less than 2^31
      seconds apart, whatever the clock says. */
  lemma StepSorted(cfg: Config, t: Table, p: Packet, now: int)
    requires Consistent(cfg, t) && Sorted(t) && Close(Step(cfg, t, p, now).table)
    ensures Sorted(Step(cfg, t, p, now).table)
  {
    hide Insert, Without, Distinct, AllLeasable, Sorted, Close;
    var t' := Step(cfg, t, p, now).table;
    var offered := Lease(OFFER_TIME, OfferedNip(cfg, t, p, now), p.chaddr);
    if t' == Insert(Without(t, offered.nip, offered.mac), offered) {
      PutSorted(t, offered);
    }
    var lease := ByMac(t, p.chaddr);
    if lease.Some? {
      LookupsAgree(t, p.chaddr);
      var full := Lease(now + cfg.leaseSeconds, lease.value.nip, p.chaddr);
      var released := lease.value.(expire := now % FULL);
      if t' == Insert(Without(t, full.nip, full.mac), full) {
        PutSorted(t, full);
      }
      if t' == Insert(Without(t, released.nip, released.mac), released) {
        PutSorted(t, released);
      }
      WithoutSorted(t, lease.value.nip, lease.value.mac);
    }
  }

  /** In every run the list is sorted as long as the expiry times in it have always been
      less than 2^31 seconds apart. */
  lemma {:induction false} RunSorted(cfg: Config, t: Table, run: seq<Event>)
    requires Consistent(cfg, t) && Sorted(t)
    requires forall k :: 0 < k <= |run| ==> Close(TableAfter(cfg, t, run[..k]))
    ensures Sorted(TableAfter(cfg, t, run))
    decreases |run|
  {
    hide Step, Consistent, Sorted, Close;
    if run != [] {
      var r, e := run[..|run| - 1], run[|run| - 1];
      forall k | 0 < k <= |r|
        ensures Close(TableAfter(cfg, t, r[..k]))
      {
        assert r[..k] == run[..k];
      }
      RunConsistent(cfg, t, r);
      RunSorted(cfg, t, r);
      assert run[..|run|] == run;
      StepSorted(cfg, TableAfter(cfg, t, r), e.packet, e.at);
    }
  }

  lemma {:induction false} WithoutWithin(t: Table, nip: nat, mac: Mac, lo: int)
    requires Within(t, lo)
    ensures Within(Without(t, nip, mac), lo)
  {
    if t != [] {
      WithoutWithin(t[1..], nip, mac, lo);
    }
  }

  lemma StepWithin(cfg: Config, t: Table, p: Packet, now: int)
    requires Consistent(cfg, t) && Within(t, 0) && 0 <= now && now + cfg.leaseSeconds < HALF
    ensures Within(Step(cfg, t, p, now).table, 0)
  {
    hide Insert, Without, Distinct, AllLeasable, Within;
    var nip := OfferedNip(cfg, t, p, now);
    WithoutWithin(t, nip, p.chaddr, 0);
    InsertWithin(Without(t, nip, p.chaddr), Lease(OFFER_TIME, nip, p.chaddr), 0);
    var lease := ByMac(t, p.chaddr);
    if lease.Some? {
      var l := lease.value;
      LookupsAgree(t, p.chaddr);
      WithoutWithin(t, l.nip, l.mac, 0);
      InsertWithin(Without(t, l.nip, l.mac), Lease(now + cfg.leaseSeconds, l.nip, p.chaddr), 0);
      InsertWithin(Without(t, l.nip, l.mac), l.(expire := now % FULL), 0);
    }
  }

  /** That is so while the clock plus a lease time stays below 2^31, from an empty table. */
  lemma {:induction false} RunClose(cfg: Config, run: seq<Event>)
    requires forall i :: 0 <= i < |run| ==> 0 <= run[i].at && run[i].at + cfg.leaseSeconds < HALF
    ensures Within(TableAfter(cfg, [], run), 0) && Close(TableAfter(cfg, [], run))
    decreases |run|
  {
    hide Step, Consistent, Within;
    if run == [] {
      WithinAt([], 0);
    } else {
      var r, e := run[..|run| - 1], run[|run| - 1];
      RunClose(cfg, r);
      assert Consistent(cfg, []) by {
        EmptyConsistent(cfg);
      }
      RunConsistent(cfg, [], r);
      StepWithin(cfg, TableAfter(cfg, [], r), e.packet, e.at);
    }
  }

  lemma EmptyConsistent(cfg: Config)
    ensures Consistent(cfg, [])
  {
  }

  lemma InsertOne(a: Lease, l: Lease)
    ensures Insert([a], l) == if CompareExpire(l.expire, a.expire) <= 0 then [l, a] else [a, l]
  {
    assert [a][1..] == [] && Insert([], l) == [l];
    assert [l] + [a] == [l, a] && [a] + [l] == [a, l];
  }

  lemma TwoLeases(b: Lease, a: Lease)
    requires b.nip != a.nip && b.mac != a.mac
    ensures ByMac([b, a], b.mac) == Some(b) && Without([b, a], b.nip, b.mac) == [a]
  {
    Single(a, b.nip, b.mac);
    var t := [b, a];
    assert t[1..] == [a] && t[0] == b;
  }

  /** The second client of SMALL takes the other address. */
  lemma OtherOffer()
    ensures Step(SMALL, [Lease(OFFER_TIME, 1, ALICE)], Ask(DISCOVER, 2, BOB), 0).table ==
            [Lease(OFFER_TIME, 2, BOB), Lease(OFFER_TIME, 1, ALICE)]
  {
    var a, b := Lease(OFFER_TIME, 1, ALICE), Lease(OFFER_TIME, 2, BOB);
    TwoClients();
    Single(a, 2, BOB);
    InsertOne(a, b);
    hide ByNip, ByMac, Without, Insert;
  }

  lemma LateLease(late: int)
    requires late == HALF + SMALL.leaseSeconds
    ensures Step(SMALL, [Lease(OFFER_TIME, 2, BOB), Lease(OFFER_TIME, 1, ALICE)], Ask(REQUEST, 2, BOB), HALF).table ==
            [Lease(OFFER_TIME, 1, ALICE), Lease(late, 2, BOB)]
  {
    var a, b := Lease(OFFER_TIME, 1, ALICE), Lease(OFFER_TIME, 2, BOB);
    TwoClients();
    TwoLeases(b, a);
    InsertOne(a, Lease(late, 2, BOB));
    hide ByNip, ByMac, Without, Insert;
  }

  lemma NothingFound(a: Lease, c: Lease, now: int)
    requires a.nip == 1 && c.nip == 2 && !Expired(c, now)
    ensures FindFreeOrExpired(SMALL, [a, c], now) == 0
  {
    var t := [a, c];
    assert t[1..] == [c];
    assert ByNip(t, 1).Some? && ByNip(t, 2).Some?;
    assert FirstFree(t, 3, 2) == None && FirstFree(t, 2, 2) == None && FirstFree(t, 1, 2) == None;
  }

  /** Order is lost in a run of three packets. Two clients are offered the two addresses
      there are; when the clock has passed 2^31 the second takes its lease. Its entry sorts
      behind the older one, so a third client is offered nothing, though the first offer
      has long expired. */
  lemma OrderLost() returns (run: seq<Event>, now: int)
    ensures run == [Event(Ask(DISCOVER, 1, ALICE), 0), Event(Ask(DISCOVER, 2, BOB), 0),
                    Event(Ask(REQUEST, 2, BOB), now)]
    ensures var t := TableAfter(SMALL, [], run);
            && t == [Lease(OFFER_TIME, 1, ALICE), Lease(now + SMALL.leaseSeconds, 2, BOB)] && !Sorted(t)
            && Expired(t[0], now) && FindFreeOrExpired(SMALL, t, now) == 0
  {
    now := HALF;
    hide Step, TableAfter;
    run := TablesOfThree(SMALL, Event(Ask(DISCOVER, 1, ALICE), 0), Event(Ask(DISCOVER, 2, BOB), 0),
                         Event(Ask(REQUEST, 2, BOB), now));
    FirstOffer(0);
    OtherOffer();
    LateLease(now + SMALL.leaseSeconds);
    var a, c := Lease(OFFER_TIME, 1, ALICE), Lease(now + SMALL.leaseSeconds, 2, BOB);
    NothingFound(a, c, now);
    assert [a, c][1..] == [c];
  }
}
