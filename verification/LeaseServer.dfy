/** The DHCP server's lease table as the C code keeps it: one list and one hash
    table over the same mutable lease objects. Every operation refines its
    counterpart in LeaseTable. */
module LeaseServer {
  import opened LeaseRuns
  import opened LeaseTable
  import opened Wrappers

  // ----- sequences of objects beside the table of their values -----

  function Drop<T>(s: seq<T>, i: nat): seq<T>
    requires i < |s|
  {
    s[..i] + s[i + 1..]
  }

  function Splice<T>(s: seq<T>, i: nat, x: T): seq<T>
    requires i <= |s|
  {
    s[..i] + [x] + s[i..]
  }

  /** The hash table that belongs to a list of objects. */
  function HashOf<T>(objects: seq<T>, t: Table): (h: map<nat, T>)
    requires |objects| == |t|
  {
    if t == [] then map[] else HashOf(objects[1..], t[1..])[t[0].nip := objects[0]]
  }

  lemma {:induction false} HashKeys<T>(objects: seq<T>, t: Table, nip: nat)
    requires |objects| == |t|
    ensures nip in HashOf(objects, t) <==> ByNip(t, nip).Some?
  {
    if t != [] {
      HashKeys(objects[1..], t[1..], nip);
    }
  }

  lemma {:induction false} HashAt<T>(objects: seq<T>, t: Table, i: nat)
    requires |objects| == |t| && i < |t| && Distinct(t)
    ensures t[i].nip in HashOf(objects, t) && HashOf(objects, t)[t[i].nip] == objects[i]
  {
    if i > 0 {
      HashAt(objects[1..], t[1..], i - 1);
      ApartAt(t[0], t[1..]);
    }
  }

  lemma {:induction false} DropApart(l: Lease, t: Table, i: nat)
    requires i < |t| && Apart(l, t)
    ensures Apart(l, Drop(t, i))
  {
    if i > 0 {
      DropApart(l, t[1..], i - 1);
      assert Drop(t, i)[1..] == Drop(t[1..], i - 1);
    } else {
      assert Drop(t, 0) == t[1..];
    }
  }

  lemma {:induction false} DropDistinct(cfg: Config, t: Table, i: nat)
    requires i < |t| && Consistent(cfg, t)
    ensures Consistent(cfg, Drop(t, i)) && Apart(t[i], Drop(t, i))
  {
    if i > 0 {
      DropDistinct(cfg, t[1..], i - 1);
      assert Drop(t, i)[1..] == Drop(t[1..], i - 1);
      DropApart(t[0], t[1..], i - 1);
      ApartAt(t[0], t[1..]);
    } else {
      assert Drop(t, 0) == t[1..];
    }
  }

  lemma MapDrop<V>(m: map<nat, V>, k: nat, v: V, j: nat)
    ensures k !in m ==> m[k := v] - {k} == m
    ensures k != j ==> m[k := v] - {j} == (m - {j})[k := v]
  {
  }

  lemma {:induction false} HashDrop<T>(objects: seq<T>, t: Table, i: nat)
    requires |objects| == |t| && i < |t| && Distinct(t)
    ensures HashOf(Drop(objects, i), Drop(t, i)) == HashOf(objects, t) - {t[i].nip}
  {
    hide ByNip, ByMac, Apart;
    MapDrop(HashOf(objects[1..], t[1..]), t[0].nip, objects[0], t[i].nip);
    if i == 0 {
      assert Drop(t, 0) == t[1..] && Drop(objects, 0) == objects[1..];
      ApartLookup(t[0], t[1..]);
      HashKeys(objects[1..], t[1..], t[0].nip);
    } else {
      HashDrop(objects[1..], t[1..], i - 1);
      assert Drop(t, i)[1..] == Drop(t[1..], i - 1) && Drop(objects, i)[1..] == Drop(objects[1..], i - 1);
      ApartAt(t[0], t[1..]);
      assert t[i] == t[1..][i - 1];
    }
  }

  lemma {:induction false} HashSplice<T>(objects: seq<T>, t: Table, i: nat, x: T, l: Lease)
    requires |objects| == |t| && i <= |t| && Apart(l, t)
    ensures HashOf(Splice(objects, i, x), Splice(t, i, l)) == HashOf(objects, t)[l.nip := x]
  {
    if i == 0 {
      assert Splice(t, 0, l)[1..] == t && Splice(objects, 0, x)[1..] == objects;
    } else {
      HashSplice(objects[1..], t[1..], i - 1, x, l);
      assert Splice(t, i, l)[1..] == Splice(t[1..], i - 1, l);
      assert Splice(objects, i, x)[1..] == Splice(objects[1..], i - 1, x);
    }
  }

  // ----- Without and Insert by position -----

  lemma {:induction false} WithoutNothing(t: Table, nip: nat, mac: Mac)
    requires ByNip(t, nip).None? && ByMac(t, mac).None?
    ensures Without(t, nip, mac) == t
  {
    if t != [] {
      WithoutNothing(t[1..], nip, mac);
    }
  }

  lemma WithoutCons(x: Lease, t: Table, nip: nat, mac: Mac)
    ensures Without([x] + t, nip, mac) ==
            if x.nip == nip || x.mac == mac then Without(t, nip, mac) else [x] + Without(t, nip, mac)
  {
    assert ([x] + t)[1..] == t;
  }

  lemma DropCons(x: Lease, rest: Table, i: nat)
    requires i < |rest|
    ensures Drop([x] + rest, i + 1) == [x] + Drop(rest, i)
  {
  }

  lemma {:induction false} WithoutDrop(t: Table, i: nat, nip: nat, mac: Mac)
    requires i < |t| && (t[i].nip == nip || t[i].mac == mac)
    ensures Without(Drop(t, i), nip, mac) == Without(t, nip, mac)
  {
    hide Without, Drop;
    var x, rest := t[0], t[1..];
    assert t == [x] + rest;
    WithoutCons(x, rest, nip, mac);
    if i > 0 {
      WithoutDrop(rest, i - 1, nip, mac);
      DropCons(x, rest, i - 1);
      WithoutCons(x, Drop(rest, i - 1), nip, mac);
    } else {
      DropFirst(t);
    }
  }

  lemma DropFirst(t: Table)
    requires t != []
    ensures Drop(t, 0) == t[1..]
  {
  }

  /** Dropping a lease from a table leaves nothing of its address and client,
      and brings nothing new. */
  lemma {:induction false} DropLookups(t: Table, i: nat, nip: nat, mac: Mac)
    requires i < |t| && Distinct(t)
    ensures ByNip(t, nip).None? || t[i].nip == nip ==> ByNip(Drop(t, i), nip).None?
    ensures ByMac(t, mac).None? || t[i].mac == mac ==> ByMac(Drop(t, i), mac).None?
  {
    if i == 0 {
      assert Drop(t, 0) == t[1..];
      ApartLookup(t[0], t[1..]);
    } else {
      DropLookups(t[1..], i - 1, nip, mac);
      assert Drop(t, i)[1..] == Drop(t[1..], i - 1);
      ApartAt(t[0], t[1..]);
      assert t[i] == t[1..][i - 1];
    }
  }

  lemma {:induction false} InsertAt(t: Table, p: nat, l: Lease)
    requires p <= |t| && forall q :: 0 <= q < p ==> CompareExpire(l.expire, t[q].expire) > 0
    requires p < |t| ==> CompareExpire(l.expire, t[p].expire) <= 0
    ensures Insert(t, l) == Splice(t, p, l)
  {
    if p == 0 {
      assert Splice(t, 0, l) == [l] + t;
    } else {
      InsertAt(t[1..], p - 1, l);
      assert Splice(t, p, l) == [t[0]] + Splice(t[1..], p - 1, l);
    }
  }

  // ----- the mutable table -----

  class DhcpLease {
    var expire: int
    var lease_nip: nat
    var lease_mac: Mac

    constructor () {
      expire, lease_nip, lease_mac := 0, 0, MAC_ANY;
    }

    function Value(): Lease
      reads this
    {
      Lease(expire, lease_nip, lease_mac)
    }
  }

  class DhcpServer {
    const cfg: Config
    var lease_list: seq<DhcpLease>
    var nip_lease_hash: map<nat, DhcpLease>

    /** The values of the listed leases. */
    ghost var Leases: Table

    /** The lease objects ever allocated for the table. */
    ghost var Repr: set<DhcpLease>

    /** The list shows the table, without repeating an object. */
    ghost predicate ListValid()
      reads this, Repr
    {
      && |lease_list| == |Leases|
      && (forall i :: 0 <= i < |lease_list| ==> lease_list[i] in Repr)
      && (forall i :: 0 <= i < |Leases| ==> lease_list[i].Value() == Leases[i])
      && (forall i, j :: 0 <= i < j < |lease_list| ==> lease_list[i] != lease_list[j])
    }

    /** The list is consistent and the hash table holds exactly its leases. */
    ghost predicate Valid()
      reads this, Repr
    {
      ListValid() && Consistent(cfg, Leases) && nip_lease_hash == HashOf(lease_list, Leases)
    }

    ghost predicate Unlisted(lease: DhcpLease)
      reads this
    {
      forall i :: 0 <= i < |lease_list| ==> lease_list[i] != lease
    }

    constructor (cfg: Config)
      ensures Valid() && Leases == [] && Repr == {} && this.cfg == cfg
    {
      this.cfg := cfg;
      lease_list, nip_lease_hash := [], map[];
      Leases, Repr := [], {};
    }

    method FindLeaseByMac(mac: Mac) returns (lease: DhcpLease?, ghost i: nat)
      requires ListValid()
      ensures lease == null ==> ByMac(Leases, mac).None?
      ensures lease != null ==> i < |lease_list| && lease == lease_list[i]
                                && Leases[i].mac == mac && ByMac(Leases, mac) == Some(Leases[i])
    {
      i := 0;
      var k := 0;
      while k < |lease_list|
        invariant 0 <= k <= |lease_list|
        invariant ByMac(Leases, mac) == ByMac(Leases[k..], mac)
      {
        assert lease_list[k].Value() == Leases[k];
        assert Leases[k..][1..] == Leases[k + 1..];
        if lease_list[k].lease_mac == mac {
          return lease_list[k], k;
        }
        k := k + 1;
      }
      lease := null;
    }

    method FindLeaseByNip(nip: nat) returns (lease: DhcpLease?, ghost i: nat)
      requires Valid()
      ensures lease == null <==> ByNip(Leases, nip).None?
      ensures lease != null ==> i < |lease_list| && lease == lease_list[i]
                                && Leases[i].nip == nip && ByNip(Leases, nip) == Some(Leases[i])
    {
      i := 0;
      HashKeys(lease_list, Leases, nip);
      if nip in nip_lease_hash {
        lease := nip_lease_hash[nip];
        i := FoundIn(Leases, nip);
        HashAt(lease_list, Leases, i);
      } else {
        lease := null;
      }
    }

    /** g_list_remove: take out the first occurrence. */
    method ListRemove(lease: DhcpLease, ghost i: nat)
      requires ListValid() && i < |lease_list| && lease == lease_list[i]
      modifies this`lease_list, this`Leases
      ensures ListValid() && lease_list == Drop(old(lease_list), i) && Leases == Drop(old(Leases), i)
      ensures Unlisted(lease)
    {
      var k := 0;
      while lease_list[k] != lease
        invariant 0 <= k <= i
        decreases i - k
      {
        k := k + 1;
      }
      lease_list := lease_list[..k] + lease_list[k + 1..];
      Leases := Drop(Leases, i);
    }

    /** g_list_insert_sorted with compare_expire. */
    method ListInsert(lease: DhcpLease) returns (ghost p: nat)
      requires ListValid() && Unlisted(lease) && lease in Repr
      modifies this`lease_list, this`Leases
      ensures ListValid() && p <= |old(lease_list)| && lease_list == Splice(old(lease_list), p, lease)
      ensures Leases == Insert(old(Leases), lease.Value()) == Splice(old(Leases), p, lease.Value())
    {
      hide Insert;
      var k := 0;
      while k < |lease_list| && CompareExpire(lease.expire, lease_list[k].expire) > 0
        invariant 0 <= k <= |lease_list|
        invariant forall q :: 0 <= q < k ==> CompareExpire(lease.expire, Leases[q].expire) > 0
      {
        assert lease_list[k].Value() == Leases[k];
        k := k + 1;
      }
      assert k < |lease_list| ==> lease_list[k].Value() == Leases[k];
      InsertAt(Leases, k, lease.Value());
      p := k;
      lease_list := lease_list[..k] + [lease] + lease_list[k..];
      Leases := Splice(Leases, k, lease.Value());
    }

    /** Take a lease out of the list and the hash table. */
    method Unlink(lease: DhcpLease, ghost i: nat)
      requires Valid() && i < |lease_list| && lease == lease_list[i]
      modifies this`lease_list, this`nip_lease_hash, this`Leases
      ensures Valid() && lease_list == Drop(old(lease_list), i) && Leases == Drop(old(Leases), i)
      ensures Unlisted(lease)
    {
      HashDrop(lease_list, Leases, i);
      DropDistinct(cfg, Leases, i);
      assert lease.Value() == Leases[i];
      ListRemove(lease, i);
      nip_lease_hash := nip_lease_hash - {lease.lease_nip};
    }

    /** get_lease: clear what the address and the client have, and reuse an object. */
    method GetLease(nip: nat, mac: Mac) returns (lease: DhcpLease?)
      requires Valid()
      modifies this
      ensures Valid() && Repr >= old(Repr) && fresh(Repr - old(Repr))
      ensures lease == null <==> !Leasable(cfg, nip, mac)
      ensures lease == null ==> Leases == old(Leases)
      ensures lease != null ==> Leases == Without(old(Leases), nip, mac) && Unlisted(lease) && lease in Repr
    {
      hide Consistent, HashOf, Without, ByMac, ByNip;
      if nip == 0 || nip < cfg.startIp || nip > cfg.endIp || mac == MAC_BCAST || mac == MAC_ANY {
        return null;
      }
      var lease_mac, j := FindLeaseByMac(mac);
      var lease_nip, i := FindLeaseByNip(nip);
      if lease_nip != null {
        lease := lease_nip;
        ClearBoth(lease_nip, i, lease_mac, j, nip, mac);
      } else if lease_mac != null {
        ClearOne(Leases, j, nip, mac);
        Unlink(lease_mac, j);
        lease := lease_mac;
      } else {
        lease := new DhcpLease();
        Repr := Repr + {lease};
      }
      assert ByNip(Leases, nip).None? && ByMac(Leases, mac).None?;
      WithoutNothing(Leases, nip, mac);
    }

    /** The address is leased: take its lease out, and the client's if it is another. */
    method ClearBoth(lease_nip: DhcpLease, ghost i: nat, lease_mac: DhcpLease?, ghost j: nat, nip: nat, mac: Mac)
      requires Valid() && i < |lease_list| && lease_nip == lease_list[i] && Leases[i].nip == nip
      requires lease_mac == null ==> ByMac(Leases, mac).None?
      requires lease_mac != null ==> j < |lease_list| && lease_mac == lease_list[j] && Leases[j].mac == mac
      modifies this`lease_list, this`nip_lease_hash, this`Leases
      ensures Valid() && Unlisted(lease_nip)
      ensures Without(Leases, nip, mac) == Without(old(Leases), nip, mac)
      ensures ByNip(Leases, nip).None? && ByMac(Leases, mac).None?
    {
      hide Consistent, HashOf, Without, ByMac, ByNip;
      ghost var t := Leases;
      ClearOne(t, i, nip, mac);
      Unlink(lease_nip, i);
      if lease_mac != null && lease_nip != lease_mac {
        ghost var k := if j > i then j - 1 else j;
        assert lease_list[k] == lease_mac && Leases[k] == t[j];
        ClearOne(Leases, k, nip, mac);
        Unlink(lease_mac, k);
      }
    }

    /** One lease of the address or the client less to clear. */
    lemma ClearOne(t: Table, i: nat, nip: nat, mac: Mac)
      requires Consistent(cfg, t) && i < |t| && (t[i].nip == nip || t[i].mac == mac)
      ensures Without(Drop(t, i), nip, mac) == Without(t, nip, mac)
      ensures ByNip(t, nip).None? || t[i].nip == nip ==> ByNip(Drop(t, i), nip).None?
      ensures ByMac(t, mac).None? || t[i].mac == mac ==> ByMac(Drop(t, i), mac).None?
    {
      WithoutDrop(t, i, nip, mac);
      DropLookups(t, i, nip, mac);
    }

    /** add_lease. */
    method AddLease(expire: nat, chaddr: Mac, nip: nat, now: int) returns (lease: DhcpLease?)
      requires Valid()
      modifies this, Repr
      ensures Valid() && Repr >= old(Repr) && fresh(Repr - old(Repr))
      ensures match LeaseTable.AddLease(cfg, old(Leases), expire, chaddr, nip, now)
              case None => lease == null && Leases == old(Leases)
              case Some(t) => lease != null && Leases == t
    {
      hide Consistent, Insert, Without, HashOf;
      ghost var l := Lease(if expire == 0 then now + cfg.leaseSeconds else expire, nip, chaddr);
      lease := GetLease(nip, chaddr);
      if lease == null {
        return;
      }
      PutConsistent(cfg, old(Leases), l);
      WithoutClears(l, old(Leases));
      ghost var t := Leases;
      lease.lease_mac := chaddr;
      lease.lease_nip := nip;
      if expire == 0 {
        lease.expire := now + cfg.leaseSeconds;
      } else {
        lease.expire := expire;
      }
      ghost var objects := lease_list;
      var p := ListInsert(lease);
      assert lease.Value() == l;
      HashSplice<DhcpLease>(objects, t, p, lease, l);
      nip_lease_hash := nip_lease_hash[lease.lease_nip := lease];
    }

    /** Unlink and free. */
    method RemoveLease(lease: DhcpLease, ghost i: nat)
      requires Valid() && i < |lease_list| && lease == lease_list[i]
      modifies this`lease_list, this`nip_lease_hash, this`Leases
      ensures Valid() && Leases == Without(old(Leases), old(Leases)[i].nip, old(Leases)[i].mac)
    {
      ghost var l := Leases[i];
      ClearOne(Leases, i, l.nip, l.mac);
      LookupAt(Leases, i);
      Unlink(lease, i);
      WithoutNothing(Leases, l.nip, l.mac);
    }

    /** lease_set_expire: the hash table keeps pointing at the object. */
    method LeaseSetExpire(lease: DhcpLease, ghost i: nat, now: int)
      requires Valid() && i < |lease_list| && lease == lease_list[i]
      modifies this`lease_list, this`Leases, lease
      ensures Valid() && Leases == SetExpire(old(Leases), old(Leases)[i], now)
    {
      hide Distinct, AllLeasable, Insert, Without, HashOf;
      ghost var l := Leases[i];
      ghost var l' := l.(expire := now % 0x1_0000_0000);
      assert lease.Value() == l;
      ClearOne(Leases, i, l.nip, l.mac);
      HashDrop(lease_list, Leases, i);
      HashAt(lease_list, Leases, i);
      DropDistinct(cfg, Leases, i);
      LeasableAt(cfg, Leases, i);
      PutConsistent(cfg, Leases, l');
      ListRemove(lease, i);
      ghost var objects, t := lease_list, Leases;
      WithoutNothing(t, l.nip, l.mac);
      lease.expire := now % 0x1_0000_0000;
      assert lease.Value() == l';
      var p := ListInsert(lease);
      WithoutClears(l', old(Leases));
      HashSplice<DhcpLease>(objects, t, p, lease, l');
    }

    /** arp_check always agrees. */
    method FindFreeOrExpiredNip(now: int) returns (r: nat)
      requires Valid() && SearchEnds(cfg, Leases)
      ensures r == FindFreeOrExpired(cfg, Leases, now)
    {
      var ip_addr: nat := cfg.startIp;
      ghost var wrapped := false;
      while ip_addr <= cfg.endIp
        invariant ip_addr <= LAST_ADDRESS
        invariant !wrapped ==> FirstFree(Leases, cfg.startIp, cfg.endIp) == FirstFree(Leases, ip_addr, cfg.endIp)
        invariant wrapped ==> cfg.endIp == LAST_ADDRESS && FirstFree(Leases, cfg.startIp, cfg.endIp).None?
                              && FirstFree(Leases, 0, LAST_ADDRESS) == FirstFree(Leases, ip_addr, LAST_ADDRESS)
        decreases !wrapped, LAST_ADDRESS - ip_addr
      {
        if ip_addr % 256 != 0 && ip_addr % 256 != 255 {
          var lease, i := FindLeaseByNip(ip_addr);
          if lease == null {
            return ip_addr;
          }
        }
        assert FirstFree(Leases, ip_addr, cfg.endIp) == FirstFree(Leases, ip_addr + 1, cfg.endIp);
        wrapped := wrapped || ip_addr == LAST_ADDRESS;
        ip_addr := (ip_addr + 1) % (LAST_ADDRESS + 1);
      }
      if |lease_list| == 0 {
        return 0;
      }
      var last := lease_list[|lease_list| - 1];
      assert last.Value() == Leases[|Leases| - 1];
      if last.expire < now {
        return last.lease_nip;
      }
      return 0;
    }

    method CheckRequestedNip(nip: nat, now: int) returns (ok: bool)
      requires Valid()
      ensures ok == MayRequest(cfg, Leases, nip, now)
    {
      if nip == 0 || nip < cfg.startIp || nip > cfg.endIp {
        return false;
      }
      var lease, i := FindLeaseByNip(nip);
      if lease == null {
        return true;
      }
      assert lease.Value() == Leases[i];
      return lease.expire < now;
    }

    method SendOffer(p: Packet, lease: DhcpLease?, ghost i: nat, requested: nat, now: int)
      returns (reply: Option<Reply>)
      requires Valid() && SearchEnds(cfg, Leases)
      requires lease == null ==> ByMac(Leases, p.chaddr).None?
      requires lease != null ==>
                 i < |lease_list| && lease == lease_list[i] && ByMac(Leases, p.chaddr) == Some(Leases[i])
      requires requested == Requested(p)
      modifies this, Repr
      ensures Valid() && Repr >= old(Repr) && fresh(Repr - old(Repr))
      ensures Stepped(Leases, reply) == OnDiscover(cfg, old(Leases), p, now)
    {
      hide Consistent, FindFreeOrExpired, MayRequest;
      var yiaddr;
      if lease != null {
        assert lease.Value() == Leases[i];
        yiaddr := lease.lease_nip;
      } else {
        var ok := CheckRequestedNip(requested, now);
        if ok {
          yiaddr := requested;
        } else {
          yiaddr := FindFreeOrExpiredNip(now);
        }
      }
      if yiaddr == 0 {
        return None;
      }
      var added := AddLease(OFFER_TIME, p.chaddr, yiaddr, now);
      if added == null {
        return None;
      }
      return Some(Offer(yiaddr));
    }

    /** The acknowledgement is sent before the lease is renewed. */
    method SendAck(p: Packet, dest: nat, now: int) returns (reply: Option<Reply>)
      requires Valid()
      modifies this, Repr
      ensures Valid() && Repr >= old(Repr) && fresh(Repr - old(Repr))
      ensures reply == Some(Ack(dest))
      ensures Leases == match LeaseTable.AddLease(cfg, old(Leases), 0, p.chaddr, dest, now)
                        case None => old(Leases)
                        case Some(t) => t
    {
      reply := Some(Ack(dest));
      var lease := AddLease(0, p.chaddr, dest, now);
    }

    /** One received packet. */
    method ListenerEvent(p: Packet, now: int) returns (reply: Option<Reply>)
      requires Valid() && SearchEnds(cfg, Leases)
      modifies this, Repr
      ensures Valid() && Repr >= old(Repr) && fresh(Repr - old(Repr))
      ensures Stepped(Leases, reply) == Step(cfg, old(Leases), p, now)
    {
      hide Consistent, OfferedNip, LeaseTable.AddLease;
      var kind := PacketType(p);
      if kind == 0 {
        return None;
      }
      if p.serverId.Some? {
        if p.serverId.value != cfg.serverNip {
          return None;
        }
      }
      var requested := Requested(p);
      var lease, i := FindLeaseByMac(p.chaddr);
      assert lease != null ==> lease.Value() == Leases[i];
      reply := None;
      if kind == DISCOVER {
        reply := SendOffer(p, lease, i, requested, now);
      } else if kind == REQUEST {
        if requested == 0 {
          requested := p.ciaddr;
          if requested == 0 {
            return;
          }
        }
        if lease != null && requested == lease.lease_nip {
          reply := SendAck(p, lease.lease_nip, now);
        } else if p.serverId.Some? || lease == null {
          reply := Some(Nak);
        }
      } else if kind == DECLINE {
        if p.serverId.None? || p.requestedIp.None? || lease == null {
          return;
        }
        if requested == lease.lease_nip {
          RemoveLease(lease, i);
        }
      } else if kind == RELEASE {
        if p.serverId.None? || lease == null {
          return;
        }
        if p.ciaddr == lease.lease_nip {
          LeaseSetExpire(lease, i, now);
        }
      } else if kind == INFORM {
        reply := Some(InformAck);
      }
    }
  }
}
