/**
 The DHCP server object: a list of lease records sorted by expiry and a hash from
 address to lease record, both updated in place. Every method is proved against the
 table functions of module `LeaseTable`.
 */
module DhcpServer {
  import opened Words
  import opened LeaseTable

  /** A lease record. The list and the hash share it; `AddLease` overwrites and reuses it. */
  class DhcpLease {
    var expire: int
    var nip: u32
    var mac: Mac

    constructor ()
      ensures Value() == Lease(0, 0, 0)
    {
      expire, nip, mac := 0, 0, 0;
    }

    ghost function Value(): Lease
      reads this
    {
      Lease(expire, nip, mac)
    }

    method Fill(v: Lease)
      modifies this
      ensures Value() == v
    {
      expire, nip, mac := v.expire, v.nip, v.mac;
    }
  }

  /** The records of `list` hold the values `ls`, and `hash` finds exactly them, each under its own address. */
  ghost predicate Represents(list: seq<DhcpLease>, hash: map<u32, DhcpLease>, ls: seq<Lease>)
    reads list
  {
    && |ls| == |list|
    && (forall i :: 0 <= i < |list| ==> list[i].Value() == ls[i])
    && (forall i :: 0 <= i < |list| ==> ls[i].nip in hash && hash[ls[i].nip] == list[i])
    && (forall k :: k in hash ==> HasNip(ls, k))
  }

  lemma {:induction false} Lookup(list: seq<DhcpLease>, hash: map<u32, DhcpLease>, ls: seq<Lease>, nip: u32)
    requires Represents(list, hash, ls) && Unique(ls)
    ensures nip in hash <==> FindByNip(ls, nip).Some?
    ensures nip in hash ==> hash[nip] in list && FindByNip(ls, nip) == Some(hash[nip].Value())
  {
    var r := FindByNip(ls, nip);
    if r.Some? {
      var i :| 0 <= i < |ls| && ls[i] == r.value;
      assert hash[ls[i].nip] == list[i];
    }
  }

  lemma {:induction false} CutMembers(list: seq<DhcpLease>, i: nat)
    requires i < |list| && forall j :: 0 <= j < |list| && j != i ==> list[j] != list[i]
    ensures forall l :: l in Cut(list, i) <==> l in list && l != list[i]
  {
    var r := Cut(list, i);
    forall l | l in list && l != list[i] ensures l in r {
      var j :| 0 <= j < |list| && list[j] == l;
      assert l == r[if j < i then j else j - 1];
    }
  }

  lemma {:induction false} CutRepresents(list: seq<DhcpLease>, hash: map<u32, DhcpLease>, ls: seq<Lease>, i: nat)
    requires Represents(list, hash, ls) && Unique(ls) && i < |list|
    ensures Represents(Cut(list, i), hash - {ls[i].nip}, Cut(ls, i))
    ensures forall j :: 0 <= j < |list| && j != i ==> list[j] != list[i]
  {
    forall k | k in hash - {ls[i].nip} ensures HasNip(Cut(ls, i), k) {
      var l :| l in ls && l.nip == k;
      DropAt(ls, i);
    }
  }

  lemma {:induction false} SpliceMembers(list: seq<DhcpLease>, i: nat, x: DhcpLease)
    requires i <= |list|
    ensures forall l :: l in Splice(list, i, x) ==> l in list || l == x
  {
  }

  lemma {:induction false} SpliceRepresents(list: seq<DhcpLease>, hash: map<u32, DhcpLease>, ls: seq<Lease>, i: nat,
                                            x: DhcpLease)
    requires Represents(list, hash, ls) && i <= |list|
    requires !HasNip(ls, x.nip)
    ensures Represents(Splice(list, i, x), hash[x.nip := x], Splice(ls, i, x.Value()))
  {
    var list', hash', ls' := Splice(list, i, x), hash[x.nip := x], Splice(ls, i, x.Value());
    forall j | 0 <= j < |list'|
      ensures list'[j].Value() == ls'[j] && ls'[j].nip in hash' && hash'[ls'[j].nip] == list'[j]
    {
      if j != i {
        var k := if j < i then j else j - 1;
        assert ls[k] in ls && ls'[j] == ls[k] && list'[j] == list[k];
      }
    }
    forall k | k in hash' ensures HasNip(ls', k) {
      if k == x.nip {
        assert ls'[i] in ls';
      } else {
        SpliceHas(ls, i, x.Value(), k);
      }
    }
  }

  lemma {:induction false} SpliceHas(ls: seq<Lease>, i: nat, x: Lease, nip: int)
    requires i <= |ls| && HasNip(ls, nip)
    ensures HasNip(Splice(ls, i, x), nip)
  {
    var l :| l in ls && l.nip == nip;
    assert l in Splice(ls, i, x);
  }

  class Server {
    const cfg: Config
    var leaseList: seq<DhcpLease>
    var nipLeaseHash: map<u32, DhcpLease>

    /** The lease list as values. */
    ghost var leases: seq<Lease>

    /** List and hash hold the same records, and the table is in order. */
    ghost predicate Valid()
      reads this, leaseList
    {
      Represents(leaseList, nipLeaseHash, leases) && TableOk(cfg, leases)
    }

    constructor (cfg: Config)
      ensures Valid() && this.cfg == cfg && leases == []
    {
      this.cfg := cfg;
      leaseList, leases := [], [];
      nipLeaseHash := map[];
    }

    method FindLeaseByMac(mac: Mac) returns (lease: DhcpLease?)
      requires Valid()
      ensures lease == null <==> FindByMac(leases, mac).None?
      ensures lease != null ==> lease in leaseList && FindByMac(leases, mac) == Some(lease.Value())
    {
      ghost var ls := leases;
      for i := 0 to |leaseList|
        invariant FindByMac(ls, mac) == FindByMac(ls[i..], mac)
      {
        if leaseList[i].mac == mac {
          return leaseList[i];
        }
      }
      return null;
    }

    method FindLeaseByNip(nip: u32) returns (lease: DhcpLease?)
      requires Valid()
      ensures lease == null <==> FindByNip(leases, nip).None?
      ensures lease != null ==> lease in leaseList && FindByNip(leases, nip) == Some(lease.Value())
    {
      Lookup(leaseList, nipLeaseHash, leases, nip);
      return if nip in nipLeaseHash then nipLeaseHash[nip] else null;
    }

    /** Takes `lease` off both indexes; the record itself is left as it is. */
    method RemoveLease(lease: DhcpLease)
      requires Valid() && lease in leaseList
      modifies this
      ensures Valid()
      ensures leases == DropMac(old(leases), lease.mac) == DropNip(old(leases), lease.nip)
      ensures forall l :: l in leaseList <==> l in old(leaseList) && l != lease
    {
      var i := 0;
      while leaseList[i] != lease
        invariant 0 <= i < |leaseList|
        invariant lease !in leaseList[..i]
        decreases |leaseList| - i
      {
        i := i + 1;
      }
      DropAt(leases, i);
      DropOk(cfg, leases, lease.mac);
      CutRepresents(leaseList, nipLeaseHash, leases, i);
      CutMembers(leaseList, i);
      leaseList := Cut(leaseList, i);
      nipLeaseHash := nipLeaseHash - {lease.nip};
      leases := Cut(leases, i);
    }

    /**
     Frees every claim on `yiaddr` and on `mac` and returns a record to fill in.
     `lease` is null when the request is refused (`-ENXIO`).
     */
    method GetLease(yiaddr: u32, mac: Mac) returns (lease: DhcpLease?)
      requires Valid()
      modifies this
      ensures Valid()
      ensures lease == null <==> !Admissible(cfg, yiaddr, mac)
      ensures lease == null ==> leaseList == old(leaseList) && nipLeaseHash == old(nipLeaseHash)
      ensures lease != null ==>
                && leases == Evict(old(leases), yiaddr, mac)
                && lease !in leaseList
                && (lease in old(leaseList) || fresh(lease))
      ensures forall l :: l in leaseList ==> l in old(leaseList)
    {
      if yiaddr == 0 || yiaddr < cfg.startIp || yiaddr > cfg.endIp
         || mac == MAC_BCAST_ADDR || mac == MAC_ANY_ADDR {
        return null;
      }
      EvictCases(leases, yiaddr, mac);
      var leaseMac := FindLeaseByMac(mac);
      var leaseNip := FindLeaseByNip(yiaddr);
      if leaseNip != null {
        RemoveLease(leaseNip);
        if leaseMac != null && leaseNip != leaseMac {
          RemoveLease(leaseMac);
        }
        return leaseNip;
      }
      if leaseMac != null {
        RemoveLease(leaseMac);
        return leaseMac;
      }
      lease := new DhcpLease();
    }

    /** Where `g_list_insert_sorted` puts `lease`. */
    method InsertPosition(lease: DhcpLease) returns (i: nat)
      requires Represents(leaseList, nipLeaseHash, leases)
      ensures i <= |leases|
      ensures InsertSorted(leases, lease.Value()) == Splice(leases, i, lease.Value())
    {
      i := 0;
      while i < |leaseList| && ToInt32(leaseList[i].expire - lease.expire) > 0
        invariant 0 <= i <= |leaseList|
        invariant forall k :: 0 <= k < i ==> CompareExpire(lease.Value(), leases[k]) > 0
      {
        i := i + 1;
      }
      InsertAt(leases, lease.Value(), i);
    }

    /** Puts a filled-in record on both indexes. */
    method Insert(lease: DhcpLease)
      requires Valid()
      requires Admissible(cfg, lease.nip, lease.mac)
      requires !HasMac(leases, lease.mac) && !HasNip(leases, lease.nip)
      modifies this
      ensures Valid()
      ensures leases == InsertSorted(old(leases), lease.Value())
      ensures forall l :: l in leaseList ==> l in old(leaseList) || l == lease
    {
      var i := InsertPosition(lease);
      ghost var v, ls := lease.Value(), Splice(leases, i, lease.Value());
      var list, hash := Splice(leaseList, i, lease), nipLeaseHash[lease.nip := lease];
      assert TableOk(cfg, ls) by { InsertOk(cfg, leases, v); }
      assert Represents(list, hash, ls) by { SpliceRepresents(leaseList, nipLeaseHash, leases, i, lease); }
      SpliceMembers(leaseList, i, lease);
      leaseList, nipLeaseHash, leases := list, hash, ls;
    }

    /** Overwrites a record that is on neither index and puts it on both. */
    method Refill(lease: DhcpLease, v: Lease)
      requires Valid() && lease !in leaseList
      requires Admissible(cfg, v.nip, v.mac) && !HasMac(leases, v.mac) && !HasNip(leases, v.nip)
      modifies this, lease
      ensures Valid()
      ensures leases == InsertSorted(old(leases), v)
      ensures forall l :: l in leaseList ==> l in old(leaseList) || l == lease
    {
      lease.Fill(v);
      Insert(lease);
    }

    /** `expire` is an absolute time, or 0 for a full lease from `now`. */
    method AddLease(now: nat, expire: u32, mac: Mac, yiaddr: u32) returns (ok: bool)
      requires Valid()
      modifies this, leaseList
      ensures Valid()
      ensures ok <==> Admissible(cfg, yiaddr, mac)
      ensures !ok ==> leases == old(leases)
      ensures ok ==> Some(leases) == LeaseTable.AddLease(cfg, old(leases), now, expire, mac, yiaddr)
      ensures forall l :: l in leaseList ==> l in old(leaseList) || fresh(l)
    {
      EvictClears(leases, yiaddr, mac);
      var lease := GetLease(yiaddr, mac);
      if lease == null {
        return false;
      }
      Refill(lease, Lease(if expire == 0 then now + cfg.leaseSeconds else expire, yiaddr, mac));
      return true;
    }

    /** Re-sorts `lease` under a new expiry time, which passes through a 32-bit parameter. */
    method LeaseSetExpire(lease: DhcpLease, expire: u32)
      requires Valid() && lease in leaseList
      modifies this, lease
      ensures Valid()
      ensures leases == InsertSorted(DropMac(old(leases), old(lease.mac)), old(lease.Value()).(expire := expire))
      ensures forall l :: l in leaseList ==> l in old(leaseList)
    {
      assert Admissible(cfg, lease.nip, lease.mac) by {
        ghost var i :| 0 <= i < |leaseList| && leaseList[i] == lease;
        assert leases[i] in leases;
      }
      RemoveLease(lease);
      Refill(lease, Lease(expire, lease.nip, lease.mac));
    }

    method FindFreeOrExpiredNip(now: nat) returns (nip: u32)
      requires Valid() && cfg.endIp < 0xffff_ffff
      ensures nip == FindFreeOrExpired(cfg, leases, now)
    {
      ghost var ls := leases;
      var ip := cfg.startIp;
      while ip <= cfg.endIp
        invariant cfg.startIp <= ip
        invariant FirstFree(ls, cfg.startIp, cfg.endIp) == FirstFree(ls, ip, cfg.endIp)
      {
        if ip % 0x100 != 0 && ip % 0x100 != 0xff {
          var lease := FindLeaseByNip(ip);
          if lease == null {
            return ip;
          }
        }
        ip := ip + 1;
      }
      if leaseList == [] || leaseList[|leaseList| - 1].expire >= now {
        return 0;
      }
      return leaseList[|leaseList| - 1].nip;
    }

    method CheckRequestedNip(now: nat, requested: u32) returns (ok: bool)
      requires Valid()
      ensures ok == RequestedNipOk(cfg, leases, now, requested)
    {
      if requested == 0 || requested < cfg.startIp || requested > cfg.endIp {
        return false;
      }
      var lease := FindLeaseByNip(requested);
      return lease == null || lease.expire < now;
    }

    method SendOffer(now: nat, mac: Mac, lease: DhcpLease?, requested: u32) returns (reply: Reply)
      requires Valid() && cfg.endIp < 0xffff_ffff
      requires lease == null <==> FindByMac(leases, mac).None?
      requires lease != null ==> FindByMac(leases, mac) == Some(lease.Value())
      modifies this, leaseList
      ensures Valid()
      ensures (leases, reply) == LeaseTable.SendOffer(cfg, old(leases), now, mac, requested)
    {
      var yiaddr: u32;
      if lease != null {
        yiaddr := lease.nip;
      } else {
        var ok := CheckRequestedNip(now, requested);
        if ok {
          yiaddr := requested;
        } else {
          yiaddr := FindFreeOrExpiredNip(now);
        }
      }
      if yiaddr == 0 {
        return NoReply;
      }
      var added := AddLease(now, OFFER_TIME, mac, yiaddr);
      return if added then OfferSent(mac, yiaddr) else NoReply;
    }

    /** One received packet: the new table and the packet sent in answer. */
    method ListenerEvent(now: nat, p: Packet) returns (reply: Reply)
      requires Valid() && cfg.endIp < 0xffff_ffff
      modifies this, leaseList
      ensures Valid()
      ensures (leases, reply) == Handle(cfg, old(leases), now, p)
    {
      reply := NoReply;
      var kind := PacketType(p);
      if kind == 0 || (p.serverId.Some? && p.serverId.value != cfg.serverNip) {
        return;
      }
      var requested := if p.requestedIp.Some? then p.requestedIp.value else 0;
      var lease := FindLeaseByMac(p.chaddr);
      if kind == DHCPDISCOVER {
        reply := SendOffer(now, p.chaddr, lease, requested);
      } else if kind == DHCPREQUEST {
        if requested == 0 {
          requested := SwapBytes(p.ciaddr);
          if requested == 0 {
            return;
          }
        }
        if lease != null && requested == lease.nip {
          var _ := AddLease(now, 0, p.chaddr, requested);
          reply := AckSent(p.chaddr, requested);
        } else if p.serverId.Some? || lease == null {
          reply := NakSent(p.chaddr);
        }
      } else if kind == DHCPDECLINE {
        if p.serverId.Some? && p.requestedIp.Some? && lease != null && requested == lease.nip {
          RemoveLease(lease);
        }
      } else if kind == DHCPRELEASE {
        if p.serverId.Some? && lease != null && p.ciaddr == lease.nip {
          LeaseSetExpire(lease, now % 0x1_0000_0000);
        }
      } else if kind == DHCPINFORM {
        reply := InformSent(p.chaddr);
      }
    }
  }
}
