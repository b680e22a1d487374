/**
 The lease table of the DHCP server as a value: the lease list, in list order.
 Addresses are in host byte order, times are seconds since the epoch.
 */
module LeaseTable {
  import opened Words

  /** A six-byte hardware address, read as a number. */
  type Mac = x: int | 0 <= x < 0x1_0000_0000_0000

  const MAC_BCAST_ADDR: Mac := 0xffff_ffff_ffff
  const MAC_ANY_ADDR: Mac := 0
  const OFFER_TIME: u32 := 5 * 60

  datatype Lease = Lease(expire: int, nip: u32, mac: Mac)

  datatype Config = Config(startIp: u32, endIp: u32, leaseSeconds: u32, serverNip: u32)

  /** No two leases share a hardware address or an IP address. */
  predicate Unique(ls: seq<Lease>) {
    forall i, j :: 0 <= i < j < |ls| ==> ls[i].mac != ls[j].mac && ls[i].nip != ls[j].nip
  }

  predicate Admissible(cfg: Config, nip: u32, mac: Mac) {
    nip != 0 && cfg.startIp <= nip <= cfg.endIp && mac != MAC_BCAST_ADDR && mac != MAC_ANY_ADDR
  }

  predicate TableOk(cfg: Config, ls: seq<Lease>) {
    Unique(ls) && forall l :: l in ls ==> Admissible(cfg, l.nip, l.mac)
  }

  /** Latest expiry first. */
  predicate Sorted(ls: seq<Lease>) {
    forall i, j :: 0 <= i < j < |ls| ==> ls[i].expire >= ls[j].expire
  }

  // ---------- Lookup

  ghost predicate HasMac(ls: seq<Lease>, mac: Mac) {
    exists l :: l in ls && l.mac == mac
  }

  ghost predicate HasNip(ls: seq<Lease>, nip: int) {
    exists l :: l in ls && l.nip == nip
  }

  function FindByMac(ls: seq<Lease>, mac: Mac): (r: Option<Lease>)
    ensures r.Some? ==> r.value in ls && r.value.mac == mac
    ensures r.None? <==> !HasMac(ls, mac)
  {
    if ls == [] then None
    else if ls[0].mac == mac then Some(ls[0])
    else FindByMac(ls[1..], mac)
  }

  function FindByNip(ls: seq<Lease>, nip: int): (r: Option<Lease>)
    ensures r.Some? ==> r.value in ls && r.value.nip == nip
    ensures r.None? <==> !HasNip(ls, nip)
  {
    if ls == [] then None
    else if ls[0].nip == nip then Some(ls[0])
    else FindByNip(ls[1..], nip)
  }

  // ---------- Removal and insertion

  function Cut<T>(s: seq<T>, i: nat): (r: seq<T>)
    requires i < |s|
    ensures |r| == |s| - 1
    ensures forall j :: 0 <= j < |r| ==> r[j] == s[if j < i then j else j + 1]
  {
    s[..i] + s[i + 1..]
  }

  function Splice<T>(s: seq<T>, i: nat, x: T): (r: seq<T>)
    requires i <= |s|
    ensures |r| == |s| + 1
    ensures forall j :: 0 <= j < |r| ==> r[j] == if j < i then s[j] else if j == i then x else s[j - 1]
  {
    s[..i] + [x] + s[i..]
  }

  function DropMac(ls: seq<Lease>, mac: Mac): (r: seq<Lease>)
    ensures forall l :: l in r <==> l in ls && l.mac != mac
  {
    if ls == [] then []
    else if ls[0].mac == mac then DropMac(ls[1..], mac)
    else [ls[0]] + DropMac(ls[1..], mac)
  }

  function DropNip(ls: seq<Lease>, nip: int): (r: seq<Lease>)
    ensures forall l :: l in r <==> l in ls && l.nip != nip
  {
    if ls == [] then []
    else if ls[0].nip == nip then DropNip(ls[1..], nip)
    else [ls[0]] + DropNip(ls[1..], nip)
  }

  /** The sort key: a 64-bit difference returned through a C `int`. */
  function CompareExpire(a: Lease, b: Lease): int {
    ToInt32(b.expire - a.expire)
  }

  /** `g_list_insert_sorted`: before the first element that does not compare greater. */
  function InsertSorted(ls: seq<Lease>, x: Lease): (r: seq<Lease>)
    ensures forall l :: l in r <==> l == x || l in ls
    ensures |r| == |ls| + 1
  {
    if ls == [] || CompareExpire(x, ls[0]) <= 0 then [x] + ls
    else [ls[0]] + InsertSorted(ls[1..], x)
  }

  /** The table once every claim on `nip` and on `mac` is gone. */
  function Evict(ls: seq<Lease>, nip: int, mac: Mac): seq<Lease> {
    DropMac(DropNip(ls, nip), mac)
  }

  /** `add_lease`: `None` when the address or the hardware address is refused. */
  function AddLease(cfg: Config, ls: seq<Lease>, now: nat, expire: u32, mac: Mac, yiaddr: u32): (r: Option<seq<Lease>>)
    ensures r.Some? <==> Admissible(cfg, yiaddr, mac)
  {
    if !Admissible(cfg, yiaddr, mac) then None
    else
      var e := if expire == 0 then now + cfg.leaseSeconds else expire;
      Some(InsertSorted(Evict(ls, yiaddr, mac), Lease(e, yiaddr, mac)))
  }

  // ---------- Allocation

  predicate Expired(l: Lease, now: nat) {
    l.expire < now
  }

  predicate Usable(ip: int) {
    ip % 0x100 != 0 && ip % 0x100 != 0xff
  }

  /** The lowest usable address from `ip` to `end` that no lease holds. */
  function FirstFree(ls: seq<Lease>, ip: int, end: int): (r: Option<int>)
    ensures r.Some? ==> ip <= r.value <= end && Usable(r.value) && !HasNip(ls, r.value)
    ensures r.Some? ==> forall k :: ip <= k < r.value && Usable(k) ==> HasNip(ls, k)
    ensures r.None? ==> forall k :: ip <= k <= end && Usable(k) ==> HasNip(ls, k)
    decreases end - ip
  {
    if ip > end then None
    else if Usable(ip) && FindByNip(ls, ip).None? then Some(ip)
    else FirstFree(ls, ip + 1, end)
  }

  /** `find_free_or_expired_nip`; 0 means no address. */
  function FindFreeOrExpired(cfg: Config, ls: seq<Lease>, now: nat): u32 {
    match FirstFree(ls, cfg.startIp, cfg.endIp)
    case Some(ip) => ip
    case None =>
      if ls != [] && Expired(ls[|ls| - 1], now) then ls[|ls| - 1].nip else 0
  }

  predicate RequestedNipOk(cfg: Config, ls: seq<Lease>, now: nat, requested: u32) {
    && requested != 0
    && cfg.startIp <= requested <= cfg.endIp
    && match FindByNip(ls, requested) case None => true case Some(l) => Expired(l, now)
  }

  // ---------- Messages

  const BOOTREQUEST: u8 := 1
  const ETH_ALEN: u8 := 6
  const DHCPDISCOVER: u8 := 1
  const DHCPREQUEST: u8 := 3
  const DHCPDECLINE: u8 := 4
  const DHCPRELEASE: u8 := 7
  const DHCPINFORM: u8 := 8

  /**
   The parts of a client packet that the server reads. `ciaddr` and `serverId` are the
   raw words of the packet (network byte order read on the host); `requestedIp` is
   already converted.
   */
  datatype Packet = Packet(
    op: u8, hlen: u8, chaddr: Mac, ciaddr: u32,
    messageType: Option<u8>, serverId: Option<u32>, requestedIp: Option<u32>)

  datatype Reply =
    | NoReply
    | OfferSent(mac: Mac, nip: u32)
    | AckSent(mac: Mac, nip: u32)
    | NakSent(mac: Mac)
    | InformSent(mac: Mac)

  /** `check_packet_type`: 0 for a packet the server does not look at. */
  function PacketType(p: Packet): u8 {
    if p.hlen != ETH_ALEN || p.op != BOOTREQUEST || p.messageType.None? then 0
    else if DHCPDISCOVER <= p.messageType.value <= DHCPINFORM then p.messageType.value
    else 0
  }

  predicate ForThisServer(cfg: Config, p: Packet) {
    PacketType(p) != 0 && (p.serverId.Some? ==> p.serverId.value == cfg.serverNip)
  }

  function Requested(p: Packet): u32 {
    if p.requestedIp.Some? then p.requestedIp.value else 0
  }

  /** The address `send_offer` picks; 0 means none. */
  function OfferCandidate(cfg: Config, ls: seq<Lease>, now: nat, mac: Mac, requested: u32): u32 {
    match FindByMac(ls, mac)
    case Some(l) => l.nip
    case None => if RequestedNipOk(cfg, ls, now, requested) then requested else FindFreeOrExpired(cfg, ls, now)
  }

  function SendOffer(cfg: Config, ls: seq<Lease>, now: nat, mac: Mac, requested: u32): (seq<Lease>, Reply) {
    var yi := OfferCandidate(cfg, ls, now, mac, requested);
    match AddLease(cfg, ls, now, OFFER_TIME, mac, yi)
    case None => (ls, NoReply)
    case Some(ls') => (ls', OfferSent(mac, yi))
  }

  function SendAck(cfg: Config, ls: seq<Lease>, now: nat, mac: Mac, nip: u32): (seq<Lease>, Reply) {
    match AddLease(cfg, ls, now, 0, mac, nip)
    case None => (ls, AckSent(mac, nip))
    case Some(ls') => (ls', AckSent(mac, nip))
  }

  function RequestTarget(p: Packet): u32 {
    if Requested(p) != 0 then Requested(p) else SwapBytes(p.ciaddr)
  }

  function HandleRequest(cfg: Config, ls: seq<Lease>, now: nat, p: Packet): (seq<Lease>, Reply) {
    var target := RequestTarget(p);
    var lease := FindByMac(ls, p.chaddr);
    if target == 0 then (ls, NoReply)
    else if lease.Some? && target == lease.value.nip then SendAck(cfg, ls, now, p.chaddr, target)
    else if p.serverId.Some? || lease.None? then (ls, NakSent(p.chaddr))
    else (ls, NoReply)
  }

  /** A DECLINE that removes the sender's lease. */
  predicate DeclineTakesEffect(ls: seq<Lease>, p: Packet) {
    && p.serverId.Some? && p.requestedIp.Some?
    && var lease := FindByMac(ls, p.chaddr);
    lease.Some? && p.requestedIp.value == lease.value.nip
  }

  /** A RELEASE that ends the sender's lease; `ciaddr` is compared unconverted. */
  predicate ReleaseTakesEffect(ls: seq<Lease>, p: Packet) {
    && p.serverId.Some?
    && var lease := FindByMac(ls, p.chaddr);
    lease.Some? && p.ciaddr == lease.value.nip
  }

  /** `lease_set_expire`; the new time passes through a 32-bit parameter. */
  function SetExpire(ls: seq<Lease>, l: Lease, now: nat): seq<Lease> {
    InsertSorted(DropMac(ls, l.mac), l.(expire := now % 0x1_0000_0000))
  }

  /** `listener_event`: the table and the answer after one packet. */
  function Handle(cfg: Config, ls: seq<Lease>, now: nat, p: Packet): (seq<Lease>, Reply) {
    var t := PacketType(p);
    if !ForThisServer(cfg, p) then (ls, NoReply)
    else if t == DHCPDISCOVER then SendOffer(cfg, ls, now, p.chaddr, Requested(p))
    else if t == DHCPREQUEST then HandleRequest(cfg, ls, now, p)
    else if t == DHCPDECLINE then
      (if DeclineTakesEffect(ls, p) then DropMac(ls, p.chaddr) else ls, NoReply)
    else if t == DHCPRELEASE then
      (if ReleaseTakesEffect(ls, p) then SetExpire(ls, FindByMac(ls, p.chaddr).value, now) else ls, NoReply)
    else if t == DHCPINFORM then (ls, InformSent(p.chaddr))
    else (ls, NoReply)
  }

  // ---------- What every operation keeps

  lemma {:induction false} DropMacUnique(ls: seq<Lease>, mac: Mac)
    requires Unique(ls)
    ensures Unique(DropMac(ls, mac))
  {
    if ls != [] {
      DropMacUnique(ls[1..], mac);
    }
  }

  lemma {:induction false} DropNipUnique(ls: seq<Lease>, nip: int)
    requires Unique(ls)
    ensures Unique(DropNip(ls, nip))
  {
    if ls != [] {
      DropNipUnique(ls[1..], nip);
    }
  }

  lemma {:induction false} InsertUnique(ls: seq<Lease>, x: Lease)
    requires Unique(ls) && !HasMac(ls, x.mac) && !HasNip(ls, x.nip)
    ensures Unique(InsertSorted(ls, x))
  {
    if ls != [] && CompareExpire(x, ls[0]) > 0 {
      var r := InsertSorted(ls[1..], x);
      InsertUnique(ls[1..], x);
      assert ls[0] in ls;
      forall j | 0 <= j < |r| ensures r[j].mac != ls[0].mac && r[j].nip != ls[0].nip {
        assert r[j] in r;
      }
    }
  }

  /** In a unique table, dropping the hardware address or the IP address of entry `i` removes just that entry. */
  lemma {:induction false} DropAt(ls: seq<Lease>, i: nat)
    requires Unique(ls) && i < |ls|
    ensures DropMac(ls, ls[i].mac) == Cut(ls, i)
    ensures DropNip(ls, ls[i].nip) == Cut(ls, i)
  {
    if i == 0 {
      DropAbsent(ls[1..], ls[0].mac, ls[0].nip);
    } else {
      DropAt(ls[1..], i - 1);
      assert ls[1..][i - 1] == ls[i];
      assert Cut(ls, i) == [ls[0]] + Cut(ls[1..], i - 1);
    }
  }

  lemma {:induction false} DropAbsentMac(ls: seq<Lease>, mac: Mac)
    requires !HasMac(ls, mac)
    ensures DropMac(ls, mac) == ls
  {
    if ls != [] {
      assert ls[0] in ls;
      assert forall l :: l in ls[1..] ==> l in ls;
      DropAbsentMac(ls[1..], mac);
    }
  }

  lemma {:induction false} DropAbsentNip(ls: seq<Lease>, nip: int)
    requires !HasNip(ls, nip)
    ensures DropNip(ls, nip) == ls
  {
    if ls != [] {
      assert ls[0] in ls;
      assert forall l :: l in ls[1..] ==> l in ls;
      DropAbsentNip(ls[1..], nip);
    }
  }

  lemma {:induction false} DropAbsent(ls: seq<Lease>, mac: Mac, nip: int)
    ensures !HasMac(ls, mac) ==> DropMac(ls, mac) == ls
    ensures !HasNip(ls, nip) ==> DropNip(ls, nip) == ls
  {
    if !HasMac(ls, mac) {
      DropAbsentMac(ls, mac);
    }
    if !HasNip(ls, nip) {
      DropAbsentNip(ls, nip);
    }
  }

  /** What is left to remove in the four cases of `get_lease`. */
  lemma {:induction false} EvictCases(ls: seq<Lease>, nip: int, mac: Mac)
    ensures FindByNip(ls, nip).None? ==> Evict(ls, nip, mac) == DropMac(ls, mac)
    ensures FindByMac(ls, mac).None? ==> Evict(ls, nip, mac) == DropNip(ls, nip)
    ensures FindByNip(ls, nip).None? && FindByMac(ls, mac).None? ==> Evict(ls, nip, mac) == ls
    ensures DropNip(ls, nip) == DropMac(ls, mac) ==> Evict(ls, nip, mac) == DropNip(ls, nip)
  {
    DropAbsent(ls, mac, nip);
    DropAbsent(DropNip(ls, nip), mac, nip);
  }

  lemma {:induction false} EvictClears(ls: seq<Lease>, nip: int, mac: Mac)
    ensures !HasMac(Evict(ls, nip, mac), mac) && !HasNip(Evict(ls, nip, mac), nip)
  {
  }

  /** Inserting puts `x` before the first entry it does not compare greater than. */
  lemma {:induction false} InsertAt(ls: seq<Lease>, x: Lease, i: nat)
    requires i <= |ls|
    requires forall k :: 0 <= k < i ==> CompareExpire(x, ls[k]) > 0
    requires i < |ls| ==> CompareExpire(x, ls[i]) <= 0
    ensures InsertSorted(ls, x) == Splice(ls, i, x)
  {
    if i > 0 {
      InsertAt(ls[1..], x, i - 1);
    }
  }

  lemma {:induction false} InsertOk(cfg: Config, ls: seq<Lease>, x: Lease)
    requires TableOk(cfg, ls) && Admissible(cfg, x.nip, x.mac)
    requires !HasMac(ls, x.mac) && !HasNip(ls, x.nip)
    ensures TableOk(cfg, InsertSorted(ls, x))
  {
    InsertUnique(ls, x);
  }

  lemma {:induction false} DropOk(cfg: Config, ls: seq<Lease>, mac: Mac)
    requires TableOk(cfg, ls)
    ensures TableOk(cfg, DropMac(ls, mac))
  {
    DropMacUnique(ls, mac);
  }

  lemma {:induction false} AddLeaseOk(cfg: Config, ls: seq<Lease>, now: nat, expire: u32, mac: Mac, yiaddr: u32)
    requires TableOk(cfg, ls) && Admissible(cfg, yiaddr, mac)
    ensures TableOk(cfg, AddLease(cfg, ls, now, expire, mac, yiaddr).value)
  {
    DropNipUnique(ls, yiaddr);
    DropOk(cfg, DropNip(ls, yiaddr), mac);
    var e := if expire == 0 then now + cfg.leaseSeconds else expire;
    InsertOk(cfg, Evict(ls, yiaddr, mac), Lease(e, yiaddr, mac));
  }

  lemma {:induction false} SameMac(ls: seq<Lease>, a: Lease, b: Lease)
    requires Unique(ls) && a in ls && b in ls && (a.mac == b.mac || a.nip == b.nip)
    ensures a == b
  {
    var i :| 0 <= i < |ls| && ls[i] == a;
    var j :| 0 <= j < |ls| && ls[j] == b;
    assert i == j;
  }

  lemma {:induction false} SetExpireOk(cfg: Config, ls: seq<Lease>, l: Lease, now: nat)
    requires TableOk(cfg, ls) && l in ls
    ensures TableOk(cfg, SetExpire(ls, l, now))
  {
    DropOk(cfg, ls, l.mac);
    forall m | m in DropMac(ls, l.mac) ensures m.nip != l.nip {
      if m.nip == l.nip { SameMac(ls, m, l); }
    }
    InsertOk(cfg, DropMac(ls, l.mac), l.(expire := now % 0x1_0000_0000));
  }

  /** Every packet, at any time, keeps the table unique and within its range. */
  lemma {:induction false} HandleKeepsTable(cfg: Config, ls: seq<Lease>, now: nat, p: Packet)
    requires TableOk(cfg, ls)
    ensures TableOk(cfg, Handle(cfg, ls, now, p).0)
  {
    var t := PacketType(p);
    if ForThisServer(cfg, p) {
      if t == DHCPDISCOVER {
        var yi := OfferCandidate(cfg, ls, now, p.chaddr, Requested(p));
        if Admissible(cfg, yi, p.chaddr) {
          AddLeaseOk(cfg, ls, now, OFFER_TIME, p.chaddr, yi);
        }
      } else if t == DHCPREQUEST {
        if Admissible(cfg, RequestTarget(p), p.chaddr) {
          AddLeaseOk(cfg, ls, now, 0, p.chaddr, RequestTarget(p));
        }
      } else if t == DHCPDECLINE {
        DropOk(cfg, ls, p.chaddr);
      } else if t == DHCPRELEASE && ReleaseTakesEffect(ls, p) {
        SetExpireOk(cfg, ls, FindByMac(ls, p.chaddr).value, now);
      }
    }
  }
}
