/** What holds of the DHCP server over whole runs of packets. */
module LeaseRuns {
  import opened Words
  import opened LeaseTable

  datatype Event = Event(now: nat, packet: Packet)

  /** The table before packet `i` of the run `es` that starts from `ls`. */
  function TableAt(cfg: Config, ls: seq<Lease>, es: seq<Event>, i: nat): seq<Lease>
    requires i <= |es|
  {
    if i == 0 then ls else Handle(cfg, TableAt(cfg, ls, es, i - 1), es[i - 1].now, es[i - 1].packet).0
  }

  function ReplyAt(cfg: Config, ls: seq<Lease>, es: seq<Event>, i: nat): Reply
    requires i < |es|
  {
    Handle(cfg, TableAt(cfg, ls, es, i), es[i].now, es[i].packet).1
  }

  ghost predicate ClockRuns(es: seq<Event>) {
    forall i, j :: 0 <= i < j < |es| ==> es[i].now <= es[j].now
  }

  lemma {:induction false} RunKeepsTable(cfg: Config, ls: seq<Lease>, es: seq<Event>, i: nat)
    requires TableOk(cfg, ls) && i <= |es|
    ensures TableOk(cfg, TableAt(cfg, ls, es, i))
  {
    if i > 0 {
      RunKeepsTable(cfg, ls, es, i - 1);
      HandleKeepsTable(cfg, TableAt(cfg, ls, es, i - 1), es[i - 1].now, es[i - 1].packet);
    }
  }

  // ---------- Exclusivity

  /** `m` holds `a` at least until `exp`. */
  ghost predicate Held(ls: seq<Lease>, m: Mac, a: u32, exp: int) {
    exists l :: l in ls && l.mac == m && l.nip == a && l.expire >= exp
  }

  /** The packet gives up the lease of its sender `m`. */
  predicate Relinquishes(cfg: Config, ls: seq<Lease>, p: Packet, m: Mac) {
    && p.chaddr == m
    && ForThisServer(cfg, p)
    && var t := PacketType(p);
    || t == DHCPDISCOVER
    || (t == DHCPDECLINE && DeclineTakesEffect(ls, p))
    || (t == DHCPRELEASE && ReleaseTakesEffect(ls, p))
  }

  predicate Gives(r: Reply, m: Mac, a: u32) {
    r == OfferSent(m, a) || r == AckSent(m, a)
  }

  lemma {:induction false} HeldAcrossAdd(cfg: Config, ls: seq<Lease>, now: nat, expire: u32, mac: Mac, yi: u32,
                                         m: Mac, a: u32, exp: int)
    requires TableOk(cfg, ls) && Admissible(cfg, yi, mac)
    requires Held(ls, m, a, exp)
    requires mac != m && yi != a
    ensures Held(AddLease(cfg, ls, now, expire, mac, yi).value, m, a, exp)
  {
    var l :| l in ls && l.mac == m && l.nip == a && l.expire >= exp;
    assert l in Evict(ls, yi, mac);
  }

  lemma {:induction false} CandidateAvoidsHeld(cfg: Config, ls: seq<Lease>, now: nat, mac: Mac, requested: u32,
                                               m: Mac, a: u32, exp: int)
    requires TableOk(cfg, ls) && Held(ls, m, a, exp) && now <= exp && mac != m
    ensures OfferCandidate(cfg, ls, now, mac, requested) != a
  {
    var l :| l in ls && l.mac == m && l.nip == a && l.expire >= exp;
    forall k | k in ls && k.nip == a ensures k == l {
      SameMac(ls, k, l);
    }
    assert a != 0;
    if ls != [] {
      assert ls[|ls| - 1] in ls;
    }
  }

  lemma {:induction false} HeldStep(cfg: Config, ls: seq<Lease>, now: nat, p: Packet, m: Mac, a: u32, exp: int)
    requires TableOk(cfg, ls) && Held(ls, m, a, exp)
    requires now <= exp <= now + cfg.leaseSeconds
    requires !Relinquishes(cfg, ls, p, m)
    ensures Held(Handle(cfg, ls, now, p).0, m, a, exp)
    ensures forall other :: other != m ==> !Gives(Handle(cfg, ls, now, p).1, other, a)
  {
    var l :| l in ls && l.mac == m && l.nip == a && l.expire >= exp;
    forall k | k in ls && (k.mac == m || k.nip == a) ensures k == l {
      SameMac(ls, k, l);
    }
    var t := PacketType(p);
    if ForThisServer(cfg, p) {
      if t == DHCPDISCOVER {
        CandidateAvoidsHeld(cfg, ls, now, p.chaddr, Requested(p), m, a, exp);
        var yi := OfferCandidate(cfg, ls, now, p.chaddr, Requested(p));
        if Admissible(cfg, yi, p.chaddr) {
          HeldAcrossAdd(cfg, ls, now, OFFER_TIME, p.chaddr, yi, m, a, exp);
        }
      } else if t == DHCPREQUEST {
        var lease := FindByMac(ls, p.chaddr);
        if lease.Some? && RequestTarget(p) == lease.value.nip && RequestTarget(p) != 0 {
          if p.chaddr == m {
            var renewed := Lease(now + cfg.leaseSeconds, a, m);
            assert renewed in SendAck(cfg, ls, now, m, a).0;
          } else {
            HeldAcrossAdd(cfg, ls, now, 0, p.chaddr, RequestTarget(p), m, a, exp);
          }
        }
      } else if t == DHCPDECLINE {
        assert DeclineTakesEffect(ls, p) ==> l in DropMac(ls, p.chaddr);
      } else if t == DHCPRELEASE && ReleaseTakesEffect(ls, p) {
        assert l in SetExpire(ls, FindByMac(ls, p.chaddr).value, now);
      }
    }
  }

  lemma {:induction false} AckHolds(cfg: Config, ls: seq<Lease>, now: nat, p: Packet, m: Mac, a: u32)
    requires TableOk(cfg, ls) && Handle(cfg, ls, now, p).1 == AckSent(m, a)
    ensures Held(Handle(cfg, ls, now, p).0, m, a, now + cfg.leaseSeconds)
  {
    var l := FindByMac(ls, m).value;
    assert Lease(now + cfg.leaseSeconds, a, m) in Handle(cfg, ls, now, p).0;
  }

  /** What is held before packet `i` is still held before packet `j` if nothing in between gives it up. */
  lemma {:induction false} HeldUntil(cfg: Config, ls: seq<Lease>, es: seq<Event>, i: nat, j: nat, m: Mac, a: u32,
                                     exp: int)
    requires TableOk(cfg, ls) && i <= j <= |es|
    requires Held(TableAt(cfg, ls, es, i), m, a, exp)
    requires forall k :: i <= k < j ==> es[k].now <= exp <= es[k].now + cfg.leaseSeconds
    requires forall k :: i <= k < j ==> !Relinquishes(cfg, TableAt(cfg, ls, es, k), es[k].packet, m)
    ensures Held(TableAt(cfg, ls, es, j), m, a, exp)
    decreases j
  {
    if i < j {
      var t, e := TableAt(cfg, ls, es, j - 1), es[j - 1];
      assert Held(t, m, a, exp) by {
        HeldUntil(cfg, ls, es, i, j - 1, m, a, exp);
      }
      assert TableOk(cfg, t) by {
        RunKeepsTable(cfg, ls, es, j - 1);
      }
      HeldStep(cfg, t, e.now, e.packet, m, a, exp);
    }
  }

  lemma {:induction false} HeldAfterAck(cfg: Config, ls: seq<Lease>, es: seq<Event>, i: nat, m: Mac, a: u32)
    requires TableOk(cfg, ls) && i < |es| && ReplyAt(cfg, ls, es, i) == AckSent(m, a)
    ensures Held(TableAt(cfg, ls, es, i + 1), m, a, es[i].now + cfg.leaseSeconds)
  {
    RunKeepsTable(cfg, ls, es, i);
    AckHolds(cfg, TableAt(cfg, ls, es, i), es[i].now, es[i].packet, m, a);
  }

  /** No packet, of the holder or of anybody else, makes the server give a held address to another client. */
  lemma {:induction false} HeldIsNotGiven(cfg: Config, ls: seq<Lease>, now: nat, p: Packet, m: Mac, other: Mac,
                                          a: u32, exp: int)
    requires TableOk(cfg, ls) && Held(ls, m, a, exp) && now <= exp <= now + cfg.leaseSeconds && other != m
    ensures !Gives(Handle(cfg, ls, now, p).1, other, a)
  {
    if p.chaddr != m {
      HeldStep(cfg, ls, now, p, m, a, exp);
    }
  }

  /**
   Lease exclusivity over whole runs: once `a` is acknowledged to `m`, nobody else is
   offered or acknowledged `a` up to and including the last second of the lease, unless
   `m` itself gave the lease up in between.
   */
  lemma {:induction false} LeaseExclusivity(cfg: Config, ls: seq<Lease>, es: seq<Event>, i: nat, j: nat, m: Mac,
                                            other: Mac, a: u32)
    requires TableOk(cfg, ls) && ClockRuns(es) && i < j < |es|
    requires ReplyAt(cfg, ls, es, i) == AckSent(m, a)
    requires other != m && Gives(ReplyAt(cfg, ls, es, j), other, a)
    requires es[j].now <= es[i].now + cfg.leaseSeconds
    ensures exists k :: i < k < j && Relinquishes(cfg, TableAt(cfg, ls, es, k), es[k].packet, m)
  {
    if forall k :: i < k < j ==> !Relinquishes(cfg, TableAt(cfg, ls, es, k), es[k].packet, m) {
      var exp := es[i].now + cfg.leaseSeconds;
      HeldAfterAck(cfg, ls, es, i, m, a);
      HeldUntil(cfg, ls, es, i + 1, j, m, a, exp);
      RunKeepsTable(cfg, ls, es, j);
      HeldIsNotGiven(cfg, TableAt(cfg, ls, es, j), es[j].now, es[j].packet, m, other, a, exp);
    }
  }

  /**
   The holder of a lease that renews it (`ciaddr` only, section 4.3.2 of RFC 2131) is
   acknowledged for a full term.
   */
  lemma {:induction false} RenewalIsAcknowledged(cfg: Config, ls: seq<Lease>, now: nat, p: Packet, l: Lease)
    requires TableOk(cfg, ls) && l in ls
    requires ForThisServer(cfg, p) && PacketType(p) == DHCPREQUEST && Requested(p) == 0
    requires p.chaddr == l.mac && p.ciaddr == SwapBytes(l.nip)
    ensures Handle(cfg, ls, now, p).1 == AckSent(l.mac, l.nip)
    ensures Held(Handle(cfg, ls, now, p).0, l.mac, l.nip, now + cfg.leaseSeconds)
  {
    SwapBytesTwice(l.nip);
    SameMac(ls, l, FindByMac(ls, l.mac).value);
    AckHolds(cfg, ls, now, p, l.mac, l.nip);
  }

  // ---------- What the code does not promise, and exactly when it does

  /** A RELEASE that names the sender's own address frees it iff the address reads the same in both byte orders. */
  lemma {:induction false} ReleaseNeedsPalindrome(cfg: Config, ls: seq<Lease>, p: Packet, l: Lease)
    requires TableOk(cfg, ls) && l in ls
    requires p.chaddr == l.mac && p.serverId.Some? && p.ciaddr == SwapBytes(l.nip)
    ensures ReleaseTakesEffect(ls, p) <==>
            l.nip / 0x100_0000 == l.nip % 0x100 && l.nip / 0x1_0000 % 0x100 == l.nip / 0x100 % 0x100
  {
    SameMac(ls, l, FindByMac(ls, l.mac).value);
    var x := l.nip;
    WordOfBytes(x);
    BytesOfWord(x % 0x100, x / 0x100 % 0x100, x / 0x1_0000 % 0x100, x / 0x100_0000);
  }

  /**
   An address offered to `m` is offered again to any other client without a lease that
   asks for it, from the moment the clock passes `OFFER_TIME` (five minutes past the
   epoch), not five minutes after the offer.
   */
  lemma {:induction false} OfferReservedOnlyBeforeOfferTime(cfg: Config, ls: seq<Lease>, now: nat, later: nat,
                                         m: Mac, other: Mac, requested: u32, a: u32)
    requires TableOk(cfg, ls) && now <= later
    requires SendOffer(cfg, ls, now, m, requested).1 == OfferSent(m, a)
    requires other != m && other != MAC_BCAST_ADDR && other != MAC_ANY_ADDR && !HasMac(ls, other)
    ensures SendOffer(cfg, SendOffer(cfg, ls, now, m, requested).0, later, other, a).1 == OfferSent(other, a)
            <==> later > OFFER_TIME
  {
    var ls' := SendOffer(cfg, ls, now, m, requested).0;
    var l := Lease(OFFER_TIME, a, m);
    assert l in ls';
    AddLeaseOk(cfg, ls, now, OFFER_TIME, m, a);
    assert !HasMac(ls', other);
    SameMac(ls', l, FindByNip(ls', a).value);
    if later <= OFFER_TIME {
      CandidateAvoidsHeld(cfg, ls', later, other, a, m, a, OFFER_TIME);
    }
  }

  // ---------- List order

  lemma {:induction false} DropMacSorted(ls: seq<Lease>, mac: Mac)
    requires Sorted(ls)
    ensures Sorted(DropMac(ls, mac))
  {
    if ls != [] {
      DropMacSorted(ls[1..], mac);
      var r := DropMac(ls[1..], mac);
      forall j | 0 <= j < |r| ensures ls[0].expire >= r[j].expire {
        assert r[j] in r;
      }
    }
  }

  lemma {:induction false} DropNipSorted(ls: seq<Lease>, nip: int)
    requires Sorted(ls)
    ensures Sorted(DropNip(ls, nip))
  {
    if ls != [] {
      DropNipSorted(ls[1..], nip);
      var r := DropNip(ls[1..], nip);
      forall j | 0 <= j < |r| ensures ls[0].expire >= r[j].expire {
        assert r[j] in r;
      }
    }
  }

  /**
   The comparison of `x` keeps its sign, in spite of the cut to a C `int`, with every lease
   that ends later and with the first one that does not.
   */
  predicate SignsKept(ls: seq<Lease>, x: Lease) {
    ls == [] || (&& (CompareExpire(x, ls[0]) > 0 <==> ls[0].expire > x.expire)
                 && (ls[0].expire > x.expire ==> SignsKept(ls[1..], x)))
  }

  lemma {:induction false} SortedCons(l: Lease, ls: seq<Lease>)
    ensures Sorted([l] + ls) <==> Sorted(ls) && forall m :: m in ls ==> l.expire >= m.expire
  {
    var all := [l] + ls;
    assert all[1..] == ls;
    if Sorted(all) {
      forall i, j | 0 <= i < j < |ls| ensures ls[i].expire >= ls[j].expire {
        assert all[i + 1] == ls[i] && all[j + 1] == ls[j];
      }
      forall m | m in ls ensures l.expire >= m.expire {
        var j :| 0 <= j < |ls| && ls[j] == m;
        assert all[0] == l && all[j + 1] == m;
      }
    }
    if Sorted(ls) && forall m :: m in ls ==> l.expire >= m.expire {
      forall i, j | 0 <= i < j < |all| ensures all[i].expire >= all[j].expire {
        assert all[j] == ls[j - 1] && ls[j - 1] in ls;
        assert i > 0 ==> all[i] == ls[i - 1];
      }
    }
  }

  /** Exactly when an insertion keeps the list sorted. */
  lemma {:induction false} InsertSortedIff(ls: seq<Lease>, x: Lease)
    requires Sorted(ls)
    ensures Sorted(InsertSorted(ls, x)) <==> SignsKept(ls, x)
  {
    if ls == [] {
      assert InsertSorted(ls, x) == [x];
    } else {
      var l, rest := ls[0], ls[1..];
      assert ls == [l] + rest;
      SortedCons(l, rest);
      if CompareExpire(x, l) > 0 {
        SortedCons(l, InsertSorted(rest, x));
        InsertSortedIff(rest, x);
        assert x in InsertSorted(rest, x);
      } else {
        SortedCons(x, ls);
        assert l in ls;
      }
    }
  }

  /** The lease that a packet makes the server insert, and the list it is inserted into. */
  function Insertion(cfg: Config, ls: seq<Lease>, now: nat, p: Packet): Option<(seq<Lease>, Lease)> {
    var t, mac := PacketType(p), p.chaddr;
    if !ForThisServer(cfg, p) then None
    else if t == DHCPDISCOVER then
      var yi := OfferCandidate(cfg, ls, now, mac, Requested(p));
      if Admissible(cfg, yi, mac) then Some((Evict(ls, yi, mac), Lease(OFFER_TIME, yi, mac))) else None
    else if t == DHCPREQUEST then
      var yi := RequestTarget(p);
      if yi != 0 && FindByMac(ls, mac).Some? && FindByMac(ls, mac).value.nip == yi && Admissible(cfg, yi, mac)
      then Some((Evict(ls, yi, mac), Lease(now + cfg.leaseSeconds, yi, mac))) else None
    else if t == DHCPRELEASE && ReleaseTakesEffect(ls, p) then
      Some((DropMac(ls, mac), FindByMac(ls, mac).value.(expire := now % 0x1_0000_0000)))
    else None
  }

  /** The packet inserts nothing, or keeps the signs. */
  predicate KeepsSigns(cfg: Config, ls: seq<Lease>, now: nat, p: Packet) {
    match Insertion(cfg, ls, now, p)
    case None => true
    case Some((rest, x)) => SignsKept(rest, x)
  }

  lemma {:induction false} HandleInserts(cfg: Config, ls: seq<Lease>, now: nat, p: Packet)
    ensures match Insertion(cfg, ls, now, p)
            case None => Handle(cfg, ls, now, p).0 == ls || Handle(cfg, ls, now, p).0 == DropMac(ls, p.chaddr)
            case Some((rest, x)) => Handle(cfg, ls, now, p).0 == InsertSorted(rest, x)
  {
  }

  lemma {:induction false} InsertionIntoSorted(cfg: Config, ls: seq<Lease>, now: nat, p: Packet)
    requires Sorted(ls)
    ensures match Insertion(cfg, ls, now, p) case None => true case Some((rest, x)) => Sorted(rest)
  {
    DropMacSorted(ls, p.chaddr);
    match Insertion(cfg, ls, now, p)
    case None =>
    case Some((rest, x)) =>
      DropNipSorted(ls, x.nip);
      DropMacSorted(DropNip(ls, x.nip), p.chaddr);
  }

  /** Exactly when a packet keeps a sorted list sorted. */
  lemma {:induction false} HandleSortedIff(cfg: Config, ls: seq<Lease>, now: nat, p: Packet)
    requires Sorted(ls)
    ensures Sorted(Handle(cfg, ls, now, p).0) <==> KeepsSigns(cfg, ls, now, p)
  {
    HandleInserts(cfg, ls, now, p);
    InsertionIntoSorted(cfg, ls, now, p);
    match Insertion(cfg, ls, now, p)
    case None => DropMacSorted(ls, p.chaddr);
    case Some((rest, x)) => InsertSortedIff(rest, x);
  }

  /** The first `n` packets of the run all keep the signs. */
  predicate RunKeepsSigns(cfg: Config, ls: seq<Lease>, es: seq<Event>, n: nat)
    requires n <= |es|
  {
    n == 0 || (RunKeepsSigns(cfg, ls, es, n - 1)
               && KeepsSigns(cfg, TableAt(cfg, ls, es, n - 1), es[n - 1].now, es[n - 1].packet))
  }

  /** The list is sorted, latest expiry first, after each of the first `n` packets. */
  predicate RunStaysSorted(cfg: Config, ls: seq<Lease>, es: seq<Event>, n: nat)
    requires n <= |es|
  {
    Sorted(TableAt(cfg, ls, es, n)) && (n > 0 ==> RunStaysSorted(cfg, ls, es, n - 1))
  }

  /** In every run the list stays sorted up to any point exactly if every insertion up to there kept its signs. */
  lemma {:induction false} RunSortedIff(cfg: Config, ls: seq<Lease>, es: seq<Event>, n: nat)
    requires Sorted(ls) && n <= |es|
    ensures RunStaysSorted(cfg, ls, es, n) <==> RunKeepsSigns(cfg, ls, es, n)
  {
    if n > 0 {
      RunSortedIff(cfg, ls, es, n - 1);
      if RunStaysSorted(cfg, ls, es, n - 1) {
        HandleSortedIff(cfg, TableAt(cfg, ls, es, n - 1), es[n - 1].now, es[n - 1].packet);
      }
    }
  }

  /** No two expiry times are 2^31 seconds or more apart, so their differences fit a C `int`. */
  predicate Close(ls: seq<Lease>) {
    forall l, m :: l in ls && m in ls ==> l.expire - m.expire < 0x8000_0000
  }

  lemma {:induction false} CloseKeepsSigns(ls: seq<Lease>, x: Lease)
    requires forall l :: l in ls ==> -0x8000_0000 < l.expire - x.expire < 0x8000_0000
    ensures SignsKept(ls, x)
  {
    if ls != [] {
      assert ls[0] in ls;
      CloseKeepsSigns(ls[1..], x);
    }
  }

  lemma {:induction false} CloseHandleKeepsSigns(cfg: Config, ls: seq<Lease>, now: nat, p: Packet)
    requires Close(Handle(cfg, ls, now, p).0)
    ensures KeepsSigns(cfg, ls, now, p)
  {
    HandleInserts(cfg, ls, now, p);
    match Insertion(cfg, ls, now, p)
    case None =>
    case Some((rest, x)) =>
      var r := InsertSorted(rest, x);
      forall l | l in rest ensures -0x8000_0000 < l.expire - x.expire < 0x8000_0000 {
        assert l in r && x in r;
      }
      CloseKeepsSigns(rest, x);
  }

  predicate RunStaysClose(cfg: Config, ls: seq<Lease>, es: seq<Event>, n: nat)
    requires n <= |es|
  {
    Close(TableAt(cfg, ls, es, n)) && (n > 0 ==> RunStaysClose(cfg, ls, es, n - 1))
  }

  lemma {:induction false} CloseRunKeepsSigns(cfg: Config, ls: seq<Lease>, es: seq<Event>, n: nat)
    requires n <= |es| && RunStaysClose(cfg, ls, es, n)
    ensures RunKeepsSigns(cfg, ls, es, n)
  {
    if n > 0 {
      CloseRunKeepsSigns(cfg, ls, es, n - 1);
      CloseHandleKeepsSigns(cfg, TableAt(cfg, ls, es, n - 1), es[n - 1].now, es[n - 1].packet);
    }
  }

  /** In particular the list stays sorted in every run whose tables hold no expiry times 2^31 seconds apart. */
  lemma {:induction false} RunKeepsOrder(cfg: Config, ls: seq<Lease>, es: seq<Event>, n: nat)
    requires Sorted(ls) && n <= |es| && RunStaysClose(cfg, ls, es, n)
    ensures RunStaysSorted(cfg, ls, es, n)
  {
    CloseRunKeepsSigns(cfg, ls, es, n);
    RunSortedIff(cfg, ls, es, n);
  }

  /** All expiry times fit a C `int`. */
  predicate Narrow(ls: seq<Lease>) {
    forall l :: l in ls ==> 0 <= l.expire < 0x8000_0000
  }

  lemma {:induction false} RunStaysNarrow(cfg: Config, ls: seq<Lease>, es: seq<Event>, i: nat)
    requires Narrow(ls) && i <= |es|
    requires forall k :: 0 <= k < |es| ==> es[k].now + cfg.leaseSeconds < 0x8000_0000
    ensures Narrow(TableAt(cfg, ls, es, i))
  {
    if i > 0 {
      RunStaysNarrow(cfg, ls, es, i - 1);
      assert es[i - 1].now + cfg.leaseSeconds < 0x8000_0000;
    }
  }

  lemma {:induction false} NarrowRunIsClose(cfg: Config, ls: seq<Lease>, es: seq<Event>, n: nat)
    requires Narrow(ls) && n <= |es|
    requires forall k :: 0 <= k < |es| ==> es[k].now + cfg.leaseSeconds < 0x8000_0000
    ensures RunStaysClose(cfg, ls, es, n)
  {
    RunStaysNarrow(cfg, ls, es, n);
    if n > 0 {
      NarrowRunIsClose(cfg, ls, es, n - 1);
    }
  }

  /** In particular, in every run in which no lease ends after 19 January 2038. */
  lemma {:induction false} SortedUntil2038(cfg: Config, ls: seq<Lease>, es: seq<Event>, n: nat)
    requires Sorted(ls) && Narrow(ls) && n <= |es|
    requires forall k :: 0 <= k < |es| ==> es[k].now + cfg.leaseSeconds < 0x8000_0000
    ensures RunStaysSorted(cfg, ls, es, n)
  {
    NarrowRunIsClose(cfg, ls, es, n);
    RunKeepsOrder(cfg, ls, es, n);
  }

  // ---------- Allocator

  /** `find_free_or_expired_nip` never hands out an address that a running lease holds. */
  lemma {:induction false} AllocatorSound(cfg: Config, ls: seq<Lease>, now: nat)
    requires TableOk(cfg, ls)
    ensures var ip := FindFreeOrExpired(cfg, ls, now);
            ip != 0 ==> cfg.startIp <= ip <= cfg.endIp && forall l :: l in ls && l.nip == ip ==> Expired(l, now)
  {
    if ls != [] {
      var last := ls[|ls| - 1];
      assert last in ls;
      forall l | l in ls && l.nip == last.nip ensures l == last {
        SameMac(ls, l, last);
      }
    }
  }

  /** Every usable address of the range is leased. */
  ghost predicate Full(cfg: Config, ls: seq<Lease>) {
    forall ip :: cfg.startIp <= ip <= cfg.endIp && Usable(ip) ==> HasNip(ls, ip)
  }

  ghost predicate SomeExpired(ls: seq<Lease>, now: nat) {
    exists l :: l in ls && Expired(l, now)
  }

  /**
   The allocator misses an address that it should find exactly if the range is full, some
   lease has expired, and the last one of the list has not.
   */
  lemma {:induction false} AllocatorMissesIff(cfg: Config, ls: seq<Lease>, now: nat)
    requires TableOk(cfg, ls)
    ensures FindFreeOrExpired(cfg, ls, now) == 0 && !(Full(cfg, ls) && !SomeExpired(ls, now))
            <==> Full(cfg, ls) && SomeExpired(ls, now) && !Expired(ls[|ls| - 1], now)
  {
    if ls != [] {
      assert ls[|ls| - 1] in ls;
    }
  }

  /** On a sorted list it fails only when the range is full and every lease still runs. */
  lemma {:induction false} AllocatorComplete(cfg: Config, ls: seq<Lease>, now: nat)
    requires TableOk(cfg, ls) && Sorted(ls)
    ensures FindFreeOrExpired(cfg, ls, now) == 0 <==> Full(cfg, ls) && !SomeExpired(ls, now)
  {
    if ls != [] {
      assert ls[|ls| - 1] in ls;
    }
  }

  /** So it is before every packet of a run whose insertions all kept their signs. */
  lemma {:induction false} AllocatorCompleteInRun(cfg: Config, ls: seq<Lease>, es: seq<Event>, n: nat, now: nat)
    requires TableOk(cfg, ls) && Sorted(ls) && n <= |es| && RunKeepsSigns(cfg, ls, es, n)
    ensures var t := TableAt(cfg, ls, es, n);
            FindFreeOrExpired(cfg, t, now) == 0 <==> Full(cfg, t) && !SomeExpired(t, now)
  {
    RunSortedIff(cfg, ls, es, n);
    RunKeepsTable(cfg, ls, es, n);
    AllocatorComplete(cfg, TableAt(cfg, ls, es, n), now);
  }

  lemma {:induction false} OneLease(x: Lease, nip: int, mac: Mac)
    ensures DropNip([x], nip) == if x.nip == nip then [] else [x]
    ensures DropMac([x], mac) == if x.mac == mac then [] else [x]
    ensures FindByNip([x], nip) == if x.nip == nip then Some(x) else None
    ensures FindByMac([x], mac) == if x.mac == mac then Some(x) else None
  {
    assert [x][1..] == [];
  }

  lemma {:induction false} TwoLeases(x: Lease, y: Lease, nip: int)
    ensures DropNip([x, y], nip) == (if x.nip == nip then [] else [x]) + (if y.nip == nip then [] else [y])
  {
    assert [x, y][1..] == [y];
    OneLease(y, nip, 0);
  }

  lemma {:induction false} InsertSecond(x: Lease, y: Lease)
    ensures InsertSorted([x], y) == if CompareExpire(y, x) <= 0 then [y, x] else [x, y]
  {
    assert [x][1..] == [];
    assert InsertSorted([], y) == [y];
  }

  predicate ValidMac(m: Mac) {
    MAC_ANY_ADDR < m < MAC_BCAST_ADDR
  }

  /** A client that asks for a free address of the range is offered it. */
  lemma {:induction false} FirstOffer(cfg: Config, ip: u32, now: nat, m: Mac)
    requires cfg.startIp <= ip <= cfg.endIp && ip != 0 && ValidMac(m)
    ensures SendOffer(cfg, [], now, m, ip) == ([Lease(OFFER_TIME, ip, m)], OfferSent(m, ip))
  {
    assert Evict([], ip, m) == [];
    assert InsertSorted([], Lease(OFFER_TIME, ip, m)) == [Lease(OFFER_TIME, ip, m)];
  }

  lemma {:induction false} SecondOffer(cfg: Config, x: Lease, ip: u32, now: nat, m: Mac)
    requires cfg.startIp <= ip <= cfg.endIp && ip != 0 && ValidMac(m)
    requires x.expire == OFFER_TIME && x.nip != ip && x.mac != m
    ensures SendOffer(cfg, [x], now, m, ip) == ([Lease(OFFER_TIME, ip, m), x], OfferSent(m, ip))
  {
    OneLease(x, ip, m);
    InsertSecond(x, Lease(OFFER_TIME, ip, m));
  }

  lemma {:induction false} AckSecond(cfg: Config, x: Lease, z: Lease, now: nat)
    requires cfg.startIp <= z.nip <= cfg.endIp && z.nip != 0 && ValidMac(z.mac) && x.nip != z.nip && x.mac != z.mac
    ensures SendAck(cfg, [z, x], now, z.mac, z.nip).0
            == InsertSorted([x], Lease(now + cfg.leaseSeconds, z.nip, z.mac))
  {
    TwoLeases(z, x, z.nip);
    assert DropNip([z, x], z.nip) == [x];
    OneLease(x, z.nip, z.mac);
  }

  /** In a full range of two, a new client is offered the address of the last lease if that has expired. */
  lemma {:induction false} OfferFromFullRange(cfg: Config, x: Lease, y: Lease, now: nat, m: Mac)
    requires 0 < cfg.startIp && cfg.endIp == cfg.startIp + 1 && {x.nip, y.nip} == {cfg.startIp, cfg.endIp}
    requires x.mac != m && y.mac != m && ValidMac(m)
    ensures SendOffer(cfg, [x, y], now, m, 0).1 == if Expired(y, now) then OfferSent(m, y.nip) else NoReply
  {
    var ls := [x, y];
    assert !HasMac(ls, m);
    assert HasNip(ls, cfg.startIp) && HasNip(ls, cfg.endIp) by {
      assert x in ls && y in ls;
      assert cfg.startIp in {x.nip, y.nip} && cfg.endIp in {x.nip, y.nip};
    }
    assert FirstFree(ls, cfg.startIp, cfg.endIp).None?;
    assert y.nip in {cfg.startIp, cfg.endIp};
    assert OfferCandidate(cfg, ls, now, m, 0) == if Expired(y, now) then y.nip else 0;
  }

  lemma {:induction false} OfferAfterInsert(cfg: Config, x: Lease, y: Lease, now: nat, m: Mac)
    requires 0 < cfg.startIp && cfg.endIp == cfg.startIp + 1 && x.nip == cfg.startIp && y.nip == cfg.endIp
    requires x.mac != m && y.mac != m && ValidMac(m) && Expired(x, now) && !Expired(y, now)
    ensures SendOffer(cfg, InsertSorted([x], y), now, m, 0).1
            == if CompareExpire(y, x) <= 0 then OfferSent(m, x.nip) else NoReply
  {
    InsertSecond(x, y);
    if CompareExpire(y, x) <= 0 {
      OfferFromFullRange(cfg, y, x, now, m);
    } else {
      OfferFromFullRange(cfg, x, y, now, m);
    }
  }

  /** The table after two clients were offered the two addresses from `ip` and the second was acknowledged at `now`. */
  function TwoOffersOneAck(cfg: Config, ip: u32, now: nat, m1: Mac, m2: Mac): seq<Lease>
    requires ip + 1 < 0x1_0000_0000
  {
    var one := SendOffer(cfg, [], now, m1, ip).0;
    var two := SendOffer(cfg, one, now, m2, ip + 1).0;
    SendAck(cfg, two, now, m2, ip + 1).0
  }

  lemma {:induction false} TableOfTwo(cfg: Config, ip: u32, now: nat, m1: Mac, m2: Mac)
    requires ip + 1 < 0x1_0000_0000 && ip != 0 && cfg.startIp == ip && cfg.endIp == ip + 1
    requires ValidMac(m1) && ValidMac(m2) && m1 != m2
    ensures TwoOffersOneAck(cfg, ip, now, m1, m2)
            == InsertSorted([Lease(OFFER_TIME, ip, m1)], Lease(now + cfg.leaseSeconds, ip + 1, m2))
  {
    FirstOffer(cfg, ip, now, m1);
    SecondOffer(cfg, Lease(OFFER_TIME, ip, m1), ip + 1, now, m2);
    AckSecond(cfg, Lease(OFFER_TIME, ip, m1), Lease(OFFER_TIME, ip + 1, m2), now);
  }

  /** A third client at a table of two. */
  lemma {:induction false} ThirdClient(cfg: Config, x: Lease, y: Lease, ls: seq<Lease>, now: nat, m: Mac)
    requires ls == InsertSorted([x], y)
    requires 0 < cfg.startIp && cfg.endIp == cfg.startIp + 1 && x.nip == cfg.startIp && y.nip == cfg.endIp
    requires x.mac != m && y.mac != m && ValidMac(m) && Expired(x, now) && !Expired(y, now)
    ensures exists l :: l in ls && Expired(l, now)
    ensures SendOffer(cfg, ls, now, m, 0).1 == if CompareExpire(y, x) <= 0 then OfferSent(m, x.nip) else NoReply
  {
    assert x in ls && Expired(x, now);
    OfferAfterInsert(cfg, x, y, now, m);
  }

  /**
   Without the bound on expiry times completeness fails. Two clients are offered the two
   addresses of a range and the second is acknowledged, which gives the table `ls`. A third
   client is offered the first address, whose lease already counts as expired, iff the
   32-bit difference of the two expiry times keeps its sign.
   */
  lemma {:induction false} ThirdClientServedIff(cfg: Config, ip: u32, now: nat, m1: Mac, m2: Mac, m3: Mac,
                                                ls: seq<Lease>)
    requires ip + 1 < 0x1_0000_0000 && ip != 0 && cfg.startIp == ip && cfg.endIp == ip + 1
    requires ValidMac(m1) && ValidMac(m2) && ValidMac(m3) && m1 != m2 && m2 != m3 && m1 != m3 && now > OFFER_TIME
    requires ls == InsertSorted([Lease(OFFER_TIME, ip, m1)], Lease(now + cfg.leaseSeconds, ip + 1, m2))
    ensures ls == TwoOffersOneAck(cfg, ip, now, m1, m2) && exists l :: l in ls && Expired(l, now)
    ensures SendOffer(cfg, ls, now, m3, 0).1
            == if ToInt32(OFFER_TIME - (now + cfg.leaseSeconds)) <= 0 then OfferSent(m3, ip) else NoReply
  {
    assert ls == TwoOffersOneAck(cfg, ip, now, m1, m2) by {
      TableOfTwo(cfg, ip, now, m1, m2);
    }
    ThirdClient(cfg, Lease(OFFER_TIME, ip, m1), Lease(now + cfg.leaseSeconds, ip + 1, m2), ls, now, m3);
  }
}
