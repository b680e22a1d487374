/**
 Claiming an IPv4 link-local address (RFC 3927): probing, announcing, monitoring and
 defending, driven by timers and received ARP packets.
 */
module Ipv4LinkLocal {
  import opened Words

  const PROBE_NUM := 3
  const ANNOUNCE_NUM := 2
  const MAX_CONFLICTS := 10
  const RATE_LIMIT_INTERVAL := 60_000

  datatype State = Idle | Probe | Announce | Monitor | Defend

  /** The running timer and what it will call. */
  datatype Pending = NoTimer | SendProbe | ProbeTimeout | AnnounceTimeout | DefendTimeout

  /** What happens on the wire and towards the user. */
  datatype Event = Probed(ip: u32) | Announced(ip: u32) | Conflict(ip: u32) | Available(ip: u32) | Lost(ip: u32)

  function Repeat(n: nat, e: Event): (r: seq<Event>)
    ensures |r| == n && forall i :: 0 <= i < n ==> r[i] == e
  {
    if n == 0 then [] else Repeat(n - 1, e) + [e]
  }

  /** `probes` probes and then `announcements` announcements of one address. */
  function Claim(ip: u32, probes: nat, announcements: nat): seq<Event> {
    Repeat(probes, Probed(ip)) + Repeat(announcements, Announced(ip))
  }

  lemma {:induction false} OneMore(h: seq<Event>, ip: u32, probes: nat, announcements: nat)
    requires EndsWith(h, Claim(ip, probes, announcements))
    ensures EndsWith(h + [Announced(ip)], Claim(ip, probes, announcements + 1))
    ensures announcements == 0 ==> EndsWith(h + [Probed(ip)], Claim(ip, probes + 1, 0))
  {
    EndsWithSnoc(h, Claim(ip, probes, announcements), Announced(ip));
    EndsWithSnoc(h, Claim(ip, probes, announcements), Probed(ip));
    assert Claim(ip, probes, announcements) + [Announced(ip)] == Claim(ip, probes, announcements + 1);
    assert announcements == 0 ==> Claim(ip, probes, 0) + [Probed(ip)] == Claim(ip, probes + 1, 0);
  }

  /** Every address in the history became available only after a full, undisturbed claim of it. */
  ghost predicate ClaimsOk(h: seq<Event>) {
    forall i :: 0 <= i < |h| && h[i].Available? ==> EndsWith(h[..i], Claim(h[i].ip, PROBE_NUM, ANNOUNCE_NUM))
  }

  lemma {:induction false} ClaimsOkSnoc(h: seq<Event>, e: Event)
    requires ClaimsOk(h)
    requires e.Available? ==> EndsWith(h, Claim(e.ip, PROBE_NUM, ANNOUNCE_NUM))
    ensures ClaimsOk(h + [e])
  {
    forall i | 0 <= i < |h + [e]| && (h + [e])[i].Available?
      ensures EndsWith((h + [e])[..i], Claim((h + [e])[i].ip, PROBE_NUM, ANNOUNCE_NUM))
    {
      assert (h + [e])[..i] == h[..i];
      assert i == |h| ==> h[..i] == h;
    }
  }

  /** A received ARP packet: its sender and target addresses, and whether we sent it. */
  datatype Arp = Arp(ours: bool, sender: u32, target: u32)

  class Client {
    var state: State
    var retryTimes: u8
    var conflicts: u8
    var requestedIp: u32
    var listening: bool
    var pending: Pending
    ghost var history: seq<Event>

    ghost predicate Valid()
      reads this
    {
      && ClaimsOk(history)
      && (pending == SendProbe ==> retryTimes == 1 && !listening)
      && (pending == ProbeTimeout ==>
            state == Probe && 1 <= retryTimes <= PROBE_NUM && requestedIp != 0
                && EndsWith(history, Claim(requestedIp, retryTimes, 0)))
      && (pending == AnnounceTimeout ==>
            && state == Announce && 1 <= retryTimes <= ANNOUNCE_NUM
            && EndsWith(history, Claim(requestedIp, PROBE_NUM, retryTimes)))
      && (pending == DefendTimeout ==> state == Defend)
      && (state == Defend ==> pending == DefendTimeout)
      && (state == Announce ==> pending == AnnounceTimeout)
      && (pending == NoTimer ==> state == Idle || state == Monitor)
    }

    constructor ()
      ensures Valid() && state == Idle && history == []
    {
      state, retryTimes, conflicts, requestedIp, listening, pending := Idle, 0, 0, 0, false, NoTimer;
      history := [];
    }

    ghost method Record(e: Event)
      requires ClaimsOk(history)
      requires e.Available? ==> EndsWith(history, Claim(e.ip, PROBE_NUM, ANNOUNCE_NUM))
      modifies `history
      ensures ClaimsOk(history) && history == old(history) + [e]
    {
      ClaimsOkSnoc(history, e);
      history := history + [e];
    }

    /** `ipv4ll_start`: a random address, probed after a random delay. */
    method Start(randomIp: u32)
      requires Valid() && randomIp != 0
      modifies this
      ensures Valid() && pending == SendProbe && requestedIp == randomIp && history == old(history)
    {
      listening := false;
      state := Idle;
      retryTimes := 1;
      requestedIp := randomIp;
      pending := SendProbe;
    }

    /** `send_probe_packet`; the first probe of an address starts listening for conflicts. */
    method SendProbePacket(randomIp: u32)
      requires ClaimsOk(history) && 1 <= retryTimes <= PROBE_NUM && randomIp != 0
      requires retryTimes > 1 ==>
               state == Probe && requestedIp != 0 && EndsWith(history, Claim(requestedIp, retryTimes - 1, 0))
      modifies this
      ensures Valid() && pending == ProbeTimeout && listening == (old(retryTimes) == 1 || old(listening))
      ensures requestedIp == if old(requestedIp) == 0 then randomIp else old(requestedIp)
      ensures history == old(history) + [Probed(requestedIp)] && retryTimes == old(retryTimes)
    {
      if requestedIp == 0 {
        requestedIp := randomIp;
      }
      ghost var claimed := history + [Probed(requestedIp)];
      assert EndsWith(claimed, Claim(requestedIp, retryTimes, 0)) by {
        assert retryTimes == 1 ==> EndsWith(history, Claim(requestedIp, 0, 0));
        OneMore(history, requestedIp, retryTimes - 1, 0);
      }
      if retryTimes == 1 {
        state := Probe;
        listening := true;
      }
      Record(Probed(requestedIp));
      pending := ProbeTimeout;
    }

    /** The delay before the first probe is over. */
    method FireSendProbe(randomIp: u32)
      requires Valid() && pending == SendProbe && randomIp != 0
      modifies this
      ensures Valid() && pending == ProbeTimeout && listening && retryTimes == 1
      ensures history == old(history) + [Probed(requestedIp)]
    {
      SendProbePacket(randomIp);
    }

    /** `send_announce_packet` while claiming. */
    method SendAnnouncePacket()
      requires ClaimsOk(history) && state == Announce && 1 <= retryTimes <= ANNOUNCE_NUM
      requires EndsWith(history, Claim(requestedIp, PROBE_NUM, retryTimes - 1))
      modifies `history, `pending
      ensures Valid() && pending == AnnounceTimeout && history == old(history) + [Announced(requestedIp)]
    {
      OneMore(history, requestedIp, PROBE_NUM, retryTimes - 1);
      Record(Announced(requestedIp));
      pending := AnnounceTimeout;
    }

    /** No conflict since the last probe. */
    method FireProbeTimeout(randomIp: u32)
      requires Valid() && pending == ProbeTimeout && randomIp != 0
      modifies this
      ensures Valid() && requestedIp == old(requestedIp)
      ensures history == old(history) + [if old(retryTimes) == PROBE_NUM then Announced(requestedIp)
              else Probed(requestedIp)]
    {
      if retryTimes == PROBE_NUM {
        state := Announce;
        retryTimes := 1;
        SendAnnouncePacket();
      } else {
        retryTimes := retryTimes + 1;
        SendProbePacket(randomIp);
      }
    }

    /** No conflict since the last announcement: announce again, or take the address. */
    method FireAnnounceTimeout()
      requires Valid() && pending == AnnounceTimeout
      modifies this
      ensures Valid() && requestedIp == old(requestedIp)
      ensures history == old(history) + [if old(retryTimes) == ANNOUNCE_NUM then Available(requestedIp)
              else Announced(requestedIp)]
      ensures old(retryTimes) == ANNOUNCE_NUM ==> state == Monitor
    {
      if retryTimes != ANNOUNCE_NUM {
        retryTimes := retryTimes + 1;
        SendAnnouncePacket();
        return;
      }
      state := Monitor;
      Record(Available(requestedIp));
      conflicts := 0;
      pending := NoTimer;
    }

    method FireDefendTimeout()
      requires Valid() && pending == DefendTimeout
      modifies this
      ensures Valid() && state == Monitor && requestedIp == old(requestedIp) && history == old(history)
              && conflicts == 0
    {
      conflicts := 0;
      state := Monitor;
      pending := NoTimer;
    }

    /**
     `ipv4ll_recv_arp_packet`. A monitored address survives one source conflict by a
     single announcement; a second one before the defend timer fires gives it up, and so
     does any conflict while claiming.
     */
    method RecvArpPacket(arp: Arp, randomDelay: nat) returns (delay: nat)
      requires Valid() && listening
      modifies this
      ensures Valid()
      ensures arp.ours || (arp.sender != old(requestedIp)
                           && (arp.target != old(requestedIp) || old(state) == Monitor || old(state) == Defend)) ==>
                && history == old(history) && state == old(state) && pending == old(pending)
                && requestedIp == old(requestedIp) && listening
      ensures !arp.ours && arp.sender == old(requestedIp) && old(state) == Monitor ==>
                && state == Defend && pending == DefendTimeout && requestedIp == old(requestedIp)
                && history == old(history) + [Conflict(requestedIp), Announced(requestedIp)]
      ensures !arp.ours && arp.sender == old(requestedIp) && old(state) == Defend ==>
                && state == Probe && pending == SendProbe && requestedIp == 0 && !listening
                && history == old(history) + [Conflict(old(requestedIp)), Lost(old(requestedIp))]
      ensures !arp.ours && (arp.sender == old(requestedIp) || arp.target == old(requestedIp))
              && old(state) != Monitor && old(state) != Defend ==>
                && state == Probe && pending == SendProbe && requestedIp == 0 && !listening
                && history == old(history) + [Conflict(old(requestedIp))]
                && delay == (if conflicts < MAX_CONFLICTS then randomDelay else RATE_LIMIT_INTERVAL)
    {
      delay := 0;
      if arp.ours {
        return;
      }
      var sourceConflict := arp.sender == requestedIp;
      var targetConflict := arp.target == requestedIp;
      if !sourceConflict && !targetConflict {
        return;
      }
      conflicts := (conflicts + 1) % 0x100;
      if state == Monitor || state == Defend {
        if !sourceConflict {
          return;
        }
        Record(Conflict(requestedIp));
        if state == Monitor {
          state := Defend;
          Record(Announced(requestedIp));
          pending := DefendTimeout;
          return;
        }
        Record(Lost(requestedIp));
      } else {
        Record(Conflict(requestedIp));
      }
      delay := Abandon(randomDelay);
    }

    /** Gives the address up; a new one is probed after a delay. */
    method Abandon(randomDelay: nat) returns (delay: nat)
      requires ClaimsOk(history)
      modifies `listening, `state, `requestedIp, `retryTimes, `pending
      ensures Valid() && state == Probe && pending == SendProbe && requestedIp == 0 && !listening
      ensures delay == if conflicts < MAX_CONFLICTS then randomDelay else RATE_LIMIT_INTERVAL
    {
      listening := false;
      state := Probe;
      requestedIp := 0;
      delay := if conflicts < MAX_CONFLICTS then randomDelay else RATE_LIMIT_INTERVAL;
      retryTimes := 1;
      pending := SendProbe;
    }
  }

  /**
   An address becomes available right after three probes and two announcements of it, with no
   conflict and no other address in between.
   */
  lemma {:induction false} AvailableOnlyAfterFullClaim(c: Client, i: nat)
    requires c.Valid() && i < |c.history| && c.history[i].Available?
    ensures i >= 5
    ensures var ip := c.history[i].ip;
            c.history[i - 5..i] == [Probed(ip), Probed(ip), Probed(ip), Announced(ip), Announced(ip)]
  {
    var ip := c.history[i].ip;
    var claim := Claim(ip, PROBE_NUM, ANNOUNCE_NUM);
    assert EndsWith(c.history[..i], claim);
    assert claim == [Probed(ip), Probed(ip), Probed(ip), Announced(ip), Announced(ip)];
    assert c.history[..i][i - 5..] == c.history[i - 5..i];
  }
}
