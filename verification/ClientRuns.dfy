/** What holds of the DHCPv4 client over whole runs of timed events. */
module ClientRuns {
  import opened Words
  import opened RenewalTiming
  import opened ClientSteps

  /** The client before event `i`. Events that cannot happen are skipped, which no proper run has. */
  function ViewAt(es: seq<Event>, i: nat): View
    requires i <= |es|
  {
    if i == 0 then Fresh
    else
      var v := ViewAt(es, i - 1);
      if Enabled(v, es[i - 1]) then Next(v, es[i - 1]) else v
  }

  /** For the first `i` events: time goes on, and every event can happen when it does. */
  predicate ProperUpTo(es: seq<Event>, i: nat)
    requires i <= |es|
  {
    i == 0 || (&& ProperUpTo(es, i - 1)
               && (i > 1 ==> es[i - 2].at <= es[i - 1].at)
               && Enabled(ViewAt(es, i - 1), es[i - 1]))
  }

  predicate Proper(es: seq<Event>) {
    ProperUpTo(es, |es|)
  }

  lemma {:induction false} ProperStart(es: seq<Event>, i: nat, j: nat)
    requires i <= j <= |es| && ProperUpTo(es, j)
    ensures ProperUpTo(es, i)
    decreases j
  {
    if i < j {
      ProperStart(es, i, j - 1);
    }
  }

  /** `at` is a time the run `es` can have reached with `i` events behind it. */
  predicate Reached(es: seq<Event>, i: nat, at: int)
    requires i <= |es|
  {
    (i > 0 ==> es[i - 1].at <= at) && OnTime(ViewAt(es, i).timers, at)
  }

  // ---------- What the events of a run say

  /** An ACK that gives the client a lease. */
  predicate Binds(v: View, e: Event) {
    && e.what.Received? && e.what.m.kind == Ack
    && v.listenMode != ListenNone && AwaitsReply(v.state)
    && (v.state == Rebooting ==> e.what.m.serverId.Some?)
  }

  /** A NAK that the client looks at. */
  predicate Refuses(v: View, e: Event) {
    && e.what.Received? && e.what.m.kind == Nak
    && v.listenMode != ListenNone && AwaitsReply(v.state)
  }

  /** A packet that lacks the server identifier the client needs to go on. */
  predicate Stalls(v: View, e: Event) {
    && e.what.Received? && e.what.m.serverId.None? && v.listenMode != ListenNone
    && ((v.state == InitSelecting && e.what.m.kind == Offer) || (v.state == Rebooting && e.what.m.kind == Ack))
  }

  /** The retry counter is at its limit and `no_lease_cb` is called. */
  predicate GivesUp(v: View, e: Event) {
    match e.what
    case StartCalled(_) => v.retryTimes == DISCOVER_RETRIES
    case GeneralFires =>
      v.timers.general.Some? &&
      (match v.timers.general.value.kind
       case Discovering => Increment(v.retryTimes) == DISCOVER_RETRIES
       case Requested => Increment(v.retryTimes) == REQUEST_RETRIES
       case Restart => v.state != Rebooting && Increment(v.ackRetryTimes) == DISCOVER_RETRIES
       case _ => false)
    case _ => false
  }

  /** Something that begins or continues an exchange, or a lease. */
  predicate Resumes(v: View, e: Event) {
    && !GivesUp(v, e)
    && (e.what.StartCalled? || e.what.GeneralFires? || e.what.LeaseFires? || Binds(v, e) || Refuses(v, e)
        || (e.what.Received? && e.what.m.kind == Offer && e.what.m.serverId.Some?
            && v.state == InitSelecting && v.listenMode != ListenNone))
  }

  /** The client gives up, stalls or is stopped. */
  predicate Ends(v: View, e: Event) {
    GivesUp(v, e) || Stalls(v, e) || e.what.StopCalled?
  }

  /** What an event means: `ack` is the time in seconds of a lease it gives. */
  datatype Mark = Mark(at: int, ack: Option<u32>, nak: bool, ends: bool, resumes: bool)

  function MarkOf(v: View, e: Event): Mark {
    Mark(e.at, if Binds(v, e) then Some(LeaseTime(e.what.m)) else None, Refuses(v, e), Ends(v, e), Resumes(v, e))
  }

  /** The meaning of the first `i` events. */
  function Marks(es: seq<Event>, i: nat): (ms: seq<Mark>)
    requires i <= |es|
    ensures |ms| == i
  {
    if i == 0 then [] else Marks(es, i - 1) + [MarkOf(ViewAt(es, i - 1), es[i - 1])]
  }

  lemma {:induction false} MarkAt(es: seq<Event>, i: nat, k: nat)
    requires k < i <= |es|
    ensures Marks(es, i)[k] == MarkOf(ViewAt(es, k), es[k])
  {
    if k < i - 1 {
      MarkAt(es, i - 1, k);
    }
  }

  /**
   The events so far in brief: when the lease last acknowledged ends, when the last NAK
   since that ACK came, and whether the client is out of action.
   */
  datatype Facts = Facts(leaseEnd: Option<int>, nak: Option<int>, out: bool)

  function Learn(f: Facts, m: Mark): Facts {
    var out := m.ends || (!m.resumes && f.out);
    if m.ack.Some? then Facts(Some(m.at + 1000 * m.ack.value), None, out)
    else Facts(f.leaseEnd, if m.nak then Some(m.at) else f.nak, out)
  }

  function FactsOf(ms: seq<Mark>): Facts {
    if ms == [] then Facts(None, None, true) else Learn(FactsOf(ms[..|ms| - 1]), ms[|ms| - 1])
  }

  lemma {:induction false} FactsGrow(ms: seq<Mark>, m: Mark)
    ensures FactsOf(ms + [m]) == Learn(FactsOf(ms), m)
  {
    assert (ms + [m])[..|ms|] == ms;
  }

  // ---------- Invariant

  ghost predicate ChainAhead(left: int, h: u32) {
    exists k: nat :: ChainOk(left, h, k)
  }

  /**
   `first` fires strictly before `second`. While `first` has not fired yet, the registers
   hold the two times in seconds; later, `reg` holds the remaining time of the chain.
   */
  ghost predicate Precedes(first: Timer, start: Kind, second: Timer, reg: u32, end: u32) {
    var left := second.deadline - first.deadline;
    && left > 0
    && if first.kind == start then left == 1000 * (end - reg) && end - reg < 0x8000_0000
       else ChainAhead(left, reg / 2)
  }

  ghost predicate OrderOk(t: Timers, r: Registers) {
    && (t.t1.Some? && t.t2.Some? ==> Precedes(t.t1.value, StartRenew, t.t2.value, r.T1, r.T2))
    && (t.t2.Some? && t.lease.Some? ==> Precedes(t.t2.value, StartRebound, t.lease.value, r.T2, r.expire))
  }

  /** Renewal ends with rebinding, rebinding with the lease, and the general timer runs only without a lease timer. */
  predicate TimersOk(t: Timers, leaseEnd: Option<int>) {
    && (t.general.Some? ==> t.general.value.kind in {Discovering, Reboot, Requested, Restart})
    && (t.t1.Some? ==> t.t2.Some? && t.t2.value.kind == StartRebound)
    && (t.t2.Some? ==> t.lease.Some?)
    && (t.lease.Some? ==> t.general.None? && leaseEnd == Some(t.lease.value.deadline))
  }

  predicate HasTimer(t: Timers) {
    t.general.Some? || t.lease.Some?
  }

  predicate StateOk(v: View, leaseEnd: Option<int>, nak: Option<int>) {
    && (HoldsLease(v.state) ==> leaseEnd.Some?)
    && (HoldsLease(v.state) && v.timers.lease.None? ==>
          nak.Some? && v.timers.general == Some(Timer(Restart, nak.value + RESTART_TIMEOUT)))
    && (v.state == Bound ==> v.timers.lease.Some?)
    && (HoldsLease(v.state) || v.timers.lease.Some? ==> v.retryTimes == 0)
  }

  ghost predicate Inv(v: View, f: Facts) {
    && TimersOk(v.timers, f.leaseEnd) && OrderOk(v.timers, v.registers) && StateOk(v, f.leaseEnd, f.nak)
    && (HasTimer(v.timers) <==> !f.out)
  }

  // ---------- Every step keeps it

  lemma {:induction false} FirstTimersInOrder(v: View, at: int)
    requires v.registers.leaseSeconds >= MIN_LEASE
    ensures var w := Bind(v, at); OrderOk(w.timers, w.registers)
  {
    TimerOrder(v.registers.leaseSeconds);
  }

  /** The next timer of a chain is armed in time. */
  lemma {:induction false} RearmInOrder(kind: Kind, start: Kind, h: u32, at: int, rand: nat, second: Timer, end: u32)
    requires kind != start && ChainAhead(second.deadline - at, h)
    ensures var t := Rearm(kind, h, at, rand); t.Some? ==> Precedes(t.value, start, second, h, end)
  {
    var k: nat :| ChainOk(second.deadline - at, h, k);
    if h > 60 {
      ChainStep(second.deadline - at, h, k, rand);
    }
  }

  lemma {:induction false} ChainBegins(seconds: u32)
    requires seconds < 0x8000_0000
    ensures ChainAhead(1000 * seconds, seconds / 2)
  {
    ChainStart(seconds);
  }

  lemma {:induction false} RenewalKeeps(v: View, at: int, rand: nat, f: Facts)
    requires Inv(v, f) && Due(v.timers.t1, at)
    ensures Inv(T1Fires(v, at, rand), f)
  {
    var r, t := v.registers, v.timers;
    var T1 := if t.t1.value.kind == StartRenew then Subtract(r.T2, r.T1) else r.T1;
    if t.t1.value.kind == StartRenew {
      ChainBegins(T1);
    }
    RearmInOrder(ContinueRenew, StartRenew, T1 / 2, at, rand, t.t2.value, r.T2);
  }

  lemma {:induction false} RebindingKeeps(v: View, at: int, rand: nat, f: Facts)
    requires Inv(v, f) && Due(v.timers.t2, at) && OnTime(v.timers, at)
    ensures Inv(T2Fires(v, at, rand), f)
  {
    var r, t := v.registers, v.timers;
    var T2 := if t.t2.value.kind == StartRebound then Subtract(r.expire, r.T2) else r.T2;
    if t.t2.value.kind == StartRebound {
      ChainBegins(T2);
    }
    RearmInOrder(ContinueRebound, StartRebound, T2 / 2, at, rand, t.lease.value, r.expire);
  }

  /** A start leaves a timer running exactly if it does not give up. */
  lemma {:induction false} StartKeeps(v: View, at: int, last: Option<u32>, f: Facts)
    requires HoldsLease(v.state) ==> v.retryTimes == 0
    ensures Inv(Start(v, at, last), f.(out := v.retryTimes == DISCOVER_RETRIES))
  {
  }

  lemma {:induction false} TimeoutKeeps(v: View, at: int, f: Facts)
    requires Inv(v, f) && Due(v.timers.general, at)
    ensures Inv(TimedOut(v, at), f.(out := GivesUp(v, Event(at, GeneralFires))))
  {
    var w := v.(timers := v.timers.(general := None));
    match v.timers.general.value.kind
    case Discovering => StartKeeps(w.(retryTimes := Increment(v.retryTimes)), at, None, f);
    case Reboot =>
    case Requested =>
    case _ =>
  }

  lemma {:induction false} BindKeeps(v: View, at: int)
    requires v.registers.leaseSeconds >= MIN_LEASE && v.retryTimes == 0
    ensures Inv(Bind(v, at), Facts(Some(at + 1000 * v.registers.leaseSeconds), None, false))
  {
    FirstTimersInOrder(v, at);
  }

  lemma {:induction false} AckKeeps(v: View, at: int, m: Message, f: Facts)
    requires AwaitsReply(v.state)
    ensures v.state == Rebooting && m.serverId.None? ==> Inv(HandleAck(v, at, m), f.(out := true))
    ensures !(v.state == Rebooting && m.serverId.None?) ==>
              Inv(HandleAck(v, at, m), Facts(Some(at + 1000 * LeaseTime(m)), None, false))
  {
    var w := v.(retryTimes := 0, listenMode := ListenNone,
                registers := v.registers.(leaseSeconds := LeaseTime(m)), timers := NoTimers);
    BindKeeps(w, at);
    if m.serverId.Some? {
      BindKeeps(w.(addresses := v.addresses.(server := m.serverId.value)), at);
    }
  }

  lemma {:induction false} NakKeeps(v: View, at: int, f: Facts)
    requires Inv(v, f) && AwaitsReply(v.state)
    ensures Inv(HandleNak(v, at), Facts(f.leaseEnd, Some(at), false))
  {
  }

  /** An offer with server identifier leads to a request; without, nothing is left running. */
  lemma {:induction false} OfferKeeps(v: View, at: int, m: Message, f: Facts)
    requires !HoldsLease(v.state)
    ensures Inv(HandleOffer(v, at, m), f.(out := m.serverId.None?))
  {
  }

  lemma {:induction false} ReplyKeeps(v: View, at: int, m: Message, f: Facts)
    requires Inv(v, f) && v.listenMode != ListenNone && AwaitsReply(v.state) && (m.kind == Ack || m.kind == Nak)
    ensures Inv(Receive(v, at, m), Learn(f, MarkOf(v, Event(at, Received(m)))))
  {
    if m.kind == Ack {
      AckKeeps(v, at, m, f);
    } else {
      NakKeeps(v, at, f);
    }
  }

  lemma {:induction false} ReceiveKeeps(v: View, at: int, m: Message, f: Facts)
    requires Inv(v, f)
    ensures Inv(Receive(v, at, m), Learn(f, MarkOf(v, Event(at, Received(m)))))
  {
    if v.listenMode != ListenNone {
      if AwaitsReply(v.state) && (m.kind == Ack || m.kind == Nak) {
        ReplyKeeps(v, at, m, f);
      } else if v.state == InitSelecting && m.kind == Offer {
        OfferKeeps(v, at, m, f);
      }
    }
  }

  lemma {:induction false} CallKeeps(v: View, e: Event, f: Facts)
    requires Inv(v, f) && (e.what.StartCalled? || e.what.StopCalled? || e.what.DeclineCalled?) && Enabled(v, e)
    ensures Inv(Next(v, e), Learn(f, MarkOf(v, e)))
  {
    if e.what.StartCalled? {
      StartKeeps(v, e.at, e.what.last, f);
    }
  }

  lemma {:induction false} StepKeeps(v: View, e: Event, f: Facts, v': View, f': Facts)
    requires Inv(v, f) && Enabled(v, e) && v' == Next(v, e) && f' == Learn(f, MarkOf(v, e))
    ensures Inv(v', f')
  {
    match e.what
    case Received(m) => ReceiveKeeps(v, e.at, m, f);
    case GeneralFires => TimeoutKeeps(v, e.at, f);
    case FirstFires(rand) => RenewalKeeps(v, e.at, rand, f);
    case SecondFires(rand) => RebindingKeeps(v, e.at, rand, f);
    case LeaseFires =>
    case _ => CallKeeps(v, e, f);
  }

  /** The invariant holds of the first `i` views. Recursive, so that it is used as a whole. */
  ghost predicate InvUpTo(es: seq<Event>, i: nat)
    requires i <= |es|
  {
    (i > 0 ==> InvUpTo(es, i - 1)) && Inv(ViewAt(es, i), FactsOf(Marks(es, i)))
  }

  lemma {:induction false} RunKeeps(es: seq<Event>, i: nat)
    requires i <= |es| && ProperUpTo(es, i)
    ensures InvUpTo(es, i)
  {
    if i > 0 {
      RunKeeps(es, i - 1);
      FactsGrow(Marks(es, i - 1), MarkOf(ViewAt(es, i - 1), es[i - 1]));
      StepKeeps(ViewAt(es, i - 1), es[i - 1], FactsOf(Marks(es, i - 1)), ViewAt(es, i), FactsOf(Marks(es, i)));
    }
  }

  // ---------- Leases over whole runs

  /** Event `k` gave the last lease. */
  predicate LastAck(ms: seq<Mark>, k: nat) {
    k < |ms| && ms[k].ack.Some? && forall j :: k < j < |ms| ==> ms[j].ack.None?
  }

  lemma {:induction false} FindAck(ms: seq<Mark>) returns (k: nat)
    requires FactsOf(ms).leaseEnd.Some?
    ensures LastAck(ms, k) && FactsOf(ms).leaseEnd == Some(ms[k].at + 1000 * ms[k].ack.value)
  {
    if ms[|ms| - 1].ack.Some? {
      k := |ms| - 1;
    } else {
      k := FindAck(ms[..|ms| - 1]);
    }
  }

  lemma {:induction false} FindNak(ms: seq<Mark>, k: nat) returns (j: nat)
    requires LastAck(ms, k) && FactsOf(ms).nak.Some?
    ensures k < j < |ms| && ms[j].nak && FactsOf(ms).nak == Some(ms[j].at)
  {
    if ms[|ms| - 1].ack.None? && ms[|ms| - 1].nak {
      j := |ms| - 1;
    } else {
      j := FindNak(ms[..|ms| - 1], k);
    }
  }

  /** A NAK came after event `k`, no more than three seconds before `at`. */
  predicate FreshNak(ms: seq<Mark>, k: nat, at: int) {
    exists j :: k < j < |ms| && ms[j].nak && at <= ms[j].at + RESTART_TIMEOUT
  }

  /** The lease of the last ACK has not ended, or a NAK came since, no more than three seconds ago. */
  ghost predicate MayHold(ms: seq<Mark>, at: int) {
    exists k: nat :: LastAck(ms, k) && (at <= ms[k].at + 1000 * ms[k].ack.value || FreshNak(ms, k, at))
  }

  lemma {:induction false} HoldingIsJustified(v: View, ms: seq<Mark>, at: int)
    requires Inv(v, FactsOf(ms)) && OnTime(v.timers, at)
    ensures HoldsLease(v.state) ==> MayHold(ms, at)
  {
    if HoldsLease(v.state) {
      var k := FindAck(ms);
      if v.timers.lease.None? {
        var j := FindNak(ms, k);
      }
    }
  }

  /**
   In every run the client holds a lease only after an ACK, until the end of the lease of
   the last ACK or until three seconds after the last NAK that followed it.
   */
  lemma {:induction false} LeaseIsLeftInTime(es: seq<Event>, i: nat, at: int)
    requires Proper(es) && i <= |es| && Reached(es, i, at)
    ensures HoldsLease(ViewAt(es, i).state) ==> MayHold(Marks(es, i), at)
  {
    ProperStart(es, i, |es|);
    RunKeeps(es, i);
    HoldingIsJustified(ViewAt(es, i), Marks(es, i), at);
  }

  /** The timers of a lease, each strictly before the next; the last fires when the lease ends. */
  ghost predicate InOrder(t: Timers, ms: seq<Mark>) {
    && (t.t1.Some? ==> t.t2.Some? && t.t1.value.deadline < t.t2.value.deadline)
    && (t.t2.Some? ==> t.lease.Some? && t.t2.value.deadline < t.lease.value.deadline)
    && (t.lease.Some? ==>
          exists k: nat :: LastAck(ms, k) && t.lease.value.deadline == ms[k].at + 1000 * ms[k].ack.value)
  }

  lemma {:induction false} TimersInOrder(v: View, ms: seq<Mark>)
    requires Inv(v, FactsOf(ms))
    ensures InOrder(v.timers, ms)
  {
    if v.timers.lease.Some? {
      var k := FindAck(ms);
    }
  }

  /**
   In every run, renewal requests come strictly before rebinding and rebinding requests strictly
   before the lease ends.
   */
  lemma {:induction false} RenewalInOrder(es: seq<Event>, i: nat)
    requires Proper(es) && i <= |es|
    ensures InOrder(ViewAt(es, i).timers, Marks(es, i))
  {
    ProperStart(es, i, |es|);
    RunKeeps(es, i);
    TimersInOrder(ViewAt(es, i), Marks(es, i));
  }

  // ---------- Leases held past their end

  lemma {:induction false} PrefixOfLonger(es: seq<Event>, e: Event, i: nat)
    requires i <= |es|
    ensures ViewAt(es + [e], i) == ViewAt(es, i) && Marks(es + [e], i) == Marks(es, i)
    ensures ProperUpTo(es, i) ==> ProperUpTo(es + [e], i)
  {
    if i > 0 {
      PrefixOfLonger(es, e, i - 1);
      assert (es + [e])[i - 1] == es[i - 1] && (i > 1 ==> (es + [e])[i - 2] == es[i - 2]);
    }
  }

  /** A run goes on with any event that can happen now. */
  lemma {:induction false} OneMoreEvent(es: seq<Event>, e: Event, v: View, longer: seq<Event>)
    requires Proper(es) && v == ViewAt(es, |es|) && Enabled(v, e) && (es != [] ==> es[|es| - 1].at <= e.at)
    requires longer == es + [e]
    ensures Proper(longer) && ViewAt(longer, |longer|) == Next(v, e)
    ensures Marks(longer, |longer|) == Marks(es, |es|) + [MarkOf(v, e)]
  {
    PrefixOfLonger(es, e, |es|);
  }

  /** The client holds a lease and listens for a reply. */
  predicate Asks(v: View) {
    v.listenMode != ListenNone && (v.state == Renewing || v.state == Rebinding)
  }

  lemma {:induction false} NakStep(v: View, at: int, m: Message, until: int)
    requires OnTime(v.timers, at) && m.kind == Nak && Asks(v) && at <= until <= at + RESTART_TIMEOUT
    ensures var e := Event(at, Received(m));
            && Enabled(v, e) && OnTime(Next(v, e).timers, until) && Asks(Next(v, e))
            && MarkOf(v, e).ack.None?
  {
  }

  /** `longer` goes on from `es` with the same last ACK, and asks at time `at`. */
  ghost predicate HoldsOn(es: seq<Event>, longer: seq<Event>, at: int) {
    && Proper(longer) && Reached(longer, |longer|, at) && Asks(ViewAt(longer, |longer|))
    && Marks(es, |es|) <= Marks(longer, |longer|)
    && (forall k: nat :: LastAck(Marks(es, |es|), k) ==> LastAck(Marks(longer, |longer|), k))
  }

  lemma {:induction false} SameLastAck(ms: seq<Mark>, m: Mark, k: nat)
    requires LastAck(ms, k) && m.ack.None?
    ensures LastAck(ms + [m], k)
  {
  }

  /**
   At any time of a run in which a client that holds a lease asks for more, a NAK lets it hold
   on for three seconds.
   */
  lemma {:induction false} NakProlongs(es: seq<Event>, at: int, m: Message, until: int, longer: seq<Event>)
    requires Proper(es) && Reached(es, |es|, at) && Asks(ViewAt(es, |es|)) && m.kind == Nak
    requires at <= until <= at + RESTART_TIMEOUT && longer == es + [Event(at, Received(m))]
    ensures HoldsOn(es, longer, until)
  {
    var v, e := ViewAt(es, |es|), Event(at, Received(m));
    NakStep(v, at, m, until);
    OneMoreEvent(es, e, v, longer);
    forall k: nat | LastAck(Marks(es, |es|), k) ensures LastAck(Marks(longer, |longer|), k) {
      SameLastAck(Marks(es, |es|), MarkOf(v, e), k);
    }
  }

  lemma {:induction false} HoldsOnAndOn(es: seq<Event>, mid: seq<Event>, t: int, longer: seq<Event>, at: int)
    requires HoldsOn(es, mid, t) && HoldsOn(mid, longer, at)
    ensures HoldsOn(es, longer, at)
  {
  }

  /** With NAKs that keep coming it holds on as long as one likes. */
  lemma {:induction false} NaksProlong(es: seq<Event>, at: int, m: Message, until: int) returns (longer: seq<Event>)
    requires Proper(es) && Reached(es, |es|, at) && Asks(ViewAt(es, |es|)) && m.kind == Nak && at <= until
    ensures HoldsOn(es, longer, until)
    decreases until - at
  {
    longer := es + [Event(at, Received(m))];
    if until <= at + RESTART_TIMEOUT {
      NakProlongs(es, at, m, until, longer);
    } else {
      var mid := longer;
      NakProlongs(es, at, m, at + RESTART_TIMEOUT, mid);
      longer := NaksProlong(mid, at + RESTART_TIMEOUT, m, until);
      HoldsOnAndOn(es, mid, at + RESTART_TIMEOUT, longer, until);
    }
  }

  /** A run in which an ACK at time 0 gives a lease of `lease` seconds and T1 has just fired. */
  lemma {:induction false} RenewingRun(lease: u32, server: u32) returns (es: seq<Event>)
    requires lease >= MIN_LEASE
    ensures Proper(es) && Reached(es, |es|, 1000 * RenewAt(lease)) && Asks(ViewAt(es, |es|))
    ensures exists k: nat :: LastAck(Marks(es, |es|), k)
              && Marks(es, |es|)[k].at == 0 && Marks(es, |es|)[k].ack == Some(lease)
  {
    TimerOrder(lease);
    var e1 := Event(0, StartCalled(None));
    var e2 := Event(0, Received(Message(Offer, Some(server), None, 0)));
    var e3 := Event(0, Received(Message(Ack, Some(server), Some(lease), 0)));
    var e4 := Event(1000 * RenewAt(lease), FirstFires(0));
    var v1 := Next(Fresh, e1);
    var v2 := Next(v1, e2);
    var v3 := Next(v2, e3);
    OneMoreEvent([], e1, Fresh, [e1]);
    OneMoreEvent([e1], e2, v1, [e1, e2]);
    OneMoreEvent([e1, e2], e3, v2, [e1, e2, e3]);
    es := [e1, e2, e3, e4];
    OneMoreEvent([e1, e2, e3], e4, v3, es);
    assert LastAck(Marks(es, 4), 2);
  }

  /** So the bound of `LeaseIsLeftInTime` is needed: every lease can still be held at any time after its end. */
  lemma {:induction false} HeldPastItsEnd(lease: u32, server: u32, m: Message, until: int) returns (es: seq<Event>)
    requires lease >= MIN_LEASE && m.kind == Nak && until >= 1000 * RenewAt(lease)
    ensures Proper(es) && Reached(es, |es|, until) && HoldsLease(ViewAt(es, |es|).state)
    ensures exists k: nat :: LastAck(Marks(es, |es|), k)
              && Marks(es, |es|)[k].at == 0 && Marks(es, |es|)[k].ack == Some(lease)
  {
    var start := RenewingRun(lease, server);
    es := NaksProlong(start, 1000 * RenewAt(lease), m, until);
    var k: nat :| LastAck(Marks(start, |start|), k)
      && Marks(start, |start|)[k].at == 0 && Marks(start, |start|)[k].ack == Some(lease);
    assert LastAck(Marks(es, |es|), k) && Marks(es, |es|)[k] == Marks(start, |start|)[k];
  }

  // ---------- Progress over whole runs

  /** Nothing resumed the client from event `k` on. */
  predicate NotResumed(ms: seq<Mark>, k: nat) {
    forall j :: k <= j < |ms| ==> !ms[j].resumes
  }

  /** The client was never started, or it ended at some point and was not resumed since. */
  predicate OutOfAction(ms: seq<Mark>) {
    NotResumed(ms, 0) || exists k: nat :: k < |ms| && ms[k].ends && NotResumed(ms, k)
  }

  lemma {:induction false} OutMeansOutOfAction(ms: seq<Mark>)
    requires forall j :: 0 <= j < |ms| ==> !(ms[j].ends && ms[j].resumes)
    ensures FactsOf(ms).out <==> OutOfAction(ms)
  {
    if ms != [] {
      var n := |ms| - 1;
      var before := ms[..n];
      OutMeansOutOfAction(before);
      if ms[n].ends {
        assert NotResumed(ms, n);
      } else if !ms[n].resumes {
        assert NotResumed(before, 0) ==> NotResumed(ms, 0);
        assert NotResumed(ms, 0) ==> NotResumed(before, 0);
        forall k: nat | k < n ensures NotResumed(before, k) <==> NotResumed(ms, k) {
        }
      }
    }
  }

  /** A timer is running that will still fire. */
  predicate Waits(t: Timers, at: int) {
    (t.general.Some? && at <= t.general.value.deadline) || (t.lease.Some? && at <= t.lease.value.deadline)
  }

  /**
   In every run and at every time of it, the client waits for a timer, unless it was never
   started, or has given up, stalled on a packet without server identifier or was stopped
   and nothing resumed it; and then it waits for none.
   */
  lemma {:induction false} NeverStalls(es: seq<Event>, i: nat, at: int)
    requires Proper(es) && i <= |es| && Reached(es, i, at)
    ensures Waits(ViewAt(es, i).timers, at) <==> !OutOfAction(Marks(es, i))
  {
    ProperStart(es, i, |es|);
    RunKeeps(es, i);
    var ms := Marks(es, i);
    forall j | 0 <= j < i ensures !(ms[j].ends && ms[j].resumes) {
      MarkAt(es, i, j);
    }
    OutMeansOutOfAction(ms);
  }
}
