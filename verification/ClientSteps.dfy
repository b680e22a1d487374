/**
 The DHCPv4 client on values: what each call, packet and timer makes of its fields.
 Times are in milliseconds. A running timer sits in one of four slots; a timer that
 fires has left its slot.
 */
module ClientSteps {
  import opened Words
  import opened RenewalTiming

  const DISCOVER_TIMEOUT := 5000
  const DISCOVER_RETRIES := 6
  const REQUEST_TIMEOUT := 5000
  const REQUEST_RETRIES := 3
  const RESTART_TIMEOUT := 3000

  datatype State = InitSelecting | Rebooting | Requesting | Bound | Declined | Renewing | Rebinding | Released

  datatype ListenMode = ListenNone | ListenL2 | ListenL3

  datatype Kind =
    | Discovering | Reboot | Requested | Restart
    | StartRenew | ContinueRenew | StartRebound | ContinueRebound | Expire

  datatype Timer = Timer(kind: Kind, deadline: int)

  /** `general` is the timer of the exchanges without a lease. */
  datatype Timers = Timers(general: Option<Timer>, t1: Option<Timer>, t2: Option<Timer>, lease: Option<Timer>)

  const NoTimers := Timers(None, None, None, None)

  datatype Addresses = Addresses(server: u32, requested: u32, last: Option<u32>)

  datatype Registers = Registers(leaseSeconds: u32, T1: u32, T2: u32, expire: u32)

  datatype View = View(
    state: State, retryTimes: u8, ackRetryTimes: u8, listenMode: ListenMode,
    addresses: Addresses, registers: Registers, timers: Timers)

  const Fresh :=
    View(InitSelecting, 0, 0, ListenNone, Addresses(0, 0, None), Registers(0, 0, 0, 0), NoTimers)

  datatype MessageType = Offer | Ack | Nak | Other

  /** The parts of a server packet, already found to belong to this client, that the client reads. */
  datatype Message = Message(kind: MessageType, serverId: Option<u32>, leaseTime: Option<u32>, yiaddr: u32)

  predicate HoldsLease(s: State) {
    s == Bound || s == Renewing || s == Rebinding
  }

  /** The states in which an ACK or a NAK is looked at. */
  predicate AwaitsReply(s: State) {
    s == Rebooting || s == Requesting || s == Renewing || s == Rebinding
  }

  /** `get_lease`. */
  function LeaseTime(m: Message): (r: u32)
    ensures r >= MIN_LEASE
  {
    if m.leaseTime.None? then 3600 else if m.leaseTime.value < 10 then 10 else m.leaseTime.value
  }

  /** Neither the error value nor an address with all bits of 169.254.0.0 set. */
  predicate Acceptable(addr: u32) {
    addr != 0xffff_ffff && (addr as bv32 & 0xa9fe_0000) != 0xa9fe_0000
  }

  // ---------- Exchanges without a lease

  /** `g_dhcp_client_start`: gives up at the retry limit, else reboots with a known address or discovers. */
  function Start(v: View, at: int, last: Option<u32>): View {
    var kept := last.Some? && v.state != Declined && Acceptable(last.value);
    if v.retryTimes == DISCOVER_RETRIES then v.(retryTimes := 0, timers := NoTimers)
    else
      var w := if v.retryTimes == 0 then v.(state := InitSelecting, listenMode := ListenL2) else v;
      if kept && last.value != 0 then
        w.(state := Rebooting, addresses := w.addresses.(requested := last.value, last := last),
           timers := NoTimers.(general := Some(Timer(Reboot, at + REQUEST_TIMEOUT))))
      else
        w.(addresses := if kept then w.addresses.(last := last) else w.addresses,
           timers := NoTimers.(general := Some(Timer(Discovering, at + DISCOVER_TIMEOUT))))
  }

  function Stop(v: View): View {
    v.(state := Released, retryTimes := 0, ackRetryTimes := 0, listenMode := ListenNone,
       addresses := v.addresses.(requested := 0), registers := v.registers.(leaseSeconds := 0), timers := NoTimers)
  }

  /** `g_dhcp_client_decline` leaves the timers alone. */
  function Decline(v: View): View {
    v.(state := Declined, retryTimes := 0)
  }

  /** `start_request`: a new request, or a retry, up to three. */
  function Request(v: View, at: int): View {
    if v.retryTimes == REQUEST_RETRIES then v
    else
      var w := if v.retryTimes == 0 then v.(state := Requesting, listenMode := ListenL2) else v;
      w.(timers := w.timers.(general := Some(Timer(Requested, at + REQUEST_TIMEOUT))))
  }

  function RestartDhcp(v: View, at: int, retries: u8): View {
    var w := v.(state := InitSelecting, retryTimes := retries, listenMode := ListenL2,
                addresses := v.addresses.(requested := 0), timers := NoTimers);
    Start(w, at, v.addresses.last)
  }

  function Increment(n: u8): u8 {
    (n + 1) % 0x100
  }

  /** The general timer fires. */
  function TimedOut(v: View, at: int): View
    requires v.timers.general.Some?
  {
    var w := v.(timers := v.timers.(general := None));
    match v.timers.general.value.kind
    case Discovering => Start(w.(retryTimes := Increment(v.retryTimes)), at, None)
    case Reboot =>
      Start(w.(retryTimes := 0, state := InitSelecting, addresses := v.addresses.(requested := 0)), at, None)
    case Requested => Request(w.(retryTimes := Increment(v.retryTimes)), at)
    case _ =>
      if v.state == Rebooting then RestartDhcp(w.(addresses := v.addresses.(last := None)), at, 0)
      else RestartDhcp(w.(ackRetryTimes := Increment(v.ackRetryTimes)), at, Increment(v.ackRetryTimes))
  }

  // ---------- Leases

  /** `start_bound`: T1, T2 and the end of the lease all run from now. */
  function Bind(v: View, at: int): View {
    var l := v.registers.leaseSeconds;
    v.(state := Bound, registers := Registers(l, RenewAt(l), RebindAt(l), l),
       timers := Timers(None, Some(Timer(StartRenew, at + 1000 * RenewAt(l))),
                        Some(Timer(StartRebound, at + 1000 * RebindAt(l))), Some(Timer(Expire, at + 1000 * l))))
  }

  /** The next timer of a chain; a delay of zero arms nothing. */
  function Rearm(kind: Kind, h: u32, at: int, rand: nat): Option<Timer> {
    if h > 60 && Interval(h, rand) > 0 then Some(Timer(kind, at + Interval(h, rand))) else None
  }

  /** `continue_renew`: sends a request and arms the next one at half the remaining time. */
  function ContinueRenewing(v: View, at: int, rand: nat): View {
    var h := v.registers.T1 / 2;
    v.(listenMode := ListenL3, registers := v.registers.(T1 := h),
       timers := v.timers.(t1 := Rearm(ContinueRenew, h, at, rand)))
  }

  function Subtract(a: u32, b: u32): u32 {
    (a - b) % 0x1_0000_0000
  }

  /** The T1 timer fires, for the first time or again. */
  function T1Fires(v: View, at: int, rand: nat): View
    requires v.timers.t1.Some?
  {
    var r := v.registers;
    var w := if v.timers.t1.value.kind != StartRenew then v
             else v.(state := Renewing, registers := r.(T1 := Subtract(r.T2, r.T1)));
    ContinueRenewing(w, at, rand)
  }

  /** `continue_rebound`. */
  function ContinueRebinding(v: View, at: int, rand: nat): View {
    var h := v.registers.T2 / 2;
    v.(listenMode := ListenL2, registers := v.registers.(T2 := h),
       timers := v.timers.(t2 := Rearm(ContinueRebound, h, at, rand)))
  }

  /** The T2 timer fires, for the first time or again. */
  function T2Fires(v: View, at: int, rand: nat): View
    requires v.timers.t2.Some?
  {
    var r := v.registers;
    var w := if v.timers.t2.value.kind != StartRebound then v
             else v.(state := Rebinding, registers := r.(T2 := Subtract(r.expire, r.T2)),
                     timers := v.timers.(t1 := None));
    ContinueRebinding(w, at, rand)
  }

  // ---------- Packets

  function HandleOffer(v: View, at: int, m: Message): View {
    var w := v.(retryTimes := 0, timers := NoTimers);
    if m.serverId.None? then w
    else
      Request(w.(state := Requesting, addresses := v.addresses.(server := m.serverId.value, requested := m.yiaddr)), at)
  }

  function HandleAck(v: View, at: int, m: Message): View {
    var w := v.(retryTimes := 0, listenMode := ListenNone,
                registers := v.registers.(leaseSeconds := LeaseTime(m)), timers := NoTimers);
    if v.state != Rebooting then Bind(w, at)
    else if m.serverId.None? then w
    else Bind(w.(addresses := v.addresses.(server := m.serverId.value)), at)
  }

  function HandleNak(v: View, at: int): View {
    v.(retryTimes := 0, timers := NoTimers.(general := Some(Timer(Restart, at + RESTART_TIMEOUT))))
  }

  function Receive(v: View, at: int, m: Message): View {
    if v.listenMode == ListenNone then v
    else if v.state == InitSelecting then if m.kind == Offer then HandleOffer(v, at, m) else v
    else if !AwaitsReply(v.state) then v
    else if m.kind == Ack then HandleAck(v, at, m)
    else if m.kind == Nak then HandleNak(v, at)
    else v
  }

  // ---------- Events

  datatype What =
    | StartCalled(last: Option<u32>) | StopCalled | DeclineCalled
    | Received(m: Message)
    | GeneralFires | FirstFires(rand: nat) | SecondFires(rand: nat) | LeaseFires

  datatype Event = Event(at: int, what: What)

  predicate Pending(t: Option<Timer>, at: int) {
    t.Some? ==> at <= t.value.deadline
  }

  /** No running timer is overdue at this time. */
  predicate OnTime(t: Timers, at: int) {
    Pending(t.general, at) && Pending(t.t1, at) && Pending(t.t2, at) && Pending(t.lease, at)
  }

  predicate Due(t: Option<Timer>, at: int) {
    t.Some? && t.value.deadline == at
  }

  /** Timers fire at their deadline, and no event comes after the deadline of a running timer. */
  predicate Enabled(v: View, e: Event) {
    && OnTime(v.timers, e.at)
    && match e.what
       case GeneralFires => Due(v.timers.general, e.at)
       case FirstFires(_) => Due(v.timers.t1, e.at)
       case SecondFires(_) => Due(v.timers.t2, e.at)
       case LeaseFires => Due(v.timers.lease, e.at)
       case _ => true
  }

  function Next(v: View, e: Event): View
    requires Enabled(v, e)
  {
    match e.what
    case StartCalled(last) => Start(v, e.at, last)
    case StopCalled => Stop(v)
    case DeclineCalled => Decline(v)
    case Received(m) => Receive(v, e.at, m)
    case GeneralFires => TimedOut(v, e.at)
    case FirstFires(rand) => T1Fires(v, e.at, rand)
    case SecondFires(rand) => T2Fires(v, e.at, rand)
    case LeaseFires => RestartDhcp(v, e.at, 0)
  }
}
