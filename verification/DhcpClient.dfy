/**
 The DHCPv4 client as an event-driven object. Every entry point is proved to do to the
 fields what `ClientSteps` does to their values.
 */
module DhcpClient {
  import opened Words
  import opened RenewalTiming
  import opened ClientSteps

  class Client {
    var state: State
    var retryTimes: u8
    var ackRetryTimes: u8
    var listenMode: ListenMode
    var serverIp: u32
    var requestedIp: u32
    var lastAddress: Option<u32>
    var leaseSeconds: u32
    var T1: u32
    var T2: u32
    var expire: u32

    var timeout: Option<Timer>
    var t1Timeout: Option<Timer>
    var t2Timeout: Option<Timer>
    var leaseTimeout: Option<Timer>

    ghost function Now(): View
      reads this
    {
      View(state, retryTimes, ackRetryTimes, listenMode, Addresses(serverIp, requestedIp, lastAddress),
           Registers(leaseSeconds, T1, T2, expire), Timers(timeout, t1Timeout, t2Timeout, leaseTimeout))
    }

    constructor ()
      ensures Now() == Fresh
    {
      state, retryTimes, ackRetryTimes, listenMode := InitSelecting, 0, 0, ListenNone;
      serverIp, requestedIp, lastAddress, leaseSeconds, T1, T2, expire := 0, 0, None, 0, 0, 0, 0;
      timeout, t1Timeout, t2Timeout, leaseTimeout := None, None, None, None;
    }

    method RemoveTimeouts()
      modifies `timeout, `t1Timeout, `t2Timeout, `leaseTimeout
      ensures Now() == old(Now()).(timers := NoTimers)
    {
      timeout, t1Timeout, t2Timeout, leaseTimeout := None, None, None, None;
    }

    /** `g_dhcp_client_start` for an IPv4 client. */
    method Start(at: int, last: Option<u32>)
      modifies this
      ensures Now() == ClientSteps.Start(old(Now()), at, last)
    {
      var oldState := state;
      RemoveTimeouts();
      if retryTimes == DISCOVER_RETRIES {
        retryTimes := 0;
        return;
      }
      if retryTimes == 0 {
        state := InitSelecting;
        listenMode := ListenL2;
      }
      var addr: u32 := 0;
      if last.Some? && oldState != Declined && Acceptable(last.value) {
        addr := last.value;
        lastAddress := last;
      }
      if addr != 0 {
        requestedIp := addr;
        state := Rebooting;
        timeout := Some(Timer(Reboot, at + REQUEST_TIMEOUT));
        return;
      }
      timeout := Some(Timer(Discovering, at + DISCOVER_TIMEOUT));
    }

    method Stop()
      modifies this
      ensures Now() == ClientSteps.Stop(old(Now()))
    {
      listenMode := ListenNone;
      RemoveTimeouts();
      retryTimes, ackRetryTimes, requestedIp := 0, 0, 0;
      state := Released;
      leaseSeconds := 0;
    }

    method Decline()
      modifies `state, `retryTimes
      ensures Now() == ClientSteps.Decline(old(Now()))
    {
      state := Declined;
      retryTimes := 0;
    }

    method StartRequest(at: int)
      modifies `state, `listenMode, `timeout
      ensures Now() == Request(old(Now()), at)
    {
      if retryTimes == REQUEST_RETRIES {
        return;
      }
      if retryTimes == 0 {
        state := Requesting;
        listenMode := ListenL2;
      }
      timeout := Some(Timer(Requested, at + REQUEST_TIMEOUT));
    }

    method RestartDhcp(at: int, retries: u8)
      modifies this
      ensures Now() == ClientSteps.RestartDhcp(old(Now()), at, retries)
    {
      RemoveTimeouts();
      retryTimes := retries;
      requestedIp := 0;
      state := InitSelecting;
      listenMode := ListenL2;
      Start(at, lastAddress);
    }

    /** The lease timer fires: the address is given up and the exchange starts over. */
    method StartExpire(at: int)
      modifies this
      ensures Now() == ClientSteps.RestartDhcp(old(Now()), at, 0)
    {
      RemoveTimeouts();
      RestartDhcp(at, 0);
    }

    /** The general timer fires: one of the four exchanges without a lease timed out. */
    method FireTimeout(at: int)
      requires timeout.Some?
      modifies this
      ensures Now() == TimedOut(old(Now()), at)
    {
      var kind := timeout.value.kind;
      timeout := None;
      match kind {
        case Discovering =>
          retryTimes := Increment(retryTimes);
          Start(at, None);
        case Reboot =>
          retryTimes := 0;
          requestedIp := 0;
          state := InitSelecting;
          Start(at, None);
        case Requested =>
          retryTimes := Increment(retryTimes);
          StartRequest(at);
        case _ =>
          RestartTimeout(at);
      }
    }

    /** `restart_dhcp_timeout`, three seconds after a NAK. */
    method RestartTimeout(at: int)
      modifies this
      ensures Now() ==
              if old(state) == Rebooting
              then ClientSteps.RestartDhcp(old(Now()).(addresses := old(Now()).addresses.(last := None)), at, 0)
              else ClientSteps.RestartDhcp(old(Now()).(ackRetryTimes := Increment(old(ackRetryTimes))), at,
                                           Increment(old(ackRetryTimes)))
    {
      if state == Rebooting {
        lastAddress := None;
        RestartDhcp(at, 0);
      } else {
        ackRetryTimes := Increment(ackRetryTimes);
        RestartDhcp(at, ackRetryTimes);
      }
    }

    method ContinueRenewing(at: int, rand: nat)
      modifies `listenMode, `t1Timeout, `T1
      ensures Now() == ClientSteps.ContinueRenewing(old(Now()), at, rand)
    {
      listenMode := ListenL3;
      t1Timeout := None;
      T1 := T1 / 2;
      if T1 > 60 {
        var delay := Interval(T1, rand);
        if delay > 0 {
          t1Timeout := Some(Timer(ContinueRenew, at + delay));
        }
      }
    }

    /** The T1 timer fires, for the first time or again. */
    method FireT1(at: int, rand: nat)
      requires t1Timeout.Some?
      modifies `state, `listenMode, `t1Timeout, `T1
      ensures Now() == T1Fires(old(Now()), at, rand)
    {
      if t1Timeout.value.kind == StartRenew {
        state := Renewing;
        T1 := Subtract(T2, T1);
      }
      ContinueRenewing(at, rand);
    }

    method ContinueRebinding(at: int, rand: nat)
      modifies `listenMode, `t2Timeout, `T2
      ensures Now() == ClientSteps.ContinueRebinding(old(Now()), at, rand)
    {
      listenMode := ListenL2;
      t2Timeout := None;
      T2 := T2 / 2;
      if T2 > 60 {
        var delay := Interval(T2, rand);
        if delay > 0 {
          t2Timeout := Some(Timer(ContinueRebound, at + delay));
        }
      }
    }

    /** The T2 timer fires, for the first time or again. */
    method FireT2(at: int, rand: nat)
      requires t2Timeout.Some?
      modifies `state, `listenMode, `t1Timeout, `t2Timeout, `T2
      ensures Now() == T2Fires(old(Now()), at, rand)
    {
      if t2Timeout.value.kind == StartRebound {
        t1Timeout := None;
        state := Rebinding;
        T2 := Subtract(expire, T2);
      }
      ContinueRebinding(at, rand);
    }

    method StartBound(at: int)
      modifies `state, `T1, `T2, `expire, `timeout, `t1Timeout, `t2Timeout, `leaseTimeout
      ensures Now() == Bind(old(Now()), at)
    {
      state := Bound;
      RemoveTimeouts();
      T1 := RenewAt(leaseSeconds);
      T2 := RebindAt(leaseSeconds);
      expire := leaseSeconds;
      t1Timeout := Some(Timer(StartRenew, at + 1000 * T1));
      t2Timeout := Some(Timer(StartRebound, at + 1000 * T2));
      leaseTimeout := Some(Timer(Expire, at + 1000 * expire));
    }

    /** A packet of the running exchange arrives. */
    method ListenerEvent(at: int, m: Message)
      modifies this
      ensures Now() == Receive(old(Now()), at, m)
    {
      if listenMode == ListenNone {
        return;
      }
      match state {
        case InitSelecting =>
          if m.kind != Offer {
            return;
          }
          HandleOffer(at, m);
        case Rebooting => HandleReply(at, m);
        case Requesting => HandleReply(at, m);
        case Renewing => HandleReply(at, m);
        case Rebinding => HandleReply(at, m);
        case _ =>
      }
    }

    method HandleOffer(at: int, m: Message)
      modifies this
      ensures Now() == ClientSteps.HandleOffer(old(Now()), at, m)
    {
      RemoveTimeouts();
      retryTimes := 0;
      if m.serverId.None? {
        return;
      }
      serverIp, requestedIp := m.serverId.value, m.yiaddr;
      state := Requesting;
      StartRequest(at);
    }

    /** ACK and NAK in the states that wait for them. */
    method HandleReply(at: int, m: Message)
      modifies this
      ensures Now() ==
              if m.kind == Ack then HandleAck(old(Now()), at, m)
              else if m.kind == Nak then HandleNak(old(Now()), at)
              else old(Now())
    {
      if m.kind == Ack {
        retryTimes := 0;
        RemoveTimeouts();
        leaseSeconds := LeaseTime(m);
        listenMode := ListenNone;
        if state == Rebooting {
          if m.serverId.None? {
            return;
          }
          serverIp := m.serverId.value;
        }
        StartBound(at);
      } else if m.kind == Nak {
        retryTimes := 0;
        RemoveTimeouts();
        timeout := Some(Timer(Restart, at + RESTART_TIMEOUT));
      }
    }

    /** The main loop hands over one event. */
    method Dispatch(e: Event)
      requires Enabled(Now(), e)
      modifies this
      ensures Now() == Next(old(Now()), e)
    {
      match e.what {
        case StartCalled(last) => Start(e.at, last);
        case StopCalled => Stop();
        case DeclineCalled => Decline();
        case Received(m) => ListenerEvent(e.at, m);
        case GeneralFires => FireTimeout(e.at);
        case FirstFires(rand) => FireT1(e.at, rand);
        case SecondFires(rand) => FireT2(e.at, rand);
        case LeaseFires => StartExpire(e.at);
      }
    }
  }
}
