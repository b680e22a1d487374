/**
 The renewal and rebinding timers of the DHCP client: intervals are halved, jittered by
 up to a second and passed through 32-bit arithmetic.
 */
module RenewalTiming {
  import opened Words
  import opened Bits

  const MIN_LEASE: u32 := 10

  /** `T1` and `T2` in seconds, as `start_bound` sets them. */
  function RenewAt(lease: u32): u32 {
    lease / 2
  }

  function RebindAt(lease: u32): u32 {
    7 * lease / 8
  }

  lemma {:induction false} TimerOrder(lease: u32)
    requires lease >= MIN_LEASE
    ensures 0 < RenewAt(lease) < RebindAt(lease) < lease
  {
  }

  /**
   The retransmission delay in milliseconds for a remaining time of `h` seconds: `h * 1000 +
   (rand % 2000) - 1000` as a 32-bit number.
   */
  function Interval(h: u32, rand: nat): u32 {
    (h * 1000 + rand % 2000 - 1000) % 0x1_0000_0000
  }

  /** Where the product wraps, the delay is shorter than intended, never longer. */
  lemma {:induction false} IntervalBound(h: u32, rand: nat)
    requires h > 60
    ensures Interval(h, rand) <= h * 1000 + 999
    ensures h * 1000 + 1000 <= 0x1_0000_0000 ==> Interval(h, rand) == h * 1000 + rand % 2000 - 1000
  {
    var x := h * 1000 + rand % 2000 - 1000;
    assert 0 <= x;
  }

  /**
   After `k` retransmissions the register holds `h` seconds; `left` milliseconds remain
   until the timer that ends the chain. Each jitter may have cost a second.
   */
  predicate ChainOk(left: int, h: u32, k: nat) {
    left >= 2000 * h - 1000 * k && h <= Shr(0x7fff_ffff, k)
  }

  lemma {:induction false} FewRetransmissions(h: u32, k: nat)
    requires h > 60 && h <= Shr(0x7fff_ffff, k)
    ensures k <= 25
  {
    if k > 25 {
      ShrTwice(0x7fff_ffff, 24, k - 24);
      ShrTwice(0x7fff_ffff, 16, 8);
      ShrTwice(0x7fff_ffff, 8, 8);
      ShrByte(0x7fff_ffff);
      ShrByte(0x7f_ffff);
      ShrByte(0x7fff);
      ShrTwice(127, 2, k - 26);
      assert Shr(127, 2) == Shr(63, 1) == Shr(31, 0) == 31;
      ShrShrinks(31, k - 26);
    }
  }

  lemma {:induction false} ShrShrinks(a: nat, k: nat)
    ensures Shr(a, k) <= a
    decreases k
  {
    if k > 0 {
      ShrShrinks(a / 2, k - 1);
    }
  }

  /** The next retransmission comes strictly before the end of the chain, and the chain stays within its bound. */
  lemma {:induction false} ChainStep(left: int, h: u32, k: nat, rand: nat)
    requires ChainOk(left, h, k) && h > 60
    ensures Interval(h, rand) < left
    ensures ChainOk(left - Interval(h, rand), h / 2, k + 1)
  {
    IntervalBound(h, rand);
    FewRetransmissions(h, k);
    ShrTwice(0x7fff_ffff, k, 1);
    assert Shr(Shr(0x7fff_ffff, k), 1) == Shr(Shr(0x7fff_ffff, k) / 2, 0);
  }

  lemma {:induction false} ChainStart(seconds: u32)
    requires seconds < 0x8000_0000
    ensures ChainOk(1000 * seconds, seconds / 2, 0)
  {
    assert Shr(0x7fff_ffff, 0) == 0x7fff_ffff;
  }

  /**
   The times at which requests are sent when the register holds `h` at time `t`: one at
   once, then one after each delay while more than 60 seconds are left. A delay of zero
   does not arm a timer.
   */
  function Retransmissions(h: u32, t: int, rands: seq<nat>): seq<int>
    decreases h
  {
    if h / 2 <= 60 || rands == [] || Interval(h / 2, rands[0]) == 0 then [t]
    else [t] + Retransmissions(h / 2, t + Interval(h / 2, rands[0]), rands[1..])
  }

  predicate AllWithin(times: seq<int>, from: int, end: int) {
    forall x :: x in times ==> from <= x < end
  }

  lemma {:induction false} RetransmissionsBefore(h: u32, t: int, end: int, k: nat, rands: seq<nat>)
    requires t < end && ChainOk(end - t, h / 2, k)
    ensures AllWithin(Retransmissions(h, t, rands), t, end)
    ensures |Retransmissions(h, t, rands)| + k <= 27 || |Retransmissions(h, t, rands)| == 1
    decreases h
  {
    if h / 2 > 60 && rands != [] && Interval(h / 2, rands[0]) != 0 {
      ChainStep(end - t, h / 2, k, rands[0]);
      FewRetransmissions(h / 2, k);
      RetransmissionsBefore(h / 2, t + Interval(h / 2, rands[0]), end, k + 1, rands[1..]);
    }
  }

  /**
   For every lease and every jitter: renewal requests are sent from T1 on and strictly
   before T2, rebinding requests from T2 on and strictly before the lease ends, and there
   are never more than 27 of either. Times are in milliseconds from the start of the lease.
   */
  lemma {:induction false} RenewalTimingBound(lease: u32, rands: seq<nat>)
    requires lease >= MIN_LEASE
    ensures var t1: int, t2: int := RenewAt(lease), RebindAt(lease);
            && AllWithin(Retransmissions(t2 - t1, 1000 * t1, rands), 1000 * t1, 1000 * t2)
            && AllWithin(Retransmissions(lease - t2, 1000 * t2, rands), 1000 * t2, 1000 * lease)
            && |Retransmissions(t2 - t1, 1000 * t1, rands)| <= 27
            && |Retransmissions(lease - t2, 1000 * t2, rands)| <= 27
  {
    TimerOrder(lease);
    var t1: int, t2: int := RenewAt(lease), RebindAt(lease);
    ChainStart(t2 - t1);
    RetransmissionsBefore(t2 - t1, 1000 * t1, 1000 * t2, 0, rands);
    ChainStart(lease - t2);
    RetransmissionsBefore(lease - t2, 1000 * t2, 1000 * lease, 0, rands);
  }
}
