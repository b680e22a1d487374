/** DHCPv6 messages: options with two-octet codes and lengths (section 22.1 of RFC 3315). */
module Dhcpv6Message {
  import opened Words

  const MAX_PKT_SIZE := 1500
  const HEADER_SIZE := 4
  /** No option is written beyond this offset. */
  const MAX_BUF := 1496

  const CLIENTID: u16 := 1
  const SERVERID: u16 := 2
  const ELAPSED_TIME: u16 := 8
  const RAPID_COMMIT: u16 := 14

  datatype Opt = Opt(code: u16, data: seq<u8>)

  predicate OptOk(o: Opt) {
    |o.data| < 0x1_0000
  }

  function EncodeOpt(o: Opt): (bs: seq<u8>)
    requires OptOk(o)
    ensures |bs| == 4 + |o.data|
  {
    [o.code / 0x100, o.code % 0x100, |o.data| / 0x100, |o.data| % 0x100] + o.data
  }

  predicate AllOk(opts: seq<Opt>) {
    forall i :: 0 <= i < |opts| ==> OptOk(opts[i])
  }

  /** Where option `k` starts in the message, or its end for `k == |opts|`. */
  function Offset(opts: seq<Opt>, k: nat): (r: nat)
    requires AllOk(opts) && k <= |opts|
    ensures r >= HEADER_SIZE
  {
    if k == 0 then HEADER_SIZE else Offset(opts, k - 1) + 4 + |opts[k - 1].data|
  }

  predicate Holds(bytes: seq<u8>, opts: seq<Opt>, k: nat)
    requires AllOk(opts) && k < |opts|
  {
    && Offset(opts, k + 1) <= |bytes|
    && bytes[Offset(opts, k)..Offset(opts, k + 1)] == EncodeOpt(opts[k])
  }

  /** The buffer holds exactly these options after the header, within the bound. */
  predicate Message(bytes: seq<u8>, opts: seq<Opt>) {
    && |bytes| == MAX_PKT_SIZE && AllOk(opts)
    && Offset(opts, |opts|) <= MAX_BUF
    && forall k :: 0 <= k < |opts| ==> Holds(bytes, opts, k)
  }

  lemma {:induction false} OffsetMonotone(opts: seq<Opt>, j: nat, k: nat)
    requires AllOk(opts) && j <= k <= |opts|
    ensures Offset(opts, j) + 4 * (k - j) <= Offset(opts, k)
    decreases k
  {
    if j < k {
      OffsetMonotone(opts, j, k - 1);
    }
  }

  lemma {:induction false} OffsetOfPrefix(opts: seq<Opt>, o: Opt, k: nat)
    requires AllOk(opts) && OptOk(o) && k <= |opts|
    ensures AllOk(opts + [o]) && Offset(opts + [o], k) == Offset(opts, k)
    decreases k
  {
    if k > 0 {
      OffsetOfPrefix(opts, o, k - 1);
    }
  }

  lemma {:induction false} MessageExtends(before: seq<u8>, after: seq<u8>, opts: seq<Opt>, o: Opt)
    requires Message(before, opts) && OptOk(o) && |after| == |before|
    requires var end := Offset(opts, |opts|); var len := 4 + |o.data|;
             end + len <= MAX_BUF && after[..end] == before[..end] && after[end..end + len] == EncodeOpt(o)
    ensures Message(after, opts + [o])
  {
    var all := opts + [o];
    var end := Offset(opts, |opts|);
    OffsetOfPrefix(opts, o, |opts|);
    assert Offset(all, |all|) == end + 4 + |o.data|;
    forall k | 0 <= k < |all| ensures Holds(after, all, k) {
      OffsetOfPrefix(opts, o, if k < |opts| then k else 0);
      if k < |opts| {
        OffsetOfPrefix(opts, o, k + 1);
        OffsetMonotone(opts, k + 1, |opts|);
        assert Holds(before, opts, k);
        SamePart(after, before, end, Offset(opts, k), Offset(opts, k + 1));
      }
    }
  }

  // ---------- Writing

  /** What the client knows when it builds a message. */
  datatype Client = Client(duid: Option<seq<u8>>, serverDuid: Option<seq<u8>>, elapsed: u16, requests: seq<u16>,
                           sends: seq<Opt>)

  predicate ClientOk(c: Client) {
    && (c.duid.Some? ==> |c.duid.value| < 0x1_0000)
    && (c.serverDuid.Some? ==> |c.serverDuid.value| < 0x1_0000)
    && AllOk(c.sends)
  }

  predicate Fits(opts: seq<Opt>, o: Opt)
    requires AllOk(opts) && OptOk(o)
  {
    Offset(opts, |opts|) + 4 + |o.data| <= MAX_BUF
  }

  /** The option written for a requested code, if it is one the client fills in. */
  function Requested(c: Client, code: u16): (r: Option<Opt>)
    requires ClientOk(c)
    ensures r.Some? ==> OptOk(r.value) && r.value.code == code
  {
    if code == CLIENTID && c.duid.Some? then Some(Opt(code, c.duid.value))
    else if code == SERVERID && c.serverDuid.Some? then Some(Opt(code, c.serverDuid.value))
    else if code == RAPID_COMMIT then Some(Opt(code, []))
    else if code == ELAPSED_TIME then Some(Opt(code, [c.elapsed / 0x100, c.elapsed % 0x100]))
    else None
  }

  /** Writing stops at the first requested option that does not fit, or that needs a missing client identifier. */
  predicate Stops(c: Client, opts: seq<Opt>, code: u16)
    requires ClientOk(c) && AllOk(opts)
  {
    (code == CLIENTID && c.duid.None?) || (Requested(c, code).Some? && !Fits(opts, Requested(c, code).value))
  }

  function WithRequests(c: Client, opts: seq<Opt>, codes: seq<u16>): (r: seq<Opt>)
    requires ClientOk(c) && AllOk(opts)
    ensures AllOk(r)
    decreases |codes|
  {
    if codes == [] || Stops(c, opts, codes[0]) then opts
    else
      var o := Requested(c, codes[0]);
      WithRequests(c, if o.Some? then opts + [o.value] else opts, codes[1..])
  }

  /** Options of the send table that do not fit are skipped. */
  function WithSends(opts: seq<Opt>, sends: seq<Opt>): (r: seq<Opt>)
    requires AllOk(opts) && AllOk(sends)
    ensures AllOk(r)
    decreases |sends|
  {
    if sends == [] then opts
    else WithSends(if Fits(opts, sends[0]) then opts + [sends[0]] else opts, sends[1..])
  }

  /** `copy_option` at `ptr`, and the position after it. */
  method WriteOption(buf: array<u8>, ptr: nat, o: Opt, ghost opts: seq<Opt>) returns (next: nat)
    requires Message(buf[..], opts) && ptr == Offset(opts, |opts|) && OptOk(o) && Fits(opts, o)
    modifies buf
    ensures Message(buf[..], opts + [o]) && next == Offset(opts + [o], |opts| + 1)
    ensures buf[..HEADER_SIZE] == old(buf[..HEADER_SIZE])
  {
    ghost var before := buf[..];
    var len := |o.data|;
    buf[ptr], buf[ptr + 1] := o.code / 0x100, o.code % 0x100;
    buf[ptr + 2], buf[ptr + 3] := len / 0x100, len % 0x100;
    for i := 0 to len
      invariant buf[..ptr] == before[..ptr]
      invariant buf[ptr..ptr + 4] == EncodeOpt(o)[..4]
      invariant buf[ptr + 4..ptr + 4 + i] == o.data[..i]
    {
      buf[ptr + 4 + i] := o.data[i];
    }
    next := ptr + 4 + len;
    ghost var bytes := buf[..];
    assert bytes[..ptr] == before[..ptr] && bytes[ptr..ptr + 4] == EncodeOpt(o)[..4] && bytes[ptr + 4..next] == o.data;
    JoinParts(bytes, ptr, ptr + 4, next);
    assert EncodeOpt(o) == EncodeOpt(o)[..4] + o.data;
    MessageExtends(before, bytes, opts, o);
    OffsetOfPrefix(opts, o, |opts|);
    SamePart(bytes, before, ptr, 0, HEADER_SIZE);
  }

  /** `add_dhcpv6_request_options`. */
  method AddRequestOptions(c: Client, buf: array<u8>, ptr: nat) returns (next: nat, ghost opts: seq<Opt>)
    requires ClientOk(c) && Message(buf[..], []) && ptr == HEADER_SIZE
    modifies buf
    ensures opts == WithRequests(c, [], c.requests) && Message(buf[..], opts) && next == Offset(opts, |opts|)
    ensures buf[..HEADER_SIZE] == old(buf[..HEADER_SIZE])
  {
    next, opts := ptr, [];
    for n := 0 to |c.requests|
      invariant Message(buf[..], opts) && next == Offset(opts, |opts|)
      invariant buf[..HEADER_SIZE] == old(buf[..HEADER_SIZE])
      invariant WithRequests(c, opts, c.requests[n..]) == WithRequests(c, [], c.requests)
    {
      var code := c.requests[n];
      assert c.requests[n..][0] == code && c.requests[n..][1..] == c.requests[n + 1..];
      if code == CLIENTID && c.duid.None? {
        return;
      }
      var o := Requested(c, code);
      if o.Some? {
        if next + 4 + |o.value.data| > MAX_BUF {
          return;
        }
        next := WriteOption(buf, next, o.value, opts);
        opts := opts + [o.value];
      }
    }
  }

  /** `add_dhcpv6_send_options`. */
  method AddSendOptions(c: Client, buf: array<u8>, ptr: nat, ghost before: seq<Opt>)
    returns (next: nat, ghost opts: seq<Opt>)
    requires ClientOk(c) && Message(buf[..], before) && ptr == Offset(before, |before|)
    modifies buf
    ensures opts == WithSends(before, c.sends) && Message(buf[..], opts) && next == Offset(opts, |opts|)
    ensures buf[..HEADER_SIZE] == old(buf[..HEADER_SIZE])
  {
    next, opts := ptr, before;
    for n := 0 to |c.sends|
      invariant Message(buf[..], opts) && next == Offset(opts, |opts|)
      invariant buf[..HEADER_SIZE] == old(buf[..HEADER_SIZE])
      invariant WithSends(opts, c.sends[n..]) == WithSends(before, c.sends)
    {
      var o := c.sends[n];
      assert c.sends[n..][0] == o && c.sends[n..][1..] == c.sends[n + 1..];
      if next + 4 + |o.data| <= MAX_BUF {
        next := WriteOption(buf, next, o, opts);
        opts := opts + [o];
      }
    }
  }

  // ---------- Reading

  function Count(opts: seq<Opt>, code: int): nat {
    if opts == [] then 0 else Count(opts[..|opts| - 1], code) + (if opts[|opts| - 1].code == code then 1 else 0)
  }

  /** The last option with this code. */
  function LastWith(opts: seq<Opt>, code: int): (r: Option<nat>)
    ensures r.Some? ==> r.value < |opts| && opts[r.value].code == code
    ensures r.None? <==> Count(opts, code) == 0
  {
    if opts == [] then None
    else if opts[|opts| - 1].code == code then Some(|opts| - 1)
    else LastWith(opts[..|opts| - 1], code)
  }

  function Be16(bytes: seq<u8>, i: nat): int
    requires i + 1 < |bytes|
  {
    (bytes[i] as int) * 0x100 + bytes[i + 1]
  }

  /** What the reader finds at option `k`. */
  lemma {:induction false} AtOption(bytes: seq<u8>, opts: seq<Opt>, k: nat)
    requires Message(bytes, opts) && k < |opts|
    ensures var i := Offset(opts, k);
            && Offset(opts, k + 1) <= Offset(opts, |opts|)
            && Be16(bytes, i) == opts[k].code && Be16(bytes, i + 2) == |opts[k].data| < MAX_BUF
            && bytes[i + 4..Offset(opts, k + 1)] == opts[k].data
  {
    OffsetMonotone(opts, k + 1, |opts|);
    var i, j := Offset(opts, k), Offset(opts, k + 1);
    var part := bytes[i..j];
    assert Holds(bytes, opts, k);
    assert part[0] == bytes[i] && part[1] == bytes[i + 1] && part[2] == bytes[i + 2] && part[3] == bytes[i + 3];
    assert part[4..] == bytes[i + 4..j];
  }

  /** What a search over the first `k` options has found. */
  predicate FoundSoFar(bytes: seq<u8>, opts: seq<Opt>, k: nat, code: int, found: Option<nat>, optionLen: nat,
                       count: nat)
    requires AllOk(opts) && k <= |opts|
  {
    && count == Count(opts[..k], code)
    && match LastWith(opts[..k], code)
       case None => found == None
       case Some(j) =>
         && found == Some(Offset(opts, j) + 4) && optionLen == |opts[j].data|
         && found.value + optionLen <= |bytes|
         && bytes[found.value..found.value + optionLen] == opts[j].data
  }

  lemma {:induction false} FoundStep(bytes: seq<u8>, opts: seq<Opt>, k: nat, code: int, found: Option<nat>,
                                     optionLen: nat, count: nat)
    requires Message(bytes, opts) && k < |opts| && FoundSoFar(bytes, opts, k, code, found, optionLen, count)
    ensures opts[k].code != code ==> FoundSoFar(bytes, opts, k + 1, code, found, optionLen, count)
    ensures opts[k].code == code ==>
              FoundSoFar(bytes, opts, k + 1, code, Some(Offset(opts, k) + 4), |opts[k].data|, count + 1)
  {
    AtOption(bytes, opts, k);
    assert opts[..k + 1][..k] == opts[..k] && opts[..k + 1][k] == opts[k];
  }

  /**
   `dhcpv6_get_option` on a message of `pktLen` octets: where the data of the last option with
   this code starts, its length and how many there are.
   */
  method GetOption(bytes: seq<u8>, pktLen: nat, code: int, ghost opts: seq<Opt>)
    returns (found: Option<nat>, optionLen: nat, count: nat)
    requires Message(bytes, opts) && pktLen == Offset(opts, |opts|)
    ensures FoundSoFar(bytes, opts, |opts|, code, found, optionLen, count)
  {
    found, optionLen, count := None, 0, 0;
    var rem := pktLen - 4;
    if rem <= 0 {
      OffsetMonotone(opts, 0, |opts|);
      return;
    }
    var i := HEADER_SIZE;
    ghost var k := 0;
    while true
      invariant k < |opts| && i == Offset(opts, k) && rem == pktLen - i
      invariant FoundSoFar(bytes, opts, k, code, found, optionLen, count)
      decreases |opts| - k
    {
      AtOption(bytes, opts, k);
      OffsetMonotone(opts, k + 1, |opts|);
      FoundStep(bytes, opts, k, code, found, optionLen, count);
      var optCode, optLen := Be16(bytes, i), Be16(bytes, i + 2);
      var len := (optLen + 4) % 0x1_0000;
      assert i + len == Offset(opts, k + 1);
      rem := rem - len;
      if optCode == code {
        optionLen := optLen;
        found := Some(i + 4);
        count := count + 1;
      }
      assert FoundSoFar(bytes, opts, k + 1, code, found, optionLen, count);
      assert rem == 0 <==> k + 1 == |opts|;
      if rem == 0 {
        return;
      }
      i := i + len;
      k := k + 1;
    }
  }

  /** No code twice. */
  predicate Distinct(opts: seq<Opt>) {
    forall i, j :: 0 <= i < j < |opts| ==> opts[i].code != opts[j].code
  }

  lemma {:induction false} CountDistinct(opts: seq<Opt>, k: nat)
    requires Distinct(opts) && k < |opts|
    ensures Count(opts, opts[k].code) == 1 && LastWith(opts, opts[k].code) == Some(k)
    decreases |opts|
  {
    var front := opts[..|opts| - 1];
    if k == |opts| - 1 {
      CountAbsent(front, opts[k].code);
    } else {
      CountDistinct(front, k);
    }
  }

  lemma {:induction false} CountAbsent(opts: seq<Opt>, code: int)
    requires forall i :: 0 <= i < |opts| ==> opts[i].code != code
    ensures Count(opts, code) == 0
  {
    if opts != [] {
      CountAbsent(opts[..|opts| - 1], code);
    }
  }

  /** The request list and the send table of the client name no code twice. */
  predicate CodesDistinct(c: Client) {
    && (forall i, j :: 0 <= i < j < |c.requests| ==> c.requests[i] != c.requests[j])
    && Distinct(c.sends)
    && (forall i, j :: 0 <= i < |c.requests| && 0 <= j < |c.sends| ==> c.requests[i] != c.sends[j].code)
  }

  /** No code twice, and none of `codes` among the options written. */
  predicate StillToCome(opts: seq<Opt>, codes: seq<u16>) {
    && (forall i, j :: 0 <= i < j < |codes| ==> codes[i] != codes[j])
    && (forall i :: 0 <= i < |opts| ==> opts[i].code !in codes)
  }

  lemma {:induction false} NextRequest(opts: seq<Opt>, o: Opt, codes: seq<u16>)
    requires Distinct(opts) && codes != [] && StillToCome(opts, codes) && o.code == codes[0]
    ensures Distinct(opts + [o]) && StillToCome(opts + [o], codes[1..])
  {
    forall i | 0 <= i < |opts| ensures opts[i].code != o.code {
      assert opts[i].code !in codes;
    }
    assert o.code !in codes[1..] by {
      assert forall i :: 0 <= i < |codes| - 1 ==> codes[1..][i] == codes[i + 1];
    }
  }

  lemma {:induction false} RequestsDistinct(c: Client, opts: seq<Opt>, codes: seq<u16>)
    requires ClientOk(c) && AllOk(opts) && Distinct(opts) && StillToCome(opts, codes)
    ensures Distinct(WithRequests(c, opts, codes))
    ensures forall i :: 0 <= i < |WithRequests(c, opts, codes)| ==>
              var o := WithRequests(c, opts, codes)[i]; o in opts || o.code in codes
    decreases |codes|
  {
    if codes != [] && !Stops(c, opts, codes[0]) {
      var o := Requested(c, codes[0]);
      if o.Some? {
        NextRequest(opts, o.value, codes);
        RequestsDistinct(c, opts + [o.value], codes[1..]);
      } else {
        RequestsDistinct(c, opts, codes[1..]);
      }
    }
  }

  lemma {:induction false} SendsDistinct(opts: seq<Opt>, sends: seq<Opt>)
    requires AllOk(opts) && AllOk(sends) && Distinct(opts) && Distinct(sends)
    requires forall i, j :: 0 <= i < |opts| && 0 <= j < |sends| ==> opts[i].code != sends[j].code
    ensures Distinct(WithSends(opts, sends))
    decreases |sends|
  {
    if sends != [] {
      SendsDistinct(if Fits(opts, sends[0]) then opts + [sends[0]] else opts, sends[1..]);
    }
  }

  /** `g_dhcp_client_set_request`: every message asks for the elapsed time. */
  function WithElapsedTime(c: Client): (r: Client)
    requires ClientOk(c)
    ensures ClientOk(r)
  {
    if ELAPSED_TIME in c.requests then c else c.(requests := [ELAPSED_TIME] + c.requests)
  }

  function OptionsOf(c: Client): (r: seq<Opt>)
    requires ClientOk(c)
    ensures AllOk(r)
  {
    WithSends(WithRequests(c, [], c.requests), c.sends)
  }

  /** The options of the message that `send_dhcpv6_msg` builds. */
  function Written(c: Client): (r: seq<Opt>)
    requires ClientOk(c)
    ensures AllOk(r)
  {
    OptionsOf(WithElapsedTime(c))
  }

  lemma {:induction false} OptionsDistinct(c: Client)
    requires ClientOk(c) && CodesDistinct(c)
    ensures Distinct(OptionsOf(c))
  {
    var opts := WithRequests(c, [], c.requests);
    RequestsDistinct(c, [], c.requests);
    forall i, j | 0 <= i < |opts| && 0 <= j < |c.sends| ensures opts[i].code != c.sends[j].code {
      assert opts[i].code in c.requests;
    }
    SendsDistinct(opts, c.sends);
  }

  lemma {:induction false} WrittenDistinct(c: Client)
    requires ClientOk(c) && CodesDistinct(WithElapsedTime(c))
    ensures Distinct(Written(c))
  {
    OptionsDistinct(WithElapsedTime(c));
  }

  /** Message type and transaction id. */
  function Header(kind: u8, xid: nat): seq<u8>
    requires xid < 0x100_0000
  {
    [kind, xid / 0x1_0000, xid / 0x100 % 0x100, xid % 0x100]
  }

  /** `send_dhcpv6_msg`: the message and its length. */
  method SendMessage(c: Client, kind: u8, xid: nat) returns (bytes: seq<u8>, len: nat)
    requires ClientOk(c) && xid < 0x100_0000
    ensures Message(bytes, Written(c)) && len == Offset(Written(c), |Written(c)|) <= MAX_BUF
    ensures bytes[..HEADER_SIZE] == Header(kind, xid)
  {
    var buf := new u8[MAX_PKT_SIZE](_ => 0);
    buf[0], buf[1], buf[2], buf[3] := kind, xid / 0x1_0000, xid / 0x100 % 0x100, xid % 0x100;
    assert buf[..HEADER_SIZE] == Header(kind, xid);
    var asking := WithElapsedTime(c);
    ghost var opts;
    len, opts := AddRequestOptions(asking, buf, HEADER_SIZE);
    len, opts := AddSendOptions(asking, buf, len, opts);
    bytes := buf[..];
  }

  /**
   Message round trip: every option that was written is read back with its exact data
   and a count of one, and no other code is found.
   */
  method RoundTrip(c: Client, kind: u8, xid: nat, code: int) returns (data: Option<seq<u8>>, count: nat)
    requires ClientOk(c) && CodesDistinct(WithElapsedTime(c)) && xid < 0x100_0000
    ensures forall k :: 0 <= k < |Written(c)| && Written(c)[k].code == code ==>
              data == Some(Written(c)[k].data) && count == 1
    ensures (forall k :: 0 <= k < |Written(c)| ==> Written(c)[k].code != code) ==> data == None && count == 0
  {
    ghost var opts := Written(c);
    var bytes, len := SendMessage(c, kind, xid);
    var found, optionLen;
    found, optionLen, count := GetOption(bytes, len, code, opts);
    WrittenDistinct(c);
    assert opts[..|opts|] == opts;
    if k :| 0 <= k < |opts| && opts[k].code == code {
      CountDistinct(opts, k);
      assert forall j :: 0 <= j < |opts| && opts[j].code == code ==> j == k;
    } else {
      CountAbsent(opts, code);
    }
    data := if found.Some? then Some(bytes[found.value..found.value + optionLen]) else None;
  }
}
