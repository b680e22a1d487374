/** The option area of a DHCPv4 packet: type, length and data, written in place and searched. */
module DhcpOptions {
  import opened Words
  import opened Bits

  const OPTIONS_BUFSIZE := 308
  const OPTIONS_SIZE := 388
  /** Octets of a packet before its option area. */
  const FIXED_SIZE := 240
  /** Octets sent: the packet without the slack kept for oversized answers. */
  const DHCP_SIZE := 548
  const DHCP_PADDING: u8 := 0
  const DHCP_OPTION_OVERLOAD: u8 := 52
  const DHCP_MESSAGE_TYPE: u8 := 53
  const DHCP_END: u8 := 255

  datatype Opt = Opt(code: u8, data: seq<u8>)

  predicate OptOk(o: Opt) {
    o.code != DHCP_PADDING && o.code != DHCP_END && o.code != DHCP_OPTION_OVERLOAD && |o.data| <= 255
  }

  function EncodeOpt(o: Opt): (bs: seq<u8>)
    requires OptOk(o)
    ensures |bs| == 2 + |o.data|
  {
    [o.code, |o.data|] + o.data
  }

  predicate AllOk(opts: seq<Opt>) {
    forall i :: 0 <= i < |opts| ==> OptOk(opts[i])
  }

  /** Where option `k` starts, or the end mark for `k == |opts|`. */
  function Offset(opts: seq<Opt>, k: nat): nat
    requires AllOk(opts) && k <= |opts|
  {
    if k == 0 then 0 else Offset(opts, k - 1) + 2 + |opts[k - 1].data|
  }

  /** Option `k` lies at its offset. */
  predicate Holds(bytes: seq<u8>, opts: seq<Opt>, k: nat)
    requires AllOk(opts) && k < |opts|
  {
    && Offset(opts, k + 1) <= |bytes|
    && bytes[Offset(opts, k)..Offset(opts, k + 1)] == EncodeOpt(opts[k])
  }

  /** A well-formed area: the options one after the other, then the end mark, early enough to be sent. */
  predicate Area(bytes: seq<u8>, opts: seq<Opt>) {
    && |bytes| == OPTIONS_SIZE && AllOk(opts)
    && Offset(opts, |opts|) <= OPTIONS_BUFSIZE - 2
    && bytes[Offset(opts, |opts|)] == DHCP_END
    && forall k :: 0 <= k < |opts| ==> Holds(bytes, opts, k)
  }

  lemma {:induction false} OffsetMonotone(opts: seq<Opt>, j: nat, k: nat)
    requires AllOk(opts) && j <= k <= |opts|
    ensures Offset(opts, j) + 2 * (k - j) <= Offset(opts, k)
    decreases k
  {
    if j < k {
      OffsetMonotone(opts, j, k - 1);
    }
  }

  lemma {:induction false} OffsetOfPrefix(opts: seq<Opt>, o: Opt, k: nat)
    requires AllOk(opts) && OptOk(o) && k <= |opts|
    ensures AllOk(opts + [o]) && Offset(opts + [o], k) == Offset(opts, k)
    decreases k
  {
    if k > 0 {
      OffsetOfPrefix(opts, o, k - 1);
    }
  }

  /** What the reader finds at option `k`. */
  lemma {:induction false} AtOption(bytes: seq<u8>, opts: seq<Opt>, k: nat)
    requires Area(bytes, opts) && k < |opts|
    ensures var i := Offset(opts, k);
            && Offset(opts, k + 1) <= Offset(opts, |opts|) < |bytes|
            && bytes[i] == opts[k].code && bytes[i + 1] == |opts[k].data|
            && bytes[i + 2..Offset(opts, k + 1)] == opts[k].data
  {
    OffsetMonotone(opts, k + 1, |opts|);
    var i, j := Offset(opts, k), Offset(opts, k + 1);
    var part := bytes[i..j];
    assert Holds(bytes, opts, k);
    assert part[0] == bytes[i] && part[1] == bytes[i + 1] && part[2..] == bytes[i + 2..j];
  }

  /** `dhcp_end_option`: the index of the end mark. */
  method EndOption(options: array<u8>, ghost opts: seq<Opt>) returns (i: nat)
    requires Area(options[..], opts)
    ensures i == Offset(opts, |opts|)
  {
    i := 0;
    ghost var k := 0;
    while options[i] != DHCP_END
      invariant k <= |opts| && i == Offset(opts, k) && i < options.Length
      invariant k == |opts| ==> options[i] == DHCP_END
      decreases |opts| - k
    {
      AtOption(options[..], opts, k);
      OffsetMonotone(opts, k + 1, |opts|);
      if options[i] != DHCP_PADDING {
        i := i + options[i + 1] + 1;
      }
      i := i + 1;
      k := k + 1;
    }
    if k < |opts| {
      AtOption(options[..], opts, k);
      assert false;
    }
  }

  /** The options after `o` is offered: it is taken if it leaves room for the end mark. */
  function Accept(opts: seq<Opt>, o: Opt): (r: seq<Opt>)
    requires AllOk(opts) && OptOk(o)
    ensures AllOk(r)
  {
    if Offset(opts, |opts|) + 2 + |o.data| + 1 >= OPTIONS_BUFSIZE then opts else opts + [o]
  }

  /** Writing `o` and the end mark over the old end mark extends the area. */
  lemma {:induction false} AreaExtends(before: seq<u8>, after: seq<u8>, opts: seq<Opt>, o: Opt)
    requires Area(before, opts) && OptOk(o) && |after| == |before|
    requires var end := Offset(opts, |opts|); var len := 2 + |o.data|;
             && end + len + 1 < OPTIONS_BUFSIZE
             && after[..end] == before[..end] && after[end..end + len] == EncodeOpt(o) && after[end + len] == DHCP_END
    ensures Area(after, opts + [o])
  {
    var all := opts + [o];
    var end := Offset(opts, |opts|);
    OffsetOfPrefix(opts, o, |opts|);
    assert Offset(all, |all|) == end + 2 + |o.data|;
    forall k | 0 <= k < |all| ensures Holds(after, all, k) {
      OffsetOfPrefix(opts, o, if k < |opts| then k else 0);
      if k < |opts| {
        OffsetOfPrefix(opts, o, k + 1);
        OffsetMonotone(opts, k + 1, |opts|);
        assert Holds(before, opts, k);
        SamePart(after, before, end, Offset(opts, k), Offset(opts, k + 1));
      }
    }
  }

  /** `dhcp_add_binary_option`: an option that does not fit changes nothing. */
  method AddBinaryOption(options: array<u8>, addopt: seq<u8>, ghost opts: seq<Opt>)
    requires Area(options[..], opts)
    requires |addopt| >= 2 && addopt[1] == |addopt| - 2 && OptOk(Opt(addopt[0], addopt[2..]))
    modifies options
    ensures Area(options[..], Accept(opts, Opt(addopt[0], addopt[2..])))
    ensures Accept(opts, Opt(addopt[0], addopt[2..])) == opts ==> options[..] == old(options[..])
  {
    ghost var o := Opt(addopt[0], addopt[2..]);
    var end := EndOption(options, opts);
    var len := addopt[1] as int + 2;
    if end + len + 1 >= OPTIONS_BUFSIZE {
      return;
    }
    ghost var before := options[..];
    for i := 0 to len
      invariant options[..end] == before[..end]
      invariant options[end..end + i] == addopt[..i]
    {
      options[end + i] := addopt[i];
    }
    options[end + len] := DHCP_END;
    assert addopt[..len] == addopt == EncodeOpt(o);
    assert options[..][..end] == options[..end] && options[..][end..end + len] == options[end..end + len];
    AreaExtends(before, options[..], opts, o);
    assert |opts + [o]| != |opts|;
  }

  // ---------- Typed options

  /** The data length that `dhcp_get_code_type` and `dhcp_option_lengths` give a code; 0 for an unknown one. */
  function TypeLength(code: u8): nat {
    if code in {0x01, 0x03, 0x06, 0x2a, 0x32, 0x33, 0x36} then 4
    else if code in {0x1a, 0x39} then 2
    else if code in {0x0c, 0x0f, 0x35, 0x3c, 0x3d, 0xfc} then 1
    else 0
  }

  function Be32(x: u32): seq<u8> {
    [x / 0x100_0000, x / 0x1_0000 % 0x100, x / 0x100 % 0x100, x % 0x100]
  }

  lemma {:induction false} Be32RoundTrip(x: u32)
    ensures BigEndian(Be32(x)) == x
  {
    var a, b, c, d := x / 0x100_0000, x / 0x1_0000 % 0x100, x / 0x100 % 0x100, x % 0x100;
    assert Be32(x)[..3] == [a, b, c] && [a, b, c][..2] == [a, b] && [a, b][..1] == [a] && [a][..0] == [];
    assert BigEndian([a]) == a;
    assert BigEndian([a, b]) == a * 0x100 + b;
    assert BigEndian([a, b, c]) == (a * 0x100 + b) * 0x100 + c;
    WordOfBytes(x);
  }

  /** A typed add is refused unless the code is known with this data length. */
  function AcceptTyped(opts: seq<Opt>, o: Opt): (r: seq<Opt>)
    requires AllOk(opts) && 1 <= |o.data| <= 4
    ensures AllOk(r)
  {
    if TypeLength(o.code) == |o.data| then Accept(opts, o) else opts
  }

  method AddOptionUint32(options: array<u8>, code: u8, data: u32, ghost opts: seq<Opt>)
    requires Area(options[..], opts)
    modifies options
    ensures Area(options[..], AcceptTyped(opts, Opt(code, Be32(data))))
    ensures AcceptTyped(opts, Opt(code, Be32(data))) == opts ==> options[..] == old(options[..])
  {
    if TypeLength(code) == 4 {
      assert ([code, 4] + Be32(data))[2..] == Be32(data);
      AddBinaryOption(options, [code, 4] + Be32(data), opts);
    }
  }

  method AddOptionUint16(options: array<u8>, code: u8, data: u16, ghost opts: seq<Opt>)
    requires Area(options[..], opts)
    modifies options
    ensures Area(options[..], AcceptTyped(opts, Opt(code, Be16(data))))
    ensures AcceptTyped(opts, Opt(code, Be16(data))) == opts ==> options[..] == old(options[..])
  {
    if TypeLength(code) == 2 {
      assert ([code, 2] + Be16(data))[2..] == Be16(data);
      AddBinaryOption(options, [code, 2] + Be16(data), opts);
    }
  }

  method AddOptionUint8(options: array<u8>, code: u8, data: u8, ghost opts: seq<Opt>)
    requires Area(options[..], opts)
    modifies options
    ensures Area(options[..], AcceptTyped(opts, Opt(code, [data])))
    ensures AcceptTyped(opts, Opt(code, [data])) == opts ==> options[..] == old(options[..])
  {
    if TypeLength(code) == 1 {
      assert [code, 1, data][2..] == [data];
      AddBinaryOption(options, [code, 1, data], opts);
    }
  }

  /** The option part of `dhcp_init_header`. */
  method InitHeader(kind: u8) returns (options: array<u8>)
    ensures fresh(options) && Area(options[..], [Opt(DHCP_MESSAGE_TYPE, [kind])])
  {
    options := new u8[OPTIONS_SIZE](_ => 0);
    options[0] := DHCP_END;
    assert Area(options[..], []);
    AddOptionUint8(options, DHCP_MESSAGE_TYPE, kind, []);
    assert [] + [Opt(DHCP_MESSAGE_TYPE, [kind])] == [Opt(DHCP_MESSAGE_TYPE, [kind])];
  }

  // ---------- Reading

  /** The first option with this code. */
  function FirstWith(opts: seq<Opt>, code: int): (r: Option<nat>)
    ensures r.Some? ==> r.value < |opts| && opts[r.value].code == code
    ensures r.Some? ==> forall k :: 0 <= k < r.value ==> opts[k].code != code
    ensures r.None? ==> forall k :: 0 <= k < |opts| ==> opts[k].code != code
  {
    if opts == [] then None
    else match FirstWith(opts[..|opts| - 1], code)
         case Some(k) => Some(k)
         case None => if opts[|opts| - 1].code == code then Some(|opts| - 1) else None
  }

  /**
   `dhcp_get_option` on a packet of at least the size that is sent: where the data of the first
   option with this code starts.
   */
  method GetOption(options: array<u8>, packetLen: nat, code: int, ghost opts: seq<Opt>) returns (pos: Option<nat>)
    requires Area(options[..], opts) && DHCP_SIZE <= packetLen <= FIXED_SIZE + OPTIONS_SIZE
    ensures match FirstWith(opts, code)
            case None => pos == None
            case Some(k) =>
              && pos == Some(Offset(opts, k) + 2)
              && pos.value + |opts[k].data| <= options.Length
              && options[pos.value - 1] == |opts[k].data|
              && options[pos.value..pos.value + |opts[k].data|] == opts[k].data
  {
    var rem := OPTIONS_SIZE;
    var last := packetLen - FIXED_SIZE - 1;
    var i := 0;
    ghost var k := 0;
    while true
      invariant k <= |opts| && i == Offset(opts, k) <= Offset(opts, |opts|)
      invariant rem == OPTIONS_SIZE - i
      invariant forall j :: 0 <= j < k ==> opts[j].code != code
      decreases |opts| - k
    {
      if k < |opts| {
        AtOption(options[..], opts, k);
        OffsetMonotone(opts, k + 1, |opts|);
      }
      if rem <= 0 && i > last {
        return None;
      }
      if options[i] == DHCP_END {
        return None;
      }
      if i + 1 > last {
        return None;
      }
      var len := options[i + 1] as int + 2;
      rem := rem - len;
      if options[i] == code {
        if i + len > last {
          return None;
        }
        assert FirstWith(opts, code) == Some(k);
        assert options[..][i + 2..i + len] == options[i + 2..i + len];
        return Some(i + 2);
      }
      i := i + len;
      k := k + 1;
    }
  }

  /** The four ways to add an option. */
  datatype Add = Binary(o: Opt) | Word32(code: u8, x: u32) | Word16(code: u8, y: u16) | Octet(code: u8, z: u8)

  predicate AddOk(a: Add) {
    a.Binary? ==> OptOk(a.o)
  }

  function Added(opts: seq<Opt>, a: Add): (r: seq<Opt>)
    requires AllOk(opts) && AddOk(a)
    ensures AllOk(r)
  {
    match a
    case Binary(o) => Accept(opts, o)
    case Word32(code, x) => AcceptTyped(opts, Opt(code, Be32(x)))
    case Word16(code, y) => AcceptTyped(opts, Opt(code, Be16(y)))
    case Octet(code, z) => AcceptTyped(opts, Opt(code, [z]))
  }

  function AddedAll(opts: seq<Opt>, adds: seq<Add>): (r: seq<Opt>)
    requires AllOk(opts) && forall i :: 0 <= i < |adds| ==> AddOk(adds[i])
    ensures AllOk(r)
    decreases |adds|
  {
    if adds == [] then opts else AddedAll(Added(opts, adds[0]), adds[1..])
  }

  method AddOption(options: array<u8>, a: Add, ghost opts: seq<Opt>)
    requires Area(options[..], opts) && AddOk(a)
    modifies options
    ensures Area(options[..], Added(opts, a))
    ensures Added(opts, a) == opts ==> options[..] == old(options[..])
  {
    match a {
      case Binary(o) =>
        assert EncodeOpt(o)[2..] == o.data;
        AddBinaryOption(options, EncodeOpt(o), opts);
      case Word32(code, x) => AddOptionUint32(options, code, x, opts);
      case Word16(code, y) => AddOptionUint16(options, code, y, opts);
      case Octet(code, z) => AddOptionUint8(options, code, z, opts);
    }
  }

  /**
   Option round trip: any options added to a fresh packet, some of them refused, are read
   back from the packet as sent; each code yields the first data accepted for it.
   */
  method RoundTrip(kind: u8, adds: seq<Add>, code: int) returns (data: Option<seq<u8>>)
    requires forall i :: 0 <= i < |adds| ==> AddOk(adds[i])
    ensures var opts := AddedAll([Opt(DHCP_MESSAGE_TYPE, [kind])], adds);
            data == match FirstWith(opts, code) case None => None case Some(k) => Some(opts[k].data)
  {
    var options := InitHeader(kind);
    ghost var first := [Opt(DHCP_MESSAGE_TYPE, [kind])];
    ghost var opts := first;
    for n := 0 to |adds|
      invariant fresh(options) && Area(options[..], opts)
      invariant AddedAll(opts, adds[n..]) == AddedAll(first, adds)
    {
      assert adds[n..][0] == adds[n] && adds[n..][1..] == adds[n + 1..];
      AddOption(options, adds[n], opts);
      opts := Added(opts, adds[n]);
    }
    assert adds[|adds|..] == [];
    var pos := GetOption(options, DHCP_SIZE, code, opts);
    if pos.None? {
      return None;
    }
    return Some(options[pos.value..pos.value + options[pos.value - 1]]);
  }
}
