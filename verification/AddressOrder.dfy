/** Ordering the addresses of a lookup by the rules of section 6 of RFC 3484. */
module AddressOrder {
  import opened Words
  import opened Bits

  /** A socket address; an address that was never set is `Inet6` with zero bytes. */
  datatype Addr = Inet(a: u8, b: u8, c: u8, d: u8) | Inet6(bytes: seq<u8>)

  predicate AddrOk(x: Addr) {
    x.Inet6? ==> |x.bytes| == 16
  }

  // ---------- Policy tables

  /** A prefix of `mask` bits and the value given to addresses that have it. */
  datatype GaiEntry = GaiEntry(addr: seq<u8>, mask: nat, value: int)

  type Entry = e: GaiEntry | |e.addr| == 16 && e.mask <= 128 witness GaiEntry(Pad([]), 0, 0)

  function Pad(bs: seq<u8>): (r: seq<u8>)
    requires |bs| <= 16
    ensures |r| == 16 && r[..|bs|] == bs && forall i :: |bs| <= i < 16 ==> r[i] == 0
  {
    bs + seq(16 - |bs|, _ => 0)
  }

  const V4Prefix: seq<u8> := [0, 0, 0, 0, 0, 0, 0, 0, 0, 0, 0xff, 0xff]
  const Loopback: seq<u8> := [0, 0, 0, 0, 0, 0, 0, 0, 0, 0, 0, 0, 0, 0, 0, 1]

  /** A table ends with an entry that every address matches. */
  datatype GaiTable = Last(value: int) | Next(entry: Entry, rest: GaiTable)

  function GaiLabels(): GaiTable {
    Next(GaiEntry(Pad(Loopback), 128, 0),
    Next(GaiEntry(Pad([0x20, 0x02]), 16, 2),
    Next(GaiEntry(Pad([]), 96, 3),
    Next(GaiEntry(Pad(V4Prefix), 96, 4),
    Next(GaiEntry(Pad([0xfe, 0xc0]), 10, 5),
    Next(GaiEntry(Pad([0xfc]), 7, 6),
    Next(GaiEntry(Pad([0x20, 0x01]), 32, 7),
    Last(1))))))))
  }

  function GaiPrecedences(): GaiTable {
    Next(GaiEntry(Pad(Loopback), 128, 50),
    Next(GaiEntry(Pad([0x20, 0x02]), 16, 30),
    Next(GaiEntry(Pad([]), 96, 20),
    Next(GaiEntry(Pad(V4Prefix), 96, 10),
    Last(40)))))
  }

  function MaskCompare(one: seq<u8>, two: seq<u8>, mask: nat): bool
    requires |one| == |two| == 16 && mask <= 128
  {
    var skip := if mask > 8 then mask / 8 else 0;
    var left := if mask > 8 then mask % 8 else mask;
    one[..skip] == two[..skip] && (left != 0 ==> Shr(Xor(one[skip], two[skip]), 8 - left) == 0)
  }

  /** Byte comparison plus a shifted exclusive or decide exactly whether the first `mask` bits agree. */
  lemma {:induction false} MaskCompareMeaning(one: seq<u8>, two: seq<u8>, mask: nat)
    requires |one| == |two| == 16 && mask <= 128
    ensures MaskCompare(one, two, mask) <==> ByteBits(one)[..mask] == ByteBits(two)[..mask]
  {
    if mask == 8 {
      LeadingBits(one, two, 1, 0);
      assert one[..1] == [one[0]] && two[..1] == [two[0]];
      XorZero(one[0], two[0]);
    } else {
      var skip := if mask > 8 then mask / 8 else 0;
      var left := if mask > 8 then mask % 8 else mask;
      LeadingBits(one, two, skip, left);
      if left != 0 {
        TopBitsDiffer(one[skip], two[skip], 8 - left);
      }
    }
  }

  /** The address the tables are searched for: IPv4 addresses are searched as v4-mapped ones. */
  function SixBytes(x: Addr): (bs: seq<u8>)
    requires AddrOk(x)
    ensures |bs| == 16
  {
    match x
    case Inet(a, b, c, d) => V4Prefix + [a, b, c, d]
    case Inet6(bytes) => bytes
  }

  predicate HasPrefix(bs: seq<u8>, e: Entry)
    requires |bs| == 16
  {
    ByteBits(bs)[..e.mask] == ByteBits(e.addr)[..e.mask]
  }

  /** The value of the first entry whose prefix the address has. */
  function TableValue(bs: seq<u8>, tbl: GaiTable): int
    requires |bs| == 16
  {
    match tbl
    case Last(value) => value
    case Next(e, rest) => if HasPrefix(bs, e) then e.value else TableValue(bs, rest)
  }

  /** `match_gai_table`. */
  method MatchGaiTable(sa: Addr, tbl: GaiTable) returns (value: int)
    requires AddrOk(sa)
    ensures value == TableValue(SixBytes(sa), tbl)
  {
    var addr := SixBytes(sa);
    var t := tbl;
    while t.Next?
      invariant TableValue(addr, t) == TableValue(addr, tbl)
      decreases t
    {
      MaskCompareMeaning(addr, t.entry.addr, t.entry.mask);
      if MaskCompare(addr, t.entry.addr, t.entry.mask) {
        return t.entry.value;
      }
      t := t.rest;
    }
    return t.value;
  }

  predicate V4Mapped(x: Addr) {
    x.Inet6? && |x.bytes| == 16 && x.bytes[..12] == V4Prefix
  }

  lemma {:induction false} BytePrefix(bs: seq<u8>, e: Entry, k: nat)
    requires |bs| == 16 && k <= 16 && e.mask == 8 * k
    ensures HasPrefix(bs, e) <==> bs[..k] == e.addr[..k]
  {
    LeadingBits(bs, e.addr, k, 0);
  }

  /** Entries that differ from `bs` in byte `i` of their prefix do not match it. */
  lemma {:induction false} OtherPrefix(bs: seq<u8>, e: Entry, k: nat, i: nat)
    requires |bs| == 16 && i < k <= 16 && e.mask == 8 * k && bs[i] != e.addr[i]
    ensures !HasPrefix(bs, e)
  {
    BytePrefix(bs, e, k);
    assert bs[..k][i] != e.addr[..k][i];
  }

  /** The facts about `GaiPrecedences` that decide which addresses have precedence 10. */
  predicate PrecedenceShape(t: GaiTable) {
    && t.Next? && t.entry.mask == 128 && t.entry.addr[10] == 0 && t.entry.value != 10
    && t.rest.Next? && t.rest.entry.mask == 16 && t.rest.entry.addr[0] == 0x20 && t.rest.entry.value != 10
    && t.rest.rest.Next? && t.rest.rest.entry.mask == 96
    && t.rest.rest.entry.addr[10] == 0 && t.rest.rest.entry.value != 10
    && var last := t.rest.rest.rest;
       && last.Next? && last.entry.mask == 96 && last.entry.addr[..12] == V4Prefix
       && last.entry.value == 10 && last.rest == Last(40)
  }

  lemma {:induction false} PrecedencesHaveShape()
    ensures PrecedenceShape(GaiPrecedences())
  {
    assert Pad(Loopback)[..16][10] == 0 && Pad([0x20, 0x02])[..2][0] == 0x20;
  }

  lemma {:induction false} PrecedenceTen(bs: seq<u8>, t: GaiTable)
    requires |bs| == 16 && PrecedenceShape(t)
    ensures TableValue(bs, t) == 10 <==> bs[..12] == V4Prefix
  {
    var last := t.rest.rest.rest;
    BytePrefix(bs, last.entry, 12);
    assert TableValue(bs, last) == 10 <==> bs[..12] == V4Prefix;
    assert TableValue(bs, t.rest.rest) == 10 <==> !HasPrefix(bs, t.rest.rest.entry) && TableValue(bs, last) == 10;
    assert TableValue(bs, t.rest) == 10 <==> !HasPrefix(bs, t.rest.entry) && TableValue(bs, t.rest.rest) == 10;
    if bs[..12] == V4Prefix {
      assert bs[0] == bs[..12][0] == 0 && bs[10] == bs[..12][10] == 0xff;
      OtherPrefix(bs, t.entry, 16, 10);
      OtherPrefix(bs, t.rest.entry, 2, 0);
      OtherPrefix(bs, t.rest.rest.entry, 12, 10);
    }
  }

  function Precedence(x: Addr): int
    requires AddrOk(x)
  {
    TableValue(SixBytes(x), GaiPrecedences())
  }

  function Label(x: Addr): int
    requires AddrOk(x)
  {
    TableValue(SixBytes(x), GaiLabels())
  }

  /** Precedence 10 is given to IPv4 and v4-mapped destinations only. */
  lemma {:induction false} PrecedenceOfIpv4(x: Addr)
    requires AddrOk(x)
    ensures Precedence(x) == 10 <==> x.Inet? || V4Mapped(x)
  {
    PrecedencesHaveShape();
    PrecedenceTen(SixBytes(x), GaiPrecedences());
    assert x.Inet? ==> SixBytes(x)[..12] == V4Prefix;
  }

  // ---------- Scopes

  const ScopeLink := 2
  const ScopeSite := 5
  const ScopeGlobal := 14

  /** The `V4MATCH` macro: true when the prefixes differ. */
  predicate V4Match(addr: u32, base: u32, m: nat)
    requires m <= 32
  {
    Shr(Xor(addr, base), 32 - m) != 0
  }

  function AddrScope(x: Addr): int
    requires AddrOk(x)
  {
    match x
    case Inet(a, b, c, d) =>
      var addr := Word(a, b, c, d);
      if V4Match(addr, Word(169, 254, 0, 0), 16) || V4Match(addr, Word(127, 0, 0, 0), 8) then ScopeLink
      else if V4Match(addr, Word(10, 0, 0, 0), 8) || V4Match(addr, Word(172, 16, 0, 0), 12)
              || V4Match(addr, Word(192, 168, 0, 0), 16) then ScopeSite
      else ScopeGlobal
    case Inet6(bs) =>
      if bs[0] == 0xff then bs[1] % 0x10
      else if (bs[0] == 0xfe && bs[1] / 0x40 == 2) || bs == Loopback then ScopeLink
      else if bs[0] == 0xfe && bs[1] / 0x40 == 3 then ScopeSite
      else ScopeGlobal
  }

  /** The scope of an IPv4 address by section 3.2 of RFC 3484. */
  function ScopeByStandard(a: u8, b: u8): int {
    if (a == 169 && b == 254) || a == 127 then ScopeLink
    else if a == 10 || (a == 172 && b / 0x10 == 1) || (a == 192 && b == 168) then ScopeSite
    else ScopeGlobal
  }

  lemma {:induction false} WordShifts(a: u8, b: u8, c: u8, d: u8)
    ensures Shr(Word(a, b, c, d), 16) == a * 0x100 + b && Shr(Word(a, b, c, d), 24) == a
  {
    var w := Word(a, b, c, d);
    BytesOfWord(a, b, c, d);
    ShrTwice(w, 8, 8);
    ShrTwice(w, 16, 8);
    ShrByte(w);
    ShrByte(Shr(w, 8));
    ShrByte(Shr(w, 16));
  }

  /** Every IPv4 address is given link scope, which is right for link-local and loopback addresses only. */
  lemma {:induction false} ScopeOfIpv4(a: u8, b: u8, c: u8, d: u8)
    ensures AddrScope(Inet(a, b, c, d)) == ScopeLink
    ensures AddrScope(Inet(a, b, c, d)) == ScopeByStandard(a, b) <==> (a == 169 && b == 254) || a == 127
  {
    WordShifts(a, b, c, d);
    WordShifts(169, 254, 0, 0);
    WordShifts(127, 0, 0, 0);
    TopBitsDiffer(Word(a, b, c, d), Word(169, 254, 0, 0), 16);
    TopBitsDiffer(Word(a, b, c, d), Word(127, 0, 0, 0), 24);
  }

  // ---------- Comparison

  datatype SortResult = SortResult(
    precedence: int, srcScope: int, dstScope: int, srcLabel: int, dstLabel: int,
    reachable: bool, src: Addr, dst: Addr)

  /** A result as `rfc3484_sort_results` fills it in. */
  predicate Prepared(r: SortResult) {
    && AddrOk(r.src) && AddrOk(r.dst)
    && r.precedence == Precedence(r.dst)
    && r.dstLabel == Label(r.dst)
    && r.srcLabel == Label(r.src)
    && r.dstScope == AddrScope(r.dst)
    && r.srcScope == AddrScope(r.src)
  }

  /** The 16 bytes where an IPv6 socket address keeps its address; an IPv4 socket address has zeros there. */
  function RawBytes(x: Addr): (bs: seq<u8>)
    requires AddrOk(x)
    ensures |bs| == 16
  {
    match x
    case Inet(_, _, _, _) => Pad([])
    case Inet6(bytes) => bytes
  }

  function SharedBits(x: Addr, y: Addr): nat
    requires AddrOk(x) && AddrOk(y)
  {
    CommonPrefix(ByteBits(RawBytes(x)), ByteBits(RawBytes(y)))
  }

  /** How many leading bits source and destination share. */
  function PrefixLen(r: SortResult): nat
    requires AddrOk(r.src) && AddrOk(r.dst)
  {
    SharedBits(r.src, r.dst)
  }

  predicate ScopeMatch(r: SortResult) {
    r.dstScope == r.srcScope
  }

  predicate LabelMatch(r: SortResult) {
    r.dstLabel == r.srcLabel
  }

  /** The result at position `i` is sorted before the one at position `j`. */
  predicate Before(one: SortResult, i: int, two: SortResult, j: int)
    requires AddrOk(one.src) && AddrOk(one.dst) && AddrOk(two.src) && AddrOk(two.dst)
  {
    if one.reachable != two.reachable then one.reachable
    else if ScopeMatch(one) != ScopeMatch(two) then ScopeMatch(one)
    else if LabelMatch(one) != LabelMatch(two) then LabelMatch(one)
    else if one.precedence != two.precedence then one.precedence > two.precedence
    else if one.dstScope != two.dstScope then one.dstScope < two.dstScope
    else if one.dst.Inet6? && PrefixLen(one) != PrefixLen(two) then PrefixLen(one) > PrefixLen(two)
    else i < j
  }

  /** Word `k` of the address, in host byte order. */
  function RawWord(x: Addr, k: nat): nat
    requires AddrOk(x) && k < 4
  {
    BigEndian(RawBytes(x)[4 * k..4 * k + 4])
  }

  /** What the exclusive or of word `k` says about the common prefix once all earlier words agree. */
  lemma {:induction false} PrefixAtWord(x: Addr, y: Addr, k: nat)
    requires AddrOk(x) && AddrOk(y) && k < 4 && SharedBits(x, y) >= 32 * k
    ensures var diff := Xor(RawWord(x, k), RawWord(y, k));
            && (diff == 0 ==> SharedBits(x, y) >= 32 * (k + 1))
            && (diff != 0 ==> SharedBits(x, y) == 32 * k + 32 - BitLength(diff))
            && (diff != 0 <==> BitLength(diff) > 0)
  {
    var a, b := RawBytes(x), RawBytes(y);
    ThreeParts(a, k);
    ThreeParts(b, k);
    WordPrefix(a[4 * k..4 * k + 4], b[4 * k..4 * k + 4]);
    CommonPrefixMiddle(ByteBits(a[..4 * k]), ByteBits(a[4 * k..4 * k + 4]), ByteBits(a[4 * k + 4..]),
                       ByteBits(b[..4 * k]), ByteBits(b[4 * k..4 * k + 4]), ByteBits(b[4 * k + 4..]));
  }

  lemma {:induction false} ThreeParts(a: seq<u8>, k: nat)
    requires |a| == 16 && k < 4
    ensures ByteBits(a) == ByteBits(a[..4 * k]) + (ByteBits(a[4 * k..4 * k + 4]) + ByteBits(a[4 * k + 4..]))
  {
    var p, u, r := a[..4 * k], a[4 * k..4 * k + 4], a[4 * k + 4..];
    assert a == p + (u + r);
    ByteBitsConcat(p, u + r);
    ByteBitsConcat(u, r);
  }

  lemma {:induction false} WordPrefix(u: seq<u8>, v: seq<u8>)
    requires |u| == |v| == 4
    ensures var diff := Xor(BigEndian(u), BigEndian(v));
            BitLength(diff) <= 32 && CommonPrefix(ByteBits(u), ByteBits(v)) == 32 - BitLength(diff)
  {
    BitsOfNumber(u);
    BitsOfNumber(v);
    BigEndianBound(u);
    BigEndianBound(v);
    PrefixByXor(BigEndian(u), BigEndian(v), 8 * |u|);
  }

  /** `rfc3484_compare` on the results at positions `i` and `j`; never 0. */
  method Rfc3484Compare(one: SortResult, i: int, two: SortResult, j: int) returns (r: int)
    requires AddrOk(one.src) && AddrOk(one.dst) && AddrOk(two.src) && AddrOk(two.dst)
    ensures r != 0 && (r < 0 <==> Before(one, i, two, j))
  {
    if one.reachable && !two.reachable {
      return -1;
    } else if two.reachable && !one.reachable {
      return 1;
    }
    if one.dstScope == one.srcScope && two.dstScope != two.srcScope {
      return -1;
    } else if two.dstScope == two.srcScope && one.dstScope != one.srcScope {
      return 1;
    }
    if one.dstLabel == one.srcLabel && two.dstLabel != two.srcLabel {
      return -1;
    } else if two.dstLabel == two.srcLabel && one.dstLabel != one.srcLabel {
      return 1;
    }
    if one.precedence > two.precedence {
      return -1;
    } else if two.precedence > one.precedence {
      return 1;
    }
    if one.dstScope != two.dstScope {
      return one.dstScope - two.dstScope;
    }
    if one.dst.Inet6? {
      var c := ComparePrefixes(one, two);
      if c != 0 {
        return c;
      }
    }
    return if i < j then -1 else 1;
  }

  /** Rule 9: compares 32-bit words from the first one that differs from its destination. */
  method ComparePrefixes(one: SortResult, two: SortResult) returns (c: int)
    requires AddrOk(one.src) && AddrOk(one.dst) && AddrOk(two.src) && AddrOk(two.dst)
    ensures c < 0 <==> PrefixLen(one) > PrefixLen(two)
    ensures c > 0 <==> PrefixLen(one) < PrefixLen(two)
  {
    var k := 0;
    while k < 4
      invariant k <= 4
      invariant PrefixLen(one) >= 32 * k && PrefixLen(two) >= 32 * k
    {
      var cmpOne := Xor(RawWord(one.src, k), RawWord(one.dst, k));
      var cmpTwo := Xor(RawWord(two.src, k), RawWord(two.dst, k));
      PrefixAtWord(one.src, one.dst, k);
      PrefixAtWord(two.src, two.dst, k);
      if cmpOne != 0 || cmpTwo != 0 {
        if cmpTwo == 0 {
          return 1;
        }
        if cmpOne == 0 {
          return -1;
        }
        return BitLength(cmpOne) - BitLength(cmpTwo);
      }
      k := k + 1;
    }
    return 0;
  }

  // ---------- The order

  /** The sort key: smaller comes first. */
  datatype Key = Key(unreachable: int, scopeDiffers: int, labelDiffers: int, precedence: int, scope: int, prefix: int,
                     position: int)

  function Flag(b: bool): int {
    if b then 1 else 0
  }

  function KeyOf(r: SortResult, i: int): Key
    requires AddrOk(r.src) && AddrOk(r.dst)
  {
    Key(Flag(!r.reachable), Flag(!ScopeMatch(r)), Flag(!LabelMatch(r)), -r.precedence, r.dstScope,
        if r.dst.Inet6? then 0 - PrefixLen(r) else 0, i)
  }

  predicate LexLess(k: Key, l: Key) {
    k.unreachable < l.unreachable || (k.unreachable == l.unreachable &&
    (k.scopeDiffers < l.scopeDiffers || (k.scopeDiffers == l.scopeDiffers &&
    (k.labelDiffers < l.labelDiffers || (k.labelDiffers == l.labelDiffers &&
    (k.precedence < l.precedence || (k.precedence == l.precedence &&
    (k.scope < l.scope || (k.scope == l.scope &&
    (k.prefix < l.prefix || (k.prefix == l.prefix && k.position < l.position)))))))))))
  }

  /** Precedence and scope together tell the address family of the destination. */
  predicate Separated(r: SortResult) {
    AddrOk(r.src) && AddrOk(r.dst) && (r.dst.Inet? <==> r.precedence == 10 && r.dstScope == ScopeLink)
  }

  lemma {:induction false} ScopeOfMapped(bs: seq<u8>)
    requires |bs| == 16 && V4Mapped(Inet6(bs))
    ensures AddrScope(Inet6(bs)) == ScopeGlobal
  {
    assert bs[0] == bs[..12][0] == 0 && bs[10] == bs[..12][10] == 0xff;
  }

  /** A v4-mapped IPv6 address has the precedence of IPv4, but global scope, while IPv4 always has link scope. */
  lemma {:induction false} FamilyTold(x: Addr, precedence: int, scope: int)
    requires AddrOk(x) && precedence == Precedence(x) && scope == AddrScope(x)
    ensures x.Inet? <==> precedence == 10 && scope == ScopeLink
  {
    PrecedenceOfIpv4(x);
    if x.Inet? {
      ScopeOfIpv4(x.a, x.b, x.c, x.d);
    } else if V4Mapped(x) {
      ScopeOfMapped(x.bytes);
    }
  }

  /** So it is for every result that the code fills in. */
  lemma {:induction false} PreparedIsSeparated(r: SortResult)
    requires Prepared(r)
    ensures Separated(r)
  {
    FamilyTold(r.dst, r.precedence, r.dstScope);
  }

  /** The comparison is the lexicographic order of the keys. */
  lemma {:induction false} BeforeIsLexicographic(one: SortResult, i: int, two: SortResult, j: int)
    requires Separated(one) && Separated(two)
    ensures Before(one, i, two, j) <==> LexLess(KeyOf(one, i), KeyOf(two, j))
  {
    if one.reachable == two.reachable && ScopeMatch(one) == ScopeMatch(two) && LabelMatch(one) == LabelMatch(two)
       && one.precedence == two.precedence && one.dstScope == two.dstScope {
      assert one.dst.Inet6? == two.dst.Inet6?;
    }
  }

  /** Hence it is a strict total order on the positions of the result array. */
  lemma {:induction false} BeforeIsStrictTotalOrder(one: SortResult, i: int, two: SortResult, j: int,
                                                    three: SortResult, k: int)
    requires Separated(one) && Separated(two) && Separated(three)
    ensures !Before(one, i, one, i)
    ensures i != j ==> (Before(one, i, two, j) <==> !Before(two, j, one, i))
    ensures Before(one, i, two, j) && Before(two, j, three, k) ==> Before(one, i, three, k)
  {
    BeforeIsLexicographic(one, i, one, i);
    BeforeIsLexicographic(one, i, two, j);
    BeforeIsLexicographic(two, j, one, i);
    BeforeIsLexicographic(two, j, three, k);
    BeforeIsLexicographic(one, i, three, k);
  }

  /** `order` lists positions of `rs`, each before the next. */
  ghost predicate SortedBy(rs: seq<SortResult>, order: seq<nat>) {
    && (forall a :: 0 <= a < |order| ==> order[a] < |rs| && Separated(rs[order[a]]))
    && (forall a, b :: 0 <= a < b < |order| ==>
        order[a] != order[b] && Before(rs[order[a]], order[a], rs[order[b]], order[b]))
  }

  /** There is only one way to sort, so the outcome does not depend on the sorting algorithm. */
  lemma {:induction false} SortIsUnique(rs: seq<SortResult>, p: seq<nat>, q: seq<nat>)
    requires SortedBy(rs, p) && SortedBy(rs, q)
    requires |p| == |q| && forall x :: x in p <==> x in q
    ensures p == q
    decreases |p|
  {
    if p != [] {
      assert p[0] in q;
      assert q[0] in p;
      if p[0] != q[0] {
        var a :| 0 <= a < |q| && q[a] == p[0];
        var b :| 0 <= b < |p| && p[b] == q[0];
        assert Before(rs[p[0]], p[0], rs[p[b]], p[b]) && Before(rs[q[0]], q[0], rs[q[a]], q[a]);
        BeforeIsStrictTotalOrder(rs[p[0]], p[0], rs[q[0]], q[0], rs[p[0]], p[0]);
      }
      forall x ensures x in p[1..] <==> x in q[1..] {
        TailMembers(p, x);
        TailMembers(q, x);
      }
      SortIsUnique(rs, p[1..], q[1..]);
    }
  }

  lemma {:induction false} TailMembers(p: seq<nat>, x: nat)
    requires p != [] && forall a :: 0 < a < |p| ==> p[0] != p[a]
    ensures x in p[1..] <==> x in p && x != p[0]
  {
  }
}
