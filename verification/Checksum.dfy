/** The Internet checksum (RFC 1071) as the DHCP code computes it, and the frames it protects. */
module Checksum {
  import opened Words

  /** The sum of the 16-bit words of `bs` on a little-endian host; an odd last octet counts alone. */
  function WordSum(bs: seq<u8>): nat {
    if bs == [] then 0
    else if |bs| == 1 then bs[0] as int
    else bs[0] as int + 0x100 * bs[1] as int + WordSum(bs[2..])
  }

  /** The ones' complement sum: `s` folded into 16 bits. It is 0 only for 0. */
  function Folded(s: nat): (r: u16)
    ensures r % 0xffff == s % 0xffff
    ensures r == 0 <==> s == 0
  {
    if s == 0 then 0 else (s - 1) % 0xffff + 1
  }

  lemma {:induction false} WordSumSplit(a: seq<u8>, b: seq<u8>)
    requires |a| % 2 == 0
    ensures WordSum(a + b) == WordSum(a) + WordSum(b)
    decreases |a|
  {
    if a == [] {
      assert a + b == b;
    } else {
      assert (a + b)[2..] == a[2..] + b;
      WordSumSplit(a[2..], b);
    }
  }

  lemma {:induction false} WordSumBound(bs: seq<u8>)
    ensures WordSum(bs) <= 0xffff * ((|bs| + 1) / 2)
    decreases |bs|
  {
    if |bs| >= 2 {
      WordSumBound(bs[2..]);
    }
  }

  /** `dhcp_checksum`: for up to 65536 octets the 32-bit sum does not overflow. */
  method DhcpChecksum(bs: seq<u8>) returns (r: u16)
    requires |bs| <= 0x1_0000
    ensures r == 0xffff - Folded(WordSum(bs))
  {
    var sum := 0;
    var rest := bs;
    while |rest| > 1
      invariant |rest| <= |bs| && sum + WordSum(rest) == WordSum(bs)
      invariant sum <= 0xffff * ((|bs| - |rest| + 1) / 2) && (|bs| - |rest|) % 2 == 0
    {
      sum := sum + (rest[0] as int + 0x100 * rest[1] as int);
      assert sum < 0x8000_0000;
      rest := rest[2..];
    }
    if |rest| > 0 {
      sum := sum + rest[0] as int;
    }
    assert sum < 0x8000_0000;
    while sum / 0x1_0000 != 0
      invariant 0 <= sum && Folded(sum) == Folded(WordSum(bs))
      decreases sum
    {
      FoldStep(sum);
      sum := sum % 0x1_0000 + sum / 0x1_0000;
    }
    assert Folded(sum) == sum;
    return 0xffff - sum;
  }

  lemma {:induction false} FoldStep(s: nat)
    requires s >= 0x1_0000
    ensures Folded(s % 0x1_0000 + s / 0x1_0000) == Folded(s)
    ensures s % 0x1_0000 + s / 0x1_0000 < s
  {
    var q, t := s / 0x1_0000, s % 0x1_0000;
    assert s == q * 0x1_0000 + t;
    assert s == q * 0xffff + (q + t);
    assert (s - 1) % 0xffff == (q + t - 1) % 0xffff;
  }

  function Le16(x: u16): seq<u8> {
    [x % 0x100, x / 0x100]
  }

  lemma {:induction false} SumOfLe16(x: u16)
    ensures WordSum(Le16(x)) == x
  {
    assert Le16(x)[2..] == [];
  }

  /** A sum and its checksum add up to zero in ones' complement. */
  lemma {:induction false} ComplementCancels(s: nat)
    ensures (s + (0xffff - Folded(s))) % 0xffff == 0
  {
    if s > 0 {
      var q := (s - 1) / 0xffff;
      assert s - Folded(s) == 0xffff * q;
    }
  }

  /** A block whose checksum field was zero when the checksum was computed sums to zero with it. */
  lemma {:induction false} ChecksumVerifies(before: seq<u8>, after: seq<u8>)
    requires |before| % 2 == 0
    ensures var r := 0xffff - Folded(WordSum(before + [0, 0] + after));
            WordSum(before + Le16(r) + after) % 0xffff == 0
  {
    var r := 0xffff - Folded(WordSum(before + [0, 0] + after));
    var s := WordSum(before) + WordSum(after);
    assert WordSum(before + [0, 0] + after) == s by {
      SumWithField(before, [0, 0], after);
      assert [0, 0][2..] == [];
    }
    assert WordSum(before + Le16(r) + after) == s + r by {
      SumWithField(before, Le16(r), after);
      SumOfLe16(r);
    }
    ComplementCancels(s);
  }

  lemma {:induction false} SumWithField(before: seq<u8>, field: seq<u8>, after: seq<u8>)
    requires |before| % 2 == 0 && |field| == 2
    ensures WordSum(before + field + after) == WordSum(before) + WordSum(field) + WordSum(after)
  {
    WordSumSplit(before, field);
    WordSumSplit(before + field, after);
  }
}
