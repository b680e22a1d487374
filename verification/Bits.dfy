/** Bitwise operations on naturals, and the common prefix of two words. */
module Bits {
  import opened Words

  function Pow2(k: nat): (r: nat)
    ensures r > 0
  {
    if k == 0 then 1 else 2 * Pow2(k - 1)
  }

  function Xor(a: nat, b: nat): nat {
    if a == 0 && b == 0 then 0 else 2 * Xor(a / 2, b / 2) + (if a % 2 != b % 2 then 1 else 0)
  }

  /** `a >> k`. */
  function Shr(a: nat, k: nat): nat
    decreases k
  {
    if k == 0 then a else Shr(a / 2, k - 1)
  }

  /** `fls`: the number of bits up to the highest one set; `g_bit_storage` for a nonzero word. */
  function BitLength(n: nat): nat {
    if n == 0 then 0 else 1 + BitLength(n / 2)
  }

  /** The low `n` bits of `w`, most significant first. */
  function WordBits(w: nat, n: nat): (bits: seq<bool>)
    ensures |bits| == n
  {
    if n == 0 then [] else WordBits(w / 2, n - 1) + [w % 2 == 1]
  }

  /** The length of the longest common prefix. */
  function CommonPrefix(a: seq<bool>, b: seq<bool>): (n: nat)
    ensures n <= |a| && n <= |b| && a[..n] == b[..n]
    ensures n < |a| && n < |b| ==> a[n] != b[n]
  {
    if a == [] || b == [] || a[0] != b[0] then 0 else 1 + CommonPrefix(a[1..], b[1..])
  }

  lemma {:induction false} CommonPrefixUnique(a: seq<bool>, b: seq<bool>, n: nat)
    requires n <= |a| && n <= |b| && a[..n] == b[..n]
    requires n < |a| && n < |b| ==> a[n] != b[n]
    requires |a| == |b|
    ensures CommonPrefix(a, b) == n
  {
    var m := CommonPrefix(a, b);
    assert forall i :: 0 <= i < n ==> a[i] == a[..n][i] && b[i] == b[..n][i];
    assert forall i :: 0 <= i < m ==> a[i] == a[..m][i] && b[i] == b[..m][i];
  }

  lemma {:induction false} XorZero(a: nat, b: nat)
    ensures Xor(a, b) == 0 <==> a == b
    decreases a + b
  {
    if a != 0 || b != 0 {
      XorZero(a / 2, b / 2);
    }
  }

  /** The top bits of two words differ iff their exclusive or, shifted, is nonzero. */
  lemma {:induction false} TopBitsDiffer(a: nat, b: nat, k: nat)
    ensures Shr(Xor(a, b), k) != 0 <==> Shr(a, k) != Shr(b, k)
    decreases k
  {
    if k == 0 {
      XorZero(a, b);
    } else {
      assert Xor(a, b) / 2 == Xor(a / 2, b / 2);
      TopBitsDiffer(a / 2, b / 2, k - 1);
    }
  }

  /** A word shifted right by `k` is its leading bits. */
  lemma {:induction false} ShiftedBits(w: nat, n: nat, k: nat)
    requires k <= n
    ensures WordBits(w, n)[..n - k] == WordBits(Shr(w, k), n - k)
    decreases k
  {
    if k == 0 {
      assert WordBits(w, n)[..n] == WordBits(w, n);
    } else {
      ShiftedBits(w / 2, n - 1, k - 1);
      assert WordBits(w, n)[..n - k] == WordBits(w / 2, n - 1)[..n - k];
    }
  }

  lemma {:induction false} BitsDecideWord(a: nat, b: nat, n: nat)
    requires a < Pow2(n) && b < Pow2(n)
    ensures WordBits(a, n) == WordBits(b, n) <==> a == b
    decreases n
  {
    if n > 0 {
      BitsDecideWord(a / 2, b / 2, n - 1);
      var p, q := WordBits(a, n), WordBits(b, n);
      assert p[..n - 1] == WordBits(a / 2, n - 1) && q[..n - 1] == WordBits(b / 2, n - 1);
      assert p[n - 1] == (a % 2 == 1) && q[n - 1] == (b % 2 == 1);
    }
  }

  lemma {:induction false} ShrBound(a: nat, n: nat, k: nat)
    requires k <= n && a < Pow2(n)
    ensures Shr(a, k) < Pow2(n - k)
    decreases k
  {
    if k > 0 {
      ShrBound(a / 2, n - 1, k - 1);
    }
  }

  /** `fls` of the exclusive or measures the common prefix of two words. */
  lemma {:induction false} PrefixByXor(a: nat, b: nat, n: nat)
    requires a < Pow2(n) && b < Pow2(n)
    ensures BitLength(Xor(a, b)) <= n
    ensures CommonPrefix(WordBits(a, n), WordBits(b, n)) == n - BitLength(Xor(a, b))
    decreases n
  {
    if n == 0 {
    } else {
      var a', b' := a / 2, b / 2;
      PrefixByXor(a', b', n - 1);
      XorZero(a', b');
      XorZero(a, b);
      var p, q := WordBits(a', n - 1), WordBits(b', n - 1);
      var m := CommonPrefix(p, q);
      if a' != b' {
        assert Xor(a, b) / 2 == Xor(a', b');
        CommonPrefixUnique(WordBits(a, n), WordBits(b, n), m);
      } else {
        assert Xor(a, b) == if a % 2 != b % 2 then 1 else 0;
        CommonPrefixUnique(WordBits(a, n), WordBits(b, n), if a % 2 != b % 2 then n - 1 else n);
      }
    }
  }

  /** The common prefix of two concatenations whose first parts have the same length. */
  lemma {:induction false} CommonPrefixConcat(a: seq<bool>, b: seq<bool>, c: seq<bool>, d: seq<bool>)
    requires |a| == |b| && |c| == |d|
    ensures CommonPrefix(a + c, b + d) == if CommonPrefix(a, b) < |a| then CommonPrefix(a, b)
            else |a| + CommonPrefix(c, d)
  {
    var m := CommonPrefix(a, b);
    var k := CommonPrefix(c, d);
    if m < |a| {
      assert (a + c)[..m] == a[..m] && (b + d)[..m] == b[..m];
      CommonPrefixUnique(a + c, b + d, m);
    } else {
      assert a[..m] == a && b[..m] == b;
      assert (a + c)[..|a| + k] == a + c[..k] && (b + d)[..|a| + k] == b + d[..k];
      CommonPrefixUnique(a + c, b + d, |a| + k);
    }
  }

  /** The common prefix of two strings of three parts whose first parts are known to agree. */
  lemma {:induction false} CommonPrefixMiddle(p: seq<bool>, u: seq<bool>, r: seq<bool>, q: seq<bool>, v: seq<bool>,
                                              s: seq<bool>)
    requires |p| == |q| && |u| == |v| && |r| == |s|
    requires CommonPrefix(p + (u + r), q + (v + s)) >= |p|
    ensures var m := CommonPrefix(p + (u + r), q + (v + s));
            if CommonPrefix(u, v) < |u| then m == |p| + CommonPrefix(u, v) else m >= |p| + |u|
  {
    CommonPrefixConcat(p, q, u + r, v + s);
    CommonPrefixConcat(u, v, r, s);
  }

  lemma {:induction false} ShrTwice(a: nat, j: nat, k: nat)
    ensures Shr(Shr(a, j), k) == Shr(a, j + k)
    decreases j
  {
    if j > 0 {
      ShrTwice(a / 2, j - 1, k);
    }
  }

  lemma {:induction false} ShrByte(a: nat)
    ensures Shr(a, 8) == a / 0x100
  {
    assert Shr(a, 8) == Shr(a / 2, 7) == Shr(a / 4, 6) == Shr(a / 8, 5) == Shr(a / 16, 4);
    assert Shr(a / 16, 4) == Shr(a / 32, 3) == Shr(a / 64, 2) == Shr(a / 128, 1) == Shr(a / 256, 0);
  }

  /** The bits of a byte string, most significant bit first. */
  function ByteBits(bs: seq<u8>): (bits: seq<bool>)
    ensures |bits| == 8 * |bs|
  {
    if bs == [] then [] else WordBits(bs[0], 8) + ByteBits(bs[1..])
  }

  lemma {:induction false} ByteBitsConcat(a: seq<u8>, b: seq<u8>)
    ensures ByteBits(a + b) == ByteBits(a) + ByteBits(b)
  {
    if a == [] {
      assert a + b == b;
    } else {
      assert (a + b)[1..] == a[1..] + b;
      ByteBitsConcat(a[1..], b);
    }
  }

  lemma {:induction false} JoinBits(h: nat, l: nat, n: nat, k: nat)
    requires l < Pow2(k)
    ensures WordBits(h * Pow2(k) + l, n + k) == WordBits(h, n) + WordBits(l, k)
    decreases k
  {
    if k == 0 {
      assert WordBits(l, 0) == [];
    } else {
      var p := Pow2(k - 1);
      assert h * Pow2(k) == 2 * (h * p);
      assert (h * Pow2(k) + l) / 2 == h * p + l / 2 && (h * Pow2(k) + l) % 2 == l % 2;
      JoinBits(h, l / 2, n, k - 1);
      assert WordBits(h, n) + WordBits(l / 2, k - 1) + [l % 2 == 1] == WordBits(h, n) + WordBits(l, k);
    }
  }

  lemma {:induction false} Pow2Byte()
    ensures Pow2(8) == 0x100 && Pow2(32) == 0x1_0000_0000
  {
    Pow2Sum(4, 4);
    Pow2Sum(8, 8);
    Pow2Sum(16, 16);
    assert Pow2(4) == 2 * Pow2(3) == 4 * Pow2(2) == 8 * Pow2(1) == 16;
  }

  lemma {:induction false} Pow2Sum(j: nat, k: nat)
    ensures Pow2(j + k) == Pow2(j) * Pow2(k)
    decreases j
  {
    if j > 0 {
      Pow2Sum(j - 1, k);
    }
  }

  lemma {:induction false} AppendByte(w: nat, n: nat, bs: seq<u8>, b: u8)
    requires WordBits(w, n) == ByteBits(bs)
    ensures WordBits(w * 0x100 + b, n + 8) == ByteBits(bs + [b])
  {
    Pow2Byte();
    JoinBits(w, b, n, 8);
    ByteBitsConcat(bs, [b]);
    SingleByteBits(b);
  }

  /** A byte string read as a big-endian number. */
  function BigEndian(bs: seq<u8>): nat {
    if bs == [] then 0 else BigEndian(bs[..|bs| - 1]) * 0x100 + bs[|bs| - 1]
  }

  /** The bits of a big-endian number are the bits of its bytes. */
  lemma {:induction false} BitsOfNumber(bs: seq<u8>)
    ensures WordBits(BigEndian(bs), 8 * |bs|) == ByteBits(bs)
  {
    if bs != [] {
      var front, last := bs[..|bs| - 1], bs[|bs| - 1];
      BitsOfNumber(front);
      AppendByte(BigEndian(front), 8 * |front|, front, last);
      assert front + [last] == bs;
    }
  }

  lemma {:induction false} BigEndianBound(bs: seq<u8>)
    ensures BigEndian(bs) < Pow2(8 * |bs|)
  {
    if bs != [] {
      var front := bs[..|bs| - 1];
      BigEndianBound(front);
      Pow2Byte();
      Pow2Sum(8 * |front|, 8);
    }
  }

  lemma {:induction false} SingleByteBits(a: u8)
    ensures ByteBits([a]) == WordBits(a, 8)
  {
    assert [a][1..] == [];
    assert ByteBits([]) == [];
  }

  lemma {:induction false} TopOfByte(a: u8, b: u8, left: nat)
    requires left < 8
    ensures WordBits(a, 8)[..left] == WordBits(b, 8)[..left] <==> Shr(a, 8 - left) == Shr(b, 8 - left)
  {
    Pow2Byte();
    ShiftedBits(a, 8, 8 - left);
    ShiftedBits(b, 8, 8 - left);
    ShrBound(a, 8, 8 - left);
    ShrBound(b, 8, 8 - left);
    BitsDecideWord(Shr(a, 8 - left), Shr(b, 8 - left), left);
  }

  lemma {:induction false} SameByte(a: u8, b: u8)
    ensures WordBits(a, 8) == WordBits(b, 8) <==> a == b
  {
    Pow2Byte();
    BitsDecideWord(a, b, 8);
  }

  lemma {:induction false} LeadingBitsCons(one: seq<u8>, two: seq<u8>, n: nat)
    requires |one| == |two| > 0 && n <= 8 * (|one| - 1)
    ensures ByteBits(one)[..8 + n] == ByteBits(two)[..8 + n] <==>
            one[0] == two[0] && ByteBits(one[1..])[..n] == ByteBits(two[1..])[..n]
  {
    SameByte(one[0], two[0]);
    TakeSplit(WordBits(one[0], 8), ByteBits(one[1..]), WordBits(two[0], 8), ByteBits(two[1..]), n);
  }

  lemma {:induction false} SamePrefixCons(one: seq<u8>, two: seq<u8>, skip: nat)
    requires |one| == |two| && 0 < skip <= |one|
    ensures one[..skip] == two[..skip] <==> one[0] == two[0] && one[1..][..skip - 1] == two[1..][..skip - 1]
  {
    assert one[..skip] == [one[0]] + one[1..][..skip - 1] && two[..skip] == [two[0]] + two[1..][..skip - 1];
  }

  /** Whole bytes and then the top bits of one more byte agree iff that many leading bits agree. */
  lemma {:induction false} LeadingBits(one: seq<u8>, two: seq<u8>, skip: nat, left: nat)
    requires |one| == |two| && left < 8 && skip <= |one| && (left > 0 ==> skip < |one|)
    ensures ByteBits(one)[..8 * skip + left] == ByteBits(two)[..8 * skip + left] <==>
            && one[..skip] == two[..skip]
            && (left > 0 ==> Shr(one[skip], 8 - left) == Shr(two[skip], 8 - left))
    decreases skip
  {
    if skip > 0 {
      LeadingBits(one[1..], two[1..], skip - 1, left);
      LeadingBitsCons(one, two, 8 * (skip - 1) + left);
      SamePrefixCons(one, two, skip);
    } else if left > 0 {
      TopOfByte(one[0], two[0], left);
      assert ByteBits(one)[..left] == WordBits(one[0], 8)[..left];
      assert ByteBits(two)[..left] == WordBits(two[0], 8)[..left];
    }
  }

  lemma {:induction false} TakeSplit(a: seq<bool>, c: seq<bool>, b: seq<bool>, d: seq<bool>, n: nat)
    requires |a| == |b| && n <= |c| && n <= |d|
    ensures (a + c)[..|a| + n] == (b + d)[..|a| + n] <==> a == b && c[..n] == d[..n]
  {
    var x, y := (a + c)[..|a| + n], (b + d)[..|a| + n];
    assert x == a + c[..n] && y == b + d[..n];
    assert x[..|a|] == a && y[..|a|] == b && x[|a|..] == c[..n] && y[|a|..] == d[..n];
  }
}
