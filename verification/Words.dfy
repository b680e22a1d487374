/** Fixed-width words, byte order and the option type shared by all modules. */
module Words {
  type u8 = x: int | 0 <= x < 0x100
  type u16 = x: int | 0 <= x < 0x1_0000
  type u32 = x: int | 0 <= x < 0x1_0000_0000

  datatype Option<+T> = None | Some(value: T)

  /** The word with bytes `a`, `b`, `c`, `d` from the most significant down. */
  function Word(a: u8, b: u8, c: u8, d: u8): u32 {
    ((a * 0x100 + b) * 0x100 + c) * 0x100 + d
  }

  lemma {:induction false} BytesOfWord(a: u8, b: u8, c: u8, d: u8)
    ensures var r := Word(a, b, c, d);
            r / 0x100_0000 == a && r / 0x1_0000 % 0x100 == b && r / 0x100 % 0x100 == c && r % 0x100 == d
  {
    var ab := a * 0x100 + b;
    var abc := ab * 0x100 + c;
    var r := abc * 0x100 + d;
    assert r / 0x100 == abc && abc / 0x100 == ab && ab / 0x100 == a;
    assert r / 0x1_0000 == ab && r / 0x100_0000 == a;
  }

  /** The octets of a number, most significant first. */
  function Be16(x: u16): (r: seq<u8>)
    ensures |r| == 2
  {
    [x / 0x100, x % 0x100]
  }

  function HexDigit(n: nat): char
    requires n < 16
  {
    "0123456789abcdef"[n]
  }

  predicate EndsWith<T(==)>(s: seq<T>, t: seq<T>) {
    |t| <= |s| && s[|s| - |t|..] == t
  }

  lemma {:induction false} EndsWithSnoc<T>(s: seq<T>, t: seq<T>, c: T)
    requires EndsWith(s, t)
    ensures EndsWith(s + [c], t + [c])
  {
    assert (s + [c])[|s| - |t|..] == s[|s| - |t|..] + [c];
  }

  lemma WordOfBytes(x: u32)
    ensures x == Word(x / 0x100_0000, x / 0x1_0000 % 0x100, x / 0x100 % 0x100, x % 0x100)
  {
    var y := x / 0x100;
    var z := y / 0x100;
    assert x / 0x1_0000 == z && x / 0x100_0000 == z / 0x100;
    assert x == y * 0x100 + x % 0x100 && y == z * 0x100 + y % 0x100 && z == z / 0x100 * 0x100 + z % 0x100;
  }

  /** `htonl`/`ntohl` on a little-endian host: the four bytes in reverse order. */
  function SwapBytes(x: u32): u32 {
    Word(x % 0x100, x / 0x100 % 0x100, x / 0x1_0000 % 0x100, x / 0x100_0000)
  }

  lemma SwapBytesTwice(x: u32)
    ensures SwapBytes(SwapBytes(x)) == x
  {
    WordOfBytes(x);
    BytesOfWord(x % 0x100, x / 0x100 % 0x100, x / 0x1_0000 % 0x100, x / 0x100_0000);
  }

  /** The value of a C `int` after conversion from a wider integer (two's complement). */
  function ToInt32(x: int): (r: int)
    ensures -0x8000_0000 <= r < 0x8000_0000
    ensures (r - x) % 0x1_0000_0000 == 0
    ensures -0x8000_0000 <= x < 0x8000_0000 ==> r == x
  {
    (x + 0x8000_0000) % 0x1_0000_0000 - 0x8000_0000
  }

  lemma {:induction false} SamePart<T>(a: seq<T>, b: seq<T>, end: nat, i: nat, j: nat)
    requires i <= j <= end <= |a| && end <= |b| && a[..end] == b[..end]
    ensures a[i..j] == b[i..j]
  {
    forall k | i <= k < j ensures a[k] == b[k] {
      assert a[k] == a[..end][k] && b[k] == b[..end][k];
    }
  }

  lemma {:induction false} JoinParts<T>(a: seq<T>, i: nat, m: nat, j: nat)
    requires i <= m <= j <= |a|
    ensures a[i..j] == a[i..m] + a[m..j]
  {
  }
}
