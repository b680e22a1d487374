/** The C library text functions that the HTTP code relies on. An octet is a `char`. */
module HttpText {
  import opened Words

  const ULONG_MAX: nat := 0xffff_ffff_ffff_ffff

  /** A buffer read as a C string: up to its first NUL. */
  function CStr(s: string): string {
    if s == "" || s[0] == '\0' then "" else [s[0]] + CStr(s[1..])
  }

  lemma {:induction false} NoNul(s: string)
    requires '\0' !in s
    ensures CStr(s) == s
  {
    if s != "" {
      NoNul(s[1..]);
    }
  }

  /** `memchr`: the first position of `c`. */
  function IndexOf(s: string, c: char): (r: Option<nat>)
    ensures r.Some? ==> r.value < |s| && s[r.value] == c && c !in s[..r.value]
    ensures r.None? <==> c !in s
  {
    if s == "" then None
    else if s[0] == c then Some(0)
    else match IndexOf(s[1..], c)
         case None => None
         case Some(i) => assert s[..i + 1] == [s[0]] + s[1..][..i]; Some(i + 1)
  }

  predicate Contains(s: string, t: string) {
    t <= s || (s != "" && Contains(s[1..], t))
  }

  predicate IsSpace(c: char) {
    c == ' ' || '\t' <= c <= '\r'
  }

  function SkipSpace(s: string): string {
    if s != "" && IsSpace(s[0]) then SkipSpace(s[1..]) else s
  }

  function SkipNonSpace(s: string): string {
    if s != "" && !IsSpace(s[0]) then SkipNonSpace(s[1..]) else s
  }

  function DigitValue(c: char): nat {
    if '0' <= c <= '9' then c as int - '0' as int
    else if 'a' <= c <= 'z' then c as int - 'a' as int + 10
    else if 'A' <= c <= 'Z' then c as int - 'A' as int + 10
    else 36
  }

  /** The value of the leading digits of `s`, continuing from `acc`. */
  function DigitsValue(s: string, base: nat, acc: nat): nat {
    if s == "" || DigitValue(s[0]) >= base then acc
    else DigitsValue(s[1..], base, acc * base + DigitValue(s[0]))
  }

  predicate HasSign(s: string) {
    s != "" && (s[0] == '-' || s[0] == '+')
  }

  function DropSign(s: string): string {
    if HasSign(s) then s[1..] else s
  }

  predicate HasHexPrefix(s: string) {
    |s| >= 3 && s[0] == '0' && (s[1] == 'x' || s[1] == 'X') && DigitValue(s[2]) < 16
  }

  /** A signed text converted to `unsigned long`: saturated, or negated modulo 2^64. */
  function Unsigned64(negative: bool, magnitude: nat): (r: nat)
    ensures r <= ULONG_MAX
  {
    if magnitude > ULONG_MAX then ULONG_MAX
    else if negative then (ULONG_MAX + 1 - magnitude) % (ULONG_MAX + 1)
    else magnitude
  }

  /** `strtoul(s, NULL, 16)` on a 64-bit host. */
  function StrToUl16(s: string): (r: nat)
    ensures r <= ULONG_MAX
  {
    var t := SkipSpace(CStr(s));
    var u := DropSign(t);
    var digits := if HasHexPrefix(u) then u[2..] else u;
    Unsigned64(t != u && t[0] == '-', DigitsValue(digits, 16, 0))
  }

  /** `sscanf(s, "HTTP/%*s %u %*s", &code)`: the code, as an `unsigned int`, if it was assigned. */
  function ScanStatus(s: string): (r: Option<u32>) {
    var t := CStr(s);
    if !("HTTP/" <= t) then None
    else
      var word := SkipSpace(t[5..]);
      var number := SkipSpace(SkipNonSpace(word));
      var digits := DropSign(number);
      if word == "" || digits == "" || DigitValue(digits[0]) >= 10 then None
      else Some(Unsigned64(number != digits && number[0] == '-', DigitsValue(digits, 10, 0)) % 0x1_0000_0000)
  }
}
