/** The names under which access points (BSSs) are grouped into networks. */
module BssNames {
  import opened Words

  datatype Mode = ModeUnknown | Infra | Ibss | Master
  datatype Security = NoSecurity | Wep | Psk | Ieee8021x

  /** `path` is the D-Bus object path that names the BSS. */
  datatype Bss = Bss(path: string, ssid: seq<u8>, mode: Mode, security: Security, signal: int)

  function HexSsid(ssid: seq<u8>): string {
    if ssid == [] then "" else [HexDigit(ssid[0] / 16), HexDigit(ssid[0] % 16)] + HexSsid(ssid[1..])
  }

  function SsidName(ssid: seq<u8>): string {
    if ssid != [] && ssid[0] != 0 then HexSsid(ssid) else "hidden"
  }

  function ModeName(m: Mode): string {
    match m
    case ModeUnknown => ""
    case Infra => "_managed"
    case Ibss => "_adhoc"
    case Master => "_ap"
  }

  function SecurityName(s: Security): string {
    match s
    case NoSecurity => "_none"
    case Wep => "_wep"
    case Psk => "_psk"
    case Ieee8021x => "_ieee8021x"
  }

  /** `create_group`. */
  function CreateGroup(b: Bss): string {
    SsidName(b.ssid) + ModeName(b.mode) + SecurityName(b.security)
  }

  predicate Hidden(ssid: seq<u8>) {
    ssid == [] || ssid[0] == 0
  }

  lemma {:induction false} HexDigitsDiffer(m: nat, n: nat)
    requires m < 16 && n < 16
    ensures HexDigit(m) == HexDigit(n) <==> m == n
    ensures HexDigit(m) != '_' && HexDigit(m) != 'h'
  {}

  lemma {:induction false} NoUnderscore(ssid: seq<u8>)
    ensures '_' !in HexSsid(ssid) && 'h' !in HexSsid(ssid)
  {
    if ssid != [] {
      HexDigitsDiffer(ssid[0] / 16, ssid[0] % 16);
      HexDigitsDiffer(ssid[0] % 16, ssid[0] / 16);
      NoUnderscore(ssid[1..]);
    }
  }

  lemma {:induction false} HexIsInjective(a: seq<u8>, b: seq<u8>)
    requires HexSsid(a) == HexSsid(b)
    ensures a == b
  {
    if a != [] && b != [] {
      var x, y := HexSsid(a), HexSsid(b);
      assert x[0] == y[0] && x[1] == y[1];
      HexDigitsDiffer(a[0] / 16, b[0] / 16);
      HexDigitsDiffer(a[0] % 16, b[0] % 16);
      assert HexSsid(a[1..]) == x[2..] && HexSsid(b[1..]) == y[2..];
      HexIsInjective(a[1..], b[1..]);
      assert a == [a[0]] + a[1..] && b == [b[0]] + b[1..];
    }
  }

  lemma {:induction false} NamesDiffer(a: seq<u8>, b: seq<u8>)
    ensures '_' !in SsidName(a)
    ensures SsidName(a) == SsidName(b) <==> (Hidden(a) && Hidden(b)) || a == b
  {
    NoUnderscore(a);
    NoUnderscore(b);
    assert "hidden"[0] == 'h';
    if SsidName(a) == SsidName(b) && !Hidden(a) {
      assert SsidName(a)[0] != 'h';
      HexIsInjective(a, b);
    }
  }

  /** What precedes the first underscore is told apart from the rest. */
  lemma {:induction false} FirstUnderscore(x: string, u: string, y: string, v: string)
    requires x + u == y + v && '_' !in x && '_' !in y
    requires u != "" && v != "" && u[0] == '_' && v[0] == '_'
    ensures x == y && u == v
  {
    var w := x + u;
    assert w[|x|] == '_' && w[|y|] == '_';
    assert x == w[..|x|] && u == w[|x|..];
  }

  /** The last letter of a security's name: no two end alike. */
  function LastLetter(s: Security): char {
    match s case NoSecurity => 'e' case Wep => 'p' case Psk => 'k' case Ieee8021x => 'x'
  }

  lemma {:induction false} SuffixEnds(m: Mode, s: Security)
    ensures var t := ModeName(m) + SecurityName(s);
            && |t| == |ModeName(m)| + |SecurityName(s)| && |SecurityName(s)| > 0
            && t[0] == '_' && t[|t| - 1] == LastLetter(s)
  {}

  lemma {:induction false} ModeLengths(m: Mode, m': Mode)
    ensures |ModeName(m)| == |ModeName(m')| <==> m == m'
  {}

  function Suffix(m: Mode, s: Security): string {
    ModeName(m) + SecurityName(s)
  }

  lemma {:induction false} SuffixesDiffer(m: Mode, s: Security, m': Mode, s': Security)
    ensures Suffix(m, s) != "" && Suffix(m, s)[0] == '_'
    ensures Suffix(m, s) == Suffix(m', s') <==> m == m' && s == s'
  {
    SuffixEnds(m, s);
    SuffixEnds(m', s');
    ModeLengths(m, m');
  }

  /** The same SSID, or none to show, and the same mode and security. */
  predicate SameKind(a: Bss, b: Bss) {
    ((Hidden(a.ssid) && Hidden(b.ssid)) || a.ssid == b.ssid) && a.mode == b.mode && a.security == b.security
  }

  /** Two BSSs get the same network name exactly when they are of the same kind. */
  lemma {:induction false} GroupIdentifiesNetwork(a: Bss, b: Bss)
    ensures CreateGroup(a) == CreateGroup(b) <==> SameKind(a, b)
  {
    assert CreateGroup(a) == SsidName(a.ssid) + Suffix(a.mode, a.security);
    assert CreateGroup(b) == SsidName(b.ssid) + Suffix(b.mode, b.security);
    NamesDiffer(a.ssid, b.ssid);
    SuffixesDiffer(a.mode, a.security, b.mode, b.security);
    if CreateGroup(a) == CreateGroup(b) {
      NamesDiffer(b.ssid, a.ssid);
      SuffixesDiffer(b.mode, b.security, a.mode, a.security);
      FirstUnderscore(SsidName(a.ssid), Suffix(a.mode, a.security), SsidName(b.ssid), Suffix(b.mode, b.security));
    }
  }

  /** A network's name tells its security. */
  lemma {:induction false} GroupEnds(b: Bss)
    ensures var g := CreateGroup(b); g != "" && g[|g| - 1] == LastLetter(b.security)
  {
  }
}
