/**
 What the token scanner finds, exactly: a token is seen where it occurs unless an earlier
 partial match has eaten its beginning.
 */
module TokenParse {
  import opened Words
  import opened TokenScanner

  /** A beginning of `token`, not empty and not all of it. */
  predicate IsPartial(token: string, x: string) {
    0 < |x| < |token| && x == token[..|x|]
  }

  /** After `t` no partial match is under way: every one that `t` could end in would have begun inside another one. */
  predicate Free(token: string, t: string)
    decreases |t|
  {
    forall j :: 0 <= j < |t| && IsPartial(token, t[j..]) ==> !Free(token, t[..j])
  }

  /** `t` ends in a token that begins at a free place. */
  predicate SeenAt(token: string, t: string) {
    EndsWith(t, token) && Free(token, t[..|t| - |token|])
  }

  /** Where the first such token ends. */
  function FirstSeen(token: string, t: string): (r: Option<nat>)
    ensures r.Some? ==> r.value <= |t|
    decreases |t|
  {
    if t == "" then None
    else
      var front := FirstSeen(token, t[..|t| - 1]);
      if front.Some? then front else if SeenAt(token, t) then Some(|t|) else None
  }

  // ---------- Looking for one token

  /** How much of the token is matched after `t`; all of it from the moment it was seen. */
  function Pos(token: string, t: string): (k: nat)
    ensures k <= |token|
    decreases |t|
  {
    if t == "" then 0
    else
      var k := Pos(token, t[..|t| - 1]);
      if k == |token| then k else if t[|t| - 1] == token[k] then k + 1 else 0
  }

  lemma {:induction false} PosSnoc(token: string, t: string, c: char)
    ensures var k := Pos(token, t);
            Pos(token, t + [c]) == if k == |token| then k else if c == token[k] then k + 1 else 0
  {
    assert (t + [c])[..|t|] == t;
  }

  lemma {:induction false} SeenStays(token: string, t: string, n: nat)
    requires n <= |t| && Pos(token, t[..n]) == |token|
    ensures Pos(token, t) == |token|
  {
    if n < |t| {
      assert t[..|t| - 1][..n] == t[..n];
      SeenStays(token, t[..|t| - 1], n);
    } else {
      assert t[..n] == t;
    }
  }

  lemma {:induction false} UnseenBefore(token: string, t: string, n: nat)
    requires n <= |t| && Pos(token, t) < |token|
    ensures Pos(token, t[..n]) < |token|
  {
    if Pos(token, t[..n]) == |token| {
      SeenStays(token, t, n);
    }
  }

  /** From a free place a match proceeds undisturbed. */
  lemma {:induction false} PosForward(token: string, y: string, k: nat)
    requires Pos(token, y) == 0 && k <= |token| && token != ""
    ensures Pos(token, y + token[..k]) == k
  {
    if k == 0 {
      assert y + token[..0] == y;
    } else {
      PosForward(token, y, k - 1);
      assert y + token[..k] == y + token[..k - 1] + [token[k - 1]];
      PosSnoc(token, y + token[..k - 1], token[k - 1]);
    }
  }

  /** A match of `k` octets that is under way, or has just ended, began `k` octets ago with no other under way. */
  lemma {:induction false} PosBack(token: string, t: string) returns (y: string)
    requires token != "" && (t != "" ==> Pos(token, t[..|t| - 1]) < |token|)
    ensures t == y + token[..Pos(token, t)] && Pos(token, y) == 0
    decreases |t|
  {
    var k := Pos(token, t);
    if k == 0 {
      assert t == t + token[..0];
      return t;
    }
    var front := t[..|t| - 1];
    if front != "" {
      UnseenBefore(token, front, |front| - 1);
    }
    y := PosBack(token, front);
    assert token[..k] == token[..k - 1] + [token[k - 1]];
    assert t == front + [token[k - 1]] == y + token[..k - 1] + [token[k - 1]];
  }

  /** As long as the token was not seen, a place is free exactly if nothing is matched there. */
  lemma {:induction false} FreeMeansUnmatched(token: string, t: string)
    requires token != "" && Pos(token, t) < |token|
    ensures Free(token, t) <==> Pos(token, t) == 0
    decreases |t|
  {
    if t != "" {
      UnseenBefore(token, t, |t| - 1);
    }
    var y := PosBack(token, t);
    var k := Pos(token, t);
    if k > 0 {
      assert t[..|y|] == y && t[|y|..] == token[..k];
      UnseenBefore(token, t, |y|);
      FreeMeansUnmatched(token, y);
      assert IsPartial(token, t[|y|..]);
    } else {
      forall j | 0 <= j < |t| && IsPartial(token, t[j..]) ensures !Free(token, t[..j]) {
        UnseenBefore(token, t, j);
        FreeMeansUnmatched(token, t[..j]);
        NoPartialLeft(token, t, j);
      }
    }
  }

  lemma {:induction false} NoPartialLeft(token: string, t: string, j: nat)
    requires token != "" && Pos(token, t) == 0 && j < |t| && IsPartial(token, t[j..])
    ensures Pos(token, t[..j]) != 0
  {
    assert t == t[..j] + token[..|t| - j];
    if Pos(token, t[..j]) == 0 {
      PosForward(token, t[..j], |t| - j);
    }
  }

  /** The match completes exactly where a token ends that begins at a free place. */
  lemma {:induction false} SeenNow(token: string, t: string)
    requires token != "" && t != "" && Pos(token, t[..|t| - 1]) < |token|
    ensures Pos(token, t) == |token| <==> SeenAt(token, t)
  {
    assert token[..|token|] == token;
    if Pos(token, t) == |token| {
      var y := PosBack(token, t);
      assert t[|t| - |token|..] == token && t[..|t| - |token|] == y;
    }
    if EndsWith(t, token) {
      MatchFrom(token, t, t[..|t| - |token|]);
    }
  }

  lemma {:induction false} MatchFrom(token: string, t: string, y: string)
    requires token != "" && t == y + token && Pos(token, t[..|t| - 1]) < |token|
    ensures Free(token, y) <==> Pos(token, y) == 0
    ensures Pos(token, y) == 0 ==> Pos(token, t) == |token|
  {
    assert y == t[..|t| - 1][..|y|];
    UnseenBefore(token, t[..|t| - 1], |y|);
    FreeMeansUnmatched(token, y);
    assert token[..|token|] == token;
    if Pos(token, y) == 0 {
      PosForward(token, y, |token|);
    }
  }

  lemma {:induction false} SeenSomewhere(token: string, t: string)
    requires token != ""
    ensures Pos(token, t) == |token| <==> FirstSeen(token, t).Some?
    decreases |t|
  {
    if t != "" {
      SeenSomewhere(token, t[..|t| - 1]);
      if Pos(token, t[..|t| - 1]) == |token| {
        SeenStays(token, t, |t| - 1);
      } else {
        SeenNow(token, t);
      }
    }
  }

  lemma {:induction false} FirstSeenSplits(token: string, t: string)
    requires token != "" && FirstSeen(token, t).Some?
    ensures var n := FirstSeen(token, t).value;
            0 < n <= |t| && Pos(token, t[..n - 1]) < |token| && Pos(token, t[..n]) == |token|
    decreases |t|
  {
    var front := t[..|t| - 1];
    if FirstSeen(token, front).Some? {
      FirstSeenSplits(token, front);
      var n := FirstSeen(token, front).value;
      assert front[..n - 1] == t[..n - 1] && front[..n] == t[..n];
    } else {
      SeenSomewhere(token, front);
      SeenSomewhere(token, t);
      assert t[..|t|] == t;
    }
  }

  // ---------- The scanner

  lemma {:induction false} RunSnoc(begin: string, end: string, s: Scan, t: string, c: char)
    requires ScanOk(begin, end, s)
    ensures Run(begin, end, s, t + [c]) == Step(begin, end, Run(begin, end, s, t), c)
  {
    RunSplit(begin, end, s, t, [c]);
    assert [c][1..] == "";
  }

  /** Where the scanner stands while it has not seen the token it looks for. */
  function Seeking(begin: string, end: string, s: Scan, t: string): Scan {
    s.(pos := Pos(Token(begin, end, s), t), content := if s.inToken then s.content + t else s.content)
  }

  /** Where it stands at the moment it sees it. */
  function Seen(begin: string, s: Scan, t: string): Scan {
    if s.inToken then Scan(false, 0, "", s.found + [s.content + t]) else Scan(true, 0, begin, s.found)
  }

  lemma {:induction false} RunSeeks(begin: string, end: string, s: Scan, t: string)
    requires ScanOk(begin, end, s) && s.pos == 0 && Pos(Token(begin, end, s), t) < |Token(begin, end, s)|
    ensures Run(begin, end, s, t) == Seeking(begin, end, s, t)
    decreases |t|
  {
    if t == "" {
      assert s.content + t == s.content;
    } else {
      var front, c := t[..|t| - 1], t[|t| - 1];
      assert t == front + [c];
      UnseenBefore(Token(begin, end, s), t, |t| - 1);
      RunSeeks(begin, end, s, front);
      RunSnoc(begin, end, s, front, c);
      assert s.content + front + [c] == s.content + t;
    }
  }

  lemma {:induction false} RunSees(begin: string, end: string, s: Scan, t: string, c: char)
    requires ScanOk(begin, end, s) && s.pos == 0
    requires var token := Token(begin, end, s); Pos(token, t) == |token| - 1 && c == token[|token| - 1]
    ensures Run(begin, end, s, t + [c]) == Seen(begin, s, t + [c])
  {
    RunSeeks(begin, end, s, t);
    RunSnoc(begin, end, s, t, c);
    assert s.content + t + [c] == s.content + (t + [c]);
  }

  /** One search: the scanner passes from `s` to what it does after the token, if that is seen. */
  lemma {:induction false} RunSearch(begin: string, end: string, s: Scan, t: string)
    requires ScanOk(begin, end, s) && s.pos == 0
    ensures match FirstSeen(Token(begin, end, s), t)
            case None => Run(begin, end, s, t) == Seeking(begin, end, s, t)
            case Some(n) => Run(begin, end, s, t) == Run(begin, end, Seen(begin, s, t[..n]), t[n..])
  {
    var token := Token(begin, end, s);
    SeenSomewhere(token, t);
    match FirstSeen(token, t)
    case None => RunSeeks(begin, end, s, t);
    case Some(n) =>
      FirstSeenSplits(token, t);
      assert t[..n] == t[..n - 1] + [t[n - 1]] && t == t[..n] + t[n..];
      PosSnoc(token, t[..n - 1], t[n - 1]);
      RunSees(begin, end, s, t[..n - 1], t[n - 1]);
      RunSplit(begin, end, s, t[..n], t[n..]);
  }

  /** Where the first section of `t` begins, behind its begin token, and where it ends. */
  function FirstSection(begin: string, end: string, t: string): (r: Option<(nat, nat)>)
    requires TokensOk(begin, end)
    ensures r.Some? ==> r.value.0 < r.value.1 <= |t|
  {
    match FirstSeen(begin, t)
    case None => None
    case Some(n) =>
      match FirstSeen(end, t[n..])
      case None => None
      case Some(m) => FirstSeenSplits(end, t[n..]); Some((n, n + m))
  }

  /** The sections of `t`: from a begin token that is seen to the first end token that is seen after it. */
  function Reports(begin: string, end: string, t: string): seq<string>
    requires TokensOk(begin, end)
    decreases |t|
  {
    match FirstSection(begin, end, t)
    case None => []
    case Some((n, m)) => [begin + t[n..m]] + Reports(begin, end, t[m..])
  }

  lemma {:induction false} RunInside(begin: string, end: string, u: string, found: seq<string>)
    requires TokensOk(begin, end)
    ensures var s := Run(begin, end, Scan(true, 0, begin, found), u);
            match FirstSeen(end, u)
            case None => s.found == found
            case Some(m) => s == Run(begin, end, Start.(found := found + [begin + u[..m]]), u[m..])
  {
    RunSearch(begin, end, Scan(true, 0, begin, found), u);
  }

  lemma {:induction false} RunSection(begin: string, end: string, t: string, n: nat, m: nat, found: seq<string>)
    requires TokensOk(begin, end) && FirstSection(begin, end, t) == Some((n, m))
    ensures Run(begin, end, Start.(found := found), t)
            == Run(begin, end, Start.(found := found + [begin + t[n..m]]), t[m..])
  {
    var u := t[n..];
    assert u[..m - n] == t[n..m] && u[m - n..] == t[m..];
    assert Run(begin, end, Start.(found := found), t) == Run(begin, end, Scan(true, 0, begin, found), u) by {
      RunSearch(begin, end, Start.(found := found), t);
    }
    RunInside(begin, end, u, found);
  }

  lemma {:induction false} RunNoSection(begin: string, end: string, t: string, found: seq<string>)
    requires TokensOk(begin, end) && FirstSection(begin, end, t) == None
    ensures Run(begin, end, Start.(found := found), t).found == found
  {
    RunSearch(begin, end, Start.(found := found), t);
    if FirstSeen(begin, t).Some? {
      RunInside(begin, end, t[FirstSeen(begin, t).value..], found);
    }
  }

  /** What the scanner has found after `t`. */
  function FoundAfter(begin: string, end: string, found: seq<string>, t: string): seq<string>
    requires TokensOk(begin, end)
  {
    Run(begin, end, Start.(found := found), t).found
  }

  lemma {:induction false} FoundSection(begin: string, end: string, t: string, n: nat, m: nat, found: seq<string>)
    requires TokensOk(begin, end) && FirstSection(begin, end, t) == Some((n, m))
    ensures FoundAfter(begin, end, found, t) == FoundAfter(begin, end, found + [begin + t[n..m]], t[m..])
  {
    RunSection(begin, end, t, n, m, found);
  }

  lemma {:induction false} ReportsFrom(begin: string, end: string, t: string, found: seq<string>)
    requires TokensOk(begin, end)
    ensures FoundAfter(begin, end, found, t) == found + Reports(begin, end, t)
    decreases |t|
  {
    var first := FirstSection(begin, end, t);
    if first.None? {
      RunNoSection(begin, end, t, found);
    } else {
      var (n, m) := first.value;
      var f, rest := begin + t[n..m], Reports(begin, end, t[m..]);
      FoundSection(begin, end, t, n, m, found);
      ReportsFrom(begin, end, t[m..], found + [f]);
      assert found + [f] + rest == found + ([f] + rest);
    }
  }

  /** For all tokens and all texts, the scanner reports exactly these sections, in order. */
  lemma {:induction false} ReportsAreExact(begin: string, end: string, t: string)
    requires TokensOk(begin, end)
    ensures Run(begin, end, Start, t).found == Reports(begin, end, t)
  {
    ReportsFrom(begin, end, t, []);
    assert Start.(found := []) == Start;
  }

  // ---------- When nothing is missed

  /** Where the first token in `t` ends, seen or not. */
  function FirstOccurrence(token: string, t: string): (r: Option<nat>)
    ensures r.Some? ==> |token| <= r.value <= |t|
    decreases |t|
  {
    if t == "" then None
    else
      var front := FirstOccurrence(token, t[..|t| - 1]);
      if front.Some? then front else if EndsWith(t, token) then Some(|t|) else None
  }

  lemma {:induction false} SeenIsThere(token: string, t: string)
    requires FirstOccurrence(token, t).None?
    ensures FirstSeen(token, t).None?
    decreases |t|
  {
    if t != "" {
      SeenIsThere(token, t[..|t| - 1]);
    }
  }

  /** For all tokens and all texts: the first token is the one that is seen iff it begins at a free place. */
  lemma {:induction false} FirstIsSeenIff(token: string, t: string, n: nat)
    requires FirstOccurrence(token, t) == Some(n)
    ensures FirstSeen(token, t) == Some(n) <==> Free(token, t[..n - |token|])
    decreases |t|
  {
    var front := t[..|t| - 1];
    if FirstOccurrence(token, front).Some? {
      FirstIsSeenIff(token, front, n);
      assert front[..n - |token|] == t[..n - |token|];
    } else {
      SeenIsThere(token, front);
    }
  }

  // ---------- Tokens whose first octet does not come again in them

  /** Where `c` last occurs in `x`. */
  function LastIndexOf(x: string, c: char): (r: Option<nat>)
    ensures r.Some? ==> r.value < |x| && x[r.value] == c && c !in x[r.value + 1..]
    ensures r.None? ==> c !in x
    decreases |x|
  {
    if x == "" then None
    else if x[|x| - 1] == c then Some(|x| - 1)
    else
      var r := LastIndexOf(x[..|x| - 1], c);
      assert r.Some? ==> x[r.value + 1..] == x[..|x| - 1][r.value + 1..] + [x[|x| - 1]];
      r
  }

  /** How many partial matches, each right before the next, `x` ends in. */
  function Partials(token: string, x: string): nat
    requires token != ""
    decreases |x|
  {
    match LastIndexOf(x, token[0])
    case None => 0
    case Some(p) => if IsPartial(token, x[p..]) then 1 + Partials(token, x[..p]) else 0
  }

  lemma {:induction false} LastIndexIs(x: string, c: char, j: nat)
    requires j < |x| && x[j] == c && c !in x[j + 1..]
    ensures LastIndexOf(x, c) == Some(j)
  {
    if j < |x| - 1 {
      var front := x[..|x| - 1];
      assert x[j + 1..] == front[j + 1..] + [x[|x| - 1]];
      LastIndexIs(front, c, j);
    }
  }

  /** A partial match can only begin at the last occurrence of the first octet. */
  lemma {:induction false} PartialBeginsLast(token: string, x: string, j: nat)
    requires token != "" && token[0] !in token[1..] && j < |x| && IsPartial(token, x[j..])
    ensures LastIndexOf(x, token[0]) == Some(j)
  {
    assert x[j] == x[j..][0];
    assert x[j + 1..] == x[j..][1..] == token[1..][..|x| - j - 1];
    LastIndexIs(x, token[0], j);
  }

  lemma {:induction false} FreeByLast(token: string, x: string)
    requires token != "" && token[0] !in token[1..]
    ensures match LastIndexOf(x, token[0])
            case None => Free(token, x)
            case Some(p) => Free(token, x) <==> !(IsPartial(token, x[p..]) && Free(token, x[..p]))
  {
    forall j | 0 <= j < |x| && IsPartial(token, x[j..]) ensures LastIndexOf(x, token[0]) == Some(j) {
      PartialBeginsLast(token, x, j);
    }
  }

  /** A place is free iff the number of partial matches right before it is even. */
  lemma {:induction false} FreeIffEven(token: string, x: string)
    requires token != "" && token[0] !in token[1..]
    ensures Free(token, x) <==> Partials(token, x) % 2 == 0
    decreases |x|
  {
    FreeByLast(token, x);
    match LastIndexOf(x, token[0])
    case None =>
    case Some(p) => FreeIffEven(token, x[..p]);
  }

  /** A token that ends before the end of `x + token` is in `x`, or its first octet comes again in it. */
  lemma {:induction false} EndsEarlier(token: string, x: string, n: nat)
    requires |token| >= 2 && n < |x| + |token| && EndsWith((x + token)[..n], token)
    ensures PieceOf(token, x) || token[0] in token[1..]
  {
    var t := x + token;
    var p := n - |token|;
    assert t[..n][p..] == t[p..n];
    if n <= |x| {
      assert x[p..] == token + x[n..];
    } else {
      assert t[|x|] == token[0] && t[|x|] == t[p..n][|x| - p] == token[1..][|x| - p - 1];
    }
  }

  lemma {:induction false} NotSeenBefore(token: string, x: string, n: nat)
    requires |token| >= 2 && token[0] !in token[1..] && !PieceOf(token, x) && n < |x| + |token|
    ensures FirstSeen(token, (x + token)[..n]).None?
    decreases n
  {
    var t := (x + token)[..n];
    if n > 0 {
      assert t[..n - 1] == (x + token)[..n - 1];
      NotSeenBefore(token, x, n - 1);
      if EndsWith(t, token) {
        EndsEarlier(token, x, n);
      }
    }
  }

  lemma {:induction false} SeenIffFree(token: string, x: string)
    requires |token| >= 2 && token[0] !in token[1..] && !PieceOf(token, x)
    ensures FirstSeen(token, x + token) == if Free(token, x) then Some(|x| + |token|) else None
  {
    var t := x + token;
    NotSeenBefore(token, x, |t| - 1);
    assert t[|t| - |token|..] == token && t[..|t| - |token|] == x;
  }

  /**
   Exactly when a token is seen: for a token whose first octet does not come again in it, the
   first begin token of a text is seen iff the number of partial matches before it is even.
   */
  lemma {:induction false} BeginSeenIffEven(begin: string, end: string, x: string)
    requires TokensOk(begin, end) && begin[0] !in begin[1..] && !PieceOf(begin, x)
    ensures Run(begin, end, Start, x + begin).inToken <==> Partials(begin, x) % 2 == 0
  {
    var t := x + begin;
    FreeIffEven(begin, x);
    SeenIffFree(begin, x);
    RunSearch(begin, end, Start, t);
    assert t[|t|..] == "";
  }

  /** The same for the end token inside a section, which is then reported. */
  lemma {:induction false} EndSeenIffEven(begin: string, end: string, y: string, found: seq<string>)
    requires TokensOk(begin, end) && end[0] !in end[1..] && !PieceOf(end, y)
    ensures var s := Run(begin, end, Scan(true, 0, begin, found), y + end);
            s.found == if Partials(end, y) % 2 == 0 then found + [begin + (y + end)] else found
  {
    var u := y + end;
    FreeIffEven(end, y);
    SeenIffFree(end, y);
    RunSearch(begin, end, Scan(true, 0, begin, found), u);
    assert u[|u|..] == "" && u[..|u|] == u;
  }

  /** `n` times the octet `c`. */
  function Copies(c: char, n: nat): (r: string)
    ensures |r| == n && forall i :: 0 <= i < n ==> r[i] == c
  {
    if n == 0 then "" else Copies(c, n - 1) + [c]
  }

  lemma {:induction false} PartialsOfCopies(token: string, n: nat)
    requires |token| >= 2
    ensures Partials(token, Copies(token[0], n)) == n
  {
    if n > 0 {
      var x := Copies(token[0], n);
      PartialsOfCopies(token, n - 1);
      assert x[n - 1..] == token[..1] && x[..n - 1] == Copies(token[0], n - 1);
    }
  }

  lemma {:induction false} TokenInCopies(token: string, n: nat)
    requires |token| >= 2 && PieceOf(token, Copies(token[0], n))
    ensures token[0] in token[1..]
  {
    var x := Copies(token[0], n);
    var i :| 0 <= i <= |x| && token <= x[i..];
    assert x[i..][1] == x[i + 1] && token[1..][0] == token[1] == x[i..][1];
  }

  /** For example, a begin token after copies of its own first octet is seen iff their number is even. */
  lemma {:induction false} RepeatedFirstOctet(begin: string, end: string, n: nat)
    requires TokensOk(begin, end) && begin[0] !in begin[1..]
    ensures Run(begin, end, Start, Copies(begin[0], n) + begin).inToken <==> n % 2 == 0
  {
    var x := Copies(begin[0], n);
    PartialsOfCopies(begin, n);
    if PieceOf(begin, x) {
      TokenInCopies(begin, n);
    }
    BeginSeenIffEven(begin, end, x);
  }
}
