/** The token scanner: reports every section of a stream from a begin token to an end token. */
module TokenScanner {
  import opened HttpText
  import opened Words

  /** The code indexes one octet past a token of length 1, so both tokens have at least 2. */
  predicate TokensOk(begin: string, end: string) {
    |begin| >= 2 && |end| >= 2
  }

  datatype Scan = Scan(inToken: bool, pos: nat, content: string, found: seq<string>)

  const Start := Scan(false, 0, "", [])

  function Token(begin: string, end: string, s: Scan): string {
    if s.inToken then end else begin
  }

  predicate ScanOk(begin: string, end: string, s: Scan) {
    TokensOk(begin, end) && s.pos < |Token(begin, end, s)| && (!s.inToken ==> s.content == "")
  }

  /** One octet. A mismatch consumes the octet; it is not tried again as a first octet. */
  function Step(begin: string, end: string, s: Scan, c: char): (s': Scan)
    requires ScanOk(begin, end, s)
    ensures ScanOk(begin, end, s')
  {
    var token := Token(begin, end, s);
    var content := if s.inToken then s.content + [c] else s.content;
    if c != token[s.pos] then s.(pos := 0, content := content)
    else if s.pos + 1 < |token| then s.(pos := s.pos + 1, content := content)
    else if !s.inToken then Scan(true, 0, begin, s.found)
    else Scan(false, 0, "", s.found + [content])
  }

  function Run(begin: string, end: string, s: Scan, t: string): (s': Scan)
    requires ScanOk(begin, end, s)
    ensures ScanOk(begin, end, s')
    decreases |t|
  {
    if t == "" then s else Run(begin, end, Step(begin, end, s, t[0]), t[1..])
  }

  lemma {:induction false} RunSplit(begin: string, end: string, s: Scan, t: string, u: string)
    requires ScanOk(begin, end, s)
    ensures Run(begin, end, s, t + u) == Run(begin, end, Run(begin, end, s, t), u)
    decreases |t|
  {
    if t == "" {
      assert t + u == u;
    } else {
      assert (t + u)[1..] == t[1..] + u;
      RunSplit(begin, end, Step(begin, end, s, t[0]), t[1..], u);
    }
  }

  /** Away from a token, octets other than the first one of the token only go to the content. */
  lemma {:induction false} RunSkip(begin: string, end: string, s: Scan, t: string)
    requires ScanOk(begin, end, s) && s.pos == 0 && Token(begin, end, s)[0] !in t
    ensures Run(begin, end, s, t) == if s.inToken then s.(content := s.content + t) else s
    decreases |t|
  {
    if t == "" {
      assert s.content + t == s.content;
    } else {
      var s' := Step(begin, end, s, t[0]);
      RunSkip(begin, end, s', t[1..]);
      assert s.content + [t[0]] + t[1..] == s.content + t;
    }
  }

  // ---------- The scanner object

  class Parser {
    const beginToken: string
    const endToken: string
    var intoken: bool
    var tokenPos: nat
    var content: string
    /** The strings handed to the callback, in order. */
    var reported: seq<string>

    ghost function State(): Scan
      reads this
    {
      Scan(intoken, tokenPos, content, reported)
    }

    ghost predicate Valid()
      reads this
    {
      ScanOk(beginToken, endToken, State())
    }

    constructor (begin: string, end: string)
      requires TokensOk(begin, end)
      ensures Valid() && beginToken == begin && endToken == end && State() == Start
    {
      beginToken, endToken := begin, end;
      intoken, tokenPos, content, reported := false, 0, "", [];
    }

    /** Compares one octet inside a token. */
    method Compare(c: char)
      requires Valid() && tokenPos > 0
      modifies this
      ensures Valid()
      ensures State() == Step(beginToken, endToken, old(State()), c)
    {
      var token := if intoken then endToken else beginToken;
      if intoken {
        content := content + [c];
      }
      if c != token[tokenPos] {
        tokenPos := 0;
        return;
      }
      tokenPos := tokenPos + 1;
      if tokenPos == |token| {
        if !intoken {
          content := content + token;
          intoken := true;
        } else {
          reported := reported + [content];
          content := "";
          intoken := false;
        }
        tokenPos := 0;
      }
    }

    /** `g_web_parser_feed_data`: jumps to the next first octet of the token, then compares one by one. */
    method FeedData(data: string)
      requires Valid()
      modifies this
      ensures Valid()
      ensures State() == Run(beginToken, endToken, old(State()), data)
    {
      ghost var all := Run(beginToken, endToken, State(), data);
      var rest := data;
      while rest != ""
        invariant Valid()
        invariant Run(beginToken, endToken, State(), rest) == all
        decreases |rest|
      {
        if tokenPos == 0 {
          var pos := IndexOf(rest, if intoken then endToken[0] else beginToken[0]);
          if pos.None? {
            RunSkip(beginToken, endToken, State(), rest);
            content := if intoken then content + rest else content;
            return;
          }
          SkipTo(beginToken, endToken, State(), rest, pos.value);
          content := if intoken then content + rest[..pos.value + 1] else content;
          rest := rest[pos.value + 1..];
          tokenPos := 1;
        } else {
          Compare(rest[0]);
          rest := rest[1..];
        }
      }
    }
  }

  lemma {:induction false} SkipOver(begin: string, end: string, s: Scan, x: string, y: string, s': Scan)
    requires ScanOk(begin, end, s) && s.pos == 0 && Token(begin, end, s)[0] !in x
    requires var c := Token(begin, end, s)[0];
             s' == s.(pos := 1, content := if s.inToken then s.content + x + [c] else s.content)
    ensures ScanOk(begin, end, s')
    ensures Run(begin, end, s, x + ([Token(begin, end, s)[0]] + y)) == Run(begin, end, s', y)
  {
    var c := Token(begin, end, s)[0];
    RunSplit(begin, end, s, x, [c] + y);
    RunSkip(begin, end, s, x);
    assert ([c] + y)[0] == c && ([c] + y)[1..] == y;
  }

  lemma {:induction false} SkipTo(begin: string, end: string, s: Scan, t: string, i: nat)
    requires ScanOk(begin, end, s) && s.pos == 0 && i < |t|
    requires t[i] == Token(begin, end, s)[0] && Token(begin, end, s)[0] !in t[..i]
    ensures var s' := s.(pos := 1, content := if s.inToken then s.content + t[..i + 1] else s.content);
            ScanOk(begin, end, s') && Run(begin, end, s, t) == Run(begin, end, s', t[i + 1..])
  {
    assert t == t[..i] + ([t[i]] + t[i + 1..]);
    assert s.content + t[..i] + [t[i]] == s.content + t[..i + 1];
    var s' := s.(pos := 1, content := if s.inToken then s.content + t[..i + 1] else s.content);
    SkipOver(begin, end, s, t[..i], t[i + 1..], s');
  }

  /** How the data is cut into calls does not matter. */
  lemma {:induction false} FeedingInPieces(begin: string, end: string, a: string, b: string)
    requires TokensOk(begin, end)
    ensures Run(begin, end, Run(begin, end, Start, a), b) == Run(begin, end, Start, a + b)
  {
    RunSplit(begin, end, Start, a, b);
  }

  // ---------- Soundness

  predicate PieceOf(f: string, t: string) {
    exists i :: 0 <= i <= |t| && f <= t[i..]
  }

  /** A section: begin token, anything, end token. */
  predicate Section(begin: string, end: string, f: string) {
    |begin| + |end| <= |f| && begin <= f && EndsWith(f, end)
  }

  predicate AllSections(begin: string, end: string, t: string, found: seq<string>) {
    forall f :: f in found ==> Section(begin, end, f) && PieceOf(f, t)
  }

  /** Where the scanner stands after reading `t`. */
  predicate Tracks(begin: string, end: string, t: string, s: Scan) {
    ScanOk(begin, end, s) && if s.inToken then Open(begin, end, t, s.content, s.pos) else EndsWith(t, begin[..s.pos])
  }

  lemma {:induction false} PieceOfLonger(f: string, t: string, u: string)
    requires PieceOf(f, t)
    ensures PieceOf(f, t + u)
  {
    var i :| 0 <= i <= |t| && f <= t[i..];
    assert (t + u)[i..] == t[i..] + u;
  }

  lemma {:induction false} TokenGrows(s: string, token: string, k: nat, c: char)
    requires k < |token| && EndsWith(s, token[..k]) && c == token[k]
    ensures EndsWith(s + [c], token[..k + 1])
  {
    EndsWithSnoc(s, token[..k], c);
    assert token[..k] + [c] == token[..k + 1];
  }

  /** Inside a section. */
  predicate Open(begin: string, end: string, t: string, content: string, k: nat) {
    k <= |end| && EndsWith(t, content) && begin <= content && |begin| + k <= |content| && EndsWith(content, end[..k])
  }

  lemma {:induction false} OpenGrows(begin: string, end: string, t: string, content: string, k: nat, c: char)
    requires k < |end| && Open(begin, end, t, content, k)
    ensures Open(begin, end, t + [c], content + [c], if c == end[k] then k + 1 else 0)
  {
    EndsWithSnoc(t, content, c);
    if c == end[k] {
      TokenGrows(content, end, k, c);
    }
  }

  lemma {:induction false} SectionFound(begin: string, end: string, t: string, content: string)
    requires Open(begin, end, t, content, |end|)
    ensures Section(begin, end, content) && PieceOf(content, t)
  {
    assert end[..|end|] == end;
    assert content <= t[|t| - |content|..];
  }

  lemma {:induction false} BeginFound(begin: string, end: string, t: string)
    requires TokensOk(begin, end) && EndsWith(t, begin)
    ensures Open(begin, end, t, begin, 0)
  {
    assert end[..0] == "";
  }

  lemma {:induction false} TracksStep(begin: string, end: string, t: string, s: Scan, c: char)
    requires Tracks(begin, end, t, s)
    ensures Tracks(begin, end, t + [c], Step(begin, end, s, c))
  {
    assert EndsWith(t + [c], begin[..0]);
    if s.inToken {
      OpenGrows(begin, end, t, s.content, s.pos, c);
    } else if c == begin[s.pos] {
      TokenGrows(t, begin, s.pos, c);
      if s.pos + 1 == |begin| {
        assert begin[..|begin|] == begin;
        BeginFound(begin, end, t + [c]);
      }
    }
  }

  lemma {:induction false} SectionsOfLonger(begin: string, end: string, t: string, c: char, found: seq<string>)
    requires AllSections(begin, end, t, found)
    ensures AllSections(begin, end, t + [c], found)
  {
    forall f | f in found ensures PieceOf(f, t + [c]) {
      PieceOfLonger(f, t, [c]);
    }
  }

  lemma {:induction false} ReportsStep(begin: string, end: string, t: string, s: Scan, c: char)
    requires Tracks(begin, end, t, s) && AllSections(begin, end, t, s.found)
    ensures AllSections(begin, end, t + [c], Step(begin, end, s, c).found)
  {
    SectionsOfLonger(begin, end, t, c, s.found);
    if s.inToken && c == end[s.pos] && s.pos + 1 == |end| {
      OpenGrows(begin, end, t, s.content, s.pos, c);
      SectionFound(begin, end, t + [c], s.content + [c]);
    }
  }

  /** The scanner stands behind `t` and has only reported sections. */
  predicate Sound(begin: string, end: string, t: string, s: Scan) {
    Tracks(begin, end, t, s) && AllSections(begin, end, t, s.found)
  }

  lemma {:induction false} SoundStep(begin: string, end: string, t: string, s: Scan, c: char)
    requires Sound(begin, end, t, s)
    ensures Sound(begin, end, t + [c], Step(begin, end, s, c))
  {
    TracksStep(begin, end, t, s, c);
    ReportsStep(begin, end, t, s, c);
  }

  lemma {:induction false} ReportsRun(begin: string, end: string, t: string, s: Scan, u: string, w: string)
    requires Sound(begin, end, t, s) && w == t + u
    ensures AllSections(begin, end, w, Run(begin, end, s, u).found)
    decreases |u|
  {
    if u == "" {
      assert w == t;
    } else {
      var t', s' := t + [u[0]], Step(begin, end, s, u[0]);
      assert w == t' + u[1..];
      assert Sound(begin, end, t', s') by {
        SoundStep(begin, end, t, s, u[0]);
      }
      ReportsRun(begin, end, t', s', u[1..], w);
    }
  }

  /**
   Everything reported is a contiguous part of the input that starts with the begin token and
   ends with the end token.
   */
  lemma {:induction false} ReportsAreSections(begin: string, end: string, t: string)
    requires TokensOk(begin, end)
    ensures AllSections(begin, end, t, Run(begin, end, Start, t).found)
  {
    assert EndsWith("", begin[..0]);
    ReportsRun(begin, end, "", Start, t, t);
    assert "" + t == t;
  }

  // ---------- Completeness

  lemma {:induction false} FirstOf(s: string, t: string, i: nat, k: nat)
    requires i < k <= |t|
    ensures t[i..k] != "" && t[i..k][0] == t[i] && t[i..k][1..] == t[i + 1..k]
    ensures s + [t[i]] + t[i + 1..k] == s + t[i..k]
  {
    assert t[i..k] == [t[i]] + t[i + 1..k];
  }

  lemma {:induction false} RunToken(begin: string, end: string, s: Scan, k: nat)
    requires ScanOk(begin, end, s) && s.pos <= k < |Token(begin, end, s)|
    ensures var token := Token(begin, end, s);
            Run(begin, end, s, token[s.pos..k]) ==
            s.(pos := k, content := if s.inToken then s.content + token[s.pos..k] else s.content)
    decreases k - s.pos
  {
    var token := Token(begin, end, s);
    if s.pos == k {
      assert token[s.pos..k] == "";
      assert s.content + "" == s.content;
    } else {
      var s' := Step(begin, end, s, token[s.pos]);
      RunToken(begin, end, s', k);
      FirstOf(s.content, token, s.pos, k);
    }
  }

  lemma {:induction false} RunWholeToken(begin: string, end: string, s: Scan)
    requires ScanOk(begin, end, s) && s.pos == 0
    ensures Run(begin, end, s, Token(begin, end, s)) ==
            if s.inToken then Scan(false, 0, "", s.found + [s.content + end]) else Scan(true, 0, begin, s.found)
  {
    var token := Token(begin, end, s);
    var k := |token| - 1;
    RunToken(begin, end, s, k);
    assert token == token[0..k] + [token[k]];
    RunSplit(begin, end, s, token[0..k], [token[k]]);
    assert [token[k]][1..] == "";
    assert s.content + token[0..k] + [token[k]] == s.content + token;
  }

  /** Text whose sections are known: each pair is the text before a section and the text inside it. */
  function Marked(begin: string, end: string, parts: seq<(string, string)>): string {
    if parts == [] then "" else parts[0].0 + begin + parts[0].1 + end + Marked(begin, end, parts[1..])
  }

  function Sections(begin: string, end: string, parts: seq<(string, string)>): seq<string> {
    if parts == [] then [] else [begin + parts[0].1 + end] + Sections(begin, end, parts[1..])
  }

  lemma {:induction false} FindsSection(begin: string, end: string, x: string, y: string, found: seq<string>)
    requires TokensOk(begin, end) && begin[0] !in x && end[0] !in y
    ensures Run(begin, end, Start.(found := found), x + begin + y + end) == Start.(found := found + [begin + y + end])
  {
    var s0 := Start.(found := found);
    RunSkip(begin, end, s0, x);
    RunSplit(begin, end, s0, x, begin);
    RunWholeToken(begin, end, s0);
    var s1 := Scan(true, 0, begin, found);
    RunSplit(begin, end, s0, x + begin, y);
    RunSkip(begin, end, s1, y);
    RunSplit(begin, end, s0, x + begin + y, end);
    RunWholeToken(begin, end, s1.(content := begin + y));
  }

  /**
   If the text between sections avoids the first octet of the begin token and the text
   inside them avoids the first octet of the end token, exactly the sections are
   reported, in order.
   */
  lemma {:induction false} FindsEverySection(begin: string, end: string, parts: seq<(string, string)>,
                                             found: seq<string>)
    requires TokensOk(begin, end)
    requires forall p :: p in parts ==> begin[0] !in p.0 && end[0] !in p.1
    ensures Run(begin, end, Start.(found := found), Marked(begin, end, parts))
            == Start.(found := found + Sections(begin, end, parts))
    decreases |parts|
  {
    if parts == [] {
      assert found + [] == found;
    } else {
      var (x, y) := parts[0];
      assert parts[0] in parts;
      FindsSection(begin, end, x, y, found);
      RunSplit(begin, end, Start.(found := found), x + begin + y + end, Marked(begin, end, parts[1..]));
      FindsEverySection(begin, end, parts[1..], found + [begin + y + end]);
      assert found + [begin + y + end] + Sections(begin, end, parts[1..]) == found + Sections(begin, end, parts);
    }
  }
}
