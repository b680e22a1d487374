/**
 An HTTP response read one octet at a time. This is the reference for the batched
 reader of module `WebSession`.
 */
module HttpResponse {
  import opened Words
  import opened HttpText

  datatype Phase = ChunkSize | ChunkRBody | ChunkNBody | ChunkData

  datatype Chunking = Chunking(phase: Phase, size: nat, left: nat, total: nat)

  datatype Head = Head(status: u16, lastKey: Option<string>, headers: map<string, string>)

  /**
   `line` is the header or size line read so far (empty once the response has failed);
   `body` is the concatenation of everything handed to the result callback.
   */
  datatype Response = Response(
    line: string, headerDone: bool, useChunk: bool, chunk: Chunking, head: Head, body: string, failed: bool)

  const Fresh := Response("", false, false, Chunking(ChunkSize, 0, 0, 0), Head(0, None, map[]), "", false)

  /** What holds between fragments. */
  predicate Ok(r: Response) {
    && (r.failed ==> r.line == "")
    && (r.useChunk ==> r.headerDone)
    && (r.useChunk && (r.chunk.phase == ChunkRBody || r.chunk.phase == ChunkNBody) ==> r.line == "")
    && (r.useChunk && r.chunk.phase == ChunkData && r.chunk.size > 0 ==> r.chunk.left > 0)
  }

  function Fail(r: Response): Response {
    r.(line := "", failed := true)
  }

  // ---------- Header lines

  function SkipBlanks(s: string): string {
    if s != "" && s[0] == ' ' then SkipBlanks(s[1..]) else s
  }

  function SkipBlanksAndTabs(s: string): string {
    if s != "" && (s[0] == ' ' || s[0] == '\t') then SkipBlanksAndTabs(s[1..]) else s
  }

  function AddHeaderField(h: Head, l: string): Head {
    match IndexOf(l, ':')
    case None => h
    case Some(i) => StoreField(h, CStr(l[..i]), SkipBlanks(l[i + 1..]))
  }

  /** A field that is there already gets longer. */
  function StoreField(h: Head, key: string, text: string): Head {
    var value := if key in h.headers then h.headers[key] + "; " + text else text;
    Head(h.status, Some(key), h.headers[key := CStr(value)])
  }

  function HandleMultiLine(h: Head, l: string): Head {
    if h.lastKey.None? || h.lastKey.value !in h.headers || SkipBlanksAndTabs(l) == l then h
    else
      var key := h.lastKey.value;
      h.(headers := h.headers[key := CStr(h.headers[key] + " " + SkipBlanksAndTabs(l))])
  }

  function ScanStatusLine(h: Head, l: string): Head {
    var code := ScanStatus(l);
    if h.status == 0 && code.Some? then h.(status := code.value % 0x1_0000) else h
  }

  /** One complete, non-empty header line without its line end. */
  function HeaderLine(h: Head, l: string): Head
    requires l != ""
  {
    var h' := ScanStatusLine(h, l);
    if l[0] == ' ' || l[0] == '\t' then HandleMultiLine(h', l) else AddHeaderField(h', l)
  }

  /** The empty line that ends the header. */
  function EndOfHeader(r: Response): Response {
    if IsChunked(r.head) then
      r.(line := "", headerDone := true, useChunk := true, chunk := Chunking(ChunkSize, r.chunk.size, 0, 0))
    else
      r.(line := "", headerDone := true)
  }

  predicate IsChunked(h: Head) {
    "Transfer-Encoding" in h.headers && Contains(h.headers["Transfer-Encoding"], "chunked")
  }

  function LineDone(r: Response, l: string): Response {
    if l == "" then EndOfHeader(r) else r.(line := "", head := HeaderLine(r.head, l))
  }

  predicate EndsInCr(s: string) {
    s != "" && s[|s| - 1] == '\r'
  }

  function DropCr(s: string): string {
    if EndsInCr(s) then s[..|s| - 1] else s
  }

  // ---------- Chunks

  function SizeLine(r: Response, l: string): Response {
    var n := StrToUl16(l);
    if n == ULONG_MAX then Fail(r)
    else r.(line := l, chunk := Chunking(ChunkData, n, n, r.chunk.total))
  }

  function Add64(a: nat, b: nat): nat {
    (a + b) % 0x1_0000_0000_0000_0000
  }

  /** `t` is chunk data, no longer than what is left of the chunk. */
  function Data(r: Response, t: string): Response
    requires |t| <= r.chunk.left
  {
    var total := Add64(r.chunk.total, |t|);
    if |t| == r.chunk.left then
      r.(line := "", body := r.body + t, chunk := Chunking(ChunkRBody, r.chunk.size, 0, total))
    else
      r.(body := r.body + t, chunk := Chunking(r.chunk.phase, r.chunk.size, r.chunk.left - |t|, total))
  }

  function ChunkStep(r: Response, c: char): Response
    requires Ok(r) && r.useChunk
  {
    match r.chunk.phase
    case ChunkSize =>
      if c != '\n' then r.(line := r.line + [c])
      else if EndsInCr(r.line) then SizeLine(r, r.line)
      else Fail(r)
    case ChunkRBody => if c == '\r' then r.(chunk := r.chunk.(phase := ChunkNBody)) else Fail(r)
    case ChunkNBody => if c == '\n' then r.(chunk := r.chunk.(phase := ChunkSize)) else Fail(r)
    case ChunkData => if r.chunk.size == 0 then r.(line := "") else Data(r, [c])
  }

  // ---------- The automaton

  /** Reading a header line or a chunk-size line. */
  predicate InLine(r: Response) {
    !r.headerDone || (r.useChunk && r.chunk.phase == ChunkSize)
  }

  function Step(r: Response, c: char): (r': Response)
    requires Ok(r)
    ensures Ok(r')
  {
    if r.failed then r
    else if !r.headerDone then
      if c != '\n' then r.(line := r.line + [c]) else LineDone(r, DropCr(r.line))
    else if !r.useChunk then r.(body := r.body + [c])
    else ChunkStep(r, c)
  }

  function Run(r: Response, t: string): (r': Response)
    requires Ok(r)
    ensures Ok(r')
    decreases |t|
  {
    if t == "" then r else Run(Step(r, t[0]), t[1..])
  }

  /**
   The first octet of a read: a CR that arrived in the previous read is not recognised,
   so a line feed here ends a header line that keeps its CR, and breaks a size line.
   */
  function First(r: Response, c: char): (r': Response)
    requires Ok(r)
    ensures Ok(r')
  {
    if r.failed || c != '\n' || !InLine(r) then Step(r, c)
    else if !r.headerDone then LineDone(r, r.line)
    else Fail(r)
  }

  /** One read. */
  function Feed(r: Response, fragment: string): (r': Response)
    requires Ok(r)
    ensures Ok(r')
  {
    if fragment == "" then r else Run(First(r, fragment[0]), fragment[1..])
  }

  // ---------- Batches

  lemma {:induction false} RunSplit(r: Response, s: string, t: string)
    requires Ok(r)
    ensures Run(r, s + t) == Run(Run(r, s), t)
    decreases |s|
  {
    if s == "" {
      assert s + t == t;
    } else {
      assert (s + t)[1..] == s[1..] + t;
      RunSplit(Step(r, s[0]), s[1..], t);
    }
  }

  lemma {:induction false} RunFailed(r: Response, t: string)
    requires Ok(r) && r.failed
    ensures Run(r, t) == r
    decreases |t|
  {
    if t != "" {
      RunFailed(r, t[1..]);
    }
  }

  lemma {:induction false} RunLine(r: Response, t: string)
    requires Ok(r) && !r.failed && InLine(r) && '\n' !in t
    ensures Run(r, t) == r.(line := r.line + t)
    decreases |t|
  {
    if t == "" {
      assert r.line + t == r.line;
    } else {
      var r' := Step(r, t[0]);
      assert r' == r.(line := r.line + [t[0]]);
      RunLine(r', t[1..]);
      assert r'.line + t[1..] == r.line + t;
    }
  }

  lemma {:induction false} RunPlainBody(r: Response, t: string)
    requires Ok(r) && !r.failed && r.headerDone && !r.useChunk
    ensures Run(r, t) == r.(body := r.body + t)
    decreases |t|
  {
    if t == "" {
      assert r.body + t == r.body;
    } else {
      var r' := Step(r, t[0]);
      RunPlainBody(r', t[1..]);
      assert r'.body + t[1..] == r.body + t;
    }
  }

  predicate InData(r: Response) {
    !r.failed && r.headerDone && r.useChunk && r.chunk.phase == ChunkData
  }

  lemma {:induction false} RunData(r: Response, t: string)
    requires Ok(r) && InData(r) && r.chunk.size > 0 && 0 < |t| <= r.chunk.left && r.chunk.total <= ULONG_MAX
    ensures Run(r, t) == Data(r, t)
    decreases |t|
  {
    var r' := Step(r, t[0]);
    assert r' == Data(r, [t[0]]);
    if |t| == 1 {
      assert t == [t[0]];
    } else {
      RunData(r', t[1..]);
      assert r'.body + t[1..] == r.body + t;
      Add64Assoc(r.chunk.total, 1, |t| - 1);
    }
  }

  /** A whole batch of chunk data at once. */
  lemma {:induction false} RunDataBatch(r: Response, buf: string, n: nat)
    requires Ok(r) && InData(r) && r.chunk.size > 0 && 0 < n <= |buf| && n <= r.chunk.left && r.chunk.total <= ULONG_MAX
    ensures Ok(Data(r, buf[..n])) && Run(r, buf) == Run(Data(r, buf[..n]), buf[n..])
  {
    RunData(r, buf[..n]);
    assert buf == buf[..n] + buf[n..];
    RunSplit(r, buf[..n], buf[n..]);
  }

  lemma {:induction false} Add64Assoc(a: nat, b: nat, c: nat)
    ensures Add64(Add64(a, b), c) == Add64(a, b + c)
  {
  }

  lemma {:induction false} RunDone(r: Response, t: string)
    requires Ok(r) && InData(r) && r.chunk.size == 0 && t != ""
    ensures Run(r, t) == r.(line := "")
    decreases |t|
  {
    if |t| > 1 {
      RunDone(Step(r, t[0]), t[1..]);
    }
  }

  /** What the line feed after `t` does, when `t` and the line feed arrive in the same read. */
  function LineEnd(r: Response, t: string): (r': Response)
    requires Ok(r) && !r.failed && InLine(r) && '\n' !in t
    ensures Ok(r')
  {
    if t == "" then First(r, '\n') else Step(r.(line := r.line + t), '\n')
  }

  lemma {:induction false} LineDoneIgnoresLine(r: Response, a: string, l: string)
    ensures LineDone(r.(line := a), l) == LineDone(r, l)
  {
  }

  /** In the header, the text that a read adds to the line loses a CR at its end. */
  lemma {:induction false} HeaderLineEnd(r: Response, t: string)
    requires Ok(r) && !r.failed && !r.headerDone && '\n' !in t
    ensures var l := r.line + (if EndsInCr(t) then t[..|t| - 1] else t);
            LineEnd(r, t) == LineDone(r.(line := l), l)
  {
    var l := r.line + (if EndsInCr(t) then t[..|t| - 1] else t);
    LineDoneIgnoresLine(r, l, l);
    LineDoneIgnoresLine(r, r.line + t, l);
    if t == "" {
      assert l == r.line;
    } else {
      assert DropCr(r.line + t) == l;
    }
  }

  lemma {:induction false} FeedNoLineEnd(r: Response, t: string)
    requires Ok(r) && !r.failed && InLine(r) && '\n' !in t
    ensures Feed(r, t) == r.(line := r.line + t)
  {
    RunLine(r, t);
    if t == "" {
      assert r.line + t == r.line;
    } else {
      assert t[0] in t;
    }
  }

  lemma {:induction false} FeedLineEnd(r: Response, t: string, rest: string)
    requires Ok(r) && !r.failed && InLine(r) && '\n' !in t
    ensures Feed(r, t + "\n" + rest) == Run(LineEnd(r, t), rest)
  {
    var all := t + "\n" + rest;
    if t == "" {
      assert all[1..] == rest;
    } else {
      assert t[0] in t && all[0] == t[0];
      assert Feed(r, all) == Run(r, all);
      assert all == t + ("\n" + rest);
      RunSplit(r, t, "\n" + rest);
      RunLine(r, t);
      assert ("\n" + rest)[1..] == rest;
    }
  }

  /** A header line that ends in this read. */
  lemma {:induction false} FeedHeaderLine(r: Response, t: string, rest: string, buf: string, l: string)
    requires Ok(r) && !r.failed && !r.headerDone && '\n' !in t && buf == t + "\n" + rest
    requires l == r.line + if EndsInCr(t) then t[..|t| - 1] else t
    ensures Ok(LineDone(r.(line := l), l)) && Feed(r, buf) == Run(LineDone(r.(line := l), l), rest)
  {
    FeedLineEnd(r, t, rest);
    HeaderLineEnd(r, t);
  }

  /** A size line that ends in this read. */
  lemma {:induction false} FeedSizeLine(r: Response, t: string, rest: string, buf: string)
    requires Ok(r) && !r.failed && r.headerDone && r.useChunk && r.chunk.phase == ChunkSize && '\n' !in t
    requires buf == t + "\n" + rest
    ensures !EndsInCr(t) ==> Feed(r, buf) == Fail(r)
    ensures EndsInCr(t) ==>
              var r' := SizeLine(r.(line := r.line + t), r.line + t);
              Ok(r') && Feed(r, buf) == if r'.failed then r' else Run(r', rest)
  {
    FeedLineEnd(r, t, rest);
    if !EndsInCr(t) {
      RunFailed(Fail(r), rest);
    } else {
      var r' := SizeLine(r.(line := r.line + t), r.line + t);
      if r'.failed {
        RunFailed(r', rest);
      }
    }
  }

  /**
   A read that does not start with the line feed of a CR already received is read as if it
   continued the previous one.
   */
  lemma {:induction false} FeedIsRun(r: Response, fragment: string)
    requires Ok(r)
    requires fragment != "" && fragment[0] == '\n' && InLine(r) ==> !EndsInCr(r.line)
    ensures Feed(r, fragment) == Run(r, fragment)
  {
    if fragment != "" && fragment[0] == '\n' && InLine(r) && !r.headerDone {
      assert DropCr(r.line) == r.line;
    }
  }
}
