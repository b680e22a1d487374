/** Sending a body in chunks, and reading it back. */
module ChunkCodec {
  import opened Words
  import opened HttpText
  import opened HttpResponse
  import opened HttpFragments

  // ---------- Encoder

  /** `%zx`: lower-case hexadecimal without leading zeros. */
  function Hex(n: nat): string {
    if n < 16 then [HexDigit(n)] else Hex(n / 16) + [HexDigit(n % 16)]
  }

  const LastChunk := "0\r\n\r\n"

  function Chunk(piece: string): string {
    if piece == "" then "" else Hex(|piece|) + "\r\n" + piece + "\r\n"
  }

  function Chunks(pieces: seq<string>): string {
    if pieces == [] then "" else Chunk(pieces[0]) + Chunks(pieces[1..])
  }

  /** What the input callback returns: the next piece, and whether more will follow. */
  datatype Input = Input(piece: string, more: bool)

  class Sender {
    /** Everything appended to the send buffer after the request header. */
    var sendBuffer: string
    var moreData: bool

    constructor ()
      ensures sendBuffer == "" && !moreData
    {
      sendBuffer, moreData := "", false;
    }

    /** The body part of `start_request`: a body of one piece goes out as it is, a longer one in chunks. */
    method StartRequest(input: Input)
      modifies this
      ensures moreData == input.more && sendBuffer == if input.more then Chunk(input.piece) else input.piece
    {
      moreData := input.more;
      sendBuffer := "";
      if |input.piece| > 0 {
        if moreData {
          sendBuffer := sendBuffer + Hex(|input.piece|) + "\r\n";
          sendBuffer := sendBuffer + input.piece;
          sendBuffer := sendBuffer + "\r\n";
        } else {
          sendBuffer := sendBuffer + input.piece;
        }
      }
    }

    method ProcessNextChunk(input: Input)
      modifies this
      ensures moreData == input.more
      ensures input.more ==> sendBuffer == old(sendBuffer) + Chunk(input.piece)
      ensures !input.more ==> sendBuffer == old(sendBuffer) + Chunk(input.piece) + LastChunk
    {
      moreData := input.more;
      if |input.piece| > 0 {
        sendBuffer := sendBuffer + Hex(|input.piece|) + "\r\n";
        sendBuffer := sendBuffer + input.piece;
        sendBuffer := sendBuffer + "\r\n";
      }
      if !moreData {
        sendBuffer := sendBuffer + "0\r\n\r\n";
      }
    }

    /** `send_data` called until the body is out: the input callback yields `pieces` one by one. */
    method SendBody(pieces: seq<string>)
      requires |pieces| >= 1
      modifies this
      ensures !moreData && sendBuffer == if |pieces| == 1 then pieces[0] else Chunks(pieces) + LastChunk
    {
      StartRequest(Input(pieces[0], 1 < |pieces|));
      NextChunks(pieces, 0);
      var i := 1;
      while moreData
        invariant 1 <= i <= |pieces| && moreData == (i < |pieces|)
        invariant moreData ==> sendBuffer == Chunks(pieces[..i])
        invariant !moreData ==> sendBuffer == if |pieces| == 1 then pieces[0] else Chunks(pieces[..i]) + LastChunk
        decreases |pieces| - i
      {
        NextChunks(pieces, i);
        ProcessNextChunk(Input(pieces[i], i + 1 < |pieces|));
        i := i + 1;
      }
      assert pieces[..i] == pieces;
    }
  }

  lemma {:induction false} ChunksSnoc(pieces: seq<string>, last: string)
    ensures Chunks(pieces + [last]) == Chunks(pieces) + Chunk(last)
  {
    if pieces == [] {
      assert Chunks([last]) == Chunk(last) + Chunks([last][1..]);
    } else {
      assert (pieces + [last])[1..] == pieces[1..] + [last];
      ChunksSnoc(pieces[1..], last);
    }
  }

  lemma {:induction false} NextChunks(pieces: seq<string>, i: nat)
    requires i < |pieces|
    ensures Chunks(pieces[..i + 1]) == Chunks(pieces[..i]) + Chunk(pieces[i])
    ensures Chunks(pieces[..0]) == ""
  {
    assert pieces[..i + 1] == pieces[..i] + [pieces[i]];
    ChunksSnoc(pieces[..i], pieces[i]);
  }

  // ---------- Sizes

  /** Nothing but a digit of its value. */
  lemma {:induction false} HexDigitText(n: nat)
    requires n < 16
    ensures var c := HexDigit(n);
            DigitValue(c) == n && c != '\0' && !IsSpace(c) && c != '-' && c != '+' && c != 'x' && c != 'X'
  {
  }

  lemma {:induction false} DigitsOfHex(n: nat, t: string)
    ensures DigitsValue(Hex(n) + t, 16, 0) == DigitsValue(t, 16, n)
    decreases n
  {
    HexDigitText(n % 16);
    if n < 16 {
      assert (Hex(n) + t)[1..] == t;
    } else {
      var d := HexDigit(n % 16);
      assert Hex(n) + t == Hex(n / 16) + ([d] + t);
      DigitsOfHex(n / 16, [d] + t);
      assert ([d] + t)[1..] == t;
    }
  }

  lemma {:induction false} HexText(n: nat, i: nat)
    requires i < |Hex(n)|
    ensures var c := Hex(n)[i];
            DigitValue(c) < 16 && c != '\0' && !IsSpace(c) && c != '-' && c != '+' && c != 'x' && c != 'X'
    ensures i == 0 && n > 0 ==> DigitValue(Hex(n)[i]) > 0
    decreases n
  {
    HexDigitText(n % 16);
    if n >= 16 && i < |Hex(n / 16)| {
      HexText(n / 16, i);
    }
  }

  /** A written size is read back exactly, whatever its magnitude. */
  lemma {:induction false} SizeRoundTrip(n: nat)
    requires 0 < n <= ULONG_MAX
    ensures StrToUl16(Hex(n) + "\r") == n
  {
    var s := Hex(n) + "\r";
    forall i | 0 <= i < |s| ensures s[i] != '\0' {
      if i < |Hex(n)| { HexText(n, i); }
    }
    NoNul(s);
    HexText(n, 0);
    if |Hex(n)| > 1 { HexText(n, 1); }
    DigitsOfHex(n, "\r");
  }

  // ---------- Decoder

  /** At the start of a size line. */
  predicate AtChunk(r: Response) {
    !r.failed && r.headerDone && r.useChunk && r.chunk.phase == ChunkSize && r.line == "" && r.chunk.total <= ULONG_MAX
  }

  /** `r'` is `r` after the chunks that carry `text`. */
  predicate After(r: Response, text: string, r': Response) {
    AtChunk(r') && r' == r.(body := r.body + text, chunk := r'.chunk) && r'.chunk.total == Add64(r.chunk.total, |text|)
  }

  lemma {:induction false} AfterTwo(r: Response, s: string, r1: Response, t: string, r2: Response)
    requires After(r, s, r1) && After(r1, t, r2)
    ensures After(r, s + t, r2)
  {
    assert r.body + s + t == r.body + (s + t);
    Add64Assoc(r.chunk.total, |s|, |t|);
  }

  lemma {:induction false} RunSizeLine(r: Response, size: string)
    requires Ok(r) && AtChunk(r) && '\n' !in size
    ensures Run(r, size + "\r\n") == SizeLine(r, size + "\r")
  {
    var l := size + "\r";
    assert size + "\r\n" == l + "\n";
    RunSplit(r, l, "\n");
    RunLine(r, l);
    assert "" + l == l;
    var r1 := r.(line := l);
    assert Run(r1, "\n") == Run(Step(r1, '\n'), "\n"[1..]);
    assert "\n"[1..] == "";
    assert EndsInCr(l);
  }

  lemma {:induction false} HexHasNoLineFeed(n: nat)
    ensures '\n' !in Hex(n)
  {
    forall i | 0 <= i < |Hex(n)| ensures Hex(n)[i] != '\n' {
      HexText(n, i);
    }
  }

  lemma {:induction false} RunChunk(r: Response, piece: string)
    requires Ok(r) && AtChunk(r) && 0 < |piece| < ULONG_MAX
    ensures Run(r, Chunk(piece))
            == r.(body := r.body + piece, chunk := Chunking(ChunkSize, |piece|, 0, Add64(r.chunk.total, |piece|)))
  {
    var size := Hex(|piece|) + "\r\n";
    assert Chunk(piece) == size + (piece + "\r\n");
    RunSplit(r, size, piece + "\r\n");
    HexHasNoLineFeed(|piece|);
    RunSizeLine(r, Hex(|piece|));
    SizeRoundTrip(|piece|);
    var r1 := SizeLine(r, Hex(|piece|) + "\r");
    RunSplit(r1, piece, "\r\n");
    RunData(r1, piece);
    var r2 := Data(r1, piece);
    assert "\r\n"[1..] == "\n" && "\n"[1..] == "";
    assert Run(r2, "\r\n") == Run(Step(r2, '\r'), "\n") == Run(Step(Step(r2, '\r'), '\n'), "");
  }

  lemma {:induction false} RunPiece(r: Response, piece: string)
    requires Ok(r) && AtChunk(r) && |piece| < ULONG_MAX
    ensures After(r, piece, Run(r, Chunk(piece)))
  {
    if piece == "" {
      assert r.body + piece == r.body;
    } else {
      RunChunk(r, piece);
    }
  }

  lemma {:induction false} RunChunks(r: Response, pieces: seq<string>)
    requires Ok(r) && AtChunk(r) && forall p :: p in pieces ==> |p| < ULONG_MAX
    ensures After(r, Flatten(pieces), Run(r, Chunks(pieces)))
    decreases |pieces|
  {
    if pieces == [] {
      RunPiece(r, "");
    } else {
      var p := pieces[0];
      RunSplit(r, Chunk(p), Chunks(pieces[1..]));
      RunPiece(r, p);
      var r1 := Run(r, Chunk(p));
      RunChunks(r1, pieces[1..]);
      AfterTwo(r, p, r1, Flatten(pieces[1..]), Run(r1, Chunks(pieces[1..])));
    }
  }

  lemma {:induction false} ZeroSize()
    ensures StrToUl16("0\r") == 0
  {
    var l := "0\r";
    assert CStr(l) == l by {
      NoNul(l);
    }
    assert SkipSpace(l) == l && DropSign(l) == l && !HasHexPrefix(l);
    assert l[1..] == "\r" && DigitsValue("\r", 16, 0) == 0;
  }

  lemma {:induction false} RunLastChunk(r: Response)
    requires Ok(r) && AtChunk(r)
    ensures Run(r, LastChunk) == r.(chunk := Chunking(ChunkData, 0, 0, r.chunk.total))
  {
    assert LastChunk == "0" + "\r\n" + "\r\n";
    RunSplit(r, "0" + "\r\n", "\r\n");
    RunSizeLine(r, "0");
    assert "0" + "\r" == "0\r";
    ZeroSize();
    RunDone(SizeLine(r, "0\r"), "\r\n");
  }

  /**
   Chunked round trip: whatever pieces the sender put on the wire and however they
   arrive, as long as no size line is cut between CR and LF, the reader delivers exactly
   their concatenation, counts it, reports no error and ignores what follows.
   */
  lemma {:induction false} ChunkedRoundTrip(r: Response, pieces: seq<string>, fragments: seq<string>)
    requires Ok(r) && AtChunk(r) && forall p :: p in pieces ==> |p| < ULONG_MAX
    requires Flatten(fragments) == Chunks(pieces) + LastChunk
    requires NoLineEndCut(r, fragments)
    ensures var r' := FeedAll(r, fragments);
            && r'.body == r.body + Flatten(pieces)
            && r'.chunk.total == Add64(r.chunk.total, |Flatten(pieces)|)
            && !r'.failed
            && InData(r') && r'.chunk.size == 0
  {
    FeedAllIsRun(r, fragments);
    RunSplit(r, Chunks(pieces), LastChunk);
    RunChunks(r, pieces);
    RunLastChunk(Run(r, Chunks(pieces)));
  }
}
