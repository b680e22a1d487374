/**
 The receiving side of a web session: reads of any size are consumed in batches. Each
 method is proved equal to feeding the same octets to the automaton of `HttpResponse`.
 */
module WebSession {
  import opened Words
  import opened HttpText
  import opened HttpResponse

  class Session {
    var currentHeader: string
    var headerDone: bool
    var chunkState: Phase
    var chunkSize: nat
    var chunkLeft: nat
    var totalLen: nat
    var useChunk: bool
    var status: u16
    var lastKey: Option<string>
    var headers: map<string, string>
    /** Everything handed to the result callback, in order. */
    var delivered: string
    /** The response was reported as broken; no further read happens. */
    var failed: bool

    ghost function State(): Response
      reads this
    {
      Response(if failed then "" else currentHeader, headerDone, useChunk,
               Chunking(chunkState, chunkSize, chunkLeft, totalLen), Fields(), delivered, failed)
    }

    ghost function Fields(): Head
      reads this
    {
      Head(status, lastKey, headers)
    }

    ghost predicate Valid()
      reads this
    {
      Ok(State()) && totalLen <= ULONG_MAX
    }

    constructor ()
      ensures Valid() && State() == Fresh
    {
      currentHeader, headerDone, useChunk, failed := "", false, false, false;
      chunkState, chunkSize, chunkLeft, totalLen := ChunkSize, 0, 0, 0;
      status, lastKey, headers, delivered := 0, None, map[], "";
    }

    /** Reads up to the end of the size line. `more` is false when decoding stops here. */
    method ReadSizeLine(buf: string) returns (more: bool, rest: string)
      requires Valid() && !failed && headerDone && useChunk && chunkState == ChunkSize && buf != ""
      modifies `currentHeader, `chunkState, `chunkSize, `chunkLeft, `failed
      ensures Valid()
      ensures !more ==> State() == Feed(old(State()), buf)
      ensures more ==>
                && |rest| < |buf| && !failed && chunkState == ChunkData
                && Run(State(), rest) == Feed(old(State()), buf)
    {
      ghost var r := State();
      var pos := IndexOf(buf, '\n');
      if pos.None? {
        FeedNoLineEnd(r, buf);
        currentHeader := currentHeader + buf;
        return false, "";
      }
      var line := buf[..pos.value];
      rest := buf[pos.value + 1..];
      assert buf == line + "\n" + rest;
      FeedSizeLine(r, line, rest, buf);
      more := EndSizeLine(line);
    }

    /** `line` is the rest of the size line, without its line feed. */
    method EndSizeLine(line: string) returns (more: bool)
      requires Valid() && !failed && headerDone && useChunk && chunkState == ChunkSize
      modifies `currentHeader, `chunkState, `chunkSize, `chunkLeft, `failed
      ensures Valid() && more == !failed && (more ==> chunkState == ChunkData)
      ensures State() ==
              var r := old(State());
              if EndsInCr(line) then SizeLine(r.(line := r.line + line), r.line + line) else Fail(r)
    {
      if line == "" || line[|line| - 1] != '\r' {
        failed := true;
        return false;
      }
      currentHeader := currentHeader + line;
      more := ParseSize();
    }

    /** The complete size line is in `currentHeader`. */
    method ParseSize() returns (ok: bool)
      requires Valid() && !failed && headerDone && useChunk && chunkState == ChunkSize
      modifies `chunkState, `chunkSize, `chunkLeft, `failed
      ensures Valid() && State() == SizeLine(old(State()), currentHeader)
      ensures ok == !failed && (ok ==> chunkState == ChunkData)
    {
      var counter := StrToUl16(currentHeader);
      if counter == ULONG_MAX {
        failed := true;
        return false;
      }
      chunkSize, chunkLeft := counter, counter;
      chunkState := ChunkData;
      return true;
    }

    /** Delivers chunk data, at most to the end of the chunk. */
    method ReadData(buf: string) returns (rest: string)
      requires Valid() && InData(State()) && chunkSize > 0 && buf != ""
      modifies `currentHeader, `chunkState, `chunkLeft, `totalLen, `delivered
      ensures Valid() && !failed && |rest| < |buf|
      ensures Run(State(), rest) == Run(old(State()), buf)
      ensures chunkState == ChunkRBody || (chunkState == ChunkData && rest == "")
    {
      var n := if chunkLeft <= |buf| then chunkLeft else |buf|;
      RunDataBatch(State(), buf, n);
      rest := buf[n..];
      delivered := delivered + buf[..n];
      totalLen := (totalLen + n) % 0x1_0000_0000_0000_0000;
      chunkLeft := chunkLeft - n;
      if chunkLeft == 0 {
        currentHeader := "";
        chunkState := ChunkRBody;
      }
    }

    /** `decode_chunked`: `failed` stands for the result `-EILSEQ`. */
    method DecodeChunked(buf: string)
      requires Valid() && !failed && headerDone && useChunk
      modifies `currentHeader, `chunkState, `chunkSize, `chunkLeft, `totalLen, `delivered, `failed
      ensures Valid()
      ensures State() == Feed(old(State()), buf)
    {
      ghost var all := Feed(State(), buf);
      var rest := buf;
      while rest != ""
        invariant Valid() && !failed
        invariant all == Feed(State(), rest)
        decreases |rest|
      {
        match chunkState {
          case ChunkSize =>
            var more;
            more, rest := ReadSizeLine(rest);
            if !more {
              return;
            }
          case ChunkRBody =>
            if rest[0] != '\r' {
              failed := true;
              RunFailed(State(), rest[1..]);
              return;
            }
            chunkState := ChunkNBody;
            rest := rest[1..];
          case ChunkNBody =>
            if rest[0] != '\n' {
              failed := true;
              RunFailed(State(), rest[1..]);
              return;
            }
            chunkState := ChunkSize;
            rest := rest[1..];
          case ChunkData =>
            if chunkSize == 0 {
              RunDone(State(), rest);
              currentHeader := "";
              return;
            }
            rest := ReadData(rest);
        }
        FeedIsRun(State(), rest);
      }
    }

    method HandleBody(buf: string)
      requires Valid() && !failed && headerDone
      modifies `currentHeader, `chunkState, `chunkSize, `chunkLeft, `totalLen, `delivered, `failed
      ensures Valid()
      ensures State() == Feed(old(State()), buf)
    {
      if !useChunk {
        RunPlainBody(State(), buf);
        assert delivered + "" == delivered;
        delivered := delivered + buf;
        return;
      }
      DecodeChunked(buf);
    }

    /** Folds a continuation line into the field added last. */
    method HandleMultiLine()
      requires currentHeader != ""
      modifies `headers
      ensures Fields() == HttpResponse.HandleMultiLine(old(Fields()), currentHeader)
    {
      if lastKey.None? || (currentHeader[0] != ' ' && currentHeader[0] != '\t') {
        return;
      }
      var str := currentHeader;
      while str != "" && (str[0] == ' ' || str[0] == '\t')
        invariant |str| <= |currentHeader|
        invariant SkipBlanksAndTabs(currentHeader) == SkipBlanksAndTabs(str)
        invariant str == currentHeader || |str| < |currentHeader|
        decreases |str|
      {
        str := str[1..];
      }
      if lastKey.value in headers {
        headers := headers[lastKey.value := CStr(headers[lastKey.value] + " " + str)];
      }
    }

    method AddHeaderField()
      modifies `headers, `lastKey
      ensures Fields() == HttpResponse.AddHeaderField(old(Fields()), currentHeader)
    {
      var pos := IndexOf(currentHeader, ':');
      if pos.None? {
        return;
      }
      var key := CStr(currentHeader[..pos.value]);
      var str := currentHeader[pos.value + 1..];
      while str != "" && str[0] == ' '
        invariant SkipBlanks(currentHeader[pos.value + 1..]) == SkipBlanks(str)
        decreases |str|
      {
        str := str[1..];
      }
      if key in headers {
        str := headers[key] + "; " + str;
      }
      headers := headers[key := CStr(str)];
      lastKey := Some(key);
    }

    method ReadStatus()
      modifies `status
      ensures Fields() == ScanStatusLine(old(Fields()), currentHeader)
    {
      if status == 0 {
        var code := ScanStatus(currentHeader);
        if code.Some? {
          status := code.value % 0x1_0000;
        }
      }
    }

    /** A complete header line, without its line end, is in `currentHeader`. */
    method ProcessLine()
      requires Valid() && !failed && !headerDone
      modifies this
      ensures Valid() && !failed
      ensures currentHeader == "" && State() == LineDone(old(State()), old(currentHeader))
    {
      if currentHeader == "" {
        headerDone := true;
        if "Transfer-Encoding" in headers && Contains(headers["Transfer-Encoding"], "chunked") {
          useChunk := true;
          chunkState, chunkLeft, totalLen := ChunkSize, 0, 0;
        }
        return;
      }
      ReadStatus();
      if currentHeader[0] == ' ' || currentHeader[0] == '\t' {
        HandleMultiLine();
      } else {
        AddHeaderField();
      }
      currentHeader := "";
    }

    /** Reads up to the end of a header line. `more` is false when the read ends inside the line. */
    method ReadHeaderLine(buf: string) returns (more: bool, rest: string)
      requires Valid() && !failed && !headerDone && buf != ""
      modifies this
      ensures Valid() && !failed
      ensures !more ==> State() == Feed(old(State()), buf)
      ensures more ==> |rest| < |buf| && currentHeader == "" && Run(State(), rest) == Feed(old(State()), buf)
    {
      ghost var r := State();
      var pos := IndexOf(buf, '\n');
      if pos.None? {
        FeedNoLineEnd(r, buf);
        currentHeader := currentHeader + buf;
        return false, "";
      }
      var count := pos.value;
      ghost var line := buf[..count];
      rest := buf[count + 1..];
      assert buf == line + "\n" + rest;
      if count > 0 && buf[count - 1] == '\r' {
        count := count - 1;
      }
      assert buf[..count] == if EndsInCr(line) then line[..|line| - 1] else line;
      currentHeader := currentHeader + buf[..count];
      FeedHeaderLine(r, line, rest, buf, currentHeader);
      ProcessLine();
      return true, rest;
    }

    /** `received_data_continue`: one read, of any length, at any point of the response. */
    method ReceivedDataContinue(buf: string)
      requires Valid() && !failed
      modifies this
      ensures Valid()
      ensures State() == Feed(old(State()), buf)
    {
      ghost var all := Feed(State(), buf);
      var rest := buf;
      while !headerDone && rest != ""
        invariant Valid() && !failed
        invariant all == Feed(State(), rest)
        decreases |rest|
      {
        var more;
        more, rest := ReadHeaderLine(rest);
        if !more {
          return;
        }
        FeedIsRun(State(), rest);
      }
      if headerDone {
        HandleBody(rest);
      }
    }
  }
}
