/** What happens when a read ends between the CR and the LF of a line. */
module HttpCuts {
  import opened Words
  import opened HttpText
  import opened HttpResponse
  import opened HttpFragments

  /** A cut inside the line end of a size line breaks the response, and is harmless iff the size was unusable anyway. */
  lemma {:induction false} CutInSizeLine(r: Response)
    requires Ok(r) && !r.failed && r.headerDone && r.useChunk && r.chunk.phase == ChunkSize && EndsInCr(r.line)
    ensures Feed(r, "\n").failed
    ensures Feed(r, "\n") == Run(r, "\n") <==> StrToUl16(r.line) == ULONG_MAX
  {
    assert "\n"[1..] == "";
    assert Run(Step(r, '\n'), "") == Step(r, '\n');
  }

  lemma {:induction false} LineFeedAlone(r: Response)
    requires Ok(r) && !r.failed && !r.headerDone
    ensures Run(r, "\n") == LineDone(r, DropCr(r.line))
    ensures Feed(r, "\n") == LineDone(r, r.line)
  {
    assert "\n"[1..] == "";
    assert Run(Step(r, '\n'), "") == Step(r, '\n');
  }

  /** A cut inside the empty line loses the end of the header. */
  lemma {:induction false} CutInEmptyLine(r: Response)
    requires Ok(r) && !r.failed && !r.headerDone && r.line == "\r"
    ensures Run(r, "\n").headerDone && !Feed(r, "\n").headerDone
  {
    LineFeedAlone(r);
    assert DropCr("\r") == "";
  }

  // ---------- Header lines

  /** Stored values are C strings, and the last field added is one of them. */
  predicate HeadOk(h: Head) {
    && (forall k :: k in h.headers ==> '\0' !in h.headers[k])
    && (h.lastKey.Some? ==> h.lastKey.value in h.headers)
  }

  lemma {:induction false} CStrHasNoNul(s: string)
    ensures '\0' !in CStr(s)
  {
    if s != "" && s[0] != '\0' {
      CStrHasNoNul(s[1..]);
    }
  }

  /** Text after a NUL is lost, and without one all text is kept. */
  lemma {:induction false} CStrAppend(s: string, t: string)
    ensures '\0' in s ==> CStr(s + t) == CStr(s)
    ensures '\0' !in s ==> CStr(s) == s && CStr(s + t) == s + CStr(t)
  {
    if s == "" {
      assert s + t == t;
    } else {
      assert (s + t)[1..] == s[1..] + t;
      if s[0] != '\0' {
        CStrAppend(s[1..], t);
        assert '\0' in s ==> '\0' in s[1..];
      }
    }
  }

  /** A CR at the end of a text is part of the C string exactly if there is no NUL before it. */
  lemma {:induction false} CStrOfCr(s: string)
    ensures CStr(s + "\r") == (if '\0' in s then CStr(s) else CStr(s) + "\r")
  {
    CStrAppend(s, "\r");
    assert CStr("\r") == ['\r'] + CStr("\r"[1..]) && "\r"[1..] == "" && CStr("") == "";
  }

  lemma {:induction false} SkipBlanksCr(s: string)
    ensures SkipBlanks(s + "\r") == SkipBlanks(s) + "\r"
    ensures '\0' in SkipBlanks(s) <==> '\0' in s
  {
    if s != "" {
      assert (s + "\r")[1..] == s[1..] + "\r";
      if s[0] == ' ' {
        SkipBlanksCr(s[1..]);
        assert s == [' '] + s[1..];
      }
    }
  }

  lemma {:induction false} SkipBlanksAndTabsCr(s: string)
    ensures SkipBlanksAndTabs(s + "\r") == SkipBlanksAndTabs(s) + "\r"
    ensures '\0' in SkipBlanksAndTabs(s) <==> '\0' in s
    ensures |SkipBlanksAndTabs(s)| <= |s|
  {
    if s != "" {
      assert (s + "\r")[1..] == s[1..] + "\r";
      if s[0] == ' ' || s[0] == '\t' {
        SkipBlanksAndTabsCr(s[1..]);
        assert s == [s[0]] + s[1..];
      }
    }
  }

  /** A CR added to the text after the stored value `v` stays in the value exactly if no NUL precedes it. */
  lemma {:induction false} ValueCr(v: string, x: string)
    requires '\0' !in v
    ensures CStr(v + (x + "\r")) == (if '\0' in x then CStr(v + x) else CStr(v + x) + "\r")
  {
    assert v + (x + "\r") == v + x + "\r";
    CStrOfCr(v + x);
  }

  // The status line

  lemma {:induction false} SkipSpaceCr(s: string)
    ensures SkipSpace(s + "\r") == (if SkipSpace(s) == "" then "" else SkipSpace(s) + "\r")
  {
    if s == "" {
      assert s + "\r" == "\r" && "\r"[1..] == "";
      assert SkipSpace("\r") == SkipSpace("\r"[1..]);
    } else {
      assert (s + "\r")[1..] == s[1..] + "\r";
      if IsSpace(s[0]) {
        SkipSpaceCr(s[1..]);
      }
    }
  }

  lemma {:induction false} SkipNonSpaceCr(s: string)
    ensures SkipNonSpace(s + "\r") == SkipNonSpace(s) + "\r"
  {
    if s != "" {
      assert (s + "\r")[1..] == s[1..] + "\r";
      if !IsSpace(s[0]) {
        SkipNonSpaceCr(s[1..]);
      }
    }
  }

  lemma {:induction false} DigitsValueCr(s: string, acc: nat)
    ensures DigitsValue(s + "\r", 10, acc) == DigitsValue(s, 10, acc)
  {
    if s == "" {
      assert s + "\r" == "\r";
    } else {
      assert (s + "\r")[1..] == s[1..] + "\r";
      if DigitValue(s[0]) < 10 {
        DigitsValueCr(s[1..], acc * 10 + DigitValue(s[0]));
      }
    }
  }

  /** What follows the protocol version: an optional sign and digits. */
  function StatusNumber(number: string): Option<u32> {
    var digits := DropSign(number);
    if digits == "" || DigitValue(digits[0]) >= 10 then None
    else Some(Unsigned64(number != digits && number[0] == '-', DigitsValue(digits, 10, 0)) % 0x1_0000_0000)
  }

  lemma {:induction false} StatusNumberCr(number: string)
    requires number != ""
    ensures StatusNumber(number + "\r") == StatusNumber(number)
  {
    var digits := DropSign(number);
    assert DropSign(number + "\r") == digits + "\r";
    DigitsValueCr(digits, 0);
    if digits == "" {
      assert (digits + "\r")[0] == '\r';
    }
  }

  function StatusAfterVersion(t: string): Option<u32> {
    var word := SkipSpace(t);
    if word == "" then None else StatusNumber(SkipSpace(SkipNonSpace(word)))
  }

  lemma {:induction false} StatusAfterVersionCr(t: string)
    ensures StatusAfterVersion(t + "\r") == StatusAfterVersion(t)
  {
    SkipSpaceCr(t);
    var word := SkipSpace(t);
    if word != "" {
      SkipNonSpaceCr(word);
      SkipSpaceCr(SkipNonSpace(word));
      var number := SkipSpace(SkipNonSpace(word));
      if number != "" {
        StatusNumberCr(number);
      }
    }
  }

  /** A CR at the end does not change what is read as the status. */
  lemma {:induction false} ScanStatusCr(s: string)
    ensures ScanStatus(s + "\r") == ScanStatus(s)
  {
    CStrOfCr(s);
    var t := CStr(s);
    if '\0' !in s {
      assert "HTTP/" <= t ==> "HTTP/" <= t + "\r";
      if "HTTP/" <= t + "\r" {
        HttpPrefix(t);
        assert (t + "\r")[5..] == t[5..] + "\r";
        StatusAfterVersionCr(t[5..]);
        assert ScanStatus(s) == StatusAfterVersion(t[5..]);
        assert ScanStatus(s + "\r") == StatusAfterVersion(t[5..] + "\r");
      }
    }
  }

  lemma {:induction false} HttpPrefix(t: string)
    requires "HTTP/" <= t + "\r"
    ensures "HTTP/" <= t
  {
    assert "HTTP/"[4] == (t + "\r")[4] && (t + "\r")[|t|] == '\r';
  }

  // Fields

  lemma {:induction false} IndexOfCr(l: string)
    ensures IndexOf(l + "\r", ':') == IndexOf(l, ':')
  {
    if l == "" {
      assert l + "\r" == "\r" && "\r"[1..] == "";
    } else {
      assert (l + "\r")[1..] == l[1..] + "\r";
      if l[0] != ':' {
        IndexOfCr(l[1..]);
      }
    }
  }

  /** Whether a header line is a continuation of the field before it. */
  predicate Continues(l: string) {
    l != "" && (l[0] == ' ' || l[0] == '\t')
  }

  /** A CR left at the end of header line `l` makes no difference. */
  predicate Harmless(h: Head, l: string) {
    if l == "" then false
    else if Continues(l) then h.lastKey.None? || '\0' in l
    else match IndexOf(l, ':') case None => true case Some(i) => '\0' in l[i + 1..]
  }

  /** The field that header line `l` adds to. */
  function FieldOf(h: Head, l: string): string {
    if Continues(l) then if h.lastKey.Some? then h.lastKey.value else ""
    else match IndexOf(l, ':') case None => "" case Some(i) => CStr(l[..i])
  }

  /** Head `c` is head `h` with a CR at the end of the value of `key`. */
  predicate GainsCr(h: Head, key: string, c: Head) {
    key in h.headers && c == h.(headers := h.headers[key := h.headers[key] + "\r"])
  }

  lemma {:induction false} StoreFieldCr(h: Head, key: string, x: string)
    requires HeadOk(h)
    ensures '\0' in x ==> StoreField(h, key, x + "\r") == StoreField(h, key, x)
    ensures '\0' !in x ==> GainsCr(StoreField(h, key, x), key, StoreField(h, key, x + "\r"))
  {
    if key in h.headers {
      ValueCr(h.headers[key] + "; ", x);
    } else {
      CStrOfCr(x);
    }
    var a := StoreField(h, key, x);
    assert a.headers[key := a.headers[key] + "\r"] == h.headers[key := a.headers[key] + "\r"];
  }

  lemma {:induction false} AddHeaderFieldCr(h: Head, l: string)
    requires HeadOk(h) && l != "" && !Continues(l)
    ensures Harmless(h, l) ==> AddHeaderField(h, l + "\r") == AddHeaderField(h, l)
    ensures !Harmless(h, l) ==> GainsCr(AddHeaderField(h, l), FieldOf(h, l), AddHeaderField(h, l + "\r"))
  {
    IndexOfCr(l);
    var pos := IndexOf(l, ':');
    if pos.Some? {
      var i := pos.value;
      assert (l + "\r")[..i] == l[..i] && (l + "\r")[i + 1..] == l[i + 1..] + "\r";
      SkipBlanksCr(l[i + 1..]);
      StoreFieldCr(h, CStr(l[..i]), SkipBlanks(l[i + 1..]));
    }
  }

  lemma {:induction false} HandleMultiLineCr(h: Head, l: string)
    requires HeadOk(h) && Continues(l)
    ensures Harmless(h, l) ==> HandleMultiLine(h, l + "\r") == HandleMultiLine(h, l)
    ensures !Harmless(h, l) ==> GainsCr(HandleMultiLine(h, l), FieldOf(h, l), HandleMultiLine(h, l + "\r"))
  {
    SkipBlanksAndTabsCr(l);
    SkipBlanksAndTabsCr(l[1..]);
    if h.lastKey.Some? {
      var key, x := h.lastKey.value, SkipBlanksAndTabs(l);
      assert |x| < |l|;
      ValueCr(h.headers[key] + " ", x);
      var a := HandleMultiLine(h, l);
      assert a.headers[key := a.headers[key] + "\r"] == h.headers[key := a.headers[key] + "\r"];
    }
  }

  lemma {:induction false} HeaderLineCr(h: Head, l: string)
    requires HeadOk(h) && l != ""
    ensures Harmless(h, l) ==> HeaderLine(h, l + "\r") == HeaderLine(h, l)
    ensures !Harmless(h, l) ==> GainsCr(HeaderLine(h, l), FieldOf(h, l), HeaderLine(h, l + "\r"))
  {
    ScanStatusCr(l);
    var h' := ScanStatusLine(h, l);
    if Continues(l) {
      HandleMultiLineCr(h', l);
    } else {
      AddHeaderFieldCr(h', l);
    }
  }

  /**
   A read that ends between the CR and the LF of header line `l`: the response is as without
   the cut exactly for a line without colon or with a NUL after it, and for a continuation
   of nothing or with a NUL. Otherwise the CR stays in the value of the field.
   */
  lemma {:induction false} CutInHeaderLine(r: Response, l: string)
    requires Ok(r) && !r.failed && !r.headerDone && r.line == l + "\r" && HeadOk(r.head)
    ensures Feed(r, "\n") == Run(r, "\n") <==> Harmless(r.head, l)
    ensures l != "" && !Harmless(r.head, l) ==>
              && GainsCr(Run(r, "\n").head, FieldOf(r.head, l), Feed(r, "\n").head)
              && Feed(r, "\n") == Run(r, "\n").(head := Feed(r, "\n").head)
  {
    LineFeedAlone(r);
    assert DropCr(r.line) == l;
    if l == "" {
      CutInEmptyLine(r);
    } else {
      HeaderLineCr(r.head, l);
    }
  }

  // ---------- All responses keep their head in order

  lemma {:induction false} HeaderLineKeepsHead(h: Head, l: string)
    requires HeadOk(h) && l != ""
    ensures HeadOk(HeaderLine(h, l))
  {
    var h' := ScanStatusLine(h, l);
    if Continues(l) {
      if h'.lastKey.Some? {
        CStrHasNoNul(h'.headers[h'.lastKey.value] + " " + SkipBlanksAndTabs(l));
      }
    } else {
      var pos := IndexOf(l, ':');
      if pos.Some? {
        var key, x := CStr(l[..pos.value]), SkipBlanks(l[pos.value + 1..]);
        CStrHasNoNul(x);
        if key in h'.headers {
          CStrHasNoNul(h'.headers[key] + "; " + x);
        }
      }
    }
  }

  lemma {:induction false} LineDoneKeepsHead(r: Response, l: string)
    requires HeadOk(r.head)
    ensures HeadOk(LineDone(r, l).head)
  {
    if l != "" {
      HeaderLineKeepsHead(r.head, l);
    }
  }

  lemma {:induction false} RunKeepsHead(r: Response, t: string)
    requires Ok(r) && HeadOk(r.head)
    ensures HeadOk(Run(r, t).head)
    decreases |t|
  {
    if t != "" {
      LineDoneKeepsHead(r, DropCr(r.line));
      RunKeepsHead(Step(r, t[0]), t[1..]);
    }
  }

  /** Whatever is received, in whatever reads, `HeadOk` holds of the response. */
  lemma {:induction false} ReadsKeepHead(r: Response, fragments: seq<string>)
    requires Ok(r) && HeadOk(r.head)
    ensures HeadOk(FeedAll(r, fragments).head)
    decreases |fragments|
  {
    if fragments != [] {
      var f := fragments[0];
      if f != "" {
        LineDoneKeepsHead(r, r.line);
        LineDoneKeepsHead(r, DropCr(r.line));
        RunKeepsHead(First(r, f[0]), f[1..]);
      }
      ReadsKeepHead(Feed(r, f), fragments[1..]);
    }
  }
}
