/** The result of a response does not depend on how its octets were split into reads. */
module HttpFragments {
  import opened Words
  import opened HttpResponse

  function Flatten(fragments: seq<string>): string {
    if fragments == [] then "" else fragments[0] + Flatten(fragments[1..])
  }

  /** All reads, in order; each read is one call of `received_data_continue`. */
  function FeedAll(r: Response, fragments: seq<string>): (r': Response)
    requires Ok(r)
    ensures Ok(r')
    decreases |fragments|
  {
    if fragments == [] then r else FeedAll(Feed(r, fragments[0]), fragments[1..])
  }

  /** The read starts with the line feed that belongs to the CR at the end of an unfinished line. */
  predicate CutsLineEnd(r: Response, fragment: string) {
    fragment != "" && fragment[0] == '\n' && InLine(r) && EndsInCr(r.line)
  }

  predicate NoLineEndCut(r: Response, fragments: seq<string>)
    requires Ok(r)
    decreases |fragments|
  {
    fragments == [] || (!CutsLineEnd(r, fragments[0]) && NoLineEndCut(Feed(r, fragments[0]), fragments[1..]))
  }

  lemma {:induction false} FeedAllIsRun(r: Response, fragments: seq<string>)
    requires Ok(r) && NoLineEndCut(r, fragments)
    ensures FeedAll(r, fragments) == Run(r, Flatten(fragments))
    decreases |fragments|
  {
    if fragments != [] {
      FeedIsRun(r, fragments[0]);
      FeedAllIsRun(Feed(r, fragments[0]), fragments[1..]);
      RunSplit(r, fragments[0], Flatten(fragments[1..]));
    }
  }

  /**
   Fragmentation independence: status, header table, body, chunk counters and failure
   are the same for any two ways of splitting the same octets, if neither separates the
   CR and LF of a header line or a chunk-size line.
   */
  lemma {:induction false} FragmentationIndependence(r: Response, one: seq<string>, two: seq<string>)
    requires Ok(r) && Flatten(one) == Flatten(two)
    requires NoLineEndCut(r, one) && NoLineEndCut(r, two)
    ensures FeedAll(r, one) == FeedAll(r, two)
  {
    FeedAllIsRun(r, one);
    FeedAllIsRun(r, two);
  }

  // ---------- A condition on the octets alone

  /** No boundary falls between a CR and a LF; `last` is the octet before the first fragment, if any. */
  predicate NoCrLfSplit(last: Option<char>, fragments: seq<string>)
    decreases |fragments|
  {
    if fragments == [] then true
    else if fragments[0] == "" then NoCrLfSplit(last, fragments[1..])
    else
      && !(last == Some('\r') && fragments[0][0] == '\n')
      && NoCrLfSplit(Some(fragments[0][|fragments[0]| - 1]), fragments[1..])
  }

  lemma {:induction false} LineEndsAsRead(r: Response, t: string)
    requires Ok(r) && t != ""
    ensures var r' := Run(r, t); InLine(r') && EndsInCr(r'.line) ==> t[|t| - 1] == '\r'
    decreases |t|
  {
    if |t| > 1 {
      LineEndsAsRead(Step(r, t[0]), t[1..]);
    }
  }

  lemma {:induction false} OctetsDecideCuts(r: Response, last: Option<char>, fragments: seq<string>)
    requires Ok(r) && NoCrLfSplit(last, fragments)
    requires InLine(r) && EndsInCr(r.line) ==> last == Some('\r')
    ensures NoLineEndCut(r, fragments)
    decreases |fragments|
  {
    if fragments != [] {
      var f := fragments[0];
      FeedIsRun(r, f);
      if f == "" {
        OctetsDecideCuts(r, last, fragments[1..]);
      } else {
        LineEndsAsRead(r, f);
        OctetsDecideCuts(Run(r, f), Some(f[|f| - 1]), fragments[1..]);
      }
    }
  }

  /** Any two splittings of a response that keep every CR LF pair together give the same result. */
  lemma {:induction false} SplittingsAgree(one: seq<string>, two: seq<string>)
    requires Flatten(one) == Flatten(two) && NoCrLfSplit(None, one) && NoCrLfSplit(None, two)
    ensures FeedAll(Fresh, one) == FeedAll(Fresh, two)
  {
    OctetsDecideCuts(Fresh, None, one);
    OctetsDecideCuts(Fresh, None, two);
    FragmentationIndependence(Fresh, one, two);
  }
}
