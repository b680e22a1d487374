/** Histories of host name lookups, and what every disciplined history guarantees. */
module LookupHistory {

  /** What can happen to a lookup: it starts, its callback is called, or it is cancelled. */
  datatype Event<L> = Started(l: L) | Called(l: L) | Cancelled(l: L)

  ghost function Count<L>(h: seq<Event<L>>, e: Event<L>): nat {
    if h == [] then 0 else Count(h[..|h| - 1], e) + (if h[|h| - 1] == e then 1 else 0)
  }

  /** The lookups that started and have neither been called back nor cancelled. */
  ghost function Open<L>(h: seq<Event<L>>): set<L> {
    if h == [] then {}
    else
      var open := Open(h[..|h| - 1]);
      match h[|h| - 1]
      case Started(l) => open + {l}
      case Called(l) => open - {l}
      case Cancelled(l) => open - {l}
  }

  ghost function Seen<L>(h: seq<Event<L>>): set<L> {
    if h == [] then {} else Seen(h[..|h| - 1]) + {h[|h| - 1].l}
  }

  /** Only new lookups start, and only open ones end. */
  ghost predicate Disciplined<L>(h: seq<Event<L>>) {
    h == [] ||
    (Disciplined(h[..|h| - 1]) &&
     match h[|h| - 1]
     case Started(l) => l !in Seen(h[..|h| - 1])
     case Called(l) => l in Open(h[..|h| - 1])
     case Cancelled(l) => l in Open(h[..|h| - 1]))
  }

  /**
   Exactly once: a lookup that started is called back once and never cancelled, or
   cancelled once and never called back, or still open with neither; a lookup that never
   started has no events at all.
   */
  lemma {:induction false} ExactlyOnce<L>(h: seq<Event<L>>, l: L)
    requires Disciplined(h)
    ensures Count(h, Started(l)) == (if l in Seen(h) then 1 else 0)
    ensures Count(h, Called(l)) + Count(h, Cancelled(l)) == (if l in Seen(h) && l !in Open(h) then 1 else 0)
    decreases |h|
  {
    if h != [] {
      OpenIsSeen(h[..|h| - 1]);
      ExactlyOnce(h[..|h| - 1], l);
    }
  }

  lemma {:induction false} OpenIsSeen<L>(h: seq<Event<L>>)
    ensures Open(h) <= Seen(h)
    decreases |h|
  {
    if h != [] {
      OpenIsSeen(h[..|h| - 1]);
    }
  }

  lemma {:induction false} Start<L>(h: seq<Event<L>>, l: L)
    requires Disciplined(h) && l !in Seen(h)
    ensures Disciplined(h + [Started(l)])
    ensures Seen(h + [Started(l)]) == Seen(h) + {l} && Open(h + [Started(l)]) == Open(h) + {l}
  {
    assert (h + [Started(l)])[..|h|] == h;
  }

  lemma {:induction false} End<L>(h: seq<Event<L>>, e: Event<L>)
    requires Disciplined(h) && !e.Started? && e.l in Open(h)
    ensures Disciplined(h + [e])
    ensures Seen(h + [e]) == Seen(h) && Open(h + [e]) == Open(h) - {e.l}
  {
    assert (h + [e])[..|h|] == h;
    OpenIsSeen(h);
  }
}
