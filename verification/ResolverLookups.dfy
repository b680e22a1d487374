/**
 The two-query lookup protocol of the resolver: lookups and queries are objects that
 refer to each other and wait in two queues.
 */
module ResolverLookups {
  import opened Words
  import opened LookupHistory

  datatype Status =
    | Success | Error | NoResponse | FormatError | ServerFailure | NameError | NotImplemented | Refused | NoAnswer

  datatype Family = Unspec | Inet | Inet6

  class Query {
    const lookup: Lookup
    const msgid: u16
    var nrNs: int
    /** The five-second timer is running. */
    var armed: bool

    constructor (lookup: Lookup, msgid: u16, nrNs: int)
      ensures this.lookup == lookup && this.msgid == msgid && this.nrNs == nrNs && armed
    {
      this.lookup, this.msgid, this.nrNs, this.armed := lookup, msgid, nrNs, true;
    }
  }

  class Lookup {
    const id: u32
    var ipv4Query: Query?
    var ipv6Query: Query?
    var ipv4Status: Status
    var ipv6Status: Status

    constructor (id: u32)
      ensures this.id == id && ipv4Query == null && ipv6Query == null
      ensures ipv4Status == Success && ipv6Status == Success
    {
      this.id, ipv4Query, ipv6Query, ipv4Status, ipv6Status := id, null, null, Success, Success;
    }
  }

  // ---------- Queues

  ghost predicate NoDuplicates<T>(s: seq<T>) {
    forall i, j :: 0 <= i < j < |s| ==> s[i] != s[j]
  }

  /** `g_queue_remove`: without the first occurrence of `x`. */
  function Remove<T(==)>(s: seq<T>, x: T): (r: seq<T>) {
    if s == [] then [] else if s[0] == x then s[1..] else [s[0]] + Remove(s[1..], x)
  }

  lemma {:induction false} RemoveMembers<T>(s: seq<T>, x: T)
    requires NoDuplicates(s)
    ensures NoDuplicates(Remove(s, x))
    ensures forall y :: y in Remove(s, x) <==> y in s && y != x
  {
    if s != [] {
      assert s[0] !in s[1..];
      if s[0] != x {
        RemoveMembers(s[1..], x);
        var r := Remove(s[1..], x);
        forall j | 0 <= j < |r| ensures r[j] != s[0] {
          assert r[j] in r;
        }
      }
    }
  }

  /** A query and the lookup that waits for it refer to each other. */
  ghost predicate QueryOk(lookups: seq<Lookup>, q: Query)
    reads q, q.lookup
  {
    q.armed && q.lookup in lookups && (q == q.lookup.ipv4Query || q == q.lookup.ipv6Query)
  }

  /** `q` is the first query with this message id; several may have it. */
  ghost predicate FirstWaiting(queries: seq<Query>, msgid: u16, q: Query) {
    exists i :: 0 <= i < |queries| && queries[i] == q && forall k :: 0 <= k < i ==> queries[k].msgid != msgid
  }

  ghost predicate LookupOk(queries: seq<Query>, l: Lookup)
    reads l
  {
    && (l.ipv4Query != null || l.ipv6Query != null)
    && (l.ipv4Query != null ==> l.ipv4Query in queries && l.ipv4Query.lookup == l)
    && (l.ipv6Query != null ==> l.ipv6Query in queries && l.ipv6Query.lookup == l)
    && (l.ipv4Query == l.ipv6Query ==> l.ipv4Query == null)
  }

  /** A new lookup and its queries join the queues. */
  lemma {:induction false} QueuesGrow(lookups: seq<Lookup>, before: seq<Query>, queries: seq<Query>, l: Lookup)
    requires before <= queries && l !in lookups && NoDuplicates(lookups) && LookupOk(queries, l)
    requires forall q :: q in before ==> QueryOk(lookups, q)
    requires forall q :: q in queries ==> q in before || QueryOk([l], q)
    requires forall x :: x in lookups ==> LookupOk(before, x)
    ensures NoDuplicates(lookups + [l])
    ensures forall q :: q in queries ==> QueryOk(lookups + [l], q)
    ensures forall x :: x in lookups + [l] ==> LookupOk(queries, x)
  {
    forall x | x in lookups ensures LookupOk(queries, x) {
      assert LookupOk(before, x);
    }
  }

  lemma {:induction false} LookupsHaveQueries(queries: seq<Query>, lookups: seq<Lookup>)
    requires forall l :: l in lookups ==> LookupOk(queries, l)
    ensures lookups != [] ==> queries != []
  {
    if lookups != [] {
      assert LookupOk(queries, lookups[0]);
    }
  }

  class Resolver {
    var resultFamily: Family
    var nextLookupId: u32
    var lookupQueue: seq<Lookup>
    var queryQueue: seq<Query>
    var nameservers: nat
    ghost var history: seq<Event<Lookup>>
    /** Every lookup the history speaks about. */
    ghost var known: set<Lookup>

    ghost predicate Valid()
      reads this, lookupQueue, queryQueue, set q | q in queryQueue :: q.lookup
    {
      && NoDuplicates(lookupQueue) && NoDuplicates(queryQueue)
      && (forall q :: q in queryQueue ==> QueryOk(lookupQueue, q))
      && (forall l :: l in lookupQueue ==> LookupOk(queryQueue, l))
      && Disciplined(history) && Seen(history) <= known
      && Open(history) == set l | l in lookupQueue
    }

    constructor ()
      ensures Valid() && lookupQueue == [] && history == []
    {
      resultFamily, nextLookupId, nameservers := Unspec, 1, 0;
      lookupQueue, queryQueue, history, known := [], [], [], {};
    }

    /** The status handed to the callback. */
    function ResultStatus(l: Lookup): Status
      reads this, l
    {
      match resultFamily
      case Inet => l.ipv4Status
      case Inet6 => l.ipv6Status
      case Unspec => if l.ipv6Status == Success then l.ipv6Status else l.ipv4Status
    }

    /** Valid, except that `lookup` waits for nothing any more. */
    ghost predicate Settled(lookup: Lookup)
      reads this, lookupQueue, queryQueue, set q | q in queryQueue :: q.lookup
    {
      && NoDuplicates(lookupQueue) && NoDuplicates(queryQueue)
      && lookup in lookupQueue && lookup.ipv4Query == null && lookup.ipv6Query == null
      && (forall q :: q in queryQueue ==> QueryOk(lookupQueue, q))
      && (forall l :: l in lookupQueue && l != lookup ==> LookupOk(queryQueue, l))
      && Disciplined(history) && Seen(history) <= known
      && Open(history) == set l | l in lookupQueue
    }

    /** The last query of `lookup` is gone: the callback is called. */
    method SortAndReturnResults(lookup: Lookup) returns (status: Status)
      requires Settled(lookup)
      modifies `lookupQueue, `history
      ensures Valid()
      ensures lookupQueue == Remove(old(lookupQueue), lookup) && queryQueue == old(queryQueue)
      ensures history == old(history) + [Called(lookup)] && status == ResultStatus(lookup)
    {
      status := ResultStatus(lookup);
      RemoveMembers(lookupQueue, lookup);
      End(history, Called(lookup));
      lookupQueue := Remove(lookupQueue, lookup);
      history := history + [Called(lookup)];
    }

    /** Detaches `query` from its lookup and from the queue. */
    method DetachQuery(query: Query)
      requires Valid() && query in queryQueue
      modifies `queryQueue, query`armed, query.lookup`ipv4Query, query.lookup`ipv6Query
      ensures queryQueue == Remove(old(queryQueue), query)
      ensures old(query.lookup.ipv4Query) == query ==>
                query.lookup.ipv4Query == null && query.lookup.ipv6Query == old(query.lookup.ipv6Query)
      ensures old(query.lookup.ipv4Query) != query ==>
                query.lookup.ipv6Query == null && query.lookup.ipv4Query == old(query.lookup.ipv4Query)
      ensures if query.lookup.ipv4Query == null
              && query.lookup.ipv6Query == null then Settled(query.lookup) else Valid()
    {
      var lookup := query.lookup;
      assert QueryOk(lookupQueue, query) && LookupOk(queryQueue, lookup);
      if query == lookup.ipv4Query {
        lookup.ipv4Query := null;
      } else {
        lookup.ipv6Query := null;
      }
      RemoveMembers(queryQueue, query);
      queryQueue := Remove(queryQueue, query);
      query.armed := false;
    }

    /** A query is over, answered or not; its lookup is over with its last query. */
    method FinishQuery(query: Query) returns (called: Option<Status>)
      requires Valid() && query in queryQueue
      modifies `lookupQueue, `queryQueue, `history, query`armed, query.lookup`ipv4Query, query.lookup`ipv6Query
      ensures Valid()
      ensures queryQueue == Remove(old(queryQueue), query)
      ensures if old(query.lookup.ipv4Query == null || query.lookup.ipv6Query == null)
              then history == old(history) + [Called(query.lookup)]
                   && lookupQueue == Remove(old(lookupQueue), query.lookup)
                   && called == Some(ResultStatus(query.lookup))
              else history == old(history) && lookupQueue == old(lookupQueue) && called == None
    {
      var lookup := query.lookup;
      assert QueryOk(lookupQueue, query) && LookupOk(queryQueue, lookup);
      DetachQuery(query);
      if lookup.ipv4Query == null && lookup.ipv6Query == null {
        var status := SortAndReturnResults(lookup);
        return Some(status);
      }
      return None;
    }

    /** `status` is noted under one family and the other is as it was. */
    twostate predicate Noted(l: Lookup, v4: bool, status: Status)
      reads l
    {
      if v4 then l.ipv4Status == status && l.ipv6Status == old(l.ipv6Status)
      else l.ipv6Status == status && l.ipv4Status == old(l.ipv4Status)
    }

    /** The answer, or its absence, is noted under the family of the query. */
    method SetStatus(query: Query, status: Status)
      requires Valid() && query in queryQueue
      modifies query.lookup`ipv4Status, query.lookup`ipv6Status
      ensures Valid()
      ensures Noted(query.lookup, query.lookup.ipv4Query == query, status)
    {
      assert QueryOk(lookupQueue, query);
      if query == query.lookup.ipv4Query {
        query.lookup.ipv4Status := status;
      } else if query == query.lookup.ipv6Query {
        query.lookup.ipv6Status := status;
      }
    }

    /** No answer within five seconds. */
    method QueryTimeout(query: Query) returns (called: Option<Status>)
      requires Valid() && query in queryQueue
      modifies this, query, query.lookup
      ensures Valid()
      ensures queryQueue == Remove(old(queryQueue), query)
      ensures if old(query.lookup.ipv4Query == null || query.lookup.ipv6Query == null)
              then history == old(history) + [Called(query.lookup)]
                   && lookupQueue == Remove(old(lookupQueue), query.lookup)
              else history == old(history) && lookupQueue == old(lookupQueue)
      ensures Noted(query.lookup, old(query.lookup.ipv4Query) == query, NoResponse)
      ensures called == if history == old(history) then None else Some(ResultStatus(query.lookup))
    {
      SetStatus(query, NoResponse);
      called := FinishQuery(query);
    }

    /** `g_queue_find_custom` by message id: the first query that waits for it. */
    method FindQuery(msgid: u16) returns (query: Query?)
      ensures query == null ==> forall q :: q in queryQueue ==> q.msgid != msgid
      ensures query != null ==> query in queryQueue && query.msgid == msgid && FirstWaiting(queryQueue, msgid, query)
    {
      for i := 0 to |queryQueue|
        invariant forall k :: 0 <= k < i ==> queryQueue[k].msgid != msgid
      {
        if queryQueue[i].msgid == msgid {
          return queryQueue[i];
        }
      }
      return null;
    }

    /**
     A response from one name server. Failures of all but the last name server, and
     responses that nothing waits for, change no queue.
     */
    method ParseResponse(msgid: u16, status: Status) returns (query: Query?, called: Option<Status>)
      requires Valid()
      modifies this, queryQueue, set q | q in queryQueue :: q.lookup
      ensures Valid()
      ensures query == null <==> forall q :: q in old(queryQueue) ==> q.msgid != msgid
      ensures query != null ==>
                query in old(queryQueue) && query.msgid == msgid && FirstWaiting(old(queryQueue), msgid, query)
      ensures query == null || (status != Success && old(query.nrNs) > 1) ==>
                history == old(history) && lookupQueue == old(lookupQueue) && queryQueue == old(queryQueue)
                    && called == None
      ensures query != null && (status == Success || old(query.nrNs) <= 1) ==>
                && queryQueue == Remove<Query>(old(queryQueue), query)
                && if old(query.lookup.ipv4Query == null || query.lookup.ipv6Query == null)
                   then history == old(history) + [Called(query.lookup)]
                        && lookupQueue == Remove(old(lookupQueue), query.lookup)
                   else history == old(history) && lookupQueue == old(lookupQueue)
      ensures query != null ==> Noted(query.lookup, old(query.lookup.ipv4Query) == query, status)
      ensures called == if history == old(history) then None else Some(ResultStatus(query.lookup))
    {
      called := None;
      query := FindQuery(msgid);
      if query == null {
        return;
      }
      query.nrNs := query.nrNs - 1;
      SetStatus(query, status);
      if status != Success && query.nrNs > 0 {
        return;
      }
      called := FinishQuery(query);
    }

    /** `g_queue_find_custom` by lookup id. */
    method FindLookup(id: u32) returns (lookup: Lookup?)
      ensures lookup == null ==> forall l :: l in lookupQueue ==> l.id != id
      ensures lookup != null ==> lookup in lookupQueue && lookup.id == id
    {
      for i := 0 to |lookupQueue|
        invariant forall k :: 0 <= k < i ==> lookupQueue[k].id != id
      {
        if lookupQueue[i].id == id {
          return lookupQueue[i];
        }
      }
      return null;
    }

    /** Cancels the lookup and every query it waits for; the callback is not called. */
    method CancelLookup(id: u32) returns (lookup: Lookup?)
      requires Valid()
      modifies this, queryQueue
      ensures Valid()
      ensures lookup == null <==> forall l :: l in old(lookupQueue) ==> l.id != id
      ensures lookup == null ==>
              history == old(history) && lookupQueue == old(lookupQueue) && queryQueue == old(queryQueue)
      ensures lookup != null ==>
                && lookup in old(lookupQueue) && lookup.id == id
                && history == old(history) + [Cancelled(lookup)]
                && lookupQueue == Remove<Lookup>(old(lookupQueue), lookup)
                && forall q :: q in queryQueue <==> q in old(queryQueue) && q.lookup != lookup
    {
      lookup := FindLookup(id);
      if lookup == null {
        return;
      }
      var l: Lookup := lookup;
      RemoveMembers(lookupQueue, l);
      End(history, Cancelled(l));
      lookupQueue := Remove(lookupQueue, l);
      history := history + [Cancelled(l)];
      DropQueriesOf(l);
    }

    /** `destroy_lookup`: the queries of a lookup that has left its queue go too. */
    method DropQueriesOf(lookup: Lookup)
      requires lookup !in lookupQueue && LookupOk(queryQueue, lookup)
      requires NoDuplicates(lookupQueue) && NoDuplicates(queryQueue)
      requires forall q :: q in queryQueue ==> QueryOk(lookupQueue + [lookup], q)
      requires forall l :: l in lookupQueue ==> LookupOk(queryQueue, l)
      requires Disciplined(history) && Seen(history) <= known && Open(history) == set l | l in lookupQueue
      modifies `queryQueue, queryQueue
      ensures Valid()
      ensures forall q :: q in queryQueue <==> q in old(queryQueue) && q.lookup != lookup
    {
      if lookup.ipv4Query != null {
        var q: Query := lookup.ipv4Query;
        RemoveMembers(queryQueue, q);
        queryQueue := Remove(queryQueue, q);
        q.armed := false;
      }
      if lookup.ipv6Query != null {
        var q: Query := lookup.ipv6Query;
        RemoveMembers(queryQueue, q);
        queryQueue := Remove(queryQueue, q);
        q.armed := false;
      }
    }

    /** Sends one query and queues it under its lookup; fails without a name server. */
    method AddQuery(lookup: Lookup, aaaa: bool, msgid: u16, room: bool) returns (ok: bool)
      modifies `queryQueue, lookup
      ensures ok <==> room && nameservers > 0
      ensures !ok ==> queryQueue == old(queryQueue) && unchanged(lookup)
      ensures ok ==>
                && |queryQueue| == |old(queryQueue)| + 1
                && var q := queryQueue[|old(queryQueue)|];
                   && queryQueue == old(queryQueue) + [q]
                   && fresh(q) && q.lookup == lookup && q.msgid == msgid && q.nrNs == nameservers && q.armed
                   && (aaaa ==> lookup.ipv6Query == q && lookup.ipv4Query == old(lookup.ipv4Query))
                   && (!aaaa ==> lookup.ipv4Query == q && lookup.ipv6Query == old(lookup.ipv6Query))
                   && lookup.ipv4Status == old(lookup.ipv4Status) && lookup.ipv6Status == old(lookup.ipv6Status)
    {
      if !room || nameservers == 0 {
        return false;
      }
      var query := new Query(lookup, msgid, nameservers);
      queryQueue := queryQueue + [query];
      if aaaa {
        lookup.ipv6Query := query;
      } else {
        lookup.ipv4Query := query;
      }
      return true;
    }

    /** Sends the queries of a new lookup. On failure the queue is as it was. */
    method StartQueries(l: Lookup, msgid4: u16, msgid6: u16, room4: bool, room6: bool) returns (ok: bool)
      requires NoDuplicates(queryQueue) && l.ipv4Query == null && l.ipv6Query == null
      modifies `queryQueue, l
      ensures ok <==> nameservers > 0 && (resultFamily != Inet6 ==> room4) && (resultFamily != Inet ==> room6)
      ensures !ok ==> queryQueue == old(queryQueue)
      ensures ok ==>
                && NoDuplicates(queryQueue) && old(queryQueue) <= queryQueue && LookupOk(queryQueue, l)
                && (forall q :: q in queryQueue ==> q in old(queryQueue) || (fresh(q) && QueryOk([l], q)))
                && (l.ipv4Query != null <==> resultFamily != Inet6)
                && (l.ipv6Query != null <==> resultFamily != Inet)
    {
      ghost var before := queryQueue;
      if resultFamily != Inet6 {
        ok := AddQuery(l, false, msgid4, room4);
        if !ok {
          return;
        }
      }
      if resultFamily != Inet {
        ok := AddQuery(l, true, msgid6, room6);
        if !ok && resultFamily != Inet6 {
          var q: Query := l.ipv4Query;
          RemoveLast(before, q);
          queryQueue := Remove(queryQueue, q);
        }
      }
    }

    /** Queues a new lookup with one or two queries. A failed start leaves no trace in the queues. */
    method StartLookup(msgid4: u16, msgid6: u16, room4: bool, room6: bool) returns (lookup: Lookup?)
      requires Valid() && nameservers > 0
      modifies `nextLookupId, `lookupQueue, `queryQueue, `history, `known
      ensures Valid()
      ensures lookup == null <==> (resultFamily != Inet6 && !room4) || (resultFamily != Inet && !room6)
      ensures lookup == null ==>
              lookupQueue == old(lookupQueue) && queryQueue == old(queryQueue) && history == old(history)
      ensures lookup != null ==>
                && fresh(lookup) && lookup.id == old(nextLookupId)
                && history == old(history) + [Started(lookup)]
                && lookupQueue == old(lookupQueue) + [lookup]
                && old(queryQueue) <= queryQueue
                && (lookup.ipv4Query != null <==> resultFamily != Inet6)
                && (lookup.ipv6Query != null <==> resultFamily != Inet)
    {
      var l := new Lookup(nextLookupId);
      nextLookupId := (nextLookupId + 1) % 0x1_0000_0000;
      assert l !in known;
      Start(history, l);
      var ok := StartQueries(l, msgid4, msgid6, room4, room6);
      if !ok {
        return null;
      }
      QueuesGrow(lookupQueue, old(queryQueue), queryQueue, l);
      lookupQueue := lookupQueue + [l];
      history, known := history + [Started(l)], known + {l};
      return l;
    }

    /** Starts a lookup; a resolver without name servers first takes the configured ones, or the local host. */
    method LookupHostname(msgid4: u16, msgid6: u16, room4: bool, room6: bool, configured: nat)
      returns (lookup: Lookup?)
      requires Valid()
      modifies this
      ensures Valid()
      ensures nameservers == if old(nameservers) > 0 then old(nameservers) else if configured > 0 then configured else 1
      ensures lookup == null <==> (resultFamily != Inet6 && !room4) || (resultFamily != Inet && !room6)
      ensures lookup == null ==>
              lookupQueue == old(lookupQueue) && queryQueue == old(queryQueue) && history == old(history)
      ensures lookup != null ==>
                && fresh(lookup) && lookup.id == old(nextLookupId)
                && history == old(history) + [Started(lookup)]
                && lookupQueue == old(lookupQueue) + [lookup]
                && old(queryQueue) <= queryQueue
                && (lookup.ipv4Query != null <==> resultFamily != Inet6)
                && (lookup.ipv6Query != null <==> resultFamily != Inet)
    {
      if nameservers == 0 {
        nameservers := if configured > 0 then configured else 1;
      }
      lookup := StartLookup(msgid4, msgid6, room4, room6);
    }

    /** When the running timers fire, in any state and in any order, every waiting lookup is called back. */
    method ExpireAll()
      requires Valid()
      modifies this, queryQueue, set q | q in queryQueue :: q.lookup
      ensures Valid() && lookupQueue == [] && queryQueue == []
      ensures old(history) <= history
      ensures forall k :: |old(history)| <= k < |history| ==> history[k].Called?
    {
      while queryQueue != []
        invariant Valid()
        invariant forall q :: q in queryQueue ==> q in old(queryQueue)
        invariant old(history) <= history
        invariant forall k :: |old(history)| <= k < |history| ==> history[k].Called?
        decreases |queryQueue|
      {
        var i :| 0 <= i < |queryQueue|;
        var q := queryQueue[i];
        RemoveShrinks(queryQueue, q);
        assert q.lookup in set x | x in old(queryQueue) :: x.lookup;
        ghost var before := queryQueue;
        var _ := QueryTimeout(q);
        RemoveMembers(before, q);
      }
      LookupsHaveQueries(queryQueue, lookupQueue);
    }
  }

  lemma {:induction false} RemoveShrinks<T>(s: seq<T>, x: T)
    requires x in s
    ensures |Remove(s, x)| == |s| - 1
  {
    if s[0] != x {
      RemoveShrinks(s[1..], x);
    }
  }

  lemma {:induction false} RemoveLast<T>(s: seq<T>, x: T)
    requires x !in s
    ensures Remove(s + [x], x) == s
  {
    if s != [] {
      assert (s + [x])[1..] == s[1..] + [x];
      RemoveLast(s[1..], x);
    }
  }
}
