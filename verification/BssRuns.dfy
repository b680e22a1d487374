/** What holds of the BSS tables over whole runs of notifications. */
module BssRuns {
  import opened Words
  import opened BssNames
  import opened BssTables

  lemma {:induction false} MovedKeepsTables(t: Tables, b: Bss, t': Tables)
    requires TablesOk(t) && Moved(t, b, t')
    ensures TablesOk(t')
  {
    var between :| TakenOut(t, b.path, between) && t' == AddTo(between, b);
    DropKeepsTables(t, b.path, between);
    AddKeepsTables(between, b);
  }

  lemma {:induction false} MadeCurrentKeepsTables(w: Tables, path: string, t': Tables)
    requires TablesOk(w) && path in w.mapping && t' == MadeCurrent(w, path)
    ensures TablesOk(t')
  {
    CurrentKeepsTables(w, path);
  }

  lemma {:induction false} SetCurrentKeepsTables(t: Tables, path: string, t': Tables)
    requires TablesOk(t) && t' == SetCurrent(t, path)
    ensures TablesOk(t')
  {
    if path != "/" {
      var w := WithBss(t, path);
      assert TablesOk(w) && path in w.mapping by {
        WithBssOk(t, path);
      }
      MadeCurrentKeepsTables(w, path, t');
    }
  }

  /** Every notification keeps the indexes in agreement, the cached BSSs right and the serials apart. */
  lemma {:induction false} StepKeepsTables(t: Tables, e: Event, t': Tables)
    requires TablesOk(t) && Step(t, e, t')
    ensures TablesOk(t')
  {
    match e
    case Added(b) =>
      if b.path != "/" && b.path !in t.mapping {
        AddKeepsTables(t, b);
      }
    case Removed(p) =>
      if p in t.mapping {
        DropKeepsTables(t, p, t');
      }
    case Changed(b) =>
      if b.path in t.mapping {
        if Stays(t, b) {
          RefreshKeepsTables(t, b, t');
        } else {
          MovedKeepsTables(t, b, t');
        }
      }
    case Current(p) => SetCurrentKeepsTables(t, p, t');
  }

  /** The first `n` notifications each take the tables one step, from empty ones. */
  ghost predicate RunUpTo(ts: seq<Tables>, es: seq<Event>, n: nat)
    requires |ts| == |es| + 1 && n <= |es|
  {
    if n == 0 then ts[0] == Empty
    else RunUpTo(ts, es, n - 1) && (TablesOk(ts[n - 1]) ==> Step(ts[n - 1], es[n - 1], ts[n]))
  }

  /** `ts` are the tables before every notification of `es`, and after the last. */
  ghost predicate IsRun(ts: seq<Tables>, es: seq<Event>) {
    |ts| == |es| + 1 && RunUpTo(ts, es, |es|)
  }

  lemma {:induction false} RunBefore(ts: seq<Tables>, es: seq<Event>, i: nat, n: nat)
    requires |ts| == |es| + 1 && i <= n <= |es| && RunUpTo(ts, es, n)
    ensures RunUpTo(ts, es, i)
    decreases n
  {
    if i < n {
      RunBefore(ts, es, i, n - 1);
    }
  }

  lemma {:induction false} TablesUpTo(ts: seq<Tables>, es: seq<Event>, n: nat)
    requires |ts| == |es| + 1 && n <= |es| && RunUpTo(ts, es, n)
    ensures TablesOk(ts[n])
  {
    if n > 0 {
      TablesUpTo(ts, es, n - 1);
      StepKeepsTables(ts[n - 1], es[n - 1], ts[n]);
    }
  }

  lemma {:induction false} RunKeepsTables(ts: seq<Tables>, es: seq<Event>, i: nat)
    requires IsRun(ts, es) && i <= |es|
    ensures TablesOk(ts[i])
  {
    RunBefore(ts, es, i, |es|);
    TablesUpTo(ts, es, i);
  }

  lemma {:induction false} StepOfRun(ts: seq<Tables>, es: seq<Event>, i: nat)
    requires IsRun(ts, es) && i < |es|
    ensures TablesOk(ts[i]) && Step(ts[i], es[i], ts[i + 1])
  {
    RunKeepsTables(ts, es, i);
    RunBefore(ts, es, i + 1, |es|);
  }

  // ---------- The strongest BSS

  function CurrentOf(t: Tables): set<nat> {
    if t.current.Some? then {t.current.value} else {}
  }

  /** The networks whose BSSs the notification makes the code rank anew. */
  function Reranked(t: Tables, e: Event): set<nat> {
    match e
    case Removed(p) => if p in t.mapping && t.mapping[p] in t.networks then {t.networks[t.mapping[p]].serial} else {}
    case Changed(b) =>
      if b.path !in t.mapping || t.mapping[b.path] !in t.networks then {}
      else
        var n := t.networks[t.mapping[b.path]];
        if n.security != b.security || (n.bestBss == Some(b.path) && b.signal < n.signal) then {n.serial} else {}
    case _ => {}
  }

  /** Networks that were the current one since they were last ranked. */
  function StaleAfter(t: Tables, e: Event, t': Tables, stale: set<nat>): set<nat> {
    stale - Reranked(t, e) + CurrentOf(t')
  }

  function StaleAt(ts: seq<Tables>, es: seq<Event>, i: nat): set<nat>
    requires |ts| == |es| + 1 && i <= |es|
  {
    if i == 0 then {} else StaleAfter(ts[i - 1], es[i - 1], ts[i], StaleAt(ts, es, i - 1))
  }

  lemma {:induction false} TakenOutKeepsMax(t: Tables, path: string, t': Tables, stale: set<nat>)
    requires TablesOk(t) && MaxOk(t, stale) && TakenOut(t, path, t')
    ensures MaxOk(t', stale - {t.networks[t.mapping[path]].serial} + CurrentOf(t'))
  {
    DropKeepsMax(t, path, t', stale);
  }

  lemma {:induction false} RefreshKeepsMax(t: Tables, b: Bss, t': Tables, stale: set<nat>)
    requires TablesOk(t) && MaxOk(t, stale) && RefreshedIn(t, b, t') && Stays(t, b)
    ensures MaxOk(t', StaleAfter(t, Changed(b), t', stale))
  {
    var g := t.mapping[b.path];
    assert NetworkOk(g, t.networks[g]);
    RefreshedOk(t.current, g, t.networks[g], b, t'.networks[g]);
  }

  lemma {:induction false} MovedKeepsMax(t: Tables, b: Bss, t': Tables, stale: set<nat>)
    requires TablesOk(t) && b.path in t.mapping && MaxOk(t, stale) && Moved(t, b, t')
    ensures MaxOk(t', stale - {t.networks[t.mapping[b.path]].serial} + CurrentOf(t'))
  {
    var between :| TakenOut(t, b.path, between) && t' == AddTo(between, b);
    TakenOutKeepsMax(t, b.path, between, stale);
    AddKeepsMax(between, CreateGroup(b), b, stale - {t.networks[t.mapping[b.path]].serial} + CurrentOf(between));
  }

  lemma {:induction false} MadeCurrentKeepsMax(w: Tables, path: string, t': Tables, stale: set<nat>)
    requires SerialsOk(w) && Known(w, path) && MaxOk(w, stale) && t' == MadeCurrent(w, path)
    ensures MaxOk(t', stale + CurrentOf(t'))
  {
  }

  lemma {:induction false} SetCurrentKeepsMax(t: Tables, path: string, t': Tables, stale: set<nat>)
    requires TablesOk(t) && MaxOk(t, stale) && t' == SetCurrent(t, path)
    ensures MaxOk(t', stale + CurrentOf(t'))
  {
    if path != "/" {
      var w := WithBss(t, path);
      assert TablesOk(w) && Known(w, path) by {
        WithBssOk(t, path);
      }
      assert MaxOk(w, stale) by {
        AddKeepsMax(t, CreateGroup(Unannounced(path)), Unannounced(path), stale);
      }
      MadeCurrentKeepsMax(w, path, t', stale);
    }
  }

  lemma {:induction false} StepKeepsMax(t: Tables, e: Event, t': Tables, stale: set<nat>)
    requires TablesOk(t) && MaxOk(t, stale) && Step(t, e, t')
    ensures MaxOk(t', StaleAfter(t, e, t', stale))
  {
    match e
    case Added(b) =>
      if b.path != "/" && b.path !in t.mapping {
        AddKeepsMax(t, CreateGroup(b), b, stale);
      }
    case Removed(p) =>
      if p in t.mapping {
        TakenOutKeepsMax(t, p, t', stale);
      }
    case Changed(b) =>
      if b.path in t.mapping {
        if Stays(t, b) {
          RefreshKeepsMax(t, b, t', stale);
        } else {
          MovedKeepsMax(t, b, t', stale);
        }
      }
    case Current(p) => SetCurrentKeepsMax(t, p, t', stale);
  }

  lemma {:induction false} RunKeepsMax(ts: seq<Tables>, es: seq<Event>, i: nat)
    requires IsRun(ts, es) && i <= |es|
    ensures MaxOk(ts[i], StaleAt(ts, es, i))
  {
    if i == 0 {
      RunBefore(ts, es, 0, |es|);
    } else {
      StepOfRun(ts, es, i - 1);
      RunKeepsMax(ts, es, i - 1);
      StepKeepsMax(ts[i - 1], es[i - 1], ts[i], StaleAt(ts, es, i - 1));
    }
  }

  /** After every time the network was the current one, its BSSs were ranked anew. */
  predicate RankedSince(ts: seq<Tables>, es: seq<Event>, i: nat, serial: nat)
    requires |ts| == |es| + 1 && i <= |es|
  {
    forall j :: 0 <= j <= i && ts[j].current == Some(serial) ==>
        exists k :: j <= k < i && serial in Reranked(ts[k], es[k])
  }

  lemma {:induction false} StaleWasCurrent(ts: seq<Tables>, es: seq<Event>, i: nat, serial: nat)
    requires |ts| == |es| + 1 && i <= |es| && serial in StaleAt(ts, es, i)
    ensures !RankedSince(ts, es, i, serial)
  {
    if serial !in CurrentOf(ts[i]) {
      StaleWasCurrent(ts, es, i - 1, serial);
      var j :| 0 <= j <= i - 1 && ts[j].current == Some(serial) &&
        !exists k :: j <= k < i - 1 && serial in Reranked(ts[k], es[k]);
      assert serial !in Reranked(ts[i - 1], es[i - 1]);
    } else {
      assert ts[i].current == Some(serial);
    }
  }

  /**
   In every run, a network that was not the current one since its BSSs were last ranked
   caches the strongest of them, or none if all are as weak as an unknown one.
   */
  lemma {:induction false} CachesMaximum(ts: seq<Tables>, es: seq<Event>, i: nat, g: string)
    requires IsRun(ts, es) && i <= |es| && g in ts[i].networks
    requires RankedSince(ts, es, i, ts[i].networks[g].serial)
    ensures BestCached(ts[i].networks[g]) && IsMaximum(ts[i].networks[g])
  {
    RunKeepsTables(ts, es, i);
    assert NetworkOk(g, ts[i].networks[g]);
    RunKeepsMax(ts, es, i);
    if ts[i].networks[g].serial in StaleAt(ts, es, i) {
      StaleWasCurrent(ts, es, i, ts[i].networks[g].serial);
    }
  }

  /** In particular, so does a network that never was the current one. */
  lemma {:induction false} NeverCurrentCachesMaximum(ts: seq<Tables>, es: seq<Event>, i: nat, g: string)
    requires IsRun(ts, es) && i <= |es| && g in ts[i].networks
    requires forall j :: 0 <= j <= i ==> ts[j].current != Some(ts[i].networks[g].serial)
    ensures BestCached(ts[i].networks[g]) && IsMaximum(ts[i].networks[g])
  {
    CachesMaximum(ts, es, i, g);
  }

  // ---------- Networks that a notification leaves alone

  /** The notification is about a BSS of network `g`, or one that joins it. */
  predicate Touches(t: Tables, e: Event, g: string)
    requires TablesOk(t)
  {
    match e
    case Added(b) => b.path !in t.mapping && CreateGroup(b) == g
    case Removed(p) => p in t.mapping && t.mapping[p] == g
    case Changed(b) => b.path in t.mapping && (t.mapping[b.path] == g || (!Stays(t, b) && CreateGroup(b) == g))
    case Current(p) => p != "/" && (if p in t.mapping then t.mapping[p] else CreateGroup(Unannounced(p))) == g
  }

  lemma {:induction false} OthersStayOnAdd(t: Tables, h: string, b: Bss, g: string)
    requires g in t.networks && g != h
    ensures g in AddUnder(t, h, b).networks && AddUnder(t, h, b).networks[g] == t.networks[g]
  {
  }

  lemma {:induction false} OthersStayOnMove(t: Tables, b: Bss, t': Tables, g: string)
    requires TablesOk(t) && Moved(t, b, t') && g in t.networks && g != t.mapping[b.path] && g != CreateGroup(b)
    ensures g in t'.networks && t'.networks[g] == t.networks[g]
  {
    var between :| TakenOut(t, b.path, between) && t' == AddTo(between, b);
    OthersStayOnAdd(between, CreateGroup(b), b, g);
  }

  lemma {:induction false} OthersStayOnCurrent(t: Tables, path: string, g: string)
    requires TablesOk(t) && g in t.networks
    requires g != if path in t.mapping then t.mapping[path] else CreateGroup(Unannounced(path))
    ensures g in SetCurrent(t, path).networks && SetCurrent(t, path).networks[g] == t.networks[g]
  {
    if path != "/" {
      var w, b := WithBss(t, path), Unannounced(path);
      WithBssOk(t, path);
      if path !in t.mapping {
        OthersStayOnAdd(t, CreateGroup(b), b, g);
      }
    }
  }

  lemma {:induction false} OthersStay(t: Tables, e: Event, t': Tables, g: string)
    requires TablesOk(t) && Step(t, e, t') && g in t.networks && !Touches(t, e, g)
    ensures g in t'.networks && t'.networks[g] == t.networks[g]
  {
    match e
    case Added(b) =>
    case Removed(p) =>
    case Changed(b) =>
      if b.path in t.mapping && !Stays(t, b) {
        OthersStayOnMove(t, b, t', g);
      }
    case Current(p) =>
      if p != "/" {
        OthersStayOnCurrent(t, p, g);
      }
  }

  /** No notification from `i` up to `j` is about network `g`. */
  predicate Untouched(ts: seq<Tables>, es: seq<Event>, i: nat, j: nat, g: string)
    requires |ts| == |es| + 1 && i <= j <= |es|
  {
    forall k :: i <= k < j ==> TablesOk(ts[k]) ==> !Touches(ts[k], es[k], g)
  }

  lemma {:induction false} OthersStayInRun(ts: seq<Tables>, es: seq<Event>, i: nat, j: nat, g: string)
    requires IsRun(ts, es) && i <= j <= |es| && g in ts[i].networks && Untouched(ts, es, i, j, g)
    ensures g in ts[j].networks && ts[j].networks[g] == ts[i].networks[g]
    decreases j
  {
    if i < j {
      OthersStayInRun(ts, es, i, j - 1, g);
      StepOfRun(ts, es, j - 1);
      OthersStay(ts[j - 1], es[j - 1], ts[j], g);
    }
  }

  lemma {:induction false} NamedIsBest(t: Tables, p: string, t': Tables)
    requires TablesOk(t) && p != "/" && t' == SetCurrent(t, p)
    ensures Known(t', p)
    ensures var n := t'.networks[t'.mapping[p]]; n.bestBss == Some(p) && n.signal == n.bssTable[p].signal
  {
    WithBssOk(t, p);
  }

  /**
   A network that stops being the current one is not ranked: after the BSS `p` was in use,
   and until the next notification about the network, it caches its strongest BSS exactly
   when `p` is the strongest.
   */
  lemma {:induction false} LeavingDoesNotRank(ts: seq<Tables>, es: seq<Event>, i: nat, j: nat, p: string)
    requires IsRun(ts, es) && i < j <= |es| && es[i] == Current(p) && p != "/"
    requires p in ts[i + 1].mapping && Untouched(ts, es, i + 1, j, ts[i + 1].mapping[p])
    ensures var g := ts[i + 1].mapping[p];
            && g in ts[j].networks && p in ts[j].networks[g].bssTable && ts[j].networks[g].bestBss == Some(p)
            && var n := ts[j].networks[g];
               IsMaximum(n) <==> forall q :: q in n.bssTable ==> n.bssTable[q].signal <= n.bssTable[p].signal
  {
    assert TablesOk(ts[i]) && ts[i + 1] == SetCurrent(ts[i], p) by {
      StepOfRun(ts, es, i);
    }
    NamedIsBest(ts[i], p, ts[i + 1]);
    OthersStayInRun(ts, es, i + 1, j, ts[i + 1].mapping[p]);
  }

  // ---------- A network after it was the current one

  /**
   `m` is `n` some time later: of the BSSs in `ps` none is stronger than its cached signal, the
   others are as in `n`.
   */
  ghost predicate Rises(n: Network, m: Network, ps: set<string>) {
    && m.serial == n.serial && m.signal >= n.signal
    && (forall p :: p in m.bssTable && p in ps ==> m.bssTable[p].signal <= m.signal)
    && (forall p :: p in m.bssTable && p !in ps ==> p in n.bssTable && m.bssTable[p] == n.bssTable[p])
  }

  lemma {:induction false} RisesOn(n: Network, m: Network, r: Network, ps: set<string>, qs: set<string>)
    requires Rises(n, m, ps) && Rises(m, r, qs)
    ensures Rises(n, r, ps + qs)
  {
    forall p | p in r.bssTable && p in ps + qs ensures r.bssTable[p].signal <= r.signal {
      if p !in qs {
        assert p in m.bssTable && r.bssTable[p] == m.bssTable[p];
      }
    }
  }

  /** The BSS of network `g` that a notification announces or changes. */
  function Notified(t: Tables, e: Event, g: string): set<string> {
    if TablesOk(t) && (e.Added? || e.Changed?) && Touches(t, e, g) then {e.bss.path} else {}
  }

  /** Network `g` is not the current one and not ranked anew. */
  predicate Coasts(t: Tables, e: Event, t': Tables, g: string) {
    && g in t.networks && t.current != Some(t.networks[g].serial) && t'.current != Some(t.networks[g].serial)
    && t.networks[g].serial !in Reranked(t, e)
  }

  lemma {:induction false} JoinRises(t: Tables, g: string, b: Bss)
    requires g in t.networks && t.current != Some(t.networks[g].serial)
    ensures Rises(t.networks[g], JoinNetwork(t, g, b), {b.path})
  {
  }

  lemma {:induction false} RefreshRises(current: Option<nat>, n: Network, b: Bss, r: Network)
    requires current != Some(n.serial) && Refreshed(current, n, b, r)
    requires n.bestBss != Some(b.path) || b.signal >= n.signal
    ensures Rises(n, r, {b.path})
  {
  }

  lemma {:induction false} ChangeRises(t: Tables, b: Bss, t': Tables, g: string)
    requires TablesOk(t) && Step(t, Changed(b), t') && Coasts(t, Changed(b), t', g) && Touches(t, Changed(b), g)
    ensures g in t'.networks && Rises(t.networks[g], t'.networks[g], {b.path})
  {
    if Stays(t, b) {
      RefreshRises(t.current, t.networks[g], b, t'.networks[g]);
    } else {
      var between :| TakenOut(t, b.path, between) && t' == AddTo(between, b);
      assert g in between.networks && between.networks[g] == t.networks[g];
      JoinRises(between, g, b);
    }
  }

  lemma {:induction false} NamedIsCurrent(t: Tables, path: string, g: string)
    requires TablesOk(t) && g in t.networks && Touches(t, Current(path), g)
    ensures SetCurrent(t, path).current == Some(t.networks[g].serial)
  {
    WithBssOk(t, path);
  }

  /** Away from the current network, a notification keeps the cached signal above what it announces. */
  lemma {:induction false} StepRises(t: Tables, e: Event, t': Tables, g: string)
    requires TablesOk(t) && Step(t, e, t') && Coasts(t, e, t', g)
    ensures g in t'.networks && Rises(t.networks[g], t'.networks[g], Notified(t, e, g))
  {
    if !Touches(t, e, g) {
      OthersStay(t, e, t', g);
    } else {
      match e
      case Added(b) =>
        if b.path != "/" {
          JoinRises(t, g, b);
        }
      case Changed(b) => ChangeRises(t, b, t', g);
      case Removed(p) =>
      case Current(p) => NamedIsCurrent(t, p, g);
    }
  }

  lemma {:induction false} RisesStep(n: Network, t: Tables, e: Event, t': Tables, g: string, ps: set<string>)
    requires TablesOk(t) && Step(t, e, t') && Coasts(t, e, t', g) && Rises(n, t.networks[g], ps)
    ensures g in t'.networks && Rises(n, t'.networks[g], ps + Notified(t, e, g))
  {
    StepRises(t, e, t', g);
    RisesOn(n, t.networks[g], t'.networks[g], ps, Notified(t, e, g));
  }

  /** From `i` to `j`, network `g` is not the current one and not ranked anew. */
  predicate CoastsFrom(ts: seq<Tables>, es: seq<Event>, i: nat, j: nat, g: string)
    requires |ts| == |es| + 1 && i <= j <= |es|
    decreases j
  {
    i < j ==> CoastsFrom(ts, es, i, j - 1, g) && Coasts(ts[j - 1], es[j - 1], ts[j], g)
  }

  /** The BSSs of network `g` that were announced or changed from `i` to `j`. */
  function NotifiedFrom(ts: seq<Tables>, es: seq<Event>, i: nat, j: nat, g: string): set<string>
    requires |ts| == |es| + 1 && i <= j <= |es|
    decreases j
  {
    if i == j then {} else NotifiedFrom(ts, es, i, j - 1, g) + Notified(ts[j - 1], es[j - 1], g)
  }

  /** From `i` on, up to `j`. Recursive, so that it is used as a whole. */
  ghost predicate RisesFrom(ts: seq<Tables>, es: seq<Event>, i: nat, j: nat, g: string)
    requires |ts| == |es| + 1 && i <= j <= |es| && g in ts[i].networks
    decreases j
  {
    && (i < j ==> RisesFrom(ts, es, i, j - 1, g))
    && g in ts[j].networks && Rises(ts[i].networks[g], ts[j].networks[g], NotifiedFrom(ts, es, i, j, g))
  }

  lemma {:induction false} RisesNext(ts: seq<Tables>, es: seq<Event>, i: nat, j: nat, g: string)
    requires IsRun(ts, es) && i <= j < |es| && g in ts[i].networks && CoastsFrom(ts, es, i, j + 1, g)
    requires RisesFrom(ts, es, i, j, g)
    ensures RisesFrom(ts, es, i, j + 1, g)
  {
    StepOfRun(ts, es, j);
    RisesStep(ts[i].networks[g], ts[j], es[j], ts[j + 1], g, NotifiedFrom(ts, es, i, j, g));
  }

  lemma {:induction false} RunRises(ts: seq<Tables>, es: seq<Event>, i: nat, j: nat, g: string)
    requires IsRun(ts, es) && i <= j <= |es| && g in ts[i].networks && CoastsFrom(ts, es, i, j, g)
    ensures RisesFrom(ts, es, i, j, g)
    decreases j
  {
    if i < j {
      RunRises(ts, es, i, j - 1, g);
      RisesNext(ts, es, i, j - 1, g);
    }
  }

  /**
   Since a network stopped being the current one, and until it is ranked again or current
   again, it caches its strongest BSS exactly if no BSS that was not heard of since then is
   stronger than the cached one.
   */
  lemma {:induction false} MaximumAfterLeaving(ts: seq<Tables>, es: seq<Event>, i: nat, j: nat, g: string)
    requires IsRun(ts, es) && i <= j <= |es| && g in ts[i].networks && CoastsFrom(ts, es, i, j, g)
    ensures g in ts[j].networks
    ensures var n := ts[j].networks[g];
            IsMaximum(n) <==>
            forall p :: p in n.bssTable && p !in NotifiedFrom(ts, es, i, j, g) ==> n.bssTable[p].signal <= n.signal
  {
    RunRises(ts, es, i, j, g);
  }

  // ---------- The network that a BSS belongs to

  function BssAt(t: Tables, p: string): Bss
    requires IndexesAgree(t) && p in t.mapping
  {
    t.networks[t.mapping[p]].bssTable[p]
  }

  /** The notification gives a BSS another network name but not another security. */
  predicate Renames(t: Tables, e: Event)
    requires TablesOk(t)
  {
    e.Changed? && e.bss.path in t.mapping && Stays(t, e.bss) && CreateGroup(e.bss) != t.mapping[e.bss.path]
  }

  /** After a change a BSS is in the network that its properties name iff it moved or kept its network name. */
  lemma {:induction false} ChangedIsGrouped(t: Tables, b: Bss, t': Tables)
    requires TablesOk(t) && TablesOk(t') && b.path in t.mapping && Step(t, Changed(b), t')
    ensures b.path in t'.mapping && BssAt(t', b.path) == b
    ensures CreateGroup(b) == t'.mapping[b.path] <==> !Renames(t, Changed(b))
  {
    if Stays(t, b) {
      var g := t.mapping[b.path];
      assert NetworkOk(g, t.networks[g]);
      RefreshedOk(t.current, g, t.networks[g], b, t'.networks[g]);
    }
  }

  lemma {:induction false} ReplaceKeepsGroups(t: Tables, g: string, n: Network, t': Tables)
    requires Grouped(t) && t'.networks == t.networks[g := n]
    ensures Grouped(t') <==> AllNamed(g, n.bssTable)
  {
    assert t'.networks[g] == n;
    if AllNamed(g, n.bssTable) {
      forall h | h in t'.networks ensures AllNamed(h, t'.networks[h].bssTable) {
        if h != g {
          assert h in t.networks && t'.networks[h] == t.networks[h];
        }
      }
    }
  }

  lemma {:induction false} RefreshKeepsGroups(t: Tables, b: Bss, t': Tables)
    requires TablesOk(t) && Grouped(t) && RefreshedIn(t, b, t') && Stays(t, b)
    ensures Grouped(t') <==> CreateGroup(b) == t.mapping[b.path]
  {
    var g := t.mapping[b.path];
    assert NetworkOk(g, t.networks[g]);
    RefreshedOk(t.current, g, t.networks[g], b, t'.networks[g]);
    assert AllNamed(g, t.networks[g].bssTable);
    AddNamed(g, t.networks[g].bssTable, b);
    ReplaceKeepsGroups(t, g, t'.networks[g], t');
  }

  lemma {:induction false} MadeCurrentKeepsGroups(t: Tables, path: string)
    requires IndexesAgree(t) && path in t.mapping && Grouped(t)
    ensures Grouped(MadeCurrent(t, path))
  {
    assert AllNamed(t.mapping[path], t.networks[t.mapping[path]].bssTable);
  }

  lemma {:induction false} SetCurrentKeepsGroups(t: Tables, path: string)
    requires TablesOk(t) && Grouped(t)
    ensures Grouped(SetCurrent(t, path))
  {
    if path != "/" {
      WithBssOk(t, path);
      var b := Unannounced(path);
      if path !in t.mapping {
        AddKeepsGroups(t, CreateGroup(b), b);
      }
      MadeCurrentKeepsGroups(WithBss(t, path), path);
    }
  }

  /**
   Every notification keeps all BSSs in the networks that their properties name, except exactly
   those that rename one.
   */
  lemma {:induction false} StepKeepsGroups(t: Tables, e: Event, t': Tables)
    requires TablesOk(t) && Grouped(t) && Step(t, e, t')
    ensures Grouped(t') <==> !Renames(t, e)
  {
    match e
    case Added(b) =>
      if b.path != "/" && b.path !in t.mapping {
        AddKeepsGroups(t, CreateGroup(b), b);
      }
    case Removed(p) =>
      if p in t.mapping {
        DropKeepsGroups(t, p, t');
      }
    case Changed(b) =>
      if b.path in t.mapping {
        if Stays(t, b) {
          RefreshKeepsGroups(t, b, t');
        } else {
          var between :| TakenOut(t, b.path, between) && t' == AddTo(between, b);
          DropKeepsGroups(t, b.path, between);
          AddKeepsGroups(between, CreateGroup(b), b);
        }
      }
    case Current(p) => SetCurrentKeepsGroups(t, p);
  }

  /** None of the first `n` notifications renames a BSS. */
  predicate NoRenames(ts: seq<Tables>, es: seq<Event>, n: nat)
    requires |ts| == |es| + 1 && n <= |es|
  {
    n == 0 || (NoRenames(ts, es, n - 1) && (TablesOk(ts[n - 1]) ==> !Renames(ts[n - 1], es[n - 1])))
  }

  lemma {:induction false} GroupedUpTo(ts: seq<Tables>, es: seq<Event>, n: nat)
    requires IsRun(ts, es) && n <= |es| && NoRenames(ts, es, n)
    ensures Grouped(ts[n])
  {
    if n == 0 {
      RunBefore(ts, es, 0, |es|);
    } else {
      GroupedUpTo(ts, es, n - 1);
      StepOfRun(ts, es, n - 1);
      StepKeepsGroups(ts[n - 1], es[n - 1], ts[n]);
    }
  }

  /**
   In every run all BSSs are grouped by their properties up to the first notification that
   renames one, and not right after it.
   */
  lemma {:induction false} GroupedUntilRename(ts: seq<Tables>, es: seq<Event>, i: nat)
    requires IsRun(ts, es) && i < |es| && NoRenames(ts, es, i)
    ensures TablesOk(ts[i]) && Grouped(ts[i]) && (Grouped(ts[i + 1]) <==> !Renames(ts[i], es[i]))
  {
    GroupedUpTo(ts, es, i);
    StepOfRun(ts, es, i);
    StepKeepsGroups(ts[i], es[i], ts[i + 1]);
  }

  /**
   While BSSs are grouped by their properties, two of them share a network iff they agree in
   SSID, mode and security.
   */
  lemma {:induction false} MembersAgree(t: Tables, p: string, q: string)
    requires TablesOk(t) && Grouped(t) && p in t.mapping && q in t.mapping
    ensures t.mapping[p] == t.mapping[q] <==> SameKind(BssAt(t, p), BssAt(t, q))
  {
    assert AllNamed(t.mapping[p], t.networks[t.mapping[p]].bssTable);
    assert AllNamed(t.mapping[q], t.networks[t.mapping[q]].bssTable);
    GroupIdentifiesNetwork(BssAt(t, p), BssAt(t, q));
  }

  /** A BSS that was renamed differs in SSID or mode from all others in its network. */
  lemma {:induction false} RenamedDiffers(t: Tables, b: Bss, t': Tables, q: string)
    requires TablesOk(t) && Grouped(t) && Step(t, Changed(b), t') && Renames(t, Changed(b))
    requires q != b.path && q in TableOf(t'.networks, t.mapping[b.path])
    ensures b.path in TableOf(t'.networks, t.mapping[b.path])
            && !SameKind(TableOf(t'.networks, t.mapping[b.path])[q], b)
  {
    var g := t.mapping[b.path];
    assert NetworkOk(g, t.networks[g]);
    RefreshedOk(t.current, g, t.networks[g], b, t'.networks[g]);
    assert AllNamed(g, t.networks[g].bssTable);
    GroupIdentifiesNetwork(t.networks[g].bssTable[q], b);
  }

  /** What such a notification changes is the SSID, or its being hidden, or the mode. */
  lemma {:induction false} RenameMeans(t: Tables, b: Bss)
    requires TablesOk(t) && Grouped(t) && b.path in t.mapping
    ensures Renames(t, Changed(b)) <==> Stays(t, b) && !SameKind(BssAt(t, b.path), b)
  {
    assert AllNamed(t.mapping[b.path], t.networks[t.mapping[b.path]].bssTable);
    GroupIdentifiesNetwork(BssAt(t, b.path), b);
  }
}
