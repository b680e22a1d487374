/**
 The access points (BSSs) that the supplicant reports for one interface, grouped into
 networks, on values: three indexes that must agree, and one BSS cached per network.
 */
module BssTables {
  import opened Words
  import opened BssNames

  const BSS_UNKNOWN_STRENGTH := -90

  /** `serial` tells apart networks that existed at different times; `bestBss` is a path of `bssTable`. */
  datatype Network = Network(serial: nat, security: Security, signal: int, bestBss: Option<string>,
                             bssTable: map<string, Bss>)

  /** `global` are the paths that the global map sends to this interface; `current` is a serial. */
  datatype Tables = Tables(
    global: set<string>, mapping: map<string, string>, networks: map<string, Network>, current: Option<nat>, next: nat)

  const Empty := Tables({}, map[], map[], None, 0)

  /** The BSSs listed under a network name. */
  function TableOf(networks: map<string, Network>, g: string): map<string, Bss> {
    if g in networks then networks[g].bssTable else map[]
  }

  // ---------- What every notification keeps

  /**
   A path is globally known iff the interface maps it to a network iff that network, and no
   other, lists it; no network is empty.
   */
  predicate IndexesAgree(t: Tables) {
    && t.global == t.mapping.Keys
    && (forall p :: p in t.mapping ==> t.mapping[p] in t.networks && p in t.networks[t.mapping[p]].bssTable)
    && (forall g, p :: g in t.networks && p in t.networks[g].bssTable ==> p in t.mapping && t.mapping[p] == g)
    && (forall g :: g in t.networks ==> t.networks[g].bssTable != map[])
  }

  /** The cached signal is that of the cached BSS, or unknown when there is none. */
  predicate BestCached(n: Network) {
    match n.bestBss
    case None => n.signal == BSS_UNKNOWN_STRENGTH
    case Some(p) => p in n.bssTable && n.bssTable[p].signal == n.signal
  }

  /** The network's name ends as its security does, and all its BSSs share that security. */
  predicate OneSecurity(g: string, n: Network) {
    && g != "" && g[|g| - 1] == LastLetter(n.security)
    && (forall p :: p in n.bssTable ==> n.bssTable[p].security == n.security)
  }

  predicate NetworkOk(g: string, n: Network) {
    BestCached(n) && OneSecurity(g, n)
  }

  predicate NetworksOk(networks: map<string, Network>) {
    forall g :: g in networks ==> NetworkOk(g, networks[g])
  }

  /** Serials are given out once, and no two networks share one. */
  predicate SerialsOk(t: Tables) {
    && (forall g :: g in t.networks ==> t.networks[g].serial < t.next)
    && (forall g, h :: g in t.networks && h in t.networks && t.networks[g].serial == t.networks[h].serial ==> g == h)
    && (t.current.Some? ==> t.current.value < t.next)
  }

  predicate TablesOk(t: Tables) {
    IndexesAgree(t) && NetworksOk(t.networks) && SerialsOk(t)
  }

  /** No BSS of the network is stronger than the cached signal. */
  predicate IsMaximum(n: Network) {
    forall p :: p in n.bssTable ==> n.bssTable[p].signal <= n.signal
  }

  /** Every network outside `stale` caches its strongest BSS; the current network may not. */
  predicate MaxOk(t: Tables, stale: set<nat>) {
    && (t.current.Some? ==> t.current.value in stale)
    && (forall g :: g in t.networks && t.networks[g].serial !in stale ==> IsMaximum(t.networks[g]))
  }

  /** The properties of all BSSs in the table name network `g`. */
  predicate AllNamed(g: string, bsss: map<string, Bss>) {
    forall p :: p in bsss ==> CreateGroup(bsss[p]) == g
  }

  /** Every BSS is in the network that its properties name. */
  predicate Grouped(t: Tables) {
    forall g :: g in t.networks ==> AllNamed(g, t.networks[g].bssTable)
  }

  lemma {:induction false} AddNamed(g: string, bsss: map<string, Bss>, b: Bss)
    requires AllNamed(g, bsss)
    ensures AllNamed(g, bsss[b.path := b]) <==> CreateGroup(b) == g
  {
    assert b.path in bsss[b.path := b] && bsss[b.path := b][b.path] == b;
  }

  // ---------- A BSS joins a network

  /** Network `g` after `b` joined it, or a new one; while a network is the current one, its best BSS is left alone. */
  function JoinNetwork(t: Tables, g: string, b: Bss): Network {
    if g !in t.networks then Network(t.next, b.security, b.signal, Some(b.path), map[b.path := b])
    else
      var n := t.networks[g];
      var best := t.current != Some(n.serial) && b.signal > n.signal;
      n.(bssTable := n.bssTable[b.path := b],
         signal := if best then b.signal else n.signal, bestBss := if best then Some(b.path) else n.bestBss)
  }

  function AddUnder(t: Tables, g: string, b: Bss): Tables {
    t.(global := t.global + {b.path}, mapping := t.mapping[b.path := g],
       networks := t.networks[g := JoinNetwork(t, g, b)], next := if g in t.networks then t.next else t.next + 1)
  }

  /** `add_or_replace_bss_to_network` for a path that is in no network. */
  function AddTo(t: Tables, b: Bss): Tables {
    AddUnder(t, CreateGroup(b), b)
  }

  lemma {:induction false} JoinNetworkOk(t: Tables, g: string, b: Bss)
    requires g in t.networks ==> NetworkOk(g, t.networks[g]) && b.path !in t.networks[g].bssTable
    requires g != "" && g[|g| - 1] == LastLetter(b.security)
    ensures NetworkOk(g, JoinNetwork(t, g, b))
    ensures JoinNetwork(t, g, b).bssTable == TableOf(t.networks, g)[b.path := b]
  {
  }

  /** Listing a new path under network `g` keeps the indexes in agreement. */
  lemma {:induction false} AddKeepsIndexes(t: Tables, path: string, g: string, n: Network, t': Tables)
    requires IndexesAgree(t) && path !in t.mapping && n.bssTable.Keys == TableOf(t.networks, g).Keys + {path}
    requires t'.global == t.global + {path} && t'.mapping == t.mapping[path := g] && t'.networks == t.networks[g := n]
    ensures IndexesAgree(t')
  {
    assert path in n.bssTable.Keys;
    forall p | p in t'.mapping ensures t'.mapping[p] in t'.networks && p in t'.networks[t'.mapping[p]].bssTable {
      if p != path {
        assert p in t.networks[t.mapping[p]].bssTable.Keys;
      }
    }
    forall h, p | h in t'.networks && p in t'.networks[h].bssTable ensures p in t'.mapping && t'.mapping[p] == h {
      assert p in t'.networks[h].bssTable.Keys;
      if p != path || h != g {
        assert h in t.networks && p in t.networks[h].bssTable;
      }
    }
  }

  lemma {:induction false} AddKeepsSerials(t: Tables, g: string, b: Bss)
    requires SerialsOk(t)
    ensures SerialsOk(AddUnder(t, g, b))
  {
  }

  lemma {:induction false} AddKeepsNetworks(t: Tables, g: string, b: Bss)
    requires TablesOk(t) && b.path !in t.mapping && g != "" && g[|g| - 1] == LastLetter(b.security)
    ensures IndexesAgree(AddUnder(t, g, b)) && NetworksOk(AddUnder(t, g, b).networks)
  {
    var n := JoinNetwork(t, g, b);
    assert NetworkOk(g, n) && n.bssTable == TableOf(t.networks, g)[b.path := b] by {
      JoinNetworkOk(t, g, b);
    }
    AddKeepsIndexes(t, b.path, g, n, AddUnder(t, g, b));
  }

  lemma {:induction false} AddKeepsTables(t: Tables, b: Bss)
    requires TablesOk(t) && b.path !in t.mapping
    ensures TablesOk(AddTo(t, b))
  {
    GroupEnds(b);
    AddKeepsNetworks(t, CreateGroup(b), b);
    AddKeepsSerials(t, CreateGroup(b), b);
  }

  lemma {:induction false} AddKeepsMax(t: Tables, g: string, b: Bss, stale: set<nat>)
    requires MaxOk(t, stale)
    ensures MaxOk(AddUnder(t, g, b), stale)
  {
    var t' := AddUnder(t, g, b);
    forall h | h in t'.networks && t'.networks[h].serial !in stale ensures IsMaximum(t'.networks[h]) {
      if h == g {
        assert g in t.networks ==> IsMaximum(t.networks[g]);
      }
    }
  }

  lemma {:induction false} AddKeepsGroups(t: Tables, g: string, b: Bss)
    requires Grouped(t) && g == CreateGroup(b)
    ensures Grouped(AddUnder(t, g, b))
  {
    AddNamed(g, TableOf(t.networks, g), b);
    assert JoinNetwork(t, g, b).bssTable == TableOf(t.networks, g)[b.path := b];
  }

  // ---------- A BSS leaves its network

  /** `r` is `n` with its strongest BSS cached: a stronger one replaces the cached one, equal ones do not. */
  predicate Ranked(n: Network, r: Network) {
    && r == n.(signal := r.signal, bestBss := r.bestBss)
    && BestCached(r) && IsMaximum(r) && (IsMaximum(n) ==> r == n)
  }

  function LeaveNetwork(n: Network, path: string): Network {
    var m := n.(bssTable := n.bssTable - {path});
    if n.bestBss == Some(path) then m.(bestBss := None, signal := BSS_UNKNOWN_STRENGTH) else m
  }

  /** `path` is gone from all indexes, the rest of its network ranked anew; a network left empty is gone too. */
  predicate TakenOut(t: Tables, path: string, t': Tables) {
    && path in t.mapping && t.mapping[path] in t.networks
    && var g := t.mapping[path];
       var n := LeaveNetwork(t.networks[g], path);
       && t' == t.(global := t.global - {path}, mapping := t.mapping - {path}, networks := t'.networks)
       && if n.bssTable == map[] then t'.networks == t.networks - {g}
          else g in t'.networks && Ranked(n, t'.networks[g]) && t'.networks == t.networks[g := t'.networks[g]]
  }

  /** Dropping a path from the indexes keeps them in agreement if a network left empty goes too. */
  lemma {:induction false} DropKeepsIndexes(t: Tables, path: string, n: Network, t': Tables)
    requires IndexesAgree(t) && path in t.mapping && n.bssTable == t.networks[t.mapping[path]].bssTable - {path}
    requires t'.global == t.global - {path} && t'.mapping == t.mapping - {path}
    requires t'.networks == if n.bssTable == map[] then t.networks - {t.mapping[path]}
             else t.networks[t.mapping[path] := n]
    ensures IndexesAgree(t')
  {
    var g := t.mapping[path];
    forall p | p in t'.mapping ensures t'.mapping[p] in t'.networks && p in t'.networks[t'.mapping[p]].bssTable {
      assert p in t.networks[t.mapping[p]].bssTable;
      if t.mapping[p] == g {
        assert p in n.bssTable;
      }
    }
  }

  lemma {:induction false} DropKeepsTables(t: Tables, path: string, t': Tables)
    requires TablesOk(t) && TakenOut(t, path, t')
    ensures TablesOk(t')
  {
    var g := t.mapping[path];
    var n := LeaveNetwork(t.networks[g], path);
    DropKeepsIndexes(t, path, if n.bssTable == map[] then n else t'.networks[g], t');
    assert NetworkOk(g, t.networks[g]);
  }

  /** The network that was left caches its strongest BSS whatever it did before. */
  lemma {:induction false} DropKeepsMax(t: Tables, path: string, t': Tables, stale: set<nat>)
    requires TablesOk(t) && MaxOk(t, stale) && TakenOut(t, path, t')
    ensures forall g :: g in t'.networks && t'.networks[g].serial !in stale - {t.networks[t.mapping[path]].serial} ==>
              IsMaximum(t'.networks[g])
  {
  }

  lemma {:induction false} DropKeepsGroups(t: Tables, path: string, t': Tables)
    requires Grouped(t) && TakenOut(t, path, t')
    ensures Grouped(t')
  {
    forall h | h in t'.networks ensures AllNamed(h, t'.networks[h].bssTable) {
      assert AllNamed(h, t.networks[h].bssTable);
    }
  }

  // ---------- A BSS has new properties

  /** `r` is network `n` after its BSS `b` got new properties, its security being the same. */
  predicate Refreshed(current: Option<nat>, n: Network, b: Bss, r: Network) {
    var m := n.(bssTable := n.bssTable[b.path := b]);
    if current == Some(n.serial) && n.bestBss != Some(b.path) then r == m
    else if b.signal == n.signal then r == m
    else if b.signal > n.signal then r == m.(signal := b.signal, bestBss := Some(b.path))
    else if n.bestBss != Some(b.path) then r == m
    else Ranked(m.(signal := b.signal), r)
  }

  predicate RefreshedIn(t: Tables, b: Bss, t': Tables) {
    && b.path in t.mapping && t.mapping[b.path] in t.networks
    && var g := t.mapping[b.path];
       && g in t'.networks && t' == t.(networks := t.networks[g := t'.networks[g]])
       && Refreshed(t.current, t.networks[g], b, t'.networks[g])
  }

  /** A network that lists the same paths as before keeps its place in the indexes. */
  lemma {:induction false} ReplaceKeepsIndexes(t: Tables, g: string, n: Network, t': Tables)
    requires IndexesAgree(t) && g in t.networks && n.bssTable.Keys == t.networks[g].bssTable.Keys
    requires t'.global == t.global && t'.mapping == t.mapping && t'.networks == t.networks[g := n]
    ensures IndexesAgree(t')
  {
    assert n.bssTable != map[] by {
      assert t.networks[g].bssTable.Keys != {};
    }
    forall p | p in t.mapping ensures t.mapping[p] in t'.networks && p in t'.networks[t.mapping[p]].bssTable {
      assert p in t.networks[t.mapping[p]].bssTable.Keys;
    }
    forall h, p | h in t'.networks && p in t'.networks[h].bssTable ensures p in t.mapping && t.mapping[p] == h {
      assert p in t'.networks[h].bssTable.Keys;
      assert h in t.networks && p in t.networks[h].bssTable;
    }
  }

  lemma {:induction false} RefreshedOk(current: Option<nat>, g: string, n: Network, b: Bss, r: Network)
    requires NetworkOk(g, n) && b.path in n.bssTable && n.security == b.security && Refreshed(current, n, b, r)
    ensures NetworkOk(g, r) && r.bssTable == n.bssTable[b.path := b] && r.serial == n.serial
    ensures IsMaximum(n) && current != Some(n.serial) ==> IsMaximum(r)
    ensures n.bestBss == Some(b.path) && b.signal < n.signal ==> IsMaximum(r)
  {
  }

  lemma {:induction false} RefreshKeepsTables(t: Tables, b: Bss, t': Tables)
    requires TablesOk(t) && RefreshedIn(t, b, t') && t.networks[t.mapping[b.path]].security == b.security
    ensures TablesOk(t')
  {
    var g := t.mapping[b.path];
    RefreshedOk(t.current, g, t.networks[g], b, t'.networks[g]);
    assert (t.networks[g].bssTable[b.path := b]).Keys == t.networks[g].bssTable.Keys;
    ReplaceKeepsIndexes(t, g, t'.networks[g], t');
  }

  // ---------- The BSS in use

  /** The path is mapped to a network that lists it. */
  predicate Known(t: Tables, path: string) {
    path in t.mapping && t.mapping[path] in t.networks && path in t.networks[t.mapping[path]].bssTable
  }

  /** The BSS in use becomes the best one of its network, which becomes the current one. */
  function MadeCurrent(t: Tables, path: string): Tables {
    if !Known(t, path) then t
    else
      var g := t.mapping[path];
      var n := t.networks[g];
      t.(current := Some(n.serial),
         networks := t.networks[g := n.(bestBss := Some(path), signal := n.bssTable[path].signal)])
  }

  lemma {:induction false} CurrentKeepsTables(t: Tables, path: string)
    requires TablesOk(t) && path in t.mapping
    ensures TablesOk(MadeCurrent(t, path))
  {
    var g := t.mapping[path];
    assert NetworkOk(g, t.networks[g]);
    ReplaceKeepsIndexes(t, g, MadeCurrent(t, path).networks[g], MadeCurrent(t, path));
  }

  /** What is known of a BSS that was not announced with its properties. */
  function Unannounced(path: string): Bss {
    Bss(path, [], ModeUnknown, NoSecurity, BSS_UNKNOWN_STRENGTH)
  }

  function WithBss(t: Tables, path: string): Tables {
    if path in t.mapping then t else AddTo(t, Unannounced(path))
  }

  lemma {:induction false} WithBssOk(t: Tables, path: string)
    requires TablesOk(t)
    ensures TablesOk(WithBss(t, path)) && path in WithBss(t, path).mapping
  {
    if path !in t.mapping {
      AddKeepsTables(t, Unannounced(path));
    }
  }

  /** `interface_current_bss`. */
  function SetCurrent(t: Tables, path: string): Tables {
    if path == "/" then t.(current := None) else MadeCurrent(WithBss(t, path), path)
  }

  // ---------- Notifications

  /** BSSAdded, BSSRemoved, PropertiesChanged of a BSS and CurrentBSS. */
  datatype Event = Added(bss: Bss) | Removed(path: string) | Changed(bss: Bss) | Current(path: string)

  /** A known BSS keeps its security. */
  predicate Stays(t: Tables, b: Bss)
    requires IndexesAgree(t) && b.path in t.mapping
  {
    t.networks[t.mapping[b.path]].security == b.security
  }

  /** The BSS is taken out of its network and joins the one of its new name. */
  ghost predicate Moved(t: Tables, b: Bss, t': Tables) {
    exists between :: TakenOut(t, b.path, between) && t' == AddTo(between, b)
  }

  /** What a notification may do; the order of the hash table decides between BSSs of equal strength. */
  ghost predicate Step(t: Tables, e: Event, t': Tables)
    requires TablesOk(t)
  {
    match e
    case Added(b) => t' == if b.path == "/" || b.path in t.mapping then t else AddTo(t, b)
    case Removed(p) => if p in t.mapping then TakenOut(t, p, t') else t' == t
    case Changed(b) =>
      if b.path !in t.mapping then t' == t
      else if Stays(t, b) then RefreshedIn(t, b, t') else Moved(t, b, t')
    case Current(p) => t' == SetCurrent(t, p)
  }
}
