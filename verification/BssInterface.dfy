/** The supplicant's notifications about BSSs, updating the tables of one interface in place. */
module BssInterface {
  import opened Words
  import opened BssNames
  import opened BssTables

  lemma {:induction false} OnlyOne(s: set<string>, x: string)
    requires |s| <= 1 && x in s
    ensures s == {x}
  {
    assert |s - {x}| == |s| - 1;
  }

  /** `update_network_signal`: looks for a stronger BSS, in no particular order. */
  method UpdateNetworkSignal(n: Network) returns (r: Network)
    requires BestCached(n)
    ensures Ranked(n, r)
  {
    r := n;
    if |n.bssTable| <= 1 && n.bestBss.Some? {
      OnlyOne(n.bssTable.Keys, n.bestBss.value);
      return;
    }
    var paths := n.bssTable.Keys;
    while paths != {}
      invariant paths <= n.bssTable.Keys
      invariant BestCached(r) && r == n.(signal := r.signal, bestBss := r.bestBss)
      invariant forall p :: p in n.bssTable && p !in paths ==> n.bssTable[p].signal <= r.signal
      invariant IsMaximum(n) ==> r == n
      decreases |paths|
    {
      var p :| p in paths;
      if n.bssTable[p].signal > r.signal {
        r := r.(signal := n.bssTable[p].signal, bestBss := Some(p));
      }
      paths := paths - {p};
    }
  }

  class Interface {
    var globalMapping: set<string>
    var bssMapping: map<string, string>
    var networkTable: map<string, Network>
    /** The serial of the network the interface is associated with. */
    var current: Option<nat>
    var nextSerial: nat

    ghost function Now(): Tables
      reads this
    {
      Tables(globalMapping, bssMapping, networkTable, current, nextSerial)
    }

    ghost predicate Valid()
      reads this
    {
      TablesOk(Now())
    }

    constructor ()
      ensures Valid() && Now() == Empty
    {
      globalMapping, bssMapping, networkTable := {}, map[], map[];
      current, nextSerial := None, 0;
    }

    /** The BSS joins the network of this name, which is created if it does not exist. */
    method AddToGroup(group: string, bss: Bss)
      modifies this
      ensures Now() == AddUnder(old(Now()), group, bss)
    {
      var network: Network;
      if group in networkTable {
        network := networkTable[group];
      } else {
        network := Network(nextSerial, bss.security, bss.signal, Some(bss.path), map[]);
        nextSerial := nextSerial + 1;
      }
      if current != Some(network.serial) && bss.signal > network.signal {
        network := network.(signal := bss.signal, bestBss := Some(bss.path));
      }
      bssMapping := bssMapping[bss.path := group];
      globalMapping := globalMapping + {bss.path};
      network := network.(bssTable := network.bssTable[bss.path := bss]);
      networkTable := networkTable[group := network];
    }

    /** `add_or_replace_bss_to_network` for a path that is in no network. */
    method AddToNetwork(bss: Bss)
      requires Valid() && bss.path !in bssMapping
      modifies this
      ensures Valid() && Now() == AddTo(old(Now()), bss)
    {
      AddKeepsTables(Now(), bss);
      AddToGroup(CreateGroup(bss), bss);
    }

    /** BSSAdded with its properties; a known path is ignored. */
    method BssAdded(bss: Bss)
      requires Valid()
      modifies this
      ensures Valid()
      ensures Now() == if bss.path == "/" || bss.path in old(bssMapping) then old(Now()) else AddTo(old(Now()), bss)
    {
      if bss.path == "/" || bss.path in bssMapping {
        return;
      }
      AddToNetwork(bss);
    }

    /** Takes a BSS out of all indexes, ranks the rest of its network and drops an empty network. */
    method TakeOut(path: string)
      requires Valid() && path in bssMapping
      modifies this
      ensures Valid() && TakenOut(old(Now()), path, Now())
    {
      ghost var before := Now();
      var group := bssMapping[path];
      var network := networkTable[group];
      assert NetworkOk(group, network);
      if network.bestBss == Some(path) {
        network := network.(bestBss := None, signal := BSS_UNKNOWN_STRENGTH);
      }
      globalMapping := globalMapping - {path};
      bssMapping := bssMapping - {path};
      network := network.(bssTable := network.bssTable - {path});
      network := UpdateNetworkSignal(network);
      if network.bssTable == map[] {
        networkTable := networkTable - {group};
      } else {
        networkTable := networkTable[group := network];
      }
      DropKeepsTables(before, path, Now());
    }

    method BssRemoved(path: string)
      requires Valid()
      modifies this
      ensures Valid()
      ensures if path in old(bssMapping) then TakenOut(old(Now()), path, Now()) else Now() == old(Now())
    {
      if path in bssMapping {
        TakeOut(path);
      }
    }

    /** The cached BSS of a network after one of its BSSs got new properties. */
    method Refresh(n: Network, bss: Bss) returns (network: Network)
      requires BestCached(n) && bss.path in n.bssTable
      ensures Refreshed(current, n, bss, network)
    {
      network := n.(bssTable := n.bssTable[bss.path := bss]);
      if current == Some(n.serial) && n.bestBss != Some(bss.path) {
        return;
      }
      if bss.signal == n.signal {
        return;
      }
      if bss.signal < n.signal {
        if n.bestBss != Some(bss.path) {
          return;
        }
        network := network.(signal := bss.signal);
        network := UpdateNetworkSignal(network);
      } else {
        network := network.(signal := bss.signal, bestBss := Some(bss.path));
      }
    }

    /** A BSS whose security is that of its network stays there. */
    method RefreshBss(bss: Bss)
      requires Valid() && bss.path in bssMapping && networkTable[bssMapping[bss.path]].security == bss.security
      modifies `networkTable
      ensures Valid() && RefreshedIn(old(Now()), bss, Now())
    {
      ghost var before := Now();
      var group := bssMapping[bss.path];
      assert NetworkOk(group, networkTable[group]);
      var network := Refresh(networkTable[group], bss);
      networkTable := networkTable[group := network];
      RefreshKeepsTables(before, bss, Now());
    }

    /** A BSS whose security changed leaves its network and joins another. */
    method MoveBss(bss: Bss)
      requires Valid() && bss.path in bssMapping
      modifies this
      ensures Valid() && Moved(old(Now()), bss, Now())
    {
      TakeOut(bss.path);
      ghost var between := Now();
      AddToNetwork(bss);
    }

    /** The properties of a BSS changed; with its security it moves to another network. */
    method BssChanged(bss: Bss)
      requires Valid()
      modifies this
      ensures Valid() && Step(old(Now()), Changed(bss), Now())
    {
      if bss.path !in bssMapping {
        return;
      }
      if networkTable[bssMapping[bss.path]].security != bss.security {
        MoveBss(bss);
      } else {
        RefreshBss(bss);
      }
    }

    method MakeCurrent(path: string)
      requires Valid() && path in bssMapping
      modifies `current, `networkTable
      ensures Valid() && Now() == MadeCurrent(old(Now()), path)
    {
      CurrentKeepsTables(Now(), path);
      var group := bssMapping[path];
      var network := networkTable[group];
      assert NetworkOk(group, network);
      current := Some(network.serial);
      if network.bestBss != Some(path) {
        network := network.(bestBss := Some(path));
        if network.signal != network.bssTable[path].signal {
          network := network.(signal := network.bssTable[path].signal);
        }
      }
      networkTable := networkTable[group := network];
    }

    /** The supplicant names the BSS it is associated with, or none. */
    method CurrentBss(path: string)
      requires Valid()
      modifies this
      ensures Valid()
      ensures Now() == SetCurrent(old(Now()), path)
    {
      if path == "/" {
        current := None;
        return;
      }
      WithBssOk(Now(), path);
      BssAdded(Unannounced(path));
      MakeCurrent(path);
    }

    /** One notification. */
    method Notify(e: Event)
      requires Valid()
      modifies this
      ensures Valid() && Step(old(Now()), e, Now())
    {
      match e {
        case Added(bss) => BssAdded(bss);
        case Removed(path) => BssRemoved(path);
        case Changed(bss) => BssChanged(bss);
        case Current(path) => CurrentBss(path);
      }
    }
  }
}
