/** What the start leaves in the finder's books, told network by network and contract by contract, and when it aborts. */
module FinderStart {
  import opened Prelude
  import opened FinderRules

  /** The chain's answer for a rollup that could be read. */
  function ReaderOf(view: View): Option<Reader> {
    if view.Data? then view.reader else None
  }

  /** A rollup without an override must be readable, and its reads must not fail. */
  predicate Aborts(cfg: Config, id: NetworkID, view: View) {
    && !cfg.Excluded(id) && cfg.BridgeURL(id) == ""
    && (ReaderOf(view).None? || Resolve(cfg, id, ReaderOf(view)).Error?)
  }

  /** What a configured network shows: its own JSON-RPC URL, else the sequencer's if its rollup was read. */
  function ConfiguredEntry(cfg: Config, id: NetworkID, reader: Option<Reader>): Entry {
    var rpc := if cfg.RpcURL(id) != "" then cfg.RpcURL(id)
               else if reader.Some? then ReadOrEmpty(reader.value.sequencer) else "";
    Entry(cfg.BridgeURL(id), rpc, FromConfig, false)
  }

  /** The entry of a network after the first n rollups have been read, before any probe. */
  function Expected(cfg: Config, views: seq<View>, n: nat, id: NetworkID): Option<Entry>
    requires n <= |views|
  {
    if cfg.Excluded(id) then None
    else
      var reader := if 1 <= id <= n then ReaderOf(views[id - 1]) else None;
      if cfg.BridgeURL(id) != "" then Some(ConfiguredEntry(cfg, id, reader))
      else if reader.None? then None
      else
        match Resolve(cfg, id, reader)
        case Resolved(url, rpc, source) => Some(Entry(url, rpc, source, false))
        case _ => None
  }

  /** The contract of a rollup is watched, unless both its URLs are configured. */
  predicate Watched(cfg: Config, id: NetworkID, view: View) {
    !cfg.Excluded(id) && view.Data? && (cfg.BridgeURL(id) == "" || cfg.RpcURL(id) == "")
  }

  /** The chain's answer for rollup k. */
  function ViewOf(views: seq<View>, k: int): View
    requires 1 <= k <= |views|
  {
    views[k - 1]
  }

  ghost predicate SomeAborts(cfg: Config, views: seq<View>, n: nat)
    requires n <= |views| < TWO_32 - 1
  {
    exists k: NetworkID :: 1 <= k <= n && Aborts(cfg, k, ViewOf(views, k))
  }

  ghost predicate EntriesAre(cfg: Config, views: seq<View>, n: nat, entries: map<NetworkID, Entry>)
    requires n <= |views|
  {
    forall id: NetworkID ::
      && (id in entries <==> Expected(cfg, views, n, id).Some?)
      && (id in entries ==> Some(entries[id]) == Expected(cfg, views, n, id))
  }

  /** A contract is routed to the last watched rollup that names it. */
  ghost predicate RoutesAre(cfg: Config, views: seq<View>, n: nat, routes: map<Address, NetworkID>)
    requires n <= |views| < TWO_32 - 1
  {
    && (forall a :: a in routes ==> && 1 <= routes[a] <= n && Watched(cfg, routes[a], ViewOf(views, routes[a]))
                                    && ViewOf(views, routes[a]).contract == a)
    && (forall k: NetworkID :: 1 <= k <= n && Watched(cfg, k, ViewOf(views, k)) ==>
          ViewOf(views, k).contract in routes && routes[ViewOf(views, k).contract] >= k)
  }

  lemma NetworkIsExpected(cfg: Config, views: seq<View>, n: nat, b: Books)
    requires 0 < n <= |views| < TWO_32 - 1 && !cfg.Excluded(n)
    requires EntriesAre(cfg, views, n - 1, b.entries) && ResolveNetwork(cfg, b, n, views[n - 1]).Some?
    ensures EntriesAre(cfg, views, n, ResolveNetwork(cfg, b, n, views[n - 1]).value.entries)
  {
    var b' := ResolveNetwork(cfg, b, n, views[n - 1]).value;
    forall id: NetworkID
      ensures (id in b'.entries <==> Expected(cfg, views, n, id).Some?)
              && (id in b'.entries ==> Some(b'.entries[id]) == Expected(cfg, views, n, id))
    {
      assert id in b.entries <==> Expected(cfg, views, n - 1, id).Some?;
    }
  }

  lemma ResolveRoutes(cfg: Config, b: Books, id: NetworkID, view: View)
    requires !cfg.Excluded(id) && ResolveNetwork(cfg, b, id, view).Some?
    ensures var b' := ResolveNetwork(cfg, b, id, view).value;
            b'.pending == b.pending && b'.routes == if Watched(cfg, id, view) then b.routes[view.contract := id] else b.routes
  {
  }

  lemma RoutesGrow(cfg: Config, views: seq<View>, n: nat, routes: map<Address, NetworkID>)
    requires 0 < n <= |views| < TWO_32 - 1 && RoutesAre(cfg, views, n - 1, routes)
    ensures var view := ViewOf(views, n);
            RoutesAre(cfg, views, n, if Watched(cfg, n, view) then routes[view.contract := n] else routes)
  {
  }

  lemma NetworkAbortsIff(cfg: Config, b: Books, id: NetworkID, view: View)
    requires !cfg.Excluded(id)
    ensures ResolveNetwork(cfg, b, id, view).None? <==> Aborts(cfg, id, view)
  {
  }

  /** The books after n rollups. */
  ghost predicate BooksAre(cfg: Config, views: seq<View>, n: nat, b: Books)
    requires n <= |views| < TWO_32 - 1
  {
    EntriesAre(cfg, views, n, b.entries) && RoutesAre(cfg, views, n, b.routes) && b.pending == map[]
  }

  lemma NextNetwork(cfg: Config, views: seq<View>, n: nat, b: Books)
    requires 0 < n <= |views| < TWO_32 - 1 && BooksAre(cfg, views, n - 1, b)
    ensures cfg.Excluded(n) ==> BooksAre(cfg, views, n, b)
    ensures !cfg.Excluded(n) && !Aborts(cfg, n, ViewOf(views, n)) ==>
              && ResolveNetwork(cfg, b, n, views[n - 1]).Some?
              && BooksAre(cfg, views, n, ResolveNetwork(cfg, b, n, views[n - 1]).value)
    ensures !cfg.Excluded(n) && Aborts(cfg, n, ViewOf(views, n)) ==> ResolveNetwork(cfg, b, n, views[n - 1]).None?
  {
    RoutesGrow(cfg, views, n, b.routes);
    if cfg.Excluded(n) {
      ExcludedChangesNothing(cfg, views, n);
    } else {
      NetworkAbortsIff(cfg, b, n, views[n - 1]);
      if !Aborts(cfg, n, ViewOf(views, n)) {
        NetworkIsExpected(cfg, views, n, b);
        ResolveRoutes(cfg, b, n, views[n - 1]);
      }
    }
  }

  lemma SomeAbortsNext(cfg: Config, views: seq<View>, n: nat)
    requires 0 < n <= |views| < TWO_32 - 1
    ensures SomeAborts(cfg, views, n) <==> SomeAborts(cfg, views, n - 1) || Aborts(cfg, n, ViewOf(views, n))
  {
    if Aborts(cfg, n, ViewOf(views, n)) { assert SomeAborts(cfg, views, n); }
  }

  /** The books of the start, and exactly when it aborts. */
  lemma {:induction false} EnumerateIsExpected(cfg: Config, views: seq<View>, n: nat)
    requires n <= |views| < TWO_32 - 1
    ensures Enumerate(cfg, views, n).None? <==> SomeAborts(cfg, views, n)
    ensures Enumerate(cfg, views, n).Some? ==> BooksAre(cfg, views, n, Enumerate(cfg, views, n).value)
    decreases n
  {
    if n == 0 {
      SeedIsExpected(cfg, views);
    } else {
      EnumerateIsExpected(cfg, views, n - 1);
      SomeAbortsNext(cfg, views, n);
      var r := Enumerate(cfg, views, n - 1);
      if r.Some? { NextNetwork(cfg, views, n, r.value); }
    }
  }

  lemma SeedIsExpected(cfg: Config, views: seq<View>)
    requires |views| < TWO_32 - 1
    ensures EntriesAre(cfg, views, 0, Seeded(cfg))
  {
  }

  lemma ExcludedChangesNothing(cfg: Config, views: seq<View>, n: nat)
    requires 0 < n <= |views| < TWO_32 - 1
    ensures cfg.Excluded(n) ==> forall id: NetworkID :: Expected(cfg, views, n, id) == Expected(cfg, views, n - 1, id)
  {
  }

  /**
   After the start each network shows what its configuration or its rollup says,
   with the health of its probe; the start aborts exactly when some rollup
   without an override cannot be read or resolved.
   */
  lemma StartIsExpected(cfg: Config, views: seq<View>, probe: NetworkID -> bool)
    requires |views| < TWO_32 - 1
    ensures var r := Start(cfg, views, probe);
            && (r.None? <==> SomeAborts(cfg, views, |views|))
            && (r.Some? ==> && RoutesAre(cfg, views, |views|, r.value.routes) && r.value.pending == map[]
                            && forall id: NetworkID ::
                                 && (id in r.value.entries <==> Expected(cfg, views, |views|, id).Some?)
                                 && (id in r.value.entries ==>
                                       r.value.entries[id] == Expected(cfg, views, |views|, id).value.(healthy := probe(id))))
  {
    EnumerateIsExpected(cfg, views, |views|);
  }
}
