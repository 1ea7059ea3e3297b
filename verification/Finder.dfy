/** The finder itself: a cache, a pending map and a routing table updated in place. */
module Finder {
  import opened Prelude
  import opened FinderRules
  import opened FinderRuns
  import opened FinderExact
  import opened FinderEffects
  import opened FinderStart

  class BridgeServiceFinder {
    const cfg: Config
    var entries: map<NetworkID, Entry>
    var pending: map<NetworkID, Pending>
    var routes: map<Address, NetworkID>

    ghost function State(): Books
      reads this
    {
      Books(entries, pending, routes)
    }

    constructor (cfg: Config)
      ensures this.cfg == cfg && State() == Books(map[], map[], map[])
    {
      this.cfg := cfg;
      entries, pending, routes := map[], map[], map[];
    }

    /** Keeps the first record of a network and says whether this one was it. */
    method SetPending(id: NetworkID, record: Pending) returns (added: bool)
      modifies this`pending
      ensures State() == HoldBack(old(State()), id, record)
      ensures added <==> pending != old(pending)
    {
      if id in pending { return false; }
      pending := pending[id := record];
      assert id in pending;
      return true;
    }

    /** One update announced by an event, under the priority and health rules. */
    method ApplyUpdate(id: NetworkID, url: string, announcedRPC: string, source: Source, address: Address, block: nat,
                       healthy: bool)
      modifies this`entries, this`pending
      ensures State() == FinderRules.ApplyUpdate(cfg, old(State()), id, url, announcedRPC, source, address, block, healthy)
      ensures HealthGated(old(State()), State(), healthy) && RankKept(old(State()), State())
    {
      UpdateObeys(cfg, State(), id, url, announcedRPC, source, address, block, healthy);
      var rpc := announcedRPC;
      if cfg.RpcURL(id) != "" { rpc := ""; }
      if id !in entries && !cfg.autoRegister {
        var _ := SetPending(id, Pending(address, block, FirstURLEvent));
        return;
      }
      var exists_ := id in entries;
      var cur := if exists_ then entries[id] else Entry("", "", FromConfig, false);
      if exists_ && rpc != "" && cur.jsonRPC != rpc {
        cur := cur.(jsonRPC := rpc);
        entries := entries[id := cur];
      }
      assert exists_ ==> entries == old(entries)[id := cur];
      if exists_ {
        if cur.source == FromConfig { return; }
        if source.Rank() > cur.source.Rank() { return; }
      }
      if exists_ && cur.url == url && cur.source == source { return; }
      if exists_ && cur.healthy && !healthy { return; }
      var entry := Entry(url, cur.jsonRPC, source, healthy);
      if rpc != "" { entry := entry.(jsonRPC := rpc); }
      entries := entries[id := entry];
    }

    method RefreshFromChain(id: NetworkID, address: Address, reader: Option<Reader>, healthy: bool)
      modifies this`entries, this`pending
      ensures State() == Refresh(cfg, old(State()), id, address, reader, healthy)
      ensures HealthGated(old(State()), State(), healthy)
    {
      RefreshObeys(cfg, State(), id, address, reader, healthy);
      if reader.None? { return; }
      var r := Resolve(cfg, id, reader);
      if !r.Resolved? { return; }
      if id !in entries && !cfg.autoRegister {
        var _ := SetPending(id, Pending(address, 0, ChainRefresh));
        return;
      }
      if id in entries && entries[id].url == r.url && entries[id].source == r.source { return; }
      if id in entries && entries[id].healthy && !healthy { return; }
      entries := entries[id := Entry(r.url, r.jsonRPC, r.source, healthy)];
    }

    method DiscoverRollup(id: NetworkID, address: Address, block: nat, reader: Option<Reader>, healthy: bool)
      modifies this
      ensures State() == Discover(cfg, old(State()), id, address, block, reader, healthy)
      ensures cfg.Excluded(id) || address in old(routes) ==> State() == old(State())
      ensures !cfg.autoRegister ==> entries.Keys == old(entries.Keys)
      ensures id in old(entries) && old(entries)[id].source == FromConfig ==> id in entries && entries[id].source == FromConfig
    {
      if address in routes { return; }
      if cfg.Excluded(id) { return; }
      if !cfg.autoRegister && id !in entries {
        var _ := SetPending(id, Pending(address, block, RollupAttached));
        return;
      }
      if reader.None? { return; }
      var r := Resolve(cfg, id, reader);
      routes := routes[address := id];
      if !r.Resolved? { return; }
      if id in entries && entries[id].source == FromConfig && r.source != FromConfig { return; }
      entries := entries[id := Entry(r.url, r.jsonRPC, r.source, healthy)];
    }

    /** One log keeps everything the runs rely on. */
    method ProcessLog(step: Step)
      requires Inv(cfg, State())
      modifies this
      ensures State() == FinderRules.ProcessLog(cfg, old(State()), step)
      ensures Inv(cfg, State()) && Grows(cfg, old(State()), State())
      ensures HealthGated(old(State()), State(), step.healthy) <==> !BreaksGate(cfg, old(State()), step)
      ensures RankKept(old(State()), State()) <==> !BreaksRank(cfg, old(State()), step)
      ensures Effect(cfg, old(State()), State(), step)
    {
      LogTakesEffect(cfg, State(), step);
      StepKeepsInv(cfg, State(), step);
      GateHoldsIff(cfg, State(), step);
      RankHoldsIff(cfg, State(), step);
      var log := step.log;
      if log.address == cfg.manager {
        if log.body.Attached? { DiscoverRollup(log.body.id, log.body.contract, log.block, step.reader, step.healthy); }
        return;
      }
      if log.address !in routes { return; }
      var id := routes[log.address];
      if log.body == MetadataSet("") {
        RefreshFromChain(id, log.address, step.reader, step.healthy);
        return;
      }
      match log.body
      case MetadataSet(value) => ApplyUpdate(id, value, "", FromMetadata, log.address, log.block, step.healthy);
      case SequencerSet(url) =>
        if url != "" && cfg.withPort(url).Some? {
          ApplyUpdate(id, cfg.withPort(url).value, url, FromSequencer, log.address, log.block, step.healthy);
        }
      case Attached(_, _) =>
      case Other =>
    }

    /** Installs the entries served from configuration alone. */
    method SeedFromConfig()
      requires State() == Books(map[], map[], map[])
      modifies this`entries
      ensures entries == Seeded(cfg)
    {
      var left := cfg.bridgeURLs.Keys;
      while left != {}
        invariant left <= cfg.bridgeURLs.Keys
        invariant entries == map id | id in cfg.bridgeURLs && id !in left && cfg.Overridden(id)
                               :: Entry(cfg.bridgeURLs[id], cfg.RpcURL(id), FromConfig, false)
        decreases |left|
      {
        var id :| id in left;
        left := left - {id};
        if cfg.bridgeURLs[id] == "" { continue; }
        if cfg.Excluded(id) { continue; }
        entries := entries[id := Entry(cfg.bridgeURLs[id], cfg.RpcURL(id), FromConfig, false)];
      }
    }

    /** Resolves one enumerated rollup; false aborts the start. */
    method ResolveNetwork(id: NetworkID, view: View) returns (ok: bool)
      modifies this`entries, this`routes
      ensures ok <==> FinderRules.ResolveNetwork(cfg, old(State()), id, view).Some?
      ensures ok ==> State() == FinderRules.ResolveNetwork(cfg, old(State()), id, view).value
      ensures cfg.BridgeURL(id) != "" ==>
                ok && id in entries && entries[id].url == cfg.BridgeURL(id) && entries[id].source == FromConfig
      ensures ok && entries != old(entries) && cfg.RpcURL(id) != "" ==> id in entries && entries[id].jsonRPC == cfg.RpcURL(id)
    {
      var fallback := Entry(cfg.BridgeURL(id), cfg.RpcURL(id), FromConfig, false);
      if cfg.BridgeURL(id) != "" && cfg.RpcURL(id) != "" {
        entries := entries[id := fallback];
        return true;
      }
      if view.NoData? {
        if cfg.BridgeURL(id) == "" { return false; }
        entries := entries[id := fallback];
        return true;
      }
      routes := routes[view.contract := id];
      if view.reader.None? {
        if cfg.BridgeURL(id) == "" { return false; }
        entries := entries[id := fallback];
        return true;
      }
      var r := Resolve(cfg, id, view.reader);
      if r.NoSource? { return true; }
      if r.Error? { return false; }
      entries := entries[id := Entry(r.url, r.jsonRPC, r.source, false)];
      return true;
    }

    /** Seeds the configured networks and enumerates the rollups. */
    method BuildInitialCache(views: seq<View>) returns (ok: bool)
      requires State() == Books(map[], map[], map[]) && |views| < TWO_32 - 1
      modifies this`entries, this`routes
      ensures ok <==> Enumerate(cfg, views, |views|).Some?
      ensures ok ==> State() == Enumerate(cfg, views, |views|).value && Starting(cfg, State())
      ensures ok <==> !SomeAborts(cfg, views, |views|)
      ensures ok ==> BooksAre(cfg, views, |views|, State())
    {
      EnumerateIsExpected(cfg, views, |views|);
      SeedFromConfig();
      var id: NetworkID := 1;
      while id <= |views|
        invariant 1 <= id <= |views| + 1
        invariant pending == map[]
        invariant Enumerate(cfg, views, id - 1) == Some(State())
      {
        if !cfg.Excluded(id) {
          var resolved := ResolveNetwork(id, views[id - 1]);
          if !resolved {
            AbortIsFinal(cfg, views, id, |views|);
            return false;
          }
        }
        id := id + 1;
      }
      EnumerateEstablishesInv(cfg, views, |views|);
      return true;
    }

    /** Probes every entry and counts the unreachable ones. */
    method ProbeAll(probe: NetworkID -> bool) returns (unhealthy: nat)
      modifies this`entries
      ensures entries == Probed(cfg, old(entries), probe)
      ensures unhealthy == |Unreachable(cfg, old(entries), probe)|
    {
      ghost var before := entries;
      var left := entries.Keys;
      unhealthy := 0;
      NothingProbed(cfg, before, probe);
      while left != {}
        invariant left <= before.Keys
        invariant entries == ProbedBut(cfg, before, probe, left)
        invariant unhealthy == |Unreachable(cfg, before, probe) - left|
        decreases |left|
      {
        var id :| id in left;
        ProbeOne(cfg, before, probe, left, id);
        left := left - {id};
        if cfg.Excluded(id) { continue; }
        var healthy := probe(id);
        assert id in entries;
        entries := entries[id := entries[id].(healthy := healthy)];
        if !healthy { unhealthy := unhealthy + 1; }
      }
      AllProbed(cfg, before, probe);
    }
  }

  ghost function Unreachable(cfg: Config, entries: map<NetworkID, Entry>, probe: NetworkID -> bool): set<NetworkID> {
    set id | id in entries && !cfg.Excluded(id) && !probe(id)
  }

  /** Every entry probed but those left. */
  ghost function ProbedBut(cfg: Config, entries: map<NetworkID, Entry>, probe: NetworkID -> bool, left: set<NetworkID>)
    : map<NetworkID, Entry>
  {
    map id | id in entries ::
      if id in left || cfg.Excluded(id) then entries[id] else entries[id].(healthy := probe(id))
  }

  lemma NothingProbed(cfg: Config, entries: map<NetworkID, Entry>, probe: NetworkID -> bool)
    ensures ProbedBut(cfg, entries, probe, entries.Keys) == entries
    ensures Unreachable(cfg, entries, probe) - entries.Keys == {}
  {
  }

  lemma AllProbed(cfg: Config, entries: map<NetworkID, Entry>, probe: NetworkID -> bool)
    ensures ProbedBut(cfg, entries, probe, {}) == Probed(cfg, entries, probe)
    ensures Unreachable(cfg, entries, probe) - {} == Unreachable(cfg, entries, probe)
  {
  }

  lemma ProbeOne(cfg: Config, entries: map<NetworkID, Entry>, probe: NetworkID -> bool, left: set<NetworkID>, id: NetworkID)
    requires left <= entries.Keys && id in left
    ensures var now := ProbedBut(cfg, entries, probe, left);
            ProbedBut(cfg, entries, probe, left - {id}) ==
            if cfg.Excluded(id) then now else now[id := now[id].(healthy := probe(id))]
    ensures var down := Unreachable(cfg, entries, probe);
            |down - (left - {id})| == |down - left| + if cfg.Excluded(id) || probe(id) then 0 else 1
  {
    var down := Unreachable(cfg, entries, probe);
    if id in down {
      assert down - (left - {id}) == (down - left) + {id};
    } else {
      assert down - (left - {id}) == down - left;
    }
  }

  /** Once a network aborts the start, no later one revives it. */
  lemma {:induction false} AbortIsFinal(cfg: Config, views: seq<View>, k: nat, n: nat)
    requires k <= n <= |views| < TWO_32 - 1 && Enumerate(cfg, views, k).None?
    ensures Enumerate(cfg, views, n).None?
    decreases n
  {
    if k < n { AbortIsFinal(cfg, views, k, n - 1); }
  }
}
