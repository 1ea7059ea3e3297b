/** What holds of the finder after the start and after any sequence of logs. */
module FinderRuns {
  import opened Prelude
  import opened FinderRules

  // ----- the invariant -----

  /** An entry respects the configuration: its URL and source under an override, and its JSON-RPC URL. */
  predicate EntryOk(cfg: Config, id: NetworkID, e: Entry) {
    && !cfg.Excluded(id)
    && (cfg.BridgeURL(id) != "" ==> e.url == cfg.BridgeURL(id) && e.source == FromConfig)
    && (e.source == FromConfig ==> cfg.BridgeURL(id) != "")
    && (cfg.RpcURL(id) != "" ==> e.jsonRPC == cfg.RpcURL(id) || e.jsonRPC == "")
  }

  ghost predicate Inv(cfg: Config, b: Books) {
    && (forall id :: id in b.entries ==> EntryOk(cfg, id, b.entries[id]))
    && (forall id :: id in cfg.bridgeURLs && cfg.Overridden(id) ==> id in b.entries)
    && (forall a :: a in b.routes ==> !cfg.Excluded(b.routes[a]))
    && (forall id :: id in b.pending ==> !cfg.Excluded(id) && id !in b.entries && !cfg.autoRegister)
  }

  /** What one step may do to the books whatever the configuration. */
  ghost predicate Grows(cfg: Config, b: Books, b': Books) {
    && b.entries.Keys <= b'.entries.Keys
    && (!cfg.autoRegister ==> b.entries.Keys == b'.entries.Keys)
    && (forall id :: id in b.pending ==> id in b'.pending && b'.pending[id] == b.pending[id])
    && (forall a :: a in b.routes ==> a in b'.routes && b'.routes[a] == b.routes[a])
  }

  // ----- what each source offers, and what an update does -----

  /** What a source has to offer for a network, if it can be read. */
  function Offer(cfg: Config, id: NetworkID, reader: Option<Reader>, source: Source): Option<string> {
    match source
    case FromConfig => if cfg.BridgeURL(id) != "" then Some(cfg.BridgeURL(id)) else None
    case FromMetadata =>
      if reader.Some? && ReadOrEmpty(reader.value.metadata) != "" then Some(reader.value.metadata.text) else None
    case FromSequencer =>
      if reader.Some? && ReadOrEmpty(reader.value.sequencer) != "" then cfg.withPort(reader.value.sequencer.text) else None
  }

  /**
   A resolved URL is the offer of its source, and no source of better rank had
   one; without a URL no source had one, or a read or a port substitution failed.
   */
  lemma BestOfferWins(cfg: Config, id: NetworkID, reader: Option<Reader>)
    ensures var r := Resolve(cfg, id, reader);
            && (r.Resolved? ==> Offer(cfg, id, reader, r.source) == Some(r.url))
            && (r.Resolved? ==> forall s: Source :: s.Rank() < r.source.Rank() ==> Offer(cfg, id, reader, s).None?)
            && (r.NoSource? ==> forall s: Source :: Offer(cfg, id, reader, s).None?)
            && (r.Error? ==> reader.Some? && Offer(cfg, id, reader, FromConfig).None?
                             && (reader.value.sequencer.Failed? || reader.value.metadata.Failed?
                                 || Offer(cfg, id, reader, FromSequencer).None?))
            && (r.Resolved? ==> r.jsonRPC == if cfg.RpcURL(id) != "" then cfg.RpcURL(id)
                                             else if reader.Some? then ReadOrEmpty(reader.value.sequencer) else "")
  {
  }

  /** An announced URL takes the place of a served one exactly when it is not outranked and does not lose to a healthy one. */
  lemma UpdateTakesEffect(cfg: Config, b: Books, id: NetworkID, url: string, rpc: string, source: Source,
                          address: Address, block: nat, healthy: bool)
    requires id in b.entries && url != b.entries[id].url
    ensures var cur := b.entries[id];
            var b' := ApplyUpdate(cfg, b, id, url, rpc, source, address, block, healthy);
            && id in b'.entries
            && (b'.entries[id].url == url <==>
                cur.source != FromConfig && source.Rank() <= cur.source.Rank() && (healthy || !cur.healthy))
            && (b'.entries[id].url == url ==> b'.entries[id].source == source && b'.entries[id].healthy == healthy)
            && (b'.entries[id].url != url ==> b'.entries[id] == cur.(jsonRPC := b'.entries[id].jsonRPC))
            && b'.entries[id].jsonRPC == (if cfg.RpcURL(id) != "" || rpc == "" then cur.jsonRPC else rpc)
            && (forall other :: other in b.entries && other != id ==> other in b'.entries && b'.entries[other] == b.entries[other])
  {
  }

  // ----- single changes -----

  lemma ServeKeepsInv(cfg: Config, b: Books, id: NetworkID, e: Entry)
    requires Inv(cfg, b) && EntryOk(cfg, id, e) && (id in b.entries || cfg.autoRegister)
    ensures Inv(cfg, Serve(b, id, e)) && Grows(cfg, b, Serve(b, id, e))
  {
  }

  lemma HoldBackKeepsInv(cfg: Config, b: Books, id: NetworkID, record: Pending)
    requires Inv(cfg, b) && !cfg.Excluded(id) && id !in b.entries && !cfg.autoRegister
    ensures Inv(cfg, HoldBack(b, id, record)) && Grows(cfg, b, HoldBack(b, id, record))
  {
  }

  /** Whatever the chain answers, a resolved entry respects the configuration. */
  lemma ResolvedIsOk(cfg: Config, id: NetworkID, reader: Option<Reader>, healthy: bool)
    requires !cfg.Excluded(id) && Resolve(cfg, id, reader).Resolved?
    ensures var r := Resolve(cfg, id, reader); EntryOk(cfg, id, Entry(r.url, r.jsonRPC, r.source, healthy))
  {
  }

  lemma ApplyUpdateKeepsInv(cfg: Config, b: Books, id: NetworkID, url: string, rpc: string, source: Source,
                            address: Address, block: nat, healthy: bool)
    requires Inv(cfg, b) && !cfg.Excluded(id) && source != FromConfig
    ensures var b' := ApplyUpdate(cfg, b, id, url, rpc, source, address, block, healthy);
            Inv(cfg, b') && Grows(cfg, b, b')
  {
    if id !in b.entries {
      if cfg.autoRegister {
        assert !(id in cfg.bridgeURLs && cfg.Overridden(id));
        ServeKeepsInv(cfg, b, id, Entry(url, if cfg.RpcURL(id) != "" then "" else rpc, source, healthy));
      } else {
        HoldBackKeepsInv(cfg, b, id, Pending(address, block, FirstURLEvent));
      }
    } else {
      var e := ApplyUpdate(cfg, b, id, url, rpc, source, address, block, healthy).entries[id];
      assert EntryOk(cfg, id, b.entries[id]);
      ServeKeepsInv(cfg, b, id, e);
    }
  }

  lemma RefreshKeepsInv(cfg: Config, b: Books, id: NetworkID, address: Address, reader: Option<Reader>, healthy: bool)
    requires Inv(cfg, b) && !cfg.Excluded(id)
    ensures var b' := Refresh(cfg, b, id, address, reader, healthy); Inv(cfg, b') && Grows(cfg, b, b')
  {
    var r := Resolve(cfg, id, reader);
    if r.Resolved? {
      ResolvedIsOk(cfg, id, reader, healthy);
      if id !in b.entries && !cfg.autoRegister {
        HoldBackKeepsInv(cfg, b, id, Pending(address, 0, ChainRefresh));
      } else {
        ServeKeepsInv(cfg, b, id, Entry(r.url, r.jsonRPC, r.source, healthy));
      }
    }
  }

  lemma DiscoverKeepsInv(cfg: Config, b: Books, id: NetworkID, address: Address, block: nat, reader: Option<Reader>,
                         healthy: bool)
    requires Inv(cfg, b)
    ensures var b' := Discover(cfg, b, id, address, block, reader, healthy); Inv(cfg, b') && Grows(cfg, b, b')
  {
    if address in b.routes || cfg.Excluded(id) {
    } else if !cfg.autoRegister && id !in b.entries {
      HoldBackKeepsInv(cfg, b, id, Pending(address, block, RollupAttached));
    } else if reader.Some? {
      var b1 := b.(routes := b.routes[address := id]);
      assert Inv(cfg, b1) && Grows(cfg, b, b1);
      var r := Resolve(cfg, id, reader);
      if r.Resolved? {
        ResolvedIsOk(cfg, id, reader, healthy);
        ServeKeepsInv(cfg, b1, id, Entry(r.url, r.jsonRPC, r.source, healthy));
      }
    }
  }

  lemma StepKeepsInv(cfg: Config, b: Books, step: Step)
    requires Inv(cfg, b)
    ensures Inv(cfg, ProcessLog(cfg, b, step)) && Grows(cfg, b, ProcessLog(cfg, b, step))
  {
    var log := step.log;
    if log.address == cfg.manager {
      if log.body.Attached? {
        DiscoverKeepsInv(cfg, b, log.body.id, log.body.contract, log.block, step.reader, step.healthy);
      }
    } else if log.address in b.routes {
      var id := b.routes[log.address];
      match log.body
      case MetadataSet(value) =>
        if value == "" {
          RefreshKeepsInv(cfg, b, id, log.address, step.reader, step.healthy);
        } else {
          ApplyUpdateKeepsInv(cfg, b, id, value, "", FromMetadata, log.address, log.block, step.healthy);
        }
      case SequencerSet(url) =>
        if url != "" && cfg.withPort(url).Some? {
          ApplyUpdateKeepsInv(cfg, b, id, cfg.withPort(url).value, url, FromSequencer, log.address, log.block, step.healthy);
        }
      case Attached(_, _) =>
      case Other =>
    }
  }

  // ----- the start establishes it -----

  /** During the start entries may still be added in either mode. */
  ghost predicate Starting(cfg: Config, b: Books) {
    Inv(cfg, b) && b.pending == map[]
  }

  lemma SeededIsOk(cfg: Config)
    ensures Starting(cfg, Books(Seeded(cfg), map[], map[]))
  {
  }

  lemma StartServes(cfg: Config, b: Books, id: NetworkID, e: Entry)
    requires Starting(cfg, b) && EntryOk(cfg, id, e)
    ensures Starting(cfg, Serve(b, id, e))
  {
  }

  lemma ResolveNetworkKeepsInv(cfg: Config, b: Books, id: NetworkID, view: View)
    requires Starting(cfg, b) && !cfg.Excluded(id) && ResolveNetwork(cfg, b, id, view).Some?
    ensures Starting(cfg, ResolveNetwork(cfg, b, id, view).value)
  {
    var fallback := Entry(cfg.BridgeURL(id), cfg.RpcURL(id), FromConfig, false);
    if cfg.BridgeURL(id) != "" { StartServes(cfg, b, id, fallback); }
    if view.Data? {
      var b1 := b.(routes := b.routes[view.contract := id]);
      assert Starting(cfg, b1);
      if cfg.BridgeURL(id) != "" { StartServes(cfg, b1, id, fallback); }
      if Resolve(cfg, id, view.reader).Resolved? {
        var r := Resolve(cfg, id, view.reader);
        ResolvedIsOk(cfg, id, view.reader, false);
        StartServes(cfg, b1, id, Entry(r.url, r.jsonRPC, r.source, false));
      }
    }
  }

  lemma {:induction false} EnumerateEstablishesInv(cfg: Config, views: seq<View>, n: nat)
    requires n <= |views| < TWO_32 - 1 && Enumerate(cfg, views, n).Some?
    ensures Starting(cfg, Enumerate(cfg, views, n).value)
    decreases n
  {
    if n == 0 {
      SeededIsOk(cfg);
    } else {
      EnumerateEstablishesInv(cfg, views, n - 1);
      if !cfg.Excluded(n) { ResolveNetworkKeepsInv(cfg, Enumerate(cfg, views, n - 1).value, n, views[n - 1]); }
    }
  }

  lemma StartEstablishesInv(cfg: Config, views: seq<View>, probe: NetworkID -> bool)
    requires |views| < TWO_32 - 1 && Start(cfg, views, probe).Some?
    ensures Inv(cfg, Start(cfg, views, probe).value) && Start(cfg, views, probe).value.pending == map[]
  {
    EnumerateEstablishesInv(cfg, views, |views|);
  }

  // ----- whole runs -----

  lemma {:induction false} RunKeepsInv(cfg: Config, b: Books, steps: seq<Step>)
    requires Inv(cfg, b)
    ensures Inv(cfg, Run(cfg, b, steps)) && Grows(cfg, b, Run(cfg, b, steps))
    decreases |steps|
  {
    if steps != [] {
      var before := steps[..|steps| - 1];
      RunKeepsInv(cfg, b, before);
      StepKeepsInv(cfg, Run(cfg, b, before), steps[|steps| - 1]);
    }
  }

  /**
   Configuration is terminal. After the start and any logs, a network with a
   bridge URL override is served with exactly that URL, and a network with a
   JSON-RPC override never shows a URL announced on the chain.
   */
  lemma ConfigIsTerminal(cfg: Config, views: seq<View>, probe: NetworkID -> bool, steps: seq<Step>, id: NetworkID)
    requires |views| < TWO_32 - 1 && Start(cfg, views, probe).Some? && !cfg.Excluded(id)
    ensures var b := Run(cfg, Start(cfg, views, probe).value, steps);
            && (cfg.BridgeURL(id) != "" ==>
                  id in b.entries && b.entries[id].url == cfg.BridgeURL(id) && b.entries[id].source == FromConfig)
            && (cfg.RpcURL(id) != "" && id in b.entries ==>
                  b.entries[id].jsonRPC == cfg.RpcURL(id) || b.entries[id].jsonRPC == "")
  {
    StartEstablishesInv(cfg, views, probe);
    RunKeepsInv(cfg, Start(cfg, views, probe).value, steps);
    var b := Run(cfg, Start(cfg, views, probe).value, steps);
    if id in b.entries { assert EntryOk(cfg, id, b.entries[id]); }
    assert cfg.BridgeURL(id) != "" ==> id in cfg.bridgeURLs && cfg.Overridden(id);
  }

  /** Excluded networks never enter the served entries, the pending set or the routing table, in either mode. */
  lemma ExcludedStayOut(cfg: Config, views: seq<View>, probe: NetworkID -> bool, steps: seq<Step>, id: NetworkID)
    requires |views| < TWO_32 - 1 && Start(cfg, views, probe).Some? && cfg.Excluded(id)
    ensures var b := Run(cfg, Start(cfg, views, probe).value, steps);
            id !in b.entries && id !in b.pending && forall a :: a in b.routes ==> b.routes[a] != id
  {
    StartEstablishesInv(cfg, views, probe);
    RunKeepsInv(cfg, Start(cfg, views, probe).value, steps);
    var b := Run(cfg, Start(cfg, views, probe).value, steps);
    assert forall n :: n in b.entries ==> EntryOk(cfg, n, b.entries[n]);
  }

  lemma {:induction false} RunSplits(cfg: Config, b: Books, steps: seq<Step>, more: seq<Step>)
    ensures Run(cfg, b, steps + more) == Run(cfg, Run(cfg, b, steps), more)
    decreases |more|
  {
    if more == [] {
      assert steps + more == steps;
    } else {
      var before := more[..|more| - 1];
      RunSplits(cfg, b, steps, before);
      assert (steps + more)[..|steps + more| - 1] == steps + before;
    }
  }

  /**
   With automatic registration off, the served networks are those of the start,
   no served network is pending, and a pending record, once made, stays as it
   was first made. No entry is ever removed in either mode.
   */
  lemma ServedSetIsFrozen(cfg: Config, views: seq<View>, probe: NetworkID -> bool, steps: seq<Step>, more: seq<Step>)
    requires |views| < TWO_32 - 1 && Start(cfg, views, probe).Some?
    ensures var b0 := Start(cfg, views, probe).value;
            var b := Run(cfg, b0, steps);
            var b' := Run(cfg, b0, steps + more);
            && b.entries.Keys <= b'.entries.Keys
            && (!cfg.autoRegister ==> b'.entries.Keys == b0.entries.Keys)
            && b'.entries.Keys !! b'.pending.Keys
            && (forall id :: id in b.pending ==> id in b'.pending && b'.pending[id] == b.pending[id])
            && (cfg.autoRegister ==> b'.pending == map[])
  {
    var b0 := Start(cfg, views, probe).value;
    StartEstablishesInv(cfg, views, probe);
    RunKeepsInv(cfg, b0, steps);
    RunSplits(cfg, b0, steps, more);
    RunKeepsInv(cfg, Run(cfg, b0, steps), more);
  }

  // ----- health gate and source rank -----

  /** Every rollup speaks through one contract, in the data read at the start and in the logs alike. */
  ghost predicate OneContract(views: seq<View>, steps: seq<Step>, contractOf: NetworkID -> Address)
    requires |views| < TWO_32 - 1
  {
    && (forall k :: 0 <= k < |views| && views[k].Data? ==> views[k].contract == contractOf(k + 1))
    && (forall i :: 0 <= i < |steps| && steps[i].log.body.Attached? ==>
          steps[i].log.body.contract == contractOf(steps[i].log.body.id))
  }

  /** An entry that does not come from configuration was resolved through its registered contract. */
  ghost predicate Traced(b: Books, contractOf: NetworkID -> Address) {
    forall id :: id in b.entries && b.entries[id].source != FromConfig ==> contractOf(id) in b.routes
  }

  /** Routes lead to the networks they were announced for. */
  ghost predicate RoutesOk(b: Books, contractOf: NetworkID -> Address) {
    forall a :: a in b.routes ==> contractOf(b.routes[a]) == a
  }

  /** A healthy URL gives way only to one that has just probed healthy. */
  ghost predicate HealthGated(b: Books, b': Books, probe: bool) {
    forall id :: id in b.entries && id in b'.entries && b.entries[id].healthy && b'.entries[id].url != b.entries[id].url ==>
      probe && b'.entries[id].healthy
  }

  ghost predicate RankKept(b: Books, b': Books) {
    forall id :: id in b.entries && id in b'.entries ==> b'.entries[id].source.Rank() <= b.entries[id].source.Rank()
  }

  predicate ClearsMetadata(step: Step) {
    step.log.body == MetadataSet("")
  }

  /** Installing one entry is gated when that entry alone is. */
  lemma ServeIsGated(b: Books, contractOf: NetworkID -> Address, id: NetworkID, e: Entry, probe: bool)
    requires Traced(b, contractOf) && (contractOf(id) in b.routes || e.source == FromConfig)
    requires id in b.entries && b.entries[id].healthy && e.url != b.entries[id].url ==> probe && e.healthy
    ensures var b' := Serve(b, id, e); Traced(b', contractOf) && HealthGated(b, b', probe)
    ensures (id in b.entries ==> e.source.Rank() <= b.entries[id].source.Rank()) ==> RankKept(b, Serve(b, id, e))
  {
  }

  lemma ApplyUpdateIsGated(cfg: Config, b: Books, contractOf: NetworkID -> Address, id: NetworkID, url: string,
                           rpc: string, source: Source, address: Address, block: nat, healthy: bool)
    requires Traced(b, contractOf) && contractOf(id) in b.routes
    ensures var b' := ApplyUpdate(cfg, b, id, url, rpc, source, address, block, healthy);
            b'.routes == b.routes && Traced(b', contractOf) && HealthGated(b, b', healthy) && RankKept(b, b')
  {
    var b' := ApplyUpdate(cfg, b, id, url, rpc, source, address, block, healthy);
    if id in b'.entries {
      assert b' == Serve(b, id, b'.entries[id]);
      ServeIsGated(b, contractOf, id, b'.entries[id], healthy);
    }
  }

  lemma RefreshIsGated(cfg: Config, b: Books, contractOf: NetworkID -> Address, id: NetworkID, address: Address,
                       reader: Option<Reader>, healthy: bool)
    requires Traced(b, contractOf) && contractOf(id) in b.routes
    ensures var b' := Refresh(cfg, b, id, address, reader, healthy);
            b'.routes == b.routes && Traced(b', contractOf) && HealthGated(b, b', healthy)
  {
    var b' := Refresh(cfg, b, id, address, reader, healthy);
    if id in b'.entries && b' != b {
      assert b' == Serve(b, id, b'.entries[id]);
      ServeIsGated(b, contractOf, id, b'.entries[id], healthy);
    }
  }

  /** A network whose only contract is not registered yet has at most a configured entry, which keeps its URL. */
  lemma DiscoverIsGated(cfg: Config, b: Books, contractOf: NetworkID -> Address, id: NetworkID, block: nat,
                        reader: Option<Reader>, healthy: bool)
    requires Inv(cfg, b) && Traced(b, contractOf) && RoutesOk(b, contractOf)
    ensures var b' := Discover(cfg, b, id, contractOf(id), block, reader, healthy);
            Traced(b', contractOf) && RoutesOk(b', contractOf) && HealthGated(b, b', healthy) && RankKept(b, b')
  {
    var b' := Discover(cfg, b, id, contractOf(id), block, reader, healthy);
    if contractOf(id) !in b.routes && b'.routes != b.routes {
      var b1 := b.(routes := b.routes[contractOf(id) := id]);
      assert Traced(b1, contractOf) && RoutesOk(b1, contractOf);
      if id in b.entries { assert EntryOk(cfg, id, b.entries[id]); }
      if id in b'.entries && b' != b1 {
        assert b' == Serve(b1, id, b'.entries[id]);
        ServeIsGated(b1, contractOf, id, b'.entries[id], healthy);
      }
    }
  }

  lemma EventIsGated(cfg: Config, b: Books, contractOf: NetworkID -> Address, step: Step)
    requires Inv(cfg, b) && Traced(b, contractOf) && RoutesOk(b, contractOf)
    requires step.log.address != cfg.manager && step.log.address in b.routes
    ensures var b' := ProcessLog(cfg, b, step);
            && Traced(b', contractOf) && RoutesOk(b', contractOf) && HealthGated(b, b', step.healthy)
            && (!ClearsMetadata(step) ==> RankKept(b, b'))
  {
    var log := step.log;
    var id := b.routes[log.address];
    match log.body
    case MetadataSet(value) =>
      if value == "" {
        RefreshIsGated(cfg, b, contractOf, id, log.address, step.reader, step.healthy);
      } else {
        ApplyUpdateIsGated(cfg, b, contractOf, id, value, "", FromMetadata, log.address, log.block, step.healthy);
      }
    case SequencerSet(url) =>
      if url != "" && cfg.withPort(url).Some? {
        ApplyUpdateIsGated(cfg, b, contractOf, id, cfg.withPort(url).value, url, FromSequencer, log.address, log.block,
                           step.healthy);
      }
    case Attached(_, _) =>
    case Other =>
  }

  lemma StepIsGated(cfg: Config, b: Books, contractOf: NetworkID -> Address, step: Step)
    requires Inv(cfg, b) && Traced(b, contractOf) && RoutesOk(b, contractOf)
    requires step.log.body.Attached? ==> step.log.body.contract == contractOf(step.log.body.id)
    ensures var b' := ProcessLog(cfg, b, step);
            && Traced(b', contractOf) && RoutesOk(b', contractOf) && HealthGated(b, b', step.healthy)
            && (!ClearsMetadata(step) ==> RankKept(b, b'))
  {
    if step.log.address != cfg.manager && step.log.address in b.routes {
      EventIsGated(cfg, b, contractOf, step);
    } else if step.log.address == cfg.manager && step.log.body.Attached? {
      DiscoverIsGated(cfg, b, contractOf, step.log.body.id, step.log.block, step.reader, step.healthy);
    }
  }

  lemma ResolveNetworkTraces(cfg: Config, b: Books, id: NetworkID, view: View, contractOf: NetworkID -> Address)
    requires Traced(b, contractOf) && RoutesOk(b, contractOf) && ResolveNetwork(cfg, b, id, view).Some?
    requires view.Data? ==> view.contract == contractOf(id)
    ensures var b' := ResolveNetwork(cfg, b, id, view).value; Traced(b', contractOf) && RoutesOk(b', contractOf)
  {
    var b' := ResolveNetwork(cfg, b, id, view).value;
    assert forall n :: n in b'.entries && n != id ==> n in b.entries && b'.entries[n] == b.entries[n];
  }

  lemma {:induction false} EnumerateTraces(cfg: Config, views: seq<View>, n: nat, contractOf: NetworkID -> Address)
    requires n <= |views| < TWO_32 - 1 && Enumerate(cfg, views, n).Some?
    requires forall k :: 0 <= k < |views| && views[k].Data? ==> views[k].contract == contractOf(k + 1)
    ensures Traced(Enumerate(cfg, views, n).value, contractOf) && RoutesOk(Enumerate(cfg, views, n).value, contractOf)
    decreases n
  {
    if n > 0 {
      EnumerateTraces(cfg, views, n - 1, contractOf);
      if !cfg.Excluded(n) { ResolveNetworkTraces(cfg, Enumerate(cfg, views, n - 1).value, n, views[n - 1], contractOf); }
    }
  }

  lemma {:induction false} RunTraces(cfg: Config, b: Books, steps: seq<Step>, contractOf: NetworkID -> Address)
    requires Inv(cfg, b) && Traced(b, contractOf) && RoutesOk(b, contractOf)
    requires OneContract([], steps, contractOf)
    ensures var b' := Run(cfg, b, steps); Inv(cfg, b') && Traced(b', contractOf) && RoutesOk(b', contractOf)
    decreases |steps|
  {
    RunKeepsInv(cfg, b, steps);
    if steps != [] {
      var before := steps[..|steps| - 1];
      RunTraces(cfg, b, before, contractOf);
      RunKeepsInv(cfg, b, before);
      StepIsGated(cfg, Run(cfg, b, before), contractOf, steps[|steps| - 1]);
    }
  }

  /**
   When each rollup is announced by one contract, at every step of every run a
   URL flagged healthy is replaced only by one whose probe just succeeded, and
   a step that does not clear metadata never worsens a source's rank.
   */
  lemma HealthyIsKept(cfg: Config, views: seq<View>, probe: NetworkID -> bool, steps: seq<Step>, step: Step,
                      contractOf: NetworkID -> Address)
    requires |views| < TWO_32 - 1 && Start(cfg, views, probe).Some? && OneContract(views, steps + [step], contractOf)
    ensures var b := Run(cfg, Start(cfg, views, probe).value, steps);
            var b' := Run(cfg, Start(cfg, views, probe).value, steps + [step]);
            && b.entries.Keys <= b'.entries.Keys && HealthGated(b, b', step.healthy)
            && (!ClearsMetadata(step) ==> RankKept(b, b'))
  {
    var b0 := Start(cfg, views, probe).value;
    StartEstablishesInv(cfg, views, probe);
    EnumerateTraces(cfg, views, |views|, contractOf);
    StepsOfOneContract(views, steps, step, contractOf);
    assert Traced(b0, contractOf) && RoutesOk(b0, contractOf);
    RunTraces(cfg, b0, steps, contractOf);
    var b := Run(cfg, b0, steps);
    StepIsGated(cfg, b, contractOf, step);
    StepKeepsInv(cfg, b, step);
    assert (steps + [step])[..|steps + [step]| - 1] == steps;
  }

  lemma StepsOfOneContract(views: seq<View>, steps: seq<Step>, step: Step, contractOf: NetworkID -> Address)
    requires |views| < TWO_32 - 1 && OneContract(views, steps + [step], contractOf)
    ensures OneContract([], steps, contractOf)
    ensures step.log.body.Attached? ==> step.log.body.contract == contractOf(step.log.body.id)
  {
    assert (steps + [step])[|steps|] == step;
    forall i | 0 <= i < |steps| && steps[i].log.body.Attached?
      ensures steps[i].log.body.contract == contractOf(steps[i].log.body.id)
    {
      assert (steps + [step])[i] == steps[i];
    }
  }

  /** Along any run without metadata clears, no entry's source ever loses rank. */
  lemma {:induction false} RankNeverWorsens(cfg: Config, b: Books, steps: seq<Step>, contractOf: NetworkID -> Address)
    requires Inv(cfg, b) && Traced(b, contractOf) && RoutesOk(b, contractOf)
    requires OneContract([], steps, contractOf) && forall i :: 0 <= i < |steps| ==> !ClearsMetadata(steps[i])
    ensures RankKept(b, Run(cfg, b, steps))
    decreases |steps|
  {
    if steps != [] {
      var before := steps[..|steps| - 1];
      RankNeverWorsens(cfg, b, before, contractOf);
      RunTraces(cfg, b, before, contractOf);
      RunKeepsInv(cfg, b, before);
      StepIsGated(cfg, Run(cfg, b, before), contractOf, steps[|steps| - 1]);
    }
  }

  // ----- the hypotheses are needed -----

  function Plain(withPort: string -> Option<string>): Config {
    Config(map[], map[], {}, {}, true, 0, withPort)
  }

  /** A second contract announced for a served rollup replaces a healthy metadata URL by an unreachable sequencer URL. */
  lemma SecondContractBreaksTheGate(probe: NetworkID -> bool, withPort: string -> Option<string>)
    returns (views: seq<View>, step: Step)
    requires probe(1) && withPort("b") == Some("c")
    ensures |views| < TWO_32 - 1 && Start(Plain(withPort), views, probe).Some? && !ClearsMetadata(step)
    ensures var b := Start(Plain(withPort), views, probe).value;
            var b' := Run(Plain(withPort), b, [step]);
            !HealthGated(b, b', step.healthy) && !RankKept(b, b')
  {
    var cfg := Plain(withPort);
    views := [Data(10, Some(Reader(NotAvailable, Value("a"))))];
    step := Step(Log(0, 7, Attached(1, 20)), Some(Reader(Value("b"), NotAvailable)), false);
    var b0 := Enumerate(cfg, views, 0).value;
    var b := Start(cfg, views, probe).value;
    assert Enumerate(cfg, views, 1) == ResolveNetwork(cfg, b0, 1, views[0]);
    assert b.entries[1] == Entry("a", "", FromMetadata, true) && b.routes == map[10 := 1];
    assert Run(cfg, b, []) == b && [step][..0] == [];
    assert Run(cfg, b, [step]).entries[1] == Entry("c", "b", FromSequencer, false);
  }

  // ----- the JSON-RPC override -----

  ghost predicate ShowsOverrides(cfg: Config, entries: map<NetworkID, Entry>) {
    forall id :: id in entries && cfg.RpcURL(id) != "" ==> entries[id].jsonRPC == cfg.RpcURL(id)
  }

  lemma {:induction false} EnumerateShowsOverrides(cfg: Config, views: seq<View>, n: nat)
    requires n <= |views| < TWO_32 - 1 && Enumerate(cfg, views, n).Some?
    ensures ShowsOverrides(cfg, Enumerate(cfg, views, n).value.entries)
    decreases n
  {
    if n > 0 {
      EnumerateShowsOverrides(cfg, views, n - 1);
    }
  }

  /** A network first served by a URL event shows no JSON-RPC URL at all, although it has an override. */
  lemma RpcOverrideCanBeMissing(probe: NetworkID -> bool, withPort: string -> Option<string>)
    returns (views: seq<View>, step: Step)
    ensures var cfg := Plain(withPort).(rpcURLs := map[1 := "rpc"]);
            && |views| < TWO_32 - 1 && Start(cfg, views, probe).Some?
            && var b := Run(cfg, Start(cfg, views, probe).value, [step]);
               1 in b.entries && b.entries[1].jsonRPC == ""
  {
    var cfg := Plain(withPort).(rpcURLs := map[1 := "rpc"]);
    views := [Data(10, Some(Reader(NotAvailable, NotAvailable)))];
    step := Step(Log(10, 7, MetadataSet("a")), None, true);
    var b0 := Enumerate(cfg, views, 0).value;
    var b := Start(cfg, views, probe).value;
    assert Enumerate(cfg, views, 1) == ResolveNetwork(cfg, b0, 1, views[0]);
    assert b.entries == map[] && b.routes == map[10 := 1];
    assert Run(cfg, b, []) == b && [step][..0] == [];
    assert Run(cfg, b, [step]).entries[1] == Entry("a", "", FromMetadata, true);
  }
}
