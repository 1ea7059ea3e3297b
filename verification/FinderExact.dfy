/** Exactly when the finder keeps its health gate, its source ranks and its JSON-RPC overrides, step by step and over runs. */
module FinderExact {
  import opened Prelude
  import opened FinderRules
  import opened FinderRuns

  // ----- what one log can touch -----

  /** The network a log is about, if it is about one. */
  function Target(cfg: Config, b: Books, step: Step): Option<NetworkID> {
    if step.log.address == cfg.manager then
      if step.log.body.Attached? then Some(step.log.body.id) else None
    else if step.log.address in b.routes then Some(b.routes[step.log.address])
    else None
  }

  /** Whether a network is served, and how, is the same in both books. */
  ghost predicate SameEntry(b: Books, b': Books, id: NetworkID) {
    (id in b.entries <==> id in b'.entries) && (id in b.entries ==> b'.entries[id] == b.entries[id])
  }

  lemma UpdateTouchesOne(cfg: Config, b: Books, id: NetworkID, url: string, rpc: string, source: Source,
                         address: Address, block: nat, healthy: bool, other: NetworkID)
    requires other != id
    ensures SameEntry(b, ApplyUpdate(cfg, b, id, url, rpc, source, address, block, healthy), other)
  {
  }

  lemma RefreshTouchesOne(cfg: Config, b: Books, id: NetworkID, address: Address, reader: Option<Reader>, healthy: bool,
                          other: NetworkID)
    requires other != id
    ensures SameEntry(b, Refresh(cfg, b, id, address, reader, healthy), other)
  {
  }

  lemma DiscoverTouchesOne(cfg: Config, b: Books, id: NetworkID, address: Address, block: nat, reader: Option<Reader>,
                           healthy: bool, other: NetworkID)
    requires other != id
    ensures SameEntry(b, Discover(cfg, b, id, address, block, reader, healthy), other)
  {
  }

  /** Entries of other networks stay as they are. */
  lemma OthersAreUntouched(cfg: Config, b: Books, step: Step, id: NetworkID)
    requires Target(cfg, b, step) != Some(id)
    ensures SameEntry(b, ProcessLog(cfg, b, step), id)
  {
    var log := step.log;
    if log.address == cfg.manager {
      if log.body.Attached? {
        DiscoverTouchesOne(cfg, b, log.body.id, log.body.contract, log.block, step.reader, step.healthy, id);
      }
    } else if log.address in b.routes {
      var n := b.routes[log.address];
      match log.body
      case MetadataSet(value) =>
        RefreshTouchesOne(cfg, b, n, log.address, step.reader, step.healthy, id);
        UpdateTouchesOne(cfg, b, n, value, "", FromMetadata, log.address, log.block, step.healthy, id);
      case SequencerSet(url) =>
        if cfg.withPort(url).Some? {
          UpdateTouchesOne(cfg, b, n, cfg.withPort(url).value, url, FromSequencer, log.address, log.block, step.healthy, id);
        }
      case Attached(_, _) =>
      case Other =>
    }
  }

  /** An announced URL obeys gate and rank whatever the books. */
  lemma UpdateObeys(cfg: Config, b: Books, id: NetworkID, url: string, rpc: string, source: Source,
                    address: Address, block: nat, healthy: bool)
    ensures var b' := ApplyUpdate(cfg, b, id, url, rpc, source, address, block, healthy);
            HealthGated(b, b', healthy) && RankKept(b, b')
  {
    var b' := ApplyUpdate(cfg, b, id, url, rpc, source, address, block, healthy);
    forall n | n in b.entries ensures EntryObeys(b, b', n, healthy) {
      if n == id {
        UpdatedEntryObeys(cfg, b, id, url, rpc, source, address, block, healthy);
      } else {
        UpdateTouchesOne(cfg, b, id, url, rpc, source, address, block, healthy, n);
      }
    }
    assert forall n :: n in b.entries ==> EntryObeys(b, b', n, healthy);
  }

  /** One entry under gate and rank. */
  ghost predicate EntryObeys(b: Books, b': Books, id: NetworkID, healthy: bool)
    requires id in b.entries
  {
    && id in b'.entries
    && b'.entries[id].source.Rank() <= b.entries[id].source.Rank()
    && (b.entries[id].healthy && b'.entries[id].url != b.entries[id].url ==> healthy && b'.entries[id].healthy)
  }

  lemma UpdatedEntryObeys(cfg: Config, b: Books, id: NetworkID, url: string, rpc: string, source: Source,
                          address: Address, block: nat, healthy: bool)
    requires id in b.entries
    ensures EntryObeys(b, ApplyUpdate(cfg, b, id, url, rpc, source, address, block, healthy), id, healthy)
  {
  }

  /** A refresh obeys the gate. */
  lemma RefreshObeys(cfg: Config, b: Books, id: NetworkID, address: Address, reader: Option<Reader>, healthy: bool)
    ensures HealthGated(b, Refresh(cfg, b, id, address, reader, healthy), healthy)
  {
    var b' := Refresh(cfg, b, id, address, reader, healthy);
    forall other | other != id ensures SameEntry(b, b', other) {
      RefreshTouchesOne(cfg, b, id, address, reader, healthy, other);
    }
  }

  /** The chain is asked for the target's URLs and has an answer. */
  predicate Answered(cfg: Config, step: Step, id: NetworkID) {
    step.reader.Some? && Resolve(cfg, id, step.reader).Resolved?
  }

  /** A contract not seen before is announced for a network that may be served. */
  predicate Announces(cfg: Config, b: Books, step: Step, id: NetworkID) {
    && step.log.address == cfg.manager && step.log.body.Attached? && step.log.body.id == id
    && step.log.body.contract !in b.routes && !cfg.Excluded(id)
  }

  /** A routed contract clears its network's metadata. */
  predicate Clears(cfg: Config, b: Books, step: Step, id: NetworkID) {
    step.log.address != cfg.manager && step.log.address in b.routes && b.routes[step.log.address] == id
    && ClearsMetadata(step)
  }

  /** An announced contract of a served network installs what the chain answers, without looking at health or rank. */
  lemma AnnouncedEntry(cfg: Config, b: Books, step: Step, id: NetworkID)
    requires Inv(cfg, b) && id in b.entries && step.log.address == cfg.manager && Target(cfg, b, step) == Some(id)
    ensures var b' := ProcessLog(cfg, b, step);
            id in b'.entries &&
            if Announces(cfg, b, step, id) && Answered(cfg, step, id)
            then var r := Resolve(cfg, id, step.reader);
                 b'.entries[id] == Entry(r.url, r.jsonRPC, r.source, step.healthy)
            else b'.entries[id] == b.entries[id]
  {
    assert EntryOk(cfg, id, b.entries[id]);
  }

  /** A cleared network re-resolves, under the health gate alone. */
  lemma ClearedEntry(cfg: Config, b: Books, step: Step, id: NetworkID)
    requires id in b.entries && Clears(cfg, b, step, id)
    ensures var b' := ProcessLog(cfg, b, step);
            var cur, r := b.entries[id], Resolve(cfg, id, step.reader);
            id in b'.entries &&
            if Answered(cfg, step, id) && !(cur.url == r.url && cur.source == r.source) && !(cur.healthy && !step.healthy)
            then b'.entries[id] == Entry(r.url, r.jsonRPC, r.source, step.healthy)
            else b'.entries[id] == cur
  {
  }

  /** Any other routed log obeys gate and rank. */
  lemma AnnouncedURLObeys(cfg: Config, b: Books, step: Step, id: NetworkID)
    requires id in b.entries && Target(cfg, b, step) == Some(id) && step.log.address != cfg.manager && !Clears(cfg, b, step, id)
    ensures EntryObeys(b, ProcessLog(cfg, b, step), id, step.healthy)
  {
    var log := step.log;
    match log.body
    case MetadataSet(value) =>
      UpdatedEntryObeys(cfg, b, id, value, "", FromMetadata, log.address, log.block, step.healthy);
    case SequencerSet(url) =>
      if cfg.withPort(url).Some? {
        UpdatedEntryObeys(cfg, b, id, cfg.withPort(url).value, url, FromSequencer, log.address, log.block, step.healthy);
      }
    case Attached(_, _) =>
    case Other =>
  }

  // ----- the health gate -----

  /** A new contract for a served network, whose other URL just failed its probe while the served one is healthy. */
  predicate BreaksGate(cfg: Config, b: Books, step: Step) {
    && step.log.body.Attached?
    && var id := step.log.body.id;
       && Announces(cfg, b, step, id) && id in b.entries && Answered(cfg, step, id)
       && Resolve(cfg, id, step.reader).url != b.entries[id].url
       && b.entries[id].healthy && !step.healthy
  }

  lemma TargetGatedIff(cfg: Config, b: Books, step: Step, id: NetworkID)
    requires Inv(cfg, b) && Target(cfg, b, step) == Some(id) && id in b.entries
    ensures var b' := ProcessLog(cfg, b, step);
            && id in b'.entries
            && ((b.entries[id].healthy && b'.entries[id].url != b.entries[id].url ==> step.healthy && b'.entries[id].healthy)
                <==> !BreaksGate(cfg, b, step))
  {
    if step.log.address == cfg.manager {
      AnnouncedEntry(cfg, b, step, id);
    } else if Clears(cfg, b, step, id) {
      ClearedEntry(cfg, b, step, id);
    } else {
      AnnouncedURLObeys(cfg, b, step, id);
    }
  }

  /** One log keeps the health gate if and only if it is not such an announcement. */
  lemma GateHoldsIff(cfg: Config, b: Books, step: Step)
    requires Inv(cfg, b)
    ensures HealthGated(b, ProcessLog(cfg, b, step), step.healthy) <==> !BreaksGate(cfg, b, step)
  {
    var b' := ProcessLog(cfg, b, step);
    var target := Target(cfg, b, step);
    forall id | id in b.entries && target != Some(id) ensures SameEntry(b, b', id) {
      OthersAreUntouched(cfg, b, step, id);
    }
    if target.Some? && target.value in b.entries {
      TargetGatedIff(cfg, b, step, target.value);
    } else {
      assert forall id :: id in b.entries ==> SameEntry(b, b', id);
    }
  }

  // ----- the source ranks -----

  /** The chain's answer ranks below the served entry, and a new contract or a clear brings it in. */
  predicate BreaksRank(cfg: Config, b: Books, step: Step) {
    var target := Target(cfg, b, step);
    && target.Some? && target.value in b.entries && Answered(cfg, step, target.value)
    && var id, cur := target.value, b.entries[target.value];
       && Resolve(cfg, id, step.reader).source.Rank() > cur.source.Rank()
       && (Announces(cfg, b, step, id) || (Clears(cfg, b, step, id) && !(cur.healthy && !step.healthy)))
  }

  /** One log keeps every source's rank if and only if it is neither. */
  lemma RankHoldsIff(cfg: Config, b: Books, step: Step)
    requires Inv(cfg, b)
    ensures RankKept(b, ProcessLog(cfg, b, step)) <==> !BreaksRank(cfg, b, step)
  {
    var b' := ProcessLog(cfg, b, step);
    forall id | id in b.entries && Target(cfg, b, step) != Some(id) ensures SameEntry(b, b', id) {
      OthersAreUntouched(cfg, b, step, id);
    }
    var target := Target(cfg, b, step);
    if target.Some? && target.value in b.entries {
      if step.log.address == cfg.manager {
        AnnouncedEntry(cfg, b, step, target.value);
      } else if Clears(cfg, b, step, target.value) {
        ClearedEntry(cfg, b, step, target.value);
      } else {
        AnnouncedURLObeys(cfg, b, step, target.value);
      }
    }
  }

  // ----- over runs -----

  ghost predicate AllGated(cfg: Config, b: Books, steps: seq<Step>) {
    steps == [] ||
    var before, last := steps[..|steps| - 1], steps[|steps| - 1];
    AllGated(cfg, b, before) && HealthGated(Run(cfg, b, before), Run(cfg, b, steps), last.healthy)
  }

  predicate NoneBreaksGate(cfg: Config, b: Books, steps: seq<Step>) {
    steps == [] ||
    var before, last := steps[..|steps| - 1], steps[|steps| - 1];
    NoneBreaksGate(cfg, b, before) && !BreaksGate(cfg, Run(cfg, b, before), last)
  }

  ghost predicate AllRanked(cfg: Config, b: Books, steps: seq<Step>) {
    steps == [] ||
    var before := steps[..|steps| - 1];
    AllRanked(cfg, b, before) && RankKept(Run(cfg, b, before), Run(cfg, b, steps))
  }

  predicate NoneBreaksRank(cfg: Config, b: Books, steps: seq<Step>) {
    steps == [] ||
    var before, last := steps[..|steps| - 1], steps[|steps| - 1];
    NoneBreaksRank(cfg, b, before) && !BreaksRank(cfg, Run(cfg, b, before), last)
  }

  /** Every step of a run keeps the gate, or the ranks, if and only if none of them breaks it. */
  lemma {:induction false} RunsHoldIff(cfg: Config, b: Books, steps: seq<Step>)
    requires Inv(cfg, b)
    ensures AllGated(cfg, b, steps) <==> NoneBreaksGate(cfg, b, steps)
    ensures AllRanked(cfg, b, steps) <==> NoneBreaksRank(cfg, b, steps)
    decreases |steps|
  {
    if steps != [] {
      var before, last := steps[..|steps| - 1], steps[|steps| - 1];
      RunsHoldIff(cfg, b, before);
      RunKeepsInv(cfg, b, before);
      GateHoldsIff(cfg, Run(cfg, b, before), last);
      RankHoldsIff(cfg, Run(cfg, b, before), last);
    }
  }

  // ----- the JSON-RPC override -----

  /** A discovery or a refresh that installs the network's entry. */
  predicate Installs(cfg: Config, b: Books, step: Step, id: NetworkID) {
    && Answered(cfg, step, id) && (cfg.autoRegister || id in b.entries)
    && var r := Resolve(cfg, id, step.reader);
       || (Announces(cfg, b, step, id)
           && !(id in b.entries && b.entries[id].source == FromConfig && r.source != FromConfig))
       || (Clears(cfg, b, step, id)
           && !(id in b.entries && b.entries[id].url == r.url && b.entries[id].source == r.source)
           && !(id in b.entries && b.entries[id].healthy && !step.healthy))
  }

  /** An installed entry shows the override; any other step shows what was shown, and nothing for a new entry. */
  lemma InstallShowsOverride(cfg: Config, b: Books, step: Step, id: NetworkID)
    requires cfg.RpcURL(id) != ""
    ensures var b' := ProcessLog(cfg, b, step);
            && (Installs(cfg, b, step, id) ==> id in b'.entries && b'.entries[id].jsonRPC == cfg.RpcURL(id))
            && (!Installs(cfg, b, step, id) && id in b.entries ==>
                  id in b'.entries && b'.entries[id].jsonRPC == b.entries[id].jsonRPC)
            && (!Installs(cfg, b, step, id) && id !in b.entries && id in b'.entries ==> b'.entries[id].jsonRPC == "")
  {
    if Target(cfg, b, step) != Some(id) {
      OthersAreUntouched(cfg, b, step, id);
    } else if step.log.address == cfg.manager {
      DiscoverShows(cfg, b, step, id);
    } else if Clears(cfg, b, step, id) {
      RefreshShows(cfg, b, step, id);
    } else {
      UpdateShowsNothingNew(cfg, b, step, id);
    }
  }

  lemma DiscoverShows(cfg: Config, b: Books, step: Step, id: NetworkID)
    requires cfg.RpcURL(id) != "" && step.log.address == cfg.manager && Target(cfg, b, step) == Some(id)
    ensures var b' := ProcessLog(cfg, b, step);
            if Installs(cfg, b, step, id) then id in b'.entries && b'.entries[id].jsonRPC == cfg.RpcURL(id)
            else b'.entries == b.entries
  {
  }

  lemma RefreshShows(cfg: Config, b: Books, step: Step, id: NetworkID)
    requires cfg.RpcURL(id) != "" && Clears(cfg, b, step, id)
    ensures var b' := ProcessLog(cfg, b, step);
            if Installs(cfg, b, step, id) then id in b'.entries && b'.entries[id].jsonRPC == cfg.RpcURL(id)
            else b'.entries == b.entries
  {
  }

  lemma UpdateShowsNothingNew(cfg: Config, b: Books, step: Step, id: NetworkID)
    requires cfg.RpcURL(id) != "" && step.log.address != cfg.manager && Target(cfg, b, step) == Some(id)
    requires !Clears(cfg, b, step, id)
    ensures var b' := ProcessLog(cfg, b, step);
            && (id in b.entries ==> id in b'.entries && b'.entries[id].jsonRPC == b.entries[id].jsonRPC)
            && (id !in b.entries && id in b'.entries ==> b'.entries[id].jsonRPC == "")
  {
    match step.log.body
    case MetadataSet(value) =>
    case SequencerSet(url) =>
    case Attached(_, _) =>
    case Other =>
  }

  /** The start, a discovery or a refresh has installed the network's entry at least once. */
  predicate Installed(cfg: Config, b: Books, steps: seq<Step>, id: NetworkID) {
    if steps == [] then id in b.entries
    else
      var before, last := steps[..|steps| - 1], steps[|steps| - 1];
      Installed(cfg, b, before, id) || Installs(cfg, Run(cfg, b, before), last, id)
  }

  /** After the start and any logs, a served network shows its JSON-RPC override if and only if it was so installed. */
  lemma {:induction false} RpcOverrideIsShownIff(
    cfg: Config, views: seq<View>, probe: NetworkID -> bool, steps: seq<Step>, id: NetworkID)
    requires |views| < TWO_32 - 1 && Start(cfg, views, probe).Some? && cfg.RpcURL(id) != ""
    ensures var b0 := Start(cfg, views, probe).value;
            var b := Run(cfg, b0, steps);
            && (Installed(cfg, b0, steps, id) ==> id in b.entries)
            && (id in b.entries ==>
                  b.entries[id].jsonRPC == if Installed(cfg, b0, steps, id) then cfg.RpcURL(id) else "")
    decreases |steps|
  {
    if steps == [] {
      EnumerateShowsOverrides(cfg, views, |views|);
    } else {
      var before := steps[..|steps| - 1];
      RpcOverrideIsShownIff(cfg, views, probe, before, id);
      InstallShowsOverride(cfg, Run(cfg, Start(cfg, views, probe).value, before), steps[|steps| - 1], id);
    }
  }
}
