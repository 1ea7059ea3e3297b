/**
 What each kind of log changes in the finder's books, told entry by entry: which
 URL, JSON-RPC URL, source and health are shown afterwards, and which network is
 held back with which record.
 */
module FinderEffects {
  import opened Prelude
  import opened FinderRules
  import opened FinderRuns

  /** The JSON-RPC URL an announcement leads to: an override hides it, and an empty one changes nothing. */
  function ShownRPC(cfg: Config, id: NetworkID, announced: string, before: string): string {
    if cfg.RpcURL(id) != "" || announced == "" then before else announced
  }

  /** A served network keeps its URL against configuration, a better source, and a failed probe while healthy. */
  predicate GivesWay(cur: Entry, source: Source, healthy: bool) {
    match cur.source
    case FromConfig => false
    case FromMetadata => source == FromMetadata && (healthy || !cur.healthy)
    case FromSequencer => healthy || !cur.healthy
  }

  /** Entries of other networks, other pending records and all routes are as before. */
  ghost predicate OnlyAbout(b: Books, b': Books, id: NetworkID) {
    && b'.routes == b.routes
    && (forall n :: n != id ==> (n in b'.entries <==> n in b.entries) && (n in b.entries ==> b'.entries[n] == b.entries[n]))
    && (forall n :: n != id ==> (n in b'.pending <==> n in b.pending) && (n in b.pending ==> b'.pending[n] == b.pending[n]))
  }

  /** A network that is held back keeps its first record. */
  ghost predicate HeldBack(b: Books, b': Books, id: NetworkID, record: Pending) {
    && b'.entries == b.entries && id in b'.pending
    && b'.pending[id] == if id in b.pending then b.pending[id] else record
  }

  /** What an announced URL makes of the network it is for. */
  ghost predicate Announced(cfg: Config, b: Books, b': Books, id: NetworkID, url: string, rpc: string, source: Source,
                            address: Address, block: nat, healthy: bool)
  {
    && OnlyAbout(b, b', id)
    && if id in b.entries then
         && b'.pending == b.pending && id in b'.entries
         && var cur, e := b.entries[id], b'.entries[id];
            && e.jsonRPC == ShownRPC(cfg, id, rpc, cur.jsonRPC)
            && if cur.url == url && cur.source == source then e.url == url && e.source == source && e.healthy == cur.healthy
               else if GivesWay(cur, source, healthy) then e.url == url && e.source == source && e.healthy == healthy
               else e.url == cur.url && e.source == cur.source && e.healthy == cur.healthy
       else if cfg.autoRegister then
         b'.pending == b.pending && id in b'.entries && b'.entries[id] == Entry(url, ShownRPC(cfg, id, rpc, ""), source, healthy)
       else HeldBack(b, b', id, Pending(address, block, FirstURLEvent))
  }

  /** What the chain's answer makes of a network whose metadata was cleared. */
  ghost predicate Reread(cfg: Config, b: Books, b': Books, id: NetworkID, address: Address, reader: Option<Reader>, healthy: bool) {
    && OnlyAbout(b, b', id)
    && var r := if reader.None? then NoSource else Resolve(cfg, id, reader);
       if !r.Resolved? then b' == b
       else if id in b.entries then
         && b'.pending == b.pending && id in b'.entries
         && var cur := b.entries[id];
            b'.entries[id] == if (cur.url == r.url && cur.source == r.source) || (cur.healthy && !healthy) then cur
                              else Entry(r.url, r.jsonRPC, r.source, healthy)
       else if cfg.autoRegister then
         b'.pending == b.pending && id in b'.entries && b'.entries[id] == Entry(r.url, r.jsonRPC, r.source, healthy)
       else HeldBack(b, b', id, Pending(address, 0, ChainRefresh))
  }

  /** What a rollup attached after the start makes of the books. */
  ghost predicate Joined(cfg: Config, b: Books, b': Books, id: NetworkID, contract: Address, block: nat,
                         reader: Option<Reader>, healthy: bool)
  {
    if contract in b.routes || cfg.Excluded(id) then b' == b
    else if id !in b.entries && !cfg.autoRegister then
      b'.routes == b.routes && HeldBack(b, b', id, Pending(contract, block, RollupAttached))
    else if reader.None? then b' == b
    else
      var r := Resolve(cfg, id, reader);
      && b'.routes == b.routes[contract := id] && b'.pending == b.pending
      && (forall n :: n != id ==> (n in b'.entries <==> n in b.entries) && (n in b.entries ==> b'.entries[n] == b.entries[n]))
      && if !r.Resolved? || (id in b.entries && b.entries[id].source == FromConfig && r.source != FromConfig)
         then b'.entries == b.entries
         else id in b'.entries && b'.entries[id] == Entry(r.url, r.jsonRPC, r.source, healthy)
  }

  /** The effect of one log, by its address and kind. */
  ghost predicate Effect(cfg: Config, b: Books, b': Books, step: Step) {
    var log := step.log;
    if log.address == cfg.manager then
      match log.body
      case Attached(id, contract) => Joined(cfg, b, b', id, contract, log.block, step.reader, step.healthy)
      case _ => b' == b
    else if log.address !in b.routes then b' == b
    else
      var id := b.routes[log.address];
      match log.body
      case MetadataSet(value) =>
        if value == "" then Reread(cfg, b, b', id, log.address, step.reader, step.healthy)
        else Announced(cfg, b, b', id, value, "", FromMetadata, log.address, log.block, step.healthy)
      case SequencerSet(url) =>
        if url != "" && cfg.withPort(url).Some?
        then Announced(cfg, b, b', id, cfg.withPort(url).value, url, FromSequencer, log.address, log.block, step.healthy)
        else b' == b
      case _ => b' == b
  }

  lemma UpdateIsAnnounced(cfg: Config, b: Books, id: NetworkID, url: string, rpc: string, source: Source, address: Address,
                          block: nat, healthy: bool)
    requires source != FromConfig
    ensures Announced(cfg, b, ApplyUpdate(cfg, b, id, url, rpc, source, address, block, healthy), id, url, rpc, source,
                      address, block, healthy)
  {
  }

  lemma RefreshIsReread(cfg: Config, b: Books, id: NetworkID, address: Address, reader: Option<Reader>, healthy: bool)
    ensures Reread(cfg, b, Refresh(cfg, b, id, address, reader, healthy), id, address, reader, healthy)
  {
  }

  lemma DiscoverIsJoined(cfg: Config, b: Books, id: NetworkID, contract: Address, block: nat, reader: Option<Reader>, healthy: bool)
    ensures Joined(cfg, b, Discover(cfg, b, id, contract, block, reader, healthy), id, contract, block, reader, healthy)
  {
  }

  /** Every log has its effect on the books. */
  lemma LogTakesEffect(cfg: Config, b: Books, step: Step)
    ensures Effect(cfg, b, ProcessLog(cfg, b, step), step)
  {
    var log := step.log;
    if log.address == cfg.manager {
      if log.body.Attached? {
        DiscoverIsJoined(cfg, b, log.body.id, log.body.contract, log.block, step.reader, step.healthy);
      }
    } else if log.address in b.routes {
      var id := b.routes[log.address];
      match log.body
      case MetadataSet(value) =>
        if value == "" {
          RefreshIsReread(cfg, b, id, log.address, step.reader, step.healthy);
        } else {
          UpdateIsAnnounced(cfg, b, id, value, "", FromMetadata, log.address, log.block, step.healthy);
        }
      case SequencerSet(url) =>
        if url != "" && cfg.withPort(url).Some? {
          UpdateIsAnnounced(cfg, b, id, cfg.withPort(url).value, url, FromSequencer, log.address, log.block, step.healthy);
        }
      case _ =>
    }
  }

  /**
   A sequencer URL from a routed contract: the shown URL becomes the one with
   the bridge's port exactly when the network is served by its sequencer and a
   healthy entry does not meet a failed probe, or that URL was shown already.
   The JSON-RPC URL follows unless overridden.
   */
  lemma SequencerURLIsShownIff(cfg: Config, b: Books, step: Step, id: NetworkID, u: string, v: string)
    requires step.log.address != cfg.manager && step.log.address in b.routes && b.routes[step.log.address] == id
    requires step.log.body == SequencerSet(u) && u != "" && cfg.withPort(u) == Some(v) && id in b.entries
    ensures var b' := ProcessLog(cfg, b, step);
            var cur := b.entries[id];
            && id in b'.entries
            && (b'.entries[id].url == v <==>
                cur.url == v || (cur.source != FromConfig && cur.source != FromMetadata && (step.healthy || !cur.healthy)))
            && (cfg.RpcURL(id) == "" ==> b'.entries[id].jsonRPC == u)
            && (cfg.RpcURL(id) != "" ==> b'.entries[id].jsonRPC == cur.jsonRPC)
  {
    LogTakesEffect(cfg, b, step);
  }

  /** The same for a metadata URL, which only configuration outranks and which has no JSON-RPC part. */
  lemma MetadataURLIsShownIff(cfg: Config, b: Books, step: Step, id: NetworkID, v: string)
    requires step.log.address != cfg.manager && step.log.address in b.routes && b.routes[step.log.address] == id
    requires step.log.body == MetadataSet(v) && v != "" && id in b.entries
    ensures var b' := ProcessLog(cfg, b, step);
            var cur := b.entries[id];
            && id in b'.entries && b'.entries[id].jsonRPC == cur.jsonRPC
            && (b'.entries[id].url == v <==> cur.url == v || (cur.source != FromConfig && (step.healthy || !cur.healthy)))
  {
    LogTakesEffect(cfg, b, step);
  }

  /** A network not served yet is served from its first announced URL, or held back with the log's address and block. */
  lemma FirstURLIsKept(cfg: Config, b: Books, step: Step, id: NetworkID, v: string)
    requires step.log.address != cfg.manager && step.log.address in b.routes && b.routes[step.log.address] == id
    requires id !in b.entries && v != ""
    requires step.log.body == MetadataSet(v) || (step.log.body.SequencerSet? && step.log.body.url != ""
                                                 && cfg.withPort(step.log.body.url) == Some(v))
    ensures var b' := ProcessLog(cfg, b, step);
            if cfg.autoRegister then id in b'.entries && b'.entries[id].url == v && b'.entries[id].healthy == step.healthy
            else id !in b'.entries && id in b'.pending
                 && (id !in b.pending ==> b'.pending[id] == Pending(step.log.address, step.log.block, FirstURLEvent))
  {
    LogTakesEffect(cfg, b, step);
  }

  /** Along a run every log has its effect on the books it finds. */
  lemma EffectsOverRuns(cfg: Config, b: Books, steps: seq<Step>, i: nat)
    requires i < |steps|
    ensures Effect(cfg, Run(cfg, b, steps[..i]), Run(cfg, b, steps[..i + 1]), steps[i])
  {
    assert steps[..i + 1][..i] == steps[..i];
    LogTakesEffect(cfg, Run(cfg, b, steps[..i]), steps[i]);
  }

  /**
   After the start and any logs: with an allow list only networks on it are
   served, held back or routed to; without one, only networks not on the ignore
   list.
   */
  lemma ListsDecide(cfg: Config, views: seq<View>, probe: NetworkID -> bool, steps: seq<Step>, id: NetworkID)
    requires |views| < TWO_32 - 1 && Start(cfg, views, probe).Some?
    requires if cfg.allow != {} then id !in cfg.allow else id in cfg.ignore
    ensures var b := Run(cfg, Start(cfg, views, probe).value, steps);
            id !in b.entries && id !in b.pending && forall a :: a in b.routes ==> b.routes[a] != id
  {
    ExcludedStayOut(cfg, views, probe, steps, id);
  }

  /** A network the lists let through is not kept out: its rollup, attached with a readable URL, is served or held back. */
  lemma ListsLetThrough(cfg: Config, b: Books, step: Step, reader: Reader, r: Resolution)
    requires step.log.address == cfg.manager && step.log.body.Attached? && step.log.body.contract !in b.routes
    requires var id := step.log.body.id; if cfg.allow != {} then id in cfg.allow else id !in cfg.ignore
    requires step.reader == Some(reader) && r == Resolve(cfg, step.log.body.id, Some(reader)) && r.Resolved?
    ensures var b' := ProcessLog(cfg, b, step);
            var id := step.log.body.id;
            id in b'.entries || id in b'.pending
  {
    LogTakesEffect(cfg, b, step);
  }
}
