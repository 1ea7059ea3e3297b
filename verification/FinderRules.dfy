/**
 The rules of the bridge service finder: which source provides a network's
 URLs, and how one observed log changes the served entries, the pending
 networks and the routing table. Contract reads and health probes are inputs of
 the step that makes them.
 */
module FinderRules {
  import opened Prelude

  type Address = int
  type NetworkID = uint32

  /** In descending priority. */
  datatype Source = FromConfig | FromMetadata | FromSequencer {
    function Rank(): nat {
      match this case FromConfig => 0 case FromMetadata => 1 case FromSequencer => 2
    }
  }

  datatype Entry = Entry(url: string, jsonRPC: string, source: Source, healthy: bool)

  datatype Reason = RollupAttached | FirstURLEvent | ChainRefresh

  datatype Pending = Pending(address: Address, block: nat, reason: Reason)

  datatype Config = Config(
    bridgeURLs: map<NetworkID, string>,
    rpcURLs: map<NetworkID, string>,
    ignore: set<NetworkID>,
    allow: set<NetworkID>,
    autoRegister: bool,
    manager: Address,
    withPort: string -> Option<string>) {

    function BridgeURL(id: NetworkID): string {
      if id in bridgeURLs then bridgeURLs[id] else ""
    }

    function RpcURL(id: NetworkID): string {
      if id in rpcURLs then rpcURLs[id] else ""
    }

    /** A non-empty allow list decides alone; otherwise the ignore list does. */
    predicate Excluded(id: NetworkID) {
      if allow != {} then id !in allow else id in ignore
    }

    /** Served from configuration for good. */
    predicate Overridden(id: NetworkID) {
      !Excluded(id) && BridgeURL(id) != ""
    }
  }

  /** One contract read: the method is absent, the call fails, or it yields a value. */
  datatype Read = NotAvailable | Failed | Value(text: string)

  datatype Reader = Reader(sequencer: Read, metadata: Read)

  datatype Resolution = Resolved(url: string, jsonRPC: string, source: Source) | NoSource | Error

  function ReadOrEmpty(read: Read): string {
    if read.Value? then read.text else ""
  }

  /** The three sources in strict order; no reader means only configuration is consulted. */
  function Resolve(cfg: Config, id: NetworkID, reader: Option<Reader>): Resolution {
    var sequencer := if reader.Some? then ReadOrEmpty(reader.value.sequencer) else "";
    var jsonRPC := if cfg.RpcURL(id) != "" then cfg.RpcURL(id) else sequencer;
    if cfg.BridgeURL(id) != "" then Resolved(cfg.BridgeURL(id), jsonRPC, FromConfig)
    else if reader.None? then NoSource
    else if reader.value.sequencer.Failed? then Error
    else if ReadOrEmpty(reader.value.metadata) != "" then Resolved(reader.value.metadata.text, jsonRPC, FromMetadata)
    else if reader.value.metadata.Failed? then Error
    else if sequencer == "" then NoSource
    else match cfg.withPort(sequencer)
      case None => Error
      case Some(url) => Resolved(url, jsonRPC, FromSequencer)
  }

  /** What the finder keeps: served entries, networks held back, and which network a contract speaks for. */
  datatype Books = Books(entries: map<NetworkID, Entry>, pending: map<NetworkID, Pending>, routes: map<Address, NetworkID>)

  function Serve(b: Books, id: NetworkID, entry: Entry): Books {
    b.(entries := b.entries[id := entry])
  }

  /** The first record for a network wins. */
  function HoldBack(b: Books, id: NetworkID, record: Pending): Books {
    if id in b.pending then b else b.(pending := b.pending[id := record])
  }

  /** A URL announced by an event: JSON-RPC refresh, then source priority, then the health gate. */
  function ApplyUpdate(cfg: Config, b: Books, id: NetworkID, url: string, announcedRPC: string, source: Source,
                       address: Address, block: nat, healthy: bool): Books
  {
    var rpc := if cfg.RpcURL(id) != "" then "" else announcedRPC;
    if id !in b.entries then
      if !cfg.autoRegister then HoldBack(b, id, Pending(address, block, FirstURLEvent))
      else Serve(b, id, Entry(url, rpc, source, healthy))
    else
      var cur := b.entries[id].(jsonRPC := if rpc != "" then rpc else b.entries[id].jsonRPC);
      if cur.source == FromConfig || source.Rank() > cur.source.Rank() || (cur.url == url && cur.source == source)
         || (cur.healthy && !healthy)
      then Serve(b, id, cur)
      else Serve(b, id, Entry(url, cur.jsonRPC, source, healthy))
  }

  /** Re-resolution after the metadata was cleared: only the health gate applies. */
  function Refresh(cfg: Config, b: Books, id: NetworkID, address: Address, reader: Option<Reader>, healthy: bool): Books {
    if reader.None? then b
    else match Resolve(cfg, id, reader)
      case NoSource => b
      case Error => b
      case Resolved(url, jsonRPC, source) =>
        if id !in b.entries && !cfg.autoRegister then HoldBack(b, id, Pending(address, 0, ChainRefresh))
        else if id in b.entries && b.entries[id].url == url && b.entries[id].source == source then b
        else if id in b.entries && b.entries[id].healthy && !healthy then b
        else Serve(b, id, Entry(url, jsonRPC, source, healthy))
  }

  /** A rollup attached after the start. A failing reader registers nothing; a failing resolution only the address. */
  function Discover(cfg: Config, b: Books, id: NetworkID, address: Address, block: nat, reader: Option<Reader>,
                    healthy: bool): Books
  {
    if address in b.routes || cfg.Excluded(id) then b
    else if !cfg.autoRegister && id !in b.entries then HoldBack(b, id, Pending(address, block, RollupAttached))
    else if reader.None? then b
    else
      var b1 := b.(routes := b.routes[address := id]);
      match Resolve(cfg, id, reader)
      case NoSource => b1
      case Error => b1
      case Resolved(url, jsonRPC, source) =>
        if id in b.entries && b.entries[id].source == FromConfig && source != FromConfig then b1
        else Serve(b1, id, Entry(url, jsonRPC, source, healthy))
  }

  /** A decoded log: a rollup attached, bridge metadata set (empty: cleared), a sequencer URL set, or anything else. */
  datatype Body = Attached(id: NetworkID, contract: Address) | MetadataSet(value: string) | SequencerSet(url: string) | Other

  datatype Log = Log(address: Address, block: nat, body: Body)

  /** One step of the listener: a log, what a reader would return now, and what probing the candidate would report. */
  datatype Step = Step(log: Log, reader: Option<Reader>, healthy: bool)

  function ProcessLog(cfg: Config, b: Books, step: Step): Books {
    var log := step.log;
    if log.address == cfg.manager then
      if log.body.Attached? then Discover(cfg, b, log.body.id, log.body.contract, log.block, step.reader, step.healthy) else b
    else if log.address !in b.routes then b
    else
      var id := b.routes[log.address];
      match log.body
      case MetadataSet(value) =>
        if value == "" then Refresh(cfg, b, id, log.address, step.reader, step.healthy)
        else ApplyUpdate(cfg, b, id, value, "", FromMetadata, log.address, log.block, step.healthy)
      case SequencerSet(url) =>
        if url == "" || cfg.withPort(url).None? then b
        else ApplyUpdate(cfg, b, id, cfg.withPort(url).value, url, FromSequencer, log.address, log.block, step.healthy)
      case Attached(_, _) => b
      case Other => b
  }

  // ----- the start -----

  /** The networks served from configuration alone. */
  function Seeded(cfg: Config): map<NetworkID, Entry> {
    map id | id in cfg.bridgeURLs && cfg.Overridden(id) :: Entry(cfg.bridgeURLs[id], cfg.RpcURL(id), FromConfig, false)
  }

  /** What the chain says of one rollup: its data cannot be read, or its contract and perhaps a reader for it. */
  datatype View = NoData | Data(contract: Address, reader: Option<Reader>)

  /** None when the start must abort. */
  function ResolveNetwork(cfg: Config, b: Books, id: NetworkID, view: View): Option<Books> {
    var fallback := Entry(cfg.BridgeURL(id), cfg.RpcURL(id), FromConfig, false);
    if cfg.BridgeURL(id) != "" && cfg.RpcURL(id) != "" then Some(Serve(b, id, fallback))
    else if view.NoData? then if cfg.BridgeURL(id) != "" then Some(Serve(b, id, fallback)) else None
    else
      var b1 := b.(routes := b.routes[view.contract := id]);
      if view.reader.None? then if cfg.BridgeURL(id) != "" then Some(Serve(b1, id, fallback)) else None
      else match Resolve(cfg, id, view.reader)
        case NoSource => Some(b1)
        case Error => None
        case Resolved(url, jsonRPC, source) => Some(Serve(b1, id, Entry(url, jsonRPC, source, false)))
  }

  /** Rollups 1 to n, where views[k] is the chain's answer for rollup k + 1. */
  function Enumerate(cfg: Config, views: seq<View>, n: nat): Option<Books>
    requires n <= |views| < TWO_32 - 1
  {
    if n == 0 then Some(Books(Seeded(cfg), map[], map[]))
    else match Enumerate(cfg, views, n - 1) {
      case None => None
      case Some(b) => if cfg.Excluded(n) then Some(b) else ResolveNetwork(cfg, b, n, views[n - 1])
    }
  }

  function Probed(cfg: Config, entries: map<NetworkID, Entry>, probe: NetworkID -> bool): map<NetworkID, Entry> {
    map id | id in entries :: if cfg.Excluded(id) then entries[id] else entries[id].(healthy := probe(id))
  }

  function Start(cfg: Config, views: seq<View>, probe: NetworkID -> bool): Option<Books>
    requires |views| < TWO_32 - 1
  {
    match Enumerate(cfg, views, |views|)
    case None => None
    case Some(b) => Some(b.(entries := Probed(cfg, b.entries, probe)))
  }

  /** The books after a sequence of logs. */
  function Run(cfg: Config, b: Books, steps: seq<Step>): Books {
    if steps == [] then b else ProcessLog(cfg, Run(cfg, b, steps[..|steps| - 1]), steps[|steps| - 1])
  }
}
