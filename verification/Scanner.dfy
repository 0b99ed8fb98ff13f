/** The block scanner as a state machine (service/evm_listener.go, Run): one step per ticker firing, driven by
    what the clock, the providers, the database and the broker answer during that step. */
module Scanner {
  import opened Schema
  import opened Publishing
  import Native = NativeEvents
  import Usdc = UsdcEvents

  /** Five minutes, in milliseconds. */
  const RETRY_INTERVAL: int := 300_000

  datatype Config = Config(
    safeBlockBuffer: int,
    maxBlocksPerTick: int,
    networkId: NetworkId,
    nativeSymbol: string,
    knownContracts: set<Address>,
    usdcListen: bool,
    usdc: Option<Address>,
    publishing: bool)

  /** A fetched block together with the answers given while its activity is collected: receipt lookups that
      succeed, and the USDC log query (None when it fails). */
  datatype Block = Block(
    number: int, hash: Hash, timestamp: int, txs: seq<Native.Tx>,
    nativeReceipts: map<Hash, Native.PricedReceipt>,
    logs: Option<seq<Usdc.Log>>, usdcReceipts: map<Hash, Receipt>)

  datatype HeadReading = Head(number: int) | HeadError(transient: bool)

  /** Everything one tick may ask for. `blocks` holds the fetches that succeed and `fetchTransient` classifies
      the error of one that does not; `reachable` the providers that answer a recovery probe; `wallets` is None
      on a database error; `rejects[n]` the batch indices of block n the broker refuses. */
  datatype TickInput = TickInput(
    checkAt: int, rearmAt: int, reachable: set<nat>,
    head: HeadReading, wallets: Option<seq<Address>>,
    blocks: map<int, Block>, fetchTransient: bool,
    rejects: map<int, set<nat>>, writeOk: bool)

  datatype Setup = Setup(providers: nat, startedAt: int, head: Option<int>, sessionCreated: bool)

  datatype Health = Health(failures: nat, healthy: bool)

  datatype Session = Session(fromBlock: int, toBlock: Option<int>, closed: bool)

  /** What became of a stretch of blocks: one block scanned into a message, or a stretch passed over because
      there was no wallet to watch. */
  datatype Span =
    | Scanned(n: int, msg: BlockMessage, rejects: set<nat>)
    | Skipped(first: int, last: int)
  {
    function Lo(): int { if Scanned? then n else first }
    function Hi(): int { if Scanned? then n else last }
  }

  /** `writes` holds the checkpoint updates the database took and `attempts` the calls to the broker, in order. */
  datatype State = State(
    providers: seq<Health>,
    nextRetry: int,
    fromBlock: Option<int>,
    lastBlock: Option<int>,
    session: Option<Session>,
    writes: seq<int>,
    history: seq<Span>,
    attempts: seq<Attempt>)

  // ---------- Provider health ----------

  function Fail(h: Health): Health {
    Health(h.failures + 1, false)
  }

  function Refreshed(h: Health, answers: bool): Health {
    if !h.healthy && answers then Health(0, true) else h
  }

  function FirstHealthy(ps: seq<Health>, i: nat := 0): (p: nat)
    requires i <= |ps|
    ensures i <= p <= |ps|
    ensures p < |ps| ==> ps[p].healthy
    ensures forall k :: i <= k < p ==> !ps[k].healthy
    decreases |ps| - i
  {
    if i == |ps| || ps[i].healthy then i else FirstHealthy(ps, i + 1)
  }

  function Recovered(ps: seq<Health>, reachable: set<nat>): (r: seq<Health>)
    ensures |r| == |ps|
    ensures forall i :: 0 <= i < |ps| ==> r[i] == Refreshed(ps[i], i in reachable)
  {
    seq(|ps|, i requires 0 <= i < |ps| => Refreshed(ps[i], i in reachable))
  }

  /** The recovery pass that opens a tick once the retry time has come. */
  function Refresh(s: State, t: TickInput): (r: State)
    ensures |r.providers| == |s.providers|
  {
    if t.checkAt < s.nextRetry then s
    else s.(nextRetry := t.rearmAt + RETRY_INTERVAL, providers := Recovered(s.providers, t.reachable))
  }

  function Blame(s: State, p: nat, transient: bool): State
    requires p < |s.providers|
  {
    if transient then s.(providers := s.providers[p := Fail(s.providers[p])]) else s
  }

  // ---------- One block ----------

  function BlockEvents(cfg: Config, block: Block, addrs: seq<Address>): seq<ActivityEvent> {
    Native.NativeScan(block.txs, addrs, Native.Context(block.nativeReceipts, cfg.knownContracts, cfg.nativeSymbol)) +
    if cfg.usdcListen then Usdc.UsdcOfBlock(cfg.usdc, block.logs, addrs, block.usdcReceipts) else []
  }

  function MessageOf(cfg: Config, block: Block, addrs: seq<Address>): BlockMessage {
    BlockMessage(cfg.networkId, block.number, block.hash, Some(block.timestamp), BlockEvents(cfg, block, addrs))
  }

  function RejectsOf(t: TickInput, n: int): set<nat> {
    if n in t.rejects then t.rejects[n] else {}
  }

  /** The broker calls made for one span: none without activity or without a publisher. */
  function SpanTrace(publishing: bool, span: Span): seq<Attempt> {
    if span.Scanned? && publishing && span.msg.events != [] then PublishTrace(span.msg, span.rejects) else []
  }

  function Process(cfg: Config, s: State, t: TickInput, addrs: seq<Address>, n: int): State
    requires n in t.blocks
  {
    var span := Scanned(n, MessageOf(cfg, t.blocks[n], addrs), RejectsOf(t, n));
    s.(lastBlock := Some(n), history := s.history + [span],
    attempts := s.attempts + SpanTrace(cfg.publishing, span))
  }

  // ---------- One tick ----------

  /** Blocks n..end in order, up to the first that cannot be fetched. */
  function Scan(cfg: Config, s: State, p: nat, t: TickInput, addrs: seq<Address>, n: int, end: int): State
    requires p < |s.providers|
    decreases end - n + 1
  {
    if n > end then s
    else if n !in t.blocks then Blame(s, p, t.fetchTransient)
    else Scan(cfg, Process(cfg, s, t, addrs, n), p, t, addrs, n + 1, end)
  }

  function SafeBlock(cfg: Config, head: int): int {
    head - cfg.safeBlockBuffer
  }

  function StartOf(s: State, safe: int): int {
    if s.fromBlock.Some? then s.fromBlock.value else safe
  }

  function EndOf(cfg: Config, from: int, safe: int): int {
    var cappedEnd := from + cfg.maxBlocksPerTick - 1;
    if cappedEnd < safe then cappedEnd else safe
  }

  function Write(s: State, n: int, ok: bool): State {
    if ok then s.(writes := s.writes + [n]) else s
  }

  function SkipTo(s: State, safe: int, ok: bool): State {
    Write(s.(lastBlock := Some(safe), fromBlock := Some(safe + 1),
          history := s.history + [Skipped(StartOf(s, safe), safe)]), safe, ok)
  }

  function Advance(s: State, ok: bool): State {
    if s.lastBlock.None? then s
    else Write(s.(fromBlock := Some(s.lastBlock.value + 1)), s.lastBlock.value, ok)
  }

  function Tick(cfg: Config, s0: State, t: TickInput): State {
    var s := Refresh(s0, t);
    var p := FirstHealthy(s.providers);
    if p == |s.providers| then s
    else if t.head.HeadError? then Blame(s, p, t.head.transient)
    else
      var safe := SafeBlock(cfg, t.head.number);
      if t.wallets.None? then s
      else if t.wallets.value == [] then SkipTo(s, safe, t.writeOk)
      else
        var from := StartOf(s, safe);
        if from > safe then s
        else Advance(Scan(cfg, s, p, t, t.wallets.value, from, EndOf(cfg, from, safe)), t.writeOk)
  }

  // ---------- A whole run ----------

  /** Startup reads the head once; only then is there a first block, and perhaps a session row. */
  function Start(cfg: Config, up: Setup): State {
    var from := if up.providers > 0 && up.head.Some? then Some(SafeBlock(cfg, up.head.value)) else None;
    State(seq(up.providers, _ => Health(0, true)), up.startedAt + RETRY_INTERVAL, from, None,
          if from.Some? && up.sessionCreated then Some(Session(from.value, None, false)) else None, [], [], [])
  }

  function After(cfg: Config, up: Setup, ticks: seq<TickInput>): State {
    if ticks == [] then Start(cfg, up)
    else Tick(cfg, After(cfg, up, ticks[..|ticks| - 1]), ticks[|ticks| - 1])
  }

  /** Shutdown closes the session row, if there is one, at the last block. */
  function Close(s: State, ok: bool): State {
    if s.session.Some? && ok then s.(session := Some(s.session.value.(toBlock := s.lastBlock, closed := true))) else s
  }

  // ---------- What a scan can change ----------

  /** Every new span is a scanned block, consecutive from `from`; the last of them is the last block. */
  ghost predicate Extends(s: State, r: State, from: int, to: int) {
    && s.history <= r.history
    && |r.history| == |s.history| + (if from <= to then to - from + 1 else 0)
    && (forall i :: |s.history| <= i < |r.history| ==>
          r.history[i].Scanned? && r.history[i].n == from + i - |s.history|)
    && r.lastBlock == (if from <= to then Some(to) else s.lastBlock)
    && r.fromBlock == s.fromBlock && r.nextRetry == s.nextRetry && r.session == s.session && r.writes == s.writes
  }

  lemma {:induction false} ScanEffect(cfg: Config, s: State, p: nat, t: TickInput, addrs: seq<Address>, n: int,
                                      end: int)
    returns (to: int)
    requires p < |s.providers|
    ensures n - 1 <= to && (to <= end || to == n - 1)
    ensures Extends(s, Scan(cfg, s, p, t, addrs, n, end), n, to)
    ensures Scan(cfg, s, p, t, addrs, n, end).providers ==
            if to < end then Blame(s, p, t.fetchTransient).providers else s.providers
    ensures to < end ==> to + 1 !in t.blocks
    ensures forall m :: n <= m <= to ==> m in t.blocks
    decreases end - n + 1
  {
    if n > end || n !in t.blocks {
      to := n - 1;
    } else {
      var s' := Process(cfg, s, t, addrs, n);
      to := ScanEffect(cfg, s', p, t, addrs, n + 1, end);
      var r := Scan(cfg, s', p, t, addrs, n + 1, end);
      assert s'.history[|s.history|].n == n;
      assert r.history[|s.history|] == s'.history[|s.history|];
    }
  }
}
