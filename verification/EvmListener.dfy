/** The listener itself (service/evm_listener.go), proved to take exactly the steps of the scanner machine. */
module Listener {
  import opened Schema
  import opened Publishing
  import opened Scanner
  import opened Providers
  import Coverage = ScannerCoverage
  import Native = NativeEvents
  import Usdc = UsdcEvents

  /** The rows a listener writes: its session and the network's checkpoint updates that succeeded. */
  class ListenerStore {
    var session: Option<Session>
    var writes: seq<int>

    constructor ()
      ensures session == None && writes == []
    {
      session, writes := None, [];
    }

    method CreateListenerSession(fromBlock: int, ok: bool)
      modifies this
      ensures session == (if ok then Some(Session(fromBlock, None, false)) else old(session))
      ensures writes == old(writes)
    {
      if ok {
        session := Some(Session(fromBlock, None, false));
      }
    }

    method CloseListenerSession(lastBlock: Option<int>, ok: bool)
      requires session.Some?
      modifies this
      ensures session == if ok then Some(old(session).value.(toBlock := lastBlock, closed := true)) else old(session)
      ensures writes == old(writes)
    {
      if ok {
        session := Some(session.value.(toBlock := lastBlock, closed := true));
      }
    }

    method UpdateLastScannedBlock(block: int, ok: bool)
      modifies this
      ensures writes == if ok then old(writes) + [block] else old(writes)
      ensures session == old(session)
    {
      if ok {
        writes := writes + [block];
      }
    }
  }

  class EvmListener {
    const cfg: Config
    const providerList: seq<EVMProvider>
    const pub: Publisher?
    const store: ListenerStore
    var nextProviderRetry: int
    var lastBlock: Option<int>
    var fromBlock: Option<int>
    ghost var history: seq<Span>

    constructor (cfg: Config, providerList: seq<EVMProvider>, pub: Publisher?, store: ListenerStore)
      requires Distinct(providerList) && (pub != null <==> cfg.publishing)
      ensures Valid() && this.cfg == cfg && this.providerList == providerList && this.pub == pub && this.store == store
      ensures fromBlock == None && lastBlock == None && history == []
    {
      this.cfg, this.providerList, this.pub, this.store := cfg, providerList, pub, store;
      nextProviderRetry, lastBlock, fromBlock, history := 0, None, None, [];
    }

    ghost predicate Valid() {
      Distinct(providerList) && (pub != null <==> cfg.publishing)
    }

    ghost function View(): State
      reads this, providerList, pub, store
    {
      State(Views(providerList), nextProviderRetry, fromBlock, lastBlock, store.session, store.writes, history,
            if pub == null then [] else pub.log)
    }

    method GetHealthyClient() returns (p: nat, ok: bool)
      ensures p == FirstHealthy(Views(providerList)) && (ok <==> p < |providerList|)
    {
      p := 0;
      while p < |providerList|
        invariant p <= |providerList|
        invariant FirstHealthy(Views(providerList)) == FirstHealthy(Views(providerList), p)
      {
        if providerList[p].IsHealthy() {
          return p, true;
        }
        p := p + 1;
      }
      ok := false;
    }

    method HandleProviderFailure(p: nat, transient: bool)
      requires Valid() && p < |providerList|
      modifies providerList[p]
      ensures View() == Blame(old(View()), p, transient)
    {
      if !transient {
        return;
      }
      providerList[p].RecordFailure();
      assert Views(providerList) == old(Views(providerList))[p := Fail(old(Views(providerList))[p])];
    }

    method RequireRetry(checkAt: int, rearmAt: int) returns (shouldRetry: bool, next: int)
      ensures shouldRetry == (checkAt >= nextProviderRetry)
      ensures next == if shouldRetry then rearmAt + 300_000 else nextProviderRetry
    {
      if checkAt < nextProviderRetry {
        return false, nextProviderRetry;
      }
      return true, rearmAt + RETRY_INTERVAL;
    }

    method RecoverUnhealthyProviders(reachable: set<nat>)
      requires Valid()
      modifies providerList
      ensures View() == old(View()).(providers := Recovered(old(Views(providerList)), reachable))
      ensures forall i :: 0 <= i < |providerList| ==>
        providerList[i].View() ==
        if !old(providerList[i].View()).healthy && i in reachable then Health(0, true)
        else old(providerList[i].View())
    {
      for i := 0 to |providerList|
        invariant forall j :: 0 <= j < i ==>
          providerList[j].View() == Refreshed(old(providerList[j].View()), j in reachable)
        invariant forall j :: i <= j < |providerList| ==> providerList[j].View() == old(providerList[j].View())
      {
        if !providerList[i].IsHealthy() {
          providerList[i].Recover(i in reachable);
        }
      }
      assert Views(providerList) == Recovered(old(Views(providerList)), reachable);
    }

    method AssembleMessage(block: Block, addrs: seq<Address>) returns (msg: BlockMessage)
      ensures msg == MessageOf(cfg, block, addrs)
    {
      var native := Native.CollectTxnEvents(
        block.txs, addrs, Native.Context(block.nativeReceipts, cfg.knownContracts, cfg.nativeSymbol));
      msg := BlockMessage(cfg.networkId, block.number, block.hash, Some(block.timestamp), native);
      if cfg.usdcListen {
        var usdc, lookups := Usdc.CollectUSDCEvents(cfg.usdc, block.logs, addrs, block.usdcReceipts);
        msg := msg.(events := msg.events + usdc);
      }
    }

    method ProcessBlock(t: TickInput, addrs: seq<Address>, blockNum: int)
      requires Valid() && blockNum in t.blocks
      modifies this`lastBlock, this`history, pub
      ensures View() == Process(cfg, old(View()), t, addrs, blockNum)
    {
      var msg := AssembleMessage(t.blocks[blockNum], addrs);
      var rejects := if blockNum in t.rejects then t.rejects[blockNum] else {};
      if |msg.events| > 0 && pub != null {
        var accepted := pub.Publish(msg, rejects);
      }
      lastBlock := Some(blockNum);
      history := history + [Scanned(blockNum, msg, rejects)];
      assert View().providers == old(View()).providers;
    }

    method ScanRange(p: nat, t: TickInput, addrs: seq<Address>, from: int, end: int)
      requires Valid() && p < |providerList|
      modifies this`lastBlock, this`history, providerList[p], pub
      ensures View() == Scan(cfg, old(View()), p, t, addrs, from, end)
    {
      var blockNum := from;
      while blockNum <= end
        invariant Scan(cfg, View(), p, t, addrs, blockNum, end) == Scan(cfg, old(View()), p, t, addrs, from, end)
        decreases end - blockNum
      {
        if blockNum !in t.blocks {
          HandleProviderFailure(p, t.fetchTransient);
          break;
        }
        ProcessBlock(t, addrs, blockNum);
        blockNum := blockNum + 1;
      }
    }

    /** The branch for "no wallet to watch". */
    method AdvanceWithoutWallets(safeBlock: int, writeOk: bool)
      requires Valid()
      modifies this`lastBlock, this`fromBlock, this`history, store
      ensures View() == SkipTo(old(View()), safeBlock, writeOk)
    {
      history := history + [Skipped(StartOf(View(), safeBlock), safeBlock)];
      lastBlock := Some(safeBlock);
      fromBlock := Some(safeBlock + 1);
      store.UpdateLastScannedBlock(safeBlock, writeOk);
    }

    /** The branch that scans, with the per-tick cap. */
    method ScanTick(p: nat, t: TickInput, addrs: seq<Address>, safe: int)
      requires Valid() && p < |providerList|
      modifies this`lastBlock, this`fromBlock, this`history, providerList[p], pub, store
      ensures
        var s := old(View());
        var from := StartOf(s, safe);
        View() == if from > safe then s
                  else Advance(Scan(cfg, s, p, t, addrs, from, EndOf(cfg, from, safe)), t.writeOk)
    {
      var safeBlock, from := safe, safe;
      if fromBlock.Some? {
        from := fromBlock.value;
      }
      if from > safeBlock {
        return;
      }
      var cappedEnd := from + cfg.maxBlocksPerTick - 1;
      if cappedEnd < safeBlock {
        safeBlock := cappedEnd;
      }
      ScanRange(p, t, addrs, from, safeBlock);
      AdvancePointer(t.writeOk);
    }

    /** After a scan: move the pointer past the last block and record the checkpoint. */
    method AdvancePointer(writeOk: bool)
      requires Valid()
      modifies this`fromBlock, store
      ensures View() == Advance(old(View()), writeOk)
    {
      if lastBlock.Some? {
        fromBlock := Some(lastBlock.value + 1);
        store.UpdateLastScannedBlock(lastBlock.value, writeOk);
      }
    }

    method RefreshProviders(t: TickInput)
      requires Valid()
      modifies this`nextProviderRetry, providerList
      ensures View() == Refresh(old(View()), t)
    {
      var shouldRetry, next := RequireRetry(t.checkAt, t.rearmAt);
      nextProviderRetry := next;
      if shouldRetry {
        RecoverUnhealthyProviders(t.reachable);
      }
    }

    method OnTick(t: TickInput)
      requires Valid()
      modifies this, providerList, pub, store
      ensures View() == Tick(cfg, old(View()), t)
      ensures forall k :: |old(history)| <= k < |history| ==>
        t.head.Head? && history[k].Hi() + cfg.safeBlockBuffer <= t.head.number
    {
      Coverage.TickBound(cfg, View(), t);
      RefreshProviders(t);
      var p, ok := GetHealthyClient();
      if !ok {
        return;
      }
      if t.head.HeadError? {
        HandleProviderFailure(p, t.head.transient);
        return;
      }
      var safeBlock := t.head.number - cfg.safeBlockBuffer;
      if t.wallets.None? {
        return;
      }
      if |t.wallets.value| == 0 {
        AdvanceWithoutWallets(safeBlock, t.writeOk);
        return;
      }
      ScanTick(p, t, t.wallets.value, safeBlock);
    }

    /** What Run does before its first tick. */
    method Startup(startedAt: int, head: Option<int>, sessionCreated: bool)
      requires Valid()
      requires forall i :: 0 <= i < |providerList| ==> providerList[i].View() == Health(0, true)
      requires fromBlock == None && lastBlock == None && history == []
      requires store.session == None && store.writes == [] && (pub != null ==> pub.log == [])
      modifies this, store
      ensures View() == Start(cfg, Setup(|providerList|, startedAt, head, sessionCreated))
      ensures nextProviderRetry == startedAt + 300_000 && lastBlock == None
      ensures |providerList| == 0 || head == None ==> fromBlock == None && store.session == None
      ensures |providerList| > 0 && head != None ==>
        && fromBlock == Some(head.value - cfg.safeBlockBuffer)
        && store.session == if sessionCreated then Some(Session(fromBlock.value, None, false)) else None
    {
      nextProviderRetry := startedAt + RETRY_INTERVAL;
      var p, ok := GetHealthyClient();
      if ok && head.Some? {
        fromBlock := Some(head.value - cfg.safeBlockBuffer);
        store.CreateListenerSession(fromBlock.value, sessionCreated);
      }
      assert Views(providerList) == Start(cfg, Setup(|providerList|, startedAt, head, sessionCreated)).providers;
    }

    /** A run from startup over the given ticks to shutdown ends in the state the machine ends in. */
    method Run(startedAt: int, head: Option<int>, sessionCreated: bool, ticks: seq<TickInput>, closeOk: bool)
      requires Valid() && |providerList| > 0
      requires forall i :: 0 <= i < |providerList| ==> providerList[i].View() == Health(0, true)
      requires fromBlock == None && lastBlock == None && history == []
      requires store.session == None && store.writes == [] && (pub != null ==> pub.log == [])
      modifies this, providerList, pub, store
      ensures View() == Close(After(cfg, Setup(|providerList|, startedAt, head, sessionCreated), ticks), closeOk)
    {
      ghost var up := Setup(|providerList|, startedAt, head, sessionCreated);
      Startup(startedAt, head, sessionCreated);
      for k := 0 to |ticks|
        invariant View() == After(cfg, up, ticks[..k])
      {
        assert ticks[..k + 1][..k] == ticks[..k];
        OnTick(ticks[k]);
      }
      assert ticks[..|ticks|] == ticks;
      if store.session.Some? {
        store.CloseListenerSession(lastBlock, closeOk);
      }
    }
  }
}
