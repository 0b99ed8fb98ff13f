/** USDC activity of one block (service/usdc_event.go). */
module UsdcEvents {
  import opened Schema

  /** A decoded ERC-20 Transfer log. */
  datatype Log = Log(txHash: Hash, from: Address, to: Address, amount: nat, logIndex: nat, txIndex: nat)

  function UsdcAsset(contract: Address): Option<Asset> {
    Some(Asset("ERC20", "USDC", Some(contract)))
  }

  /** A receipt without a price counts as price zero here. */
  function BuildGasDetails(receipt: Receipt): GasDetails {
    var price := if receipt.effectiveGasPrice.Some? then receipt.effectiveGasPrice.value else 0;
    GasDetails(Some(Digits(price * receipt.gasUsed)), "ETH", receipt.gasUsed, Digits(price))
  }

  /** The wallet's side of a transfer; receiving is tested before sending. */
  function Side(log: Log, addr: Address): Option<ActivityType> {
    if log.to == addr && log.from == ZERO_ADDRESS then Some(Mint)
    else if log.to == addr then Some(Incoming)
    else if log.from == addr && log.to == ZERO_ADDRESS then Some(Burn)
    else if log.from == addr then Some(Outgoing)
    else None
  }

  /** A side exists exactly for the two parties; the receiver's comes first; mint and burn are the transfers from
      and to the zero address. */
  lemma SideMeaning(log: Log, addr: Address)
    ensures Side(log, addr).Some? <==> addr in {log.from, log.to}
    ensures Side(log, addr) in {Some(Mint), Some(Incoming)} <==> log.to == addr
    ensures Side(log, addr) == Some(Mint) <==> log.to == addr && log.from == ZERO_ADDRESS
    ensures Side(log, addr) == Some(Burn) <==> log.from == addr && log.to == ZERO_ADDRESS && addr != ZERO_ADDRESS
  {
  }

  function LogEvent(log: Log, addr: Address, gas: Option<GasDetails>, contract: Address): seq<ActivityEvent> {
    var side := Side(log, addr);
    if side.None? then []
    else [ActivityEvent(addr, Some(log.txHash), TokenTransfer, side.value, Some(log.from), Some(log.to),
                        Some(Digits(log.amount)), UsdcAsset(contract),
                        if side.value.Burn? || side.value.Outgoing? then gas else None,
                        LogPosition(log.logIndex, log.txIndex))]
  }

  function LogEvents(log: Log, addrs: seq<Address>, gas: Option<GasDetails>, contract: Address): seq<ActivityEvent> {
    if addrs == [] then []
    else
      LogEvents(log, addrs[..|addrs| - 1], gas, contract) + LogEvent(log, addrs[|addrs| - 1], gas, contract)
  }

  /** The simple form: look the receipt up again for every log. */
  function DirectGas(log: Log, chain: map<Hash, Receipt>): Option<GasDetails> {
    if log.txHash in chain then Some(BuildGasDetails(chain[log.txHash])) else None
  }

  function UsdcActivity(logs: seq<Log>, addrs: seq<Address>, chain: map<Hash, Receipt>, contract: Address)
    : seq<ActivityEvent>
  {
    if logs == [] then []
    else
      var log := logs[|logs| - 1];
      UsdcActivity(logs[..|logs| - 1], addrs, chain, contract) + LogEvents(log, addrs, DirectGas(log, chain), contract)
  }

  /** `usdc` is None when no USDC contract is configured, `logs` when the log query fails. */
  function UsdcOfBlock(usdc: Option<Address>, logs: Option<seq<Log>>, addrs: seq<Address>, chain: map<Hash, Receipt>)
    : seq<ActivityEvent>
  {
    if usdc.None? || logs.None? then [] else UsdcActivity(logs.value, addrs, chain, usdc.value)
  }

  method CollectUSDCLogEvents(log: Log, addrs: seq<Address>, receipt: Option<Receipt>, contract: Address)
    returns (events: seq<ActivityEvent>)
    ensures events == LogEvents(log, addrs,
                                if receipt.Some? then Some(BuildGasDetails(receipt.value)) else None, contract)
  {
    var gas: Option<GasDetails> := None;
    if receipt.Some? {
      gas := Some(BuildGasDetails(receipt.value));
    }
    var asset, metadata := UsdcAsset(contract), LogPosition(log.logIndex, log.txIndex);
    events := [];
    for i := 0 to |addrs|
      invariant events == LogEvents(log, addrs[..i], gas, contract)
    {
      assert addrs[..i + 1][..i] == addrs[..i];
      var addr := addrs[i];
      var event := ActivityEvent(addr, Some(log.txHash), TokenTransfer, Mint, Some(log.from), Some(log.to),
                                 Some(Digits(log.amount)), asset, None, metadata);
      if log.to == addr && log.from == ZERO_ADDRESS {
        events := events + [event];
      } else if log.to == addr {
        events := events + [event.(activityType := Incoming)];
      } else if log.from == addr && log.to == ZERO_ADDRESS {
        events := events + [event.(activityType := Burn, gas := gas)];
      } else if log.from == addr {
        events := events + [event.(activityType := Outgoing, gas := gas)];
      }
    }
    assert addrs[..|addrs|] == addrs;
  }

  ghost predicate SentByMonitored(h: Hash, logs: seq<Log>, addrs: seq<Address>) {
    exists i :: 0 <= i < |logs| && logs[i].txHash == h && logs[i].from in addrs
  }

  /** The cache holds the lookup result of exactly the transactions looked up. */
  ghost predicate CacheFits(receipts: map<Hash, Option<Receipt>>, lookups: seq<Hash>, chain: map<Hash, Receipt>) {
    && Distinct(lookups)
    && (forall h :: h in lookups <==> h in receipts)
    && forall h :: h in receipts ==> receipts[h] == if h in chain then Some(chain[h]) else None
  }

  method MonitoredSet(addrs: seq<Address>) returns (addrSet: set<Address>)
    ensures forall a :: a in addrSet <==> a in addrs
  {
    addrSet := {};
    for i := 0 to |addrs|
      invariant forall a :: a in addrSet <==> a in addrs[..i]
    {
      addrSet := addrSet + {addrs[i]};
    }
    assert addrs[..|addrs|] == addrs;
  }

  /** The first pass: one lookup per transaction that has a log sent by a monitored address. */
  method PrefetchReceipts(logs: seq<Log>, addrs: seq<Address>, chain: map<Hash, Receipt>)
    returns (receipts: map<Hash, Option<Receipt>>, lookups: seq<Hash>)
    ensures CacheFits(receipts, lookups, chain)
    ensures forall h :: h in receipts <==> SentByMonitored(h, logs, addrs)
  {
    var addrSet := MonitoredSet(addrs);
    receipts, lookups := map[], [];
    for i := 0 to |logs|
      invariant CacheFits(receipts, lookups, chain)
      invariant forall h :: h in receipts <==> SentByMonitored(h, logs[..i], addrs)
    {
      SentByMonitoredSnoc(logs, i, addrs);
      var log := logs[i];
      if log.txHash in receipts {
        continue;
      }
      if log.from !in addrSet {
        continue;
      }
      DistinctSnoc(lookups, log.txHash);
      lookups := lookups + [log.txHash];
      if log.txHash !in chain {
        receipts := receipts[log.txHash := None];
        continue;
      }
      receipts := receipts[log.txHash := Some(chain[log.txHash])];
    }
    assert logs[..|logs|] == logs;
  }

  /** The two passes with the receipt cache emit what a lookup per log would, while each transaction is
      looked up at most once, and exactly when a monitored address sent one of its logs. */
  method CollectUSDCEvents(usdc: Option<Address>, logs: Option<seq<Log>>, addrs: seq<Address>,
                           chain: map<Hash, Receipt>)
    returns (events: seq<ActivityEvent>, lookups: seq<Hash>)
    ensures events == UsdcOfBlock(usdc, logs, addrs, chain)
    ensures usdc.None? || logs.None? ==> events == []
    ensures usdc.Some? && logs.Some? ==>
      forall e :: e in events <==> IsActivity(e, logs.value, addrs, chain, usdc.value)
    ensures Distinct(lookups)
    ensures usdc.None? || addrs == [] || logs.None? ==> lookups == []
    ensures usdc.Some? && logs.Some? ==> forall h :: h in lookups <==> SentByMonitored(h, logs.value, addrs)
  {
    events, lookups := [], [];
    if usdc.Some? && logs.Some? {
      forall e
        ensures e in UsdcActivity(logs.value, addrs, chain, usdc.value) <==>
                IsActivity(e, logs.value, addrs, chain, usdc.value)
      {
        UsdcEventsExactly(e, logs.value, addrs, chain, usdc.value);
      }
    }
    if usdc.None? || |addrs| == 0 {
      if usdc.Some? && logs.Some? {
        NoAddressesNoEvents(logs.value, chain, usdc.value);
      }
      return;
    }
    if logs.None? {
      return;
    }
    var receipts;
    receipts, lookups := PrefetchReceipts(logs.value, addrs, chain);
    events := EmitLogs(logs.value, addrs, receipts, lookups, chain, usdc.value);
  }

  /** The second pass, which reads receipts from the cache only. */
  method EmitLogs(logs: seq<Log>, addrs: seq<Address>, receipts: map<Hash, Option<Receipt>>,
                  ghost lookups: seq<Hash>, ghost chain: map<Hash, Receipt>, contract: Address)
    returns (events: seq<ActivityEvent>)
    requires CacheFits(receipts, lookups, chain)
    requires forall h :: h in receipts <==> SentByMonitored(h, logs, addrs)
    ensures events == UsdcActivity(logs, addrs, chain, contract)
  {
    events := [];
    for i := 0 to |logs|
      invariant events == UsdcActivity(logs[..i], addrs, chain, contract)
    {
      assert logs[..i + 1][..i] == logs[..i];
      var receipt := if logs[i].txHash in receipts then receipts[logs[i].txHash] else None;
      var more := CollectUSDCLogEvents(logs[i], addrs, receipt, contract);
      CachedGasSuffices(logs, i, addrs, receipts, lookups, chain, contract);
      events := events + more;
    }
    assert logs[..|logs|] == logs;
  }

  /** A log missing from the cache was sent by nobody monitored, so its gas is not used. */
  lemma {:induction false} CachedGasSuffices(logs: seq<Log>, i: nat, addrs: seq<Address>,
                                             receipts: map<Hash, Option<Receipt>>, lookups: seq<Hash>,
                                             chain: map<Hash, Receipt>, contract: Address)
    requires i < |logs| && CacheFits(receipts, lookups, chain)
    requires forall h :: h in receipts <==> SentByMonitored(h, logs, addrs)
    ensures
      var receipt := if logs[i].txHash in receipts then receipts[logs[i].txHash] else None;
      LogEvents(logs[i], addrs, if receipt.Some? then Some(BuildGasDetails(receipt.value)) else None, contract) ==
      LogEvents(logs[i], addrs, DirectGas(logs[i], chain), contract)
  {
    var receipt := if logs[i].txHash in receipts then receipts[logs[i].txHash] else None;
    if logs[i].from in addrs {
      assert SentByMonitored(logs[i].txHash, logs, addrs);
    } else {
      GasUnused(logs[i], addrs, if receipt.Some? then Some(BuildGasDetails(receipt.value)) else None,
                DirectGas(logs[i], chain), contract);
    }
  }

  lemma SentByMonitoredSnoc(logs: seq<Log>, i: nat, addrs: seq<Address>)
    requires i < |logs|
    ensures forall h :: SentByMonitored(h, logs[..i + 1], addrs) <==>
                        SentByMonitored(h, logs[..i], addrs) || (logs[i].txHash == h && logs[i].from in addrs)
  {
    forall h
      ensures SentByMonitored(h, logs[..i + 1], addrs) <==>
              SentByMonitored(h, logs[..i], addrs) || (logs[i].txHash == h && logs[i].from in addrs)
    {
      if SentByMonitored(h, logs[..i], addrs) {
        var k :| 0 <= k < i && logs[..i][k].txHash == h && logs[..i][k].from in addrs;
        assert logs[..i + 1][k] == logs[..i][k];
      }
      if logs[i].txHash == h && logs[i].from in addrs {
        assert logs[..i + 1][i] == logs[i];
      }
      if SentByMonitored(h, logs[..i + 1], addrs) {
        var k :| 0 <= k < i + 1 && logs[..i + 1][k].txHash == h && logs[..i + 1][k].from in addrs;
        if k < i {
          assert logs[..i][k] == logs[..i + 1][k];
        }
      }
    }
  }

  lemma {:induction false} NoAddressesNoEvents(logs: seq<Log>, chain: map<Hash, Receipt>, contract: Address)
    ensures UsdcActivity(logs, [], chain, contract) == []
    ensures forall h :: !SentByMonitored(h, logs, [])
  {
    if logs != [] {
      NoAddressesNoEvents(logs[..|logs| - 1], chain, contract);
    }
  }

  /** Gas details reach only the sender's own events. */
  lemma {:induction false} GasUnused(log: Log, addrs: seq<Address>, g: Option<GasDetails>, g': Option<GasDetails>,
                                     contract: Address)
    requires log.from !in addrs
    ensures LogEvents(log, addrs, g, contract) == LogEvents(log, addrs, g', contract)
  {
    if addrs != [] {
      GasUnused(log, addrs[..|addrs| - 1], g, g', contract);
    }
  }

  /** Every sending event carries what a lookup of its own transaction gives; no receiving event carries gas. */
  lemma {:induction false} GasMatchesLookup(logs: seq<Log>, addrs: seq<Address>, chain: map<Hash, Receipt>,
                                            contract: Address, e: ActivityEvent)
    requires e in UsdcActivity(logs, addrs, chain, contract)
    ensures e.activityType in {Outgoing, Burn, Incoming, Mint} && e.txHash.Some?
    ensures e.activityType in {Outgoing, Burn} ==>
      e.gas == if e.txHash.value in chain then Some(BuildGasDetails(chain[e.txHash.value])) else None
    ensures e.activityType in {Incoming, Mint} ==> e.gas == None
  {
    var front, log := logs[..|logs| - 1], logs[|logs| - 1];
    if e in UsdcActivity(front, addrs, chain, contract) {
      GasMatchesLookup(front, addrs, chain, contract, e);
    } else {
      EventOfLog(log, addrs, DirectGas(log, chain), contract, e);
    }
  }

  lemma {:induction false} EventOfLog(log: Log, addrs: seq<Address>, gas: Option<GasDetails>, contract: Address,
                                      e: ActivityEvent)
    requires e in LogEvents(log, addrs, gas, contract)
    ensures exists a :: a in addrs && e in LogEvent(log, a, gas, contract)
  {
    var front, a := addrs[..|addrs| - 1], addrs[|addrs| - 1];
    if e in LogEvents(log, front, gas, contract) {
      EventOfLog(log, front, gas, contract, e);
    } else {
      assert a in addrs && e in LogEvent(log, a, gas, contract);
    }
  }

  // ---------- Every event, field by field ----------

  /** What the sender of a transaction paid, from its receipt; a missing price counts as zero. */
  predicate PaidFor(gas: Option<GasDetails>, h: Hash, chain: map<Hash, Receipt>) {
    if h !in chain then gas == None
    else
      var r := chain[h];
      var price := match r.effectiveGasPrice case None => 0 case Some(p) => p;
      && gas.Some?
      && gas.value.feePaid == Some(Digits(price * r.gasUsed)) && gas.value.feeAsset == "ETH"
      && gas.value.gasUsed == r.gasUsed && gas.value.effectiveGasPrice == Digits(price)
  }

  /** Receiving, as a mint from the zero address or not, goes before sending, as a burn to the zero address or not. */
  predicate OnSide(side: ActivityType, log: Log, a: Address) {
    if a == log.to then side == if log.from == 0 then Mint else Incoming
    else a == log.from && side == if log.to == 0 then Burn else Outgoing
  }

  /** The event is a watched party's side of this log. */
  predicate IsSideOf(e: ActivityEvent, log: Log, addrs: seq<Address>, chain: map<Hash, Receipt>, contract: Address) {
    && e.wallet in addrs && OnSide(e.activityType, log, e.wallet) && e.eventType == TokenTransfer
    && e.txHash == Some(log.txHash) && e.fromAddress == Some(log.from) && e.toAddress == Some(log.to)
    && e.amount == Some(Digits(log.amount)) && e.asset == Some(Asset("ERC20", "USDC", Some(contract)))
    && e.metadata == LogPosition(log.logIndex, log.txIndex)
    && (e.activityType in {Mint, Incoming} ==> e.gas == None)
    && (e.activityType in {Burn, Outgoing} ==> PaidFor(e.gas, log.txHash, chain))
  }

  ghost predicate IsActivity(e: ActivityEvent, logs: seq<Log>, addrs: seq<Address>, chain: map<Hash, Receipt>,
                             contract: Address)
  {
    exists i :: 0 <= i < |logs| && IsSideOf(e, logs[i], addrs, chain, contract)
  }

  lemma LogEventFields(e: ActivityEvent, log: Log, a: Address, addrs: seq<Address>, chain: map<Hash, Receipt>,
                       contract: Address)
    requires a in addrs
    ensures e in LogEvent(log, a, DirectGas(log, chain), contract) <==>
            IsSideOf(e, log, addrs, chain, contract) && e.wallet == a
  {
  }

  lemma {:induction false} LogEventsFields(e: ActivityEvent, log: Log, some: seq<Address>, chain: map<Hash, Receipt>,
                                           contract: Address)
    ensures e in LogEvents(log, some, DirectGas(log, chain), contract) <==> IsSideOf(e, log, some, chain, contract)
  {
    if some != [] {
      var front, a := some[..|some| - 1], some[|some| - 1];
      LogEventsFields(e, log, front, chain, contract);
      assert some == front + [a];
      LogEventFields(e, log, a, some, chain, contract);
    }
  }

  lemma ActivitySnoc(e: ActivityEvent, front: seq<Log>, log: Log, addrs: seq<Address>, chain: map<Hash, Receipt>,
                     contract: Address)
    ensures IsActivity(e, front + [log], addrs, chain, contract) <==>
            IsActivity(e, front, addrs, chain, contract) || IsSideOf(e, log, addrs, chain, contract)
  {
    var logs := front + [log];
    assert logs[|front|] == log;
    if IsActivity(e, front, addrs, chain, contract) {
      var i :| 0 <= i < |front| && IsSideOf(e, front[i], addrs, chain, contract);
      assert logs[i] == front[i];
    }
    if IsActivity(e, logs, addrs, chain, contract) {
      var i :| 0 <= i < |logs| && IsSideOf(e, logs[i], addrs, chain, contract);
      assert i < |front| ==> logs[i] == front[i];
    }
  }

  /** An event is emitted if and only if it is a watched party's side of some log of the query. */
  lemma {:induction false} UsdcEventsExactly(e: ActivityEvent, logs: seq<Log>, addrs: seq<Address>,
                                             chain: map<Hash, Receipt>, contract: Address)
    ensures e in UsdcActivity(logs, addrs, chain, contract) <==> IsActivity(e, logs, addrs, chain, contract)
  {
    if logs != [] {
      var front, log := logs[..|logs| - 1], logs[|logs| - 1];
      UsdcEventsExactly(e, front, addrs, chain, contract);
      LogEventsFields(e, log, addrs, chain, contract);
      ActivitySnoc(e, front, log, addrs, chain, contract);
      assert logs == front + [log];
    }
  }

  // ---------- One event per monitored party, and the balance they add up to ----------

  /** Each log yields exactly one event per monitored member of {from, to}. */
  lemma {:induction false} OneEventPerParty(log: Log, addrs: seq<Address>, gas: Option<GasDetails>, contract: Address)
    requires Distinct(addrs)
    ensures |LogEvents(log, addrs, gas, contract)| ==
            (if log.to in addrs then 1 else 0) + (if log.from in addrs && log.from != log.to then 1 else 0)
  {
    if addrs != [] {
      var front, a := addrs[..|addrs| - 1], addrs[|addrs| - 1];
      assert addrs == front + [a];
      OneEventPerParty(log, front, gas, contract);
    }
  }

  /** Received minus sent, over the events of wallet w. */
  function NetFlow(events: seq<ActivityEvent>, w: Address): int {
    if events == [] then 0
    else
      var e := events[|events| - 1];
      NetFlow(events[..|events| - 1], w) +
      if e.wallet != w || e.amount.None? || !e.amount.value.Digits? then 0
      else if e.activityType in {Incoming, Mint} then e.amount.value.value
      else if e.activityType in {Outgoing, Burn} then -e.amount.value.value
      else 0
  }

  /** The change an ERC-20 ledger makes to w's balance. */
  function BalanceChange(logs: seq<Log>, w: Address): int {
    if logs == [] then 0
    else
      var log := logs[|logs| - 1];
      BalanceChange(logs[..|logs| - 1], w) +
      (if log.to == w then log.amount else 0) - (if log.from == w then log.amount else 0)
  }

  function SelfTransfers(logs: seq<Log>, w: Address): nat {
    if logs == [] then 0
    else
      var log := logs[|logs| - 1];
      SelfTransfers(logs[..|logs| - 1], w) + if log.from == w == log.to then log.amount else 0
  }

  lemma {:induction false} NetFlowAppend(a: seq<ActivityEvent>, b: seq<ActivityEvent>, w: Address)
    ensures NetFlow(a + b, w) == NetFlow(a, w) + NetFlow(b, w)
  {
    if b == [] {
      assert a + b == a;
    } else {
      assert (a + b)[..|a + b| - 1] == a + b[..|b| - 1];
      NetFlowAppend(a, b[..|b| - 1], w);
    }
  }

  lemma {:induction false} LogFlow(log: Log, addrs: seq<Address>, gas: Option<GasDetails>, contract: Address,
                                   w: Address)
    requires Distinct(addrs)
    ensures NetFlow(LogEvents(log, addrs, gas, contract), w) ==
            if w !in addrs then 0 else if log.to == w then log.amount else if log.from == w then 0 - log.amount else 0
  {
    if addrs != [] {
      var front, a := addrs[..|addrs| - 1], addrs[|addrs| - 1];
      assert addrs == front + [a];
      LogFlow(log, front, gas, contract, w);
      NetFlowAppend(LogEvents(log, front, gas, contract), LogEvent(log, a, gas, contract), w);
      EventFlow(log, a, gas, contract, w);
    }
  }

  lemma {:induction false} EventFlow(log: Log, a: Address, gas: Option<GasDetails>, contract: Address, w: Address)
    ensures NetFlow(LogEvent(log, a, gas, contract), w) ==
            if a != w then 0 else if log.to == w then log.amount else if log.from == w then 0 - log.amount else 0
  {
    var e := LogEvent(log, a, gas, contract);
    if e != [] {
      assert e[..|e| - 1] == [];
      assert NetFlow(e[..|e| - 1], w) == 0;
    }
  }

  /** Conservation: the emitted flow of a monitored wallet is its balance change plus its self-transfers,
      which are emitted as INCOMING only. */
  lemma {:induction false} NetFlowIsBalanceChange(logs: seq<Log>, addrs: seq<Address>, chain: map<Hash, Receipt>,
                                                  contract: Address, w: Address)
    requires Distinct(addrs) && w in addrs
    ensures NetFlow(UsdcActivity(logs, addrs, chain, contract), w) == BalanceChange(logs, w) + SelfTransfers(logs, w)
  {
    if logs != [] {
      var front, log := logs[..|logs| - 1], logs[|logs| - 1];
      NetFlowIsBalanceChange(front, addrs, chain, contract, w);
      LogFlow(log, addrs, DirectGas(log, chain), contract, w);
      NetFlowAppend(UsdcActivity(front, addrs, chain, contract),
                    LogEvents(log, addrs, DirectGas(log, chain), contract), w);
    }
  }
}
