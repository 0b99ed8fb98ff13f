/** Native-coin activity of one block (service/evm_listener.go, collectTxnEvents). */
module NativeEvents {
  import opened Schema

  /** The selector is the first four bytes of the call data, so shorter non-empty data cannot be sliced. */
  type CallData = d: seq<bv8> | |d| == 0 || |d| >= 4 witness []

  /** The native fee is price times gas used; there is no price to multiply by when it is missing. */
  type PricedReceipt = r: Receipt | r.effectiveGasPrice.Some? witness Receipt(0, 0, Some(0), 0)

  /** A sender of None is a transaction whose signature cannot be recovered. */
  datatype Tx = Tx(hash: Hash, to: Option<Address>, value: nat, data: CallData, sender: Option<Address>)

  /** What the collector looks things up in: receipts (absent when the lookup fails), token contracts, asset. */
  datatype Context = Context(receipts: map<Hash, PricedReceipt>, knownContracts: set<Address>, symbol: string)

  function Gas(receipt: PricedReceipt, symbol: string): GasDetails {
    var price := receipt.effectiveGasPrice.value;
    GasDetails(Some(Digits(price * receipt.gasUsed)), symbol, receipt.gasUsed, Digits(price))
  }

  /** The zero-valued struct sent when the receipt lookup fails: its fee is the empty text. */
  const NO_GAS := GasDetails(Some(Blank), "", 0, Blank)

  function NativeAsset(symbol: string): Option<Asset> {
    Some(Asset("NATIVE", symbol, None))
  }

  function IncomingEvent(tx: Tx, addr: Address, c: Context): ActivityEvent {
    ActivityEvent(addr, Some(tx.hash), NativeTransfer, Incoming, None, tx.to,
                  Some(Digits(tx.value)), NativeAsset(c.symbol), None, NoMetadata)
  }

  function OutgoingEvent(tx: Tx, addr: Address, c: Context): ActivityEvent {
    var receipt := if tx.hash in c.receipts then Some(c.receipts[tx.hash]) else None;
    var gas := if receipt.Some? then Gas(receipt.value, c.symbol) else NO_GAS;
    var base := ActivityEvent(addr, Some(tx.hash), NativeTransfer, Outgoing, tx.sender, tx.to,
                              Some(Digits(tx.value)), NativeAsset(c.symbol), Some(gas), NoMetadata);
    if tx.to.None? then
      base.(eventType := ContractDeployment,
      metadata := if receipt.Some? then Deployment(receipt.value.status, receipt.value.contractAddress)
      else NoMetadata)
    else if tx.data == [] then base
    else
      base.(eventType := ContractInteraction,
      metadata := Call(tx.data[..4], if receipt.Some? then Some(receipt.value.status) else None))
  }

  predicate Receives(tx: Tx, addr: Address) {
    tx.to == Some(addr)
  }

  predicate CallsToken(tx: Tx, c: Context) {
    tx.to.Some? && tx.to.value in c.knownContracts
  }

  predicate Sends(tx: Tx, addr: Address, c: Context) {
    tx.sender == Some(addr) && !CallsToken(tx, c)
  }

  /** What the two inner loops append after the first |addrs| addresses. */
  function IncomingScan(tx: Tx, addrs: seq<Address>, c: Context): seq<ActivityEvent> {
    if addrs == [] then []
    else
      var addr := addrs[|addrs| - 1];
      IncomingScan(tx, addrs[..|addrs| - 1], c) + if Receives(tx, addr) then [IncomingEvent(tx, addr, c)] else []
  }

  function OutgoingScan(tx: Tx, addrs: seq<Address>, c: Context): seq<ActivityEvent> {
    if addrs == [] then []
    else
      var addr := addrs[|addrs| - 1];
      OutgoingScan(tx, addrs[..|addrs| - 1], c) + if Sends(tx, addr, c) then [OutgoingEvent(tx, addr, c)] else []
  }

  function NativeScan(txs: seq<Tx>, addrs: seq<Address>, c: Context): seq<ActivityEvent> {
    if txs == [] then []
    else
      var tx := txs[|txs| - 1];
      NativeScan(txs[..|txs| - 1], addrs, c) + (IncomingScan(tx, addrs, c) + OutgoingScan(tx, addrs, c))
  }

  /** The first inner loop: the receiving side. */
  method CollectIncoming(tx: Tx, addrs: seq<Address>, c: Context) returns (events: seq<ActivityEvent>)
    ensures events == IncomingScan(tx, addrs, c)
  {
    events := [];
    for i := 0 to |addrs|
      invariant events == IncomingScan(tx, addrs[..i], c)
    {
      assert addrs[..i + 1][..i] == addrs[..i];
      if tx.to.Some? && tx.to.value == addrs[i] {
        events := events + [ActivityEvent(addrs[i], Some(tx.hash), NativeTransfer, Incoming, None, tx.to,
                                          Some(Digits(tx.value)), Some(Asset("NATIVE", c.symbol, None)),
                                          None, NoMetadata)];
      }
    }
    assert addrs[..|addrs|] == addrs;
  }

  /** The second inner loop: the sending side, once the sender is recovered. */
  method CollectOutgoing(tx: Tx, addrs: seq<Address>, c: Context) returns (events: seq<ActivityEvent>)
    requires tx.sender.Some?
    ensures events == OutgoingScan(tx, addrs, c)
  {
    events := [];
    for i := 0 to |addrs|
      invariant events == OutgoingScan(tx, addrs[..i], c)
    {
      assert addrs[..i + 1][..i] == addrs[..i];
      if tx.sender.value != addrs[i] {
        continue;
      }
      if tx.to.Some? && tx.to.value in c.knownContracts {
        continue;
      }
      var gas, metadata, eventType := NO_GAS, NoMetadata, NativeTransfer;
      var found := tx.hash in c.receipts;
      if found {
        gas := Gas(c.receipts[tx.hash], c.symbol);
      }
      if tx.to.None? {
        eventType := ContractDeployment;
        if found {
          metadata := Deployment(c.receipts[tx.hash].status, c.receipts[tx.hash].contractAddress);
        }
      } else if |tx.data| != 0 {
        eventType := ContractInteraction;
        metadata := Call(tx.data[..4], if found then Some(c.receipts[tx.hash].status) else None);
      }
      events := events + [ActivityEvent(addrs[i], Some(tx.hash), eventType, Outgoing, tx.sender, tx.to,
                                        Some(Digits(tx.value)), NativeAsset(c.symbol), Some(gas), metadata)];
    }
    assert addrs[..|addrs|] == addrs;
  }

  method CollectTxnEvents(txs: seq<Tx>, addrs: seq<Address>, c: Context) returns (events: seq<ActivityEvent>)
    ensures events == NativeScan(txs, addrs, c)
    ensures forall e :: e in events <==> IsActivity(e, txs, addrs, c)
  {
    events := [];
    for t := 0 to |txs|
      invariant events == NativeScan(txs[..t], addrs, c)
    {
      assert txs[..t + 1][..t] == txs[..t];
      ghost var before := events;
      var incoming := CollectIncoming(txs[t], addrs, c);
      events := events + incoming;
      if txs[t].sender.None? {
        NoSenderNoOutgoing(txs[t], addrs, c);
        assert incoming + [] == incoming;
        continue;
      }
      var outgoing := CollectOutgoing(txs[t], addrs, c);
      events := events + outgoing;
      assert events == before + (incoming + outgoing);
    }
    assert txs[..|txs|] == txs;
    forall e
      ensures e in events <==> IsActivity(e, txs, addrs, c)
    {
      NativeEventsExactly(e, txs, addrs, c);
    }
  }

  lemma {:induction false} NoSenderNoOutgoing(tx: Tx, addrs: seq<Address>, c: Context)
    requires tx.sender.None?
    ensures OutgoingScan(tx, addrs, c) == []
  {
    if addrs != [] {
      NoSenderNoOutgoing(tx, addrs[..|addrs| - 1], c);
    }
  }

  // ---------- What is emitted, stated without the loops ----------

  /** At most two events: the monitored recipient's, then the monitored sender's. */
  function TxActivity(tx: Tx, monitored: set<Address>, c: Context): seq<ActivityEvent> {
    (if tx.to.Some? && tx.to.value in monitored then [IncomingEvent(tx, tx.to.value, c)] else []) +
    (if tx.sender.Some? && tx.sender.value in monitored && !CallsToken(tx, c)
    then [OutgoingEvent(tx, tx.sender.value, c)] else [])
  }

  function BlockActivity(txs: seq<Tx>, monitored: set<Address>, c: Context): seq<ActivityEvent> {
    if txs == [] then []
    else BlockActivity(txs[..|txs| - 1], monitored, c) + TxActivity(txs[|txs| - 1], monitored, c)
  }

  // ---------- Every event, field by field ----------

  /** The receiving side of a transaction, as it is sent. */
  predicate IsIncoming(e: ActivityEvent, tx: Tx, addrs: seq<Address>, c: Context) {
    && e.wallet in addrs && tx.to == Some(e.wallet)
    && e.activityType == Incoming && e.eventType == NativeTransfer
    && e.txHash == Some(tx.hash) && e.fromAddress == None && e.toAddress == tx.to
    && e.amount == Some(Digits(tx.value)) && e.asset == Some(Asset("NATIVE", c.symbol, None))
    && e.gas == None && e.metadata == NoMetadata
  }

  /** The gas of a sent transaction: that of its receipt, or zero values without one. */
  predicate PaidFor(gas: Option<GasDetails>, tx: Tx, c: Context) {
    && gas.Some?
    && if tx.hash in c.receipts then
         var r := c.receipts[tx.hash];
         && gas.value.feePaid == Some(Digits(r.effectiveGasPrice.value * r.gasUsed))
         && gas.value.feeAsset == c.symbol && gas.value.gasUsed == r.gasUsed
         && gas.value.effectiveGasPrice == Digits(r.effectiveGasPrice.value)
       else gas.value == GasDetails(Some(Blank), "", 0, Blank)
  }

  /** Event type and metadata of a sent transaction. */
  predicate IsKind(e: ActivityEvent, tx: Tx, c: Context) {
    var receipt := if tx.hash in c.receipts then Some(c.receipts[tx.hash]) else None;
    if tx.to == None then
      && e.eventType == ContractDeployment
      && match receipt
         case None => e.metadata == NoMetadata
         case Some(r) => e.metadata == Deployment(r.status, r.contractAddress)
    else if tx.data == [] then e.eventType == NativeTransfer && e.metadata == NoMetadata
    else
      && e.eventType == ContractInteraction
      && match receipt
         case None => e.metadata == Call(tx.data[..4], None)
         case Some(r) => e.metadata == Call(tx.data[..4], Some(r.status))
  }

  /** The sending side, which a call of a known token contract does not have. */
  predicate IsOutgoing(e: ActivityEvent, tx: Tx, addrs: seq<Address>, c: Context) {
    && e.wallet in addrs && tx.sender == Some(e.wallet)
    && (match tx.to case None => true case Some(target) => target !in c.knownContracts)
    && e.activityType == Outgoing && e.txHash == Some(tx.hash)
    && e.fromAddress == tx.sender && e.toAddress == tx.to
    && e.amount == Some(Digits(tx.value)) && e.asset == Some(Asset("NATIVE", c.symbol, None))
    && PaidFor(e.gas, tx, c) && IsKind(e, tx, c)
  }

  predicate IsSideOf(e: ActivityEvent, tx: Tx, addrs: seq<Address>, c: Context) {
    IsIncoming(e, tx, addrs, c) || IsOutgoing(e, tx, addrs, c)
  }

  ghost predicate IsActivity(e: ActivityEvent, txs: seq<Tx>, addrs: seq<Address>, c: Context) {
    exists i :: 0 <= i < |txs| && IsSideOf(e, txs[i], addrs, c)
  }

  lemma IncomingFields(e: ActivityEvent, tx: Tx, a: Address, addrs: seq<Address>, c: Context)
    requires a in addrs && Receives(tx, a)
    ensures e == IncomingEvent(tx, a, c) <==> IsIncoming(e, tx, addrs, c) && e.wallet == a
  {
  }

  lemma OutgoingFields(e: ActivityEvent, tx: Tx, a: Address, addrs: seq<Address>, c: Context)
    requires a in addrs && Sends(tx, a, c)
    ensures e == OutgoingEvent(tx, a, c) <==> IsOutgoing(e, tx, addrs, c) && e.wallet == a
  {
  }

  lemma {:induction false} IncomingScanFields(e: ActivityEvent, tx: Tx, some: seq<Address>, c: Context)
    ensures e in IncomingScan(tx, some, c) <==> IsIncoming(e, tx, some, c)
  {
    if some != [] {
      var front, a := some[..|some| - 1], some[|some| - 1];
      IncomingScanFields(e, tx, front, c);
      assert some == front + [a];
      if Receives(tx, a) {
        IncomingFields(e, tx, a, some, c);
      }
    }
  }

  lemma {:induction false} OutgoingScanFields(e: ActivityEvent, tx: Tx, some: seq<Address>, c: Context)
    ensures e in OutgoingScan(tx, some, c) <==> IsOutgoing(e, tx, some, c)
  {
    if some != [] {
      var front, a := some[..|some| - 1], some[|some| - 1];
      OutgoingScanFields(e, tx, front, c);
      assert some == front + [a];
      if Sends(tx, a, c) {
        OutgoingFields(e, tx, a, some, c);
      }
    }
  }

  lemma ActivitySnoc(e: ActivityEvent, front: seq<Tx>, tx: Tx, addrs: seq<Address>, c: Context)
    ensures IsActivity(e, front + [tx], addrs, c) <==> IsActivity(e, front, addrs, c) || IsSideOf(e, tx, addrs, c)
  {
    var txs := front + [tx];
    assert txs[|front|] == tx;
    if IsActivity(e, front, addrs, c) {
      var i :| 0 <= i < |front| && IsSideOf(e, front[i], addrs, c);
      assert txs[i] == front[i];
    }
    if IsActivity(e, txs, addrs, c) {
      var i :| 0 <= i < |txs| && IsSideOf(e, txs[i], addrs, c);
      assert i < |front| ==> txs[i] == front[i];
    }
  }

  /** An event is emitted if and only if it is the receiving or the sending side of some transaction of the block. */
  lemma {:induction false} NativeEventsExactly(e: ActivityEvent, txs: seq<Tx>, addrs: seq<Address>, c: Context)
    ensures e in NativeScan(txs, addrs, c) <==> IsActivity(e, txs, addrs, c)
  {
    if txs != [] {
      var front, tx := txs[..|txs| - 1], txs[|txs| - 1];
      NativeEventsExactly(e, front, addrs, c);
      IncomingScanFields(e, tx, addrs, c);
      OutgoingScanFields(e, tx, addrs, c);
      ActivitySnoc(e, front, tx, addrs, c);
      assert txs == front + [tx];
    }
  }

  /** What kind of outgoing event a transaction gives, and what it costs: a missing receipt leaves the fee blank. */
  lemma OutgoingKind(tx: Tx, addr: Address, c: Context)
    ensures
      var e := OutgoingEvent(tx, addr, c);
      && (e.eventType == ContractDeployment <==> tx.to == None)
      && (e.eventType == NativeTransfer <==> tx.to != None && tx.data == [])
      && (e.eventType == ContractInteraction <==> tx.to != None && tx.data != [])
      && (e.metadata.Call? <==> e.eventType == ContractInteraction)
      && (e.metadata.Call? ==> e.metadata.selector <= tx.data && |e.metadata.selector| == 4)
      && (e.metadata.Deployment? <==> e.eventType == ContractDeployment && tx.hash in c.receipts)
      && e.gas.Some? && (e.gas.value.feePaid == Some(Blank) <==> tx.hash !in c.receipts)
  {
  }

  function Elements(s: seq<Address>): set<Address> {
    set a | a in s
  }

  lemma {:induction false} IncomingExact(tx: Tx, addrs: seq<Address>, c: Context)
    requires Distinct(addrs)
    ensures IncomingScan(tx, addrs, c) ==
            if tx.to.Some? && tx.to.value in addrs then [IncomingEvent(tx, tx.to.value, c)] else []
  {
    if addrs != [] {
      var front, addr := addrs[..|addrs| - 1], addrs[|addrs| - 1];
      assert addrs == front + [addr];
      IncomingExact(tx, front, c);
    }
  }

  lemma {:induction false} OutgoingExact(tx: Tx, addrs: seq<Address>, c: Context)
    requires Distinct(addrs)
    ensures OutgoingScan(tx, addrs, c) ==
            if tx.sender.Some? && tx.sender.value in addrs && !CallsToken(tx, c)
            then [OutgoingEvent(tx, tx.sender.value, c)] else []
  {
    if addrs != [] {
      var front, addr := addrs[..|addrs| - 1], addrs[|addrs| - 1];
      assert addrs == front + [addr];
      OutgoingExact(tx, front, c);
    }
  }

  /** For distinct addresses the nested loops emit exactly the activity of each transaction, in block order. */
  lemma {:induction false} NativeExact(txs: seq<Tx>, addrs: seq<Address>, c: Context)
    requires Distinct(addrs)
    ensures NativeScan(txs, addrs, c) == BlockActivity(txs, Elements(addrs), c)
  {
    if txs != [] {
      var front, tx := txs[..|txs| - 1], txs[|txs| - 1];
      NativeExact(front, addrs, c);
      TxExact(tx, addrs, c);
    }
  }

  lemma {:induction false} TxExact(tx: Tx, addrs: seq<Address>, c: Context)
    requires Distinct(addrs)
    ensures IncomingScan(tx, addrs, c) + OutgoingScan(tx, addrs, c) == TxActivity(tx, Elements(addrs), c)
  {
    IncomingExact(tx, addrs, c);
    OutgoingExact(tx, addrs, c);
  }

  /** What identifies a ledger row, read off an event. */
  function EventKey(e: ActivityEvent): (Option<Hash>, Address, ActivityType) {
    (e.txHash, e.wallet, e.activityType)
  }

  ghost predicate KeysDistinct(events: seq<ActivityEvent>) {
    forall i, j :: 0 <= i < j < |events| ==> EventKey(events[i]) != EventKey(events[j])
  }

  predicate HashesDistinct(txs: seq<Tx>) {
    forall i, j :: 0 <= i < j < |txs| ==> txs[i].hash != txs[j].hash
  }

  lemma {:induction false} HashesComeFromBlock(txs: seq<Tx>, monitored: set<Address>, c: Context)
    ensures forall e :: e in BlockActivity(txs, monitored, c) ==>
      exists i :: 0 <= i < |txs| && e.txHash == Some(txs[i].hash)
  {
    if txs != [] {
      var front, tx := txs[..|txs| - 1], txs[|txs| - 1];
      HashesComeFromBlock(front, monitored, c);
      forall e | e in BlockActivity(txs, monitored, c)
        ensures exists i :: 0 <= i < |txs| && e.txHash == Some(txs[i].hash)
      {
        if e in BlockActivity(front, monitored, c) {
          var i :| 0 <= i < |front| && e.txHash == Some(front[i].hash);
          assert txs[i] == front[i];
        } else {
          assert e in TxActivity(tx, monitored, c);
          assert e.txHash == Some(txs[|txs| - 1].hash);
        }
      }
    }
  }

  /** No two native events of a block share a ledger key, and there are at most two a transaction. */
  lemma {:induction false} NativeKeysDistinct(txs: seq<Tx>, monitored: set<Address>, c: Context)
    requires HashesDistinct(txs)
    ensures KeysDistinct(BlockActivity(txs, monitored, c))
    ensures |BlockActivity(txs, monitored, c)| <= 2 * |txs|
  {
    if txs != [] {
      var front, tx := txs[..|txs| - 1], txs[|txs| - 1];
      NativeKeysDistinct(front, monitored, c);
      HashesComeFromBlock(front, monitored, c);
      var earlier, later := BlockActivity(front, monitored, c), TxActivity(tx, monitored, c);
      forall i | 0 <= i < |earlier|
        ensures earlier[i].txHash != Some(tx.hash)
      {
        assert earlier[i] in earlier;
        var k :| 0 <= k < |front| && earlier[i].txHash == Some(front[k].hash);
        assert txs[k].hash != tx.hash;
      }
      KeysDistinctAppend(earlier, later, Some(tx.hash));
    }
  }

  lemma KeysDistinctAppend(a: seq<ActivityEvent>, b: seq<ActivityEvent>, h: Option<Hash>)
    requires KeysDistinct(a) && KeysDistinct(b)
    requires forall i :: 0 <= i < |a| ==> a[i].txHash != h
    requires forall i :: 0 <= i < |b| ==> b[i].txHash == h
    ensures KeysDistinct(a + b)
  {
  }

  /** `lost` is `full` without `out`, which is at most one OUTGOING event of transaction h. */
  ghost predicate LosesOnly(full: seq<ActivityEvent>, lost: seq<ActivityEvent>, h: Hash,
                            a: seq<ActivityEvent>, out: seq<ActivityEvent>, b: seq<ActivityEvent>)
  {
    && full == a + out + b
    && lost == a + b
    && |out| <= 1
    && forall i :: 0 <= i < |out| ==> out[i].activityType == Outgoing && out[i].txHash == Some(h)
  }

  function WithoutSender(txs: seq<Tx>, k: nat): seq<Tx>
    requires k < |txs|
  {
    txs[k := txs[k].(sender := None)]
  }

  lemma LosesOnlySnoc(full: seq<ActivityEvent>, lost: seq<ActivityEvent>, h: Hash,
                      a: seq<ActivityEvent>, out: seq<ActivityEvent>, b: seq<ActivityEvent>,
                      more: seq<ActivityEvent>)
    requires LosesOnly(full, lost, h, a, out, b)
    ensures LosesOnly(full + more, lost + more, h, a, out, b + more)
  {
    assert a + out + b + more == a + out + (b + more);
    assert a + b + more == a + (b + more);
  }

  lemma TxLosesOutgoing(tx: Tx, monitored: set<Address>, c: Context, before: seq<ActivityEvent>)
    returns (a: seq<ActivityEvent>, out: seq<ActivityEvent>)
    ensures LosesOnly(before + TxActivity(tx, monitored, c),
                      before + TxActivity(tx.(sender := None), monitored, c), tx.hash, a, out, [])
    ensures |out| == 1 <==> SendsActivity(tx, monitored, c)
    ensures |out| == 1 ==> out[0].wallet == tx.sender.value
  {
    var full, short := TxActivity(tx, monitored, c), TxActivity(tx.(sender := None), monitored, c);
    a, out := before + short, full[|short|..];
    assert full == short + out;
    assert before + full == before + short + out;
  }

  /** A monitored address sent the transaction, and not to a token contract. */
  predicate SendsActivity(tx: Tx, monitored: set<Address>, c: Context) {
    tx.sender.Some? && tx.sender.value in monitored && Sends(tx, tx.sender.value, c)
  }

  /** Losing the sender of a transaction loses its OUTGOING event, if it has one, and nothing else. */
  lemma {:induction false} SenderFailureLosesOutgoingOnly(txs: seq<Tx>, k: nat, monitored: set<Address>, c: Context)
    returns (a: seq<ActivityEvent>, out: seq<ActivityEvent>, b: seq<ActivityEvent>)
    requires k < |txs|
    ensures LosesOnly(BlockActivity(txs, monitored, c), BlockActivity(WithoutSender(txs, k), monitored, c),
                      txs[k].hash, a, out, b)
    ensures |out| == 1 <==> SendsActivity(txs[k], monitored, c)
    ensures |out| == 1 ==> out[0].wallet == txs[k].sender.value
  {
    var front, tx, lost := txs[..|txs| - 1], txs[|txs| - 1], WithoutSender(txs, k);
    if k == |txs| - 1 {
      assert lost[..|lost| - 1] == front;
      a, out := TxLosesOutgoing(tx, monitored, c, BlockActivity(front, monitored, c));
      b := [];
    } else {
      var b0;
      a, out, b0 := SenderFailureLosesOutgoingOnly(front, k, monitored, c);
      assert lost[..|lost| - 1] == WithoutSender(front, k);
      LosesOnlySnoc(BlockActivity(front, monitored, c), BlockActivity(WithoutSender(front, k), monitored, c),
                    txs[k].hash, a, out, b0, TxActivity(tx, monitored, c));
      b := b0 + TxActivity(tx, monitored, c);
    }
  }
}
