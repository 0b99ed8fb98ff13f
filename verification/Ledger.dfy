/** Storing a batch of activity (ledger: WalletActivityService, BlockActivityListener). */
module Ledger {
  import opened Schema

  type WalletId = nat

  /** The wallet table: ids of the indexed wallets by address and network. */
  type Wallets = map<(Address, nat), WalletId>

  datatype Row = Row(
    walletId: WalletId, txHash: Option<Hash>, blockNumber: int, blockTimestamp: int,
    eventType: EventType, activityType: ActivityType,
    fromAddress: Option<Address>, toAddress: Option<Address>,
    amount: Option<int>, asset: Option<Asset>, feePaid: Option<int>, feeAsset: Option<string>, metadata: Metadata)

  /** NUMERIC(38, 18) leaves twenty digits before the point. */
  const AMOUNT_LIMIT: int := 100_000_000_000_000_000_000

  function Key(r: Row): (Option<Hash>, WalletId, ActivityType) {
    (r.txHash, r.walletId, r.activityType)
  }

  /** The columns' own constraints: a hash is present and the numbers fit. */
  predicate Storable(r: Row) {
    && r.txHash.Some?
    && (r.amount.Some? ==> -AMOUNT_LIMIT < r.amount.value < AMOUNT_LIMIT)
    && (r.feePaid.Some? ==> -AMOUNT_LIMIT < r.feePaid.value < AMOUNT_LIMIT)
  }

  /** The constraint uq_wallet_activity. */
  predicate UniqueKeys(table: seq<Row>) {
    forall i, j :: 0 <= i < j < |table| ==> Key(table[i]) != Key(table[j])
  }

  predicate AllStorable(rows: seq<Row>) {
    forall i :: 0 <= i < |rows| ==> Storable(rows[i])
  }

  // ---------- Mapping ----------

  /** The event names the ledger knows. */
  predicate KnownEvent(e: EventType) {
    e.NativeTransfer? || e.TokenTransfer? || e.ContractInteraction? || e.ContractDeployment?
  }

  predicate KnownActivity(a: ActivityType) {
    !a.OtherActivity?
  }

  /** Null is allowed; text that is no number is not. */
  predicate Readable(n: Option<NumText>) {
    n.Some? ==> n.value.Digits?
  }

  function Number(n: Option<NumText>): Option<int> {
    if n.Some? && n.value.Digits? then Some(n.value.value) else None
  }

  function ToEntity(e: ActivityEvent, network: nat, blockNumber: int, timestamp: int, wallets: Wallets): Option<Row> {
    if (e.wallet, network) !in wallets then None
    else if !KnownEvent(e.eventType) || !KnownActivity(e.activityType) then None
    else if !Readable(e.amount) then None
    else if e.gas.Some? && !Readable(e.gas.value.feePaid) then None
    else
      Some(Row(wallets[(e.wallet, network)], e.txHash, blockNumber, timestamp, e.eventType, e.activityType,
               e.fromAddress, e.toAddress, Number(e.amount), e.asset,
               if e.gas.Some? then Number(e.gas.value.feePaid) else None,
               if e.gas.Some? then Some(e.gas.value.feeAsset) else None, e.metadata))
  }

  /** The rows of the mappable events, in order; the others are skipped. */
  function RowsOf(events: seq<ActivityEvent>, network: nat, blockNumber: int, timestamp: int, wallets: Wallets)
    : seq<Row>
  {
    if events == [] then []
    else
      var row := ToEntity(events[|events| - 1], network, blockNumber, timestamp, wallets);
      RowsOf(events[..|events| - 1], network, blockNumber, timestamp, wallets) +
      if row.Some? then [row.value] else []
  }

  /** The header fields persistAll needs before it looks at an event. */
  predicate WellFormed(msg: BlockMessage) {
    msg.networkId.Uuid? && msg.blockTimestamp.Some?
  }

  function Image(msg: BlockMessage, wallets: Wallets): seq<Row> {
    if WellFormed(msg) then RowsOf(msg.events, msg.networkId.id, msg.blockNumber, msg.blockTimestamp.value, wallets)
    else []
  }

  /** When the whole batch goes in. */
  predicate Commits(table: seq<Row>, msg: BlockMessage, wallets: Wallets) {
    msg.events == [] ||
    (WellFormed(msg) && AllStorable(Image(msg, wallets)) && UniqueKeys(table + Image(msg, wallets)))
  }

  lemma {:induction false} RowsOfAppend(a: seq<ActivityEvent>, b: seq<ActivityEvent>, network: nat, blockNumber: int,
                                        timestamp: int, wallets: Wallets)
    ensures RowsOf(a + b, network, blockNumber, timestamp, wallets) ==
            RowsOf(a, network, blockNumber, timestamp, wallets) + RowsOf(b, network, blockNumber, timestamp, wallets)
  {
    if b == [] {
      assert a + b == a;
    } else {
      assert (a + b)[..|a + b| - 1] == a + b[..|b| - 1];
      RowsOfAppend(a, b[..|b| - 1], network, blockNumber, timestamp, wallets);
    }
  }

  lemma UniquePrefix(a: seq<Row>, b: seq<Row>)
    requires UniqueKeys(a + b)
    ensures UniqueKeys(a)
  {
    assert forall i :: 0 <= i < |a| ==> (a + b)[i] == a[i];
  }

  lemma UniqueSnoc(a: seq<Row>, r: Row)
    requires UniqueKeys(a)
    ensures UniqueKeys(a + [r]) <==> forall i :: 0 <= i < |a| ==> Key(a[i]) != Key(r)
  {
    var all := a + [r];
    if UniqueKeys(all) {
      forall i | 0 <= i < |a|
        ensures Key(a[i]) != Key(r)
      {
        assert all[i] == a[i] && all[|a|] == r;
      }
    }
  }

  // ---------- The services ----------

  class WalletActivityService {
    var table: seq<Row>

    constructor ()
      ensures table == []
    {
      table := [];
    }

    /** Row by row, inside a transaction: the first violated constraint undoes the rows before it. */
    method SaveAll(rows: seq<Row>) returns (ok: bool)
      requires UniqueKeys(table)
      modifies this
      ensures ok <==> AllStorable(rows) && UniqueKeys(old(table) + rows)
      ensures table == if ok then old(table) + rows else old(table)
    {
      var snapshot := table;
      for i := 0 to |rows|
        invariant table == snapshot + rows[..i]
        invariant UniqueKeys(table) && AllStorable(rows[..i])
      {
        UniqueSnoc(table, rows[i]);
        assert rows[..i] + [rows[i]] == rows[..i + 1];
        if !Storable(rows[i]) || exists r :: r in table && Key(r) == Key(rows[i]) {
          if UniqueKeys(snapshot + rows) {
            assert snapshot + rows == table + [rows[i]] + rows[i + 1..];
            UniquePrefix(table + [rows[i]], rows[i + 1..]);
          }
          table := snapshot;
          return false;
        }
        table := table + [rows[i]];
      }
      assert rows[..|rows|] == rows;
      ok := true;
    }

    /** All mappable rows of the batch or none; `ok` is false when the original throws. */
    method PersistAll(msg: BlockMessage, wallets: Wallets) returns (ok: bool)
      requires UniqueKeys(table)
      modifies this
      ensures ok <==> Commits(old(table), msg, wallets)
      ensures table == if ok then old(table) + Image(msg, wallets) else old(table)
      ensures UniqueKeys(table)
    {
      if |msg.events| == 0 {
        assert Image(msg, wallets) == [];
        return true;
      }
      if msg.networkId.NotAUuid? || msg.blockTimestamp.None? {
        return false;
      }
      var activities: seq<Row> := [];
      var network, number, timestamp := msg.networkId.id, msg.blockNumber, msg.blockTimestamp.value;
      for i := 0 to |msg.events|
        invariant activities == RowsOf(msg.events[..i], network, number, timestamp, wallets)
      {
        assert msg.events[..i + 1][..i] == msg.events[..i];
        var row := ToEntity(msg.events[i], network, number, timestamp, wallets);
        if row.Some? {
          activities := activities + [row.value];
        }
      }
      assert msg.events[..|msg.events|] == msg.events;
      ok := SaveAll(activities);
    }
  }

  /** A message as it arrives; some cannot be decoded. */
  datatype Wire = Garbled | Decoded(msg: BlockMessage)

  datatype Reply = Ack | Nak

  function RowsIn(w: Wire, wallets: Wallets): seq<Row> {
    if w.Decoded? then Image(w.msg, wallets) else []
  }

  predicate Accepts(table: seq<Row>, w: Wire, wallets: Wallets) {
    w.Decoded? && Commits(table, w.msg, wallets)
  }

  class BlockActivityListener {
    const service: WalletActivityService

    constructor (service: WalletActivityService)
      ensures this.service == service
    {
      this.service := service;
    }

    /** Ack after the rows are in, nak on any failure. `fails` stands for a failure that does not come from the
        batch, such as a lost database connection: the transaction then leaves nothing behind. */
    method Handle(w: Wire, wallets: Wallets, fails: bool) returns (reply: Reply)
      requires UniqueKeys(service.table)
      modifies service
      ensures reply.Ack? <==> !fails && Accepts(old(service.table), w, wallets)
      ensures service.table == if reply.Ack? then old(service.table) + RowsIn(w, wallets) else old(service.table)
      ensures UniqueKeys(service.table)
    {
      if w.Garbled? {
        return Nak;
      }
      if fails {
        return Nak;
      }
      var ok := service.PersistAll(w.msg, wallets);
      reply := if ok then Ack else Nak;
    }
  }

  // ---------- What the mapping promises ----------

  /** Exactly which events become rows. */
  predicate Mappable(e: ActivityEvent, network: nat, wallets: Wallets) {
    && (e.wallet, network) in wallets
    && e.eventType in {NativeTransfer, TokenTransfer, ContractInteraction, ContractDeployment}
    && e.activityType in {Incoming, Outgoing, Mint, Burn}
    && (match e.amount case None => true case Some(n) => n.Digits?)
    && (match e.gas case None => true case Some(g) => g.feePaid.None? || g.feePaid.value.Digits?)
  }

  /** The row records the event: every column holds what the event said. */
  predicate Records(r: Row, e: ActivityEvent, network: nat, blockNumber: int, timestamp: int, wallets: Wallets) {
    && (e.wallet, network) in wallets
    && Key(r) == (e.txHash, wallets[(e.wallet, network)], e.activityType)
    && r.blockNumber == blockNumber && r.blockTimestamp == timestamp && r.eventType == e.eventType
    && r.fromAddress == e.fromAddress && r.toAddress == e.toAddress && r.asset == e.asset && r.metadata == e.metadata
    && (match r.amount case None => e.amount == None case Some(n) => e.amount == Some(Digits(n)))
    && (r.feeAsset.Some? <==> e.gas.Some?) && (e.gas.Some? ==> r.feeAsset == Some(e.gas.value.feeAsset))
    && (match r.feePaid
        case None => e.gas.None? || e.gas.value.feePaid == None
        case Some(n) => e.gas.Some? && e.gas.value.feePaid == Some(Digits(n)))
  }

  /** A mappable event's row is in the batch's rows whatever its neighbours are. */
  lemma {:induction false} MappableEventHasRow(events: seq<ActivityEvent>, network: nat, blockNumber: int,
                                               timestamp: int, wallets: Wallets, i: nat)
    requires i < |events| && Mappable(events[i], network, wallets)
    ensures exists r ::
      && r in RowsOf(events, network, blockNumber, timestamp, wallets)
      && Records(r, events[i], network, blockNumber, timestamp, wallets)
  {
    var rows := RowsOf(events, network, blockNumber, timestamp, wallets);
    if i == |events| - 1 {
      assert rows[|rows| - 1] in rows;
    } else {
      MappableEventHasRow(events[..|events| - 1], network, blockNumber, timestamp, wallets, i);
    }
  }

  /** Every row comes from a mappable event. */
  lemma {:induction false} RowHasEvent(events: seq<ActivityEvent>, network: nat, blockNumber: int,
                                       timestamp: int, wallets: Wallets, r: Row) returns (i: nat)
    requires r in RowsOf(events, network, blockNumber, timestamp, wallets)
    ensures i < |events| && Mappable(events[i], network, wallets)
    ensures Records(r, events[i], network, blockNumber, timestamp, wallets)
  {
    var front := events[..|events| - 1];
    if r in RowsOf(front, network, blockNumber, timestamp, wallets) {
      i := RowHasEvent(front, network, blockNumber, timestamp, wallets, r);
    } else {
      i := |events| - 1;
    }
  }
}
