/** Which blocks the ledger can store, read off their transactions and USDC logs. */
module BlockStorage {
  import opened Schema
  import opened Publishing
  import opened Ledger
  import opened LedgerDeliveries
  import opened Pipeline
  import Native = NativeEvents
  import Usdc = UsdcEvents
  import Scanner
  import Sending = ScannerPublishing

  // ---------- Who is on which side of what ----------

  /** Where activity comes from: a transaction of the block, or one of its USDC logs. */
  datatype Source = InTx(i: nat) | InLog(i: nat)

  datatype Party = Party(src: Source, addr: Address, side: ActivityType)

  /** What a block's activity is extracted from. */
  datatype Chain = Chain(
    txs: seq<Native.Tx>, c: Native.Context, logs: seq<Usdc.Log>, receipts: map<Hash, Receipt>, contract: Address)

  function ChainOf(cfg: Scanner.Config, block: Scanner.Block): Chain {
    var listening := cfg.usdcListen && cfg.usdc.Some? && block.logs.Some?;
    Chain(block.txs, Native.Context(block.nativeReceipts, cfg.knownContracts, cfg.nativeSymbol),
          if listening then block.logs.value else [], block.usdcReceipts,
          if cfg.usdc.Some? then cfg.usdc.value else ZERO_ADDRESS)
  }

  predicate Within(b: Chain, src: Source) {
    match src
    case InTx(i) => i < |b.txs|
    case InLog(i) => i < |b.logs|
  }

  function HashOf(b: Chain, src: Source): Hash
    requires Within(b, src)
  {
    if src.InTx? then b.txs[src.i].hash else b.logs[src.i].txHash
  }

  /** A watched address is on that side of the transaction or log. */
  predicate TakesPart(b: Chain, addrs: seq<Address>, o: Party) {
    && o.addr in addrs && Within(b, o.src)
    && if o.src.InLog? then Usdc.Side(b.logs[o.src.i], o.addr) == Some(o.side)
       else if o.side.Incoming? then Native.Receives(b.txs[o.src.i], o.addr)
       else o.side.Outgoing? && Native.Sends(b.txs[o.src.i], o.addr, b.c)
  }

  function EventOf(b: Chain, addrs: seq<Address>, o: Party): ActivityEvent
    requires TakesPart(b, addrs, o)
  {
    if o.src.InLog? then
      var log := b.logs[o.src.i];
      Usdc.LogEvent(log, o.addr, Usdc.DirectGas(log, b.receipts), b.contract)[0]
    else if o.side.Incoming? then Native.IncomingEvent(b.txs[o.src.i], o.addr, b.c)
    else Native.OutgoingEvent(b.txs[o.src.i], o.addr, b.c)
  }

  /** The events are those of the parties, one each, in order. */
  ghost predicate Lists(b: Chain, addrs: seq<Address>, os: seq<Party>, events: seq<ActivityEvent>) {
    && |os| == |events| && Distinct(os)
    && forall i :: 0 <= i < |os| ==> TakesPart(b, addrs, os[i]) && events[i] == EventOf(b, addrs, os[i])
  }

  lemma ListsAppend(b: Chain, addrs: seq<Address>, os: seq<Party>, events: seq<ActivityEvent>,
                    os': seq<Party>, events': seq<ActivityEvent>)
    requires Lists(b, addrs, os, events) && Lists(b, addrs, os', events')
    requires forall o :: o in os ==> o !in os'
    ensures Lists(b, addrs, os + os', events + events')
  {
    var all := os + os';
    forall i, j | 0 <= i < j < |all|
      ensures all[i] != all[j]
    {
      if i < |os| <= j {
        assert all[i] in os && all[j] in os';
      }
    }
  }

  lemma TxParties(b: Chain, addrs: seq<Address>, n: nat) returns (os: seq<Party>)
    requires Distinct(addrs) && n < |b.txs|
    ensures Lists(b, addrs, os, Native.IncomingScan(b.txs[n], addrs, b.c) + Native.OutgoingScan(b.txs[n], addrs, b.c))
    ensures forall o :: o in os <==> TakesPart(b, addrs, o) && o.src == InTx(n)
  {
    var tx := b.txs[n];
    Native.TxExact(tx, addrs, b.c);
    var to: seq<Party> :=
      if tx.to.Some? && tx.to.value in addrs then [Party(InTx(n), tx.to.value, Incoming)] else [];
    var from: seq<Party> :=
      if tx.sender.Some? && tx.sender.value in addrs && !Native.CallsToken(tx, b.c)
      then [Party(InTx(n), tx.sender.value, Outgoing)] else [];
    os := to + from;
  }

  lemma {:induction false} TxsParties(b: Chain, addrs: seq<Address>, n: nat) returns (os: seq<Party>)
    requires Distinct(addrs) && n <= |b.txs|
    ensures Lists(b, addrs, os, Native.NativeScan(b.txs[..n], addrs, b.c))
    ensures forall o :: o in os <==> TakesPart(b, addrs, o) && o.src.InTx? && o.src.i < n
  {
    if n == 0 {
      os := [];
    } else {
      var front := TxsParties(b, addrs, n - 1);
      var more := TxParties(b, addrs, n - 1);
      assert b.txs[..n][..n - 1] == b.txs[..n - 1];
      ListsAppend(b, addrs, front, Native.NativeScan(b.txs[..n - 1], addrs, b.c), more,
                  Native.IncomingScan(b.txs[n - 1], addrs, b.c) + Native.OutgoingScan(b.txs[n - 1], addrs, b.c));
      os := front + more;
    }
  }

  lemma {:induction false} LogParties(b: Chain, addrs: seq<Address>, n: nat, m: nat) returns (os: seq<Party>)
    requires Distinct(addrs) && n < |b.logs| && m <= |addrs|
    ensures
      var gas := Usdc.DirectGas(b.logs[n], b.receipts);
      Lists(b, addrs, os, Usdc.LogEvents(b.logs[n], addrs[..m], gas, b.contract))
    ensures forall o :: o in os <==> TakesPart(b, addrs, o) && o.src == InLog(n) && o.addr in addrs[..m]
  {
    if m == 0 {
      os := [];
    } else {
      var log, a, gas := b.logs[n], addrs[m - 1], Usdc.DirectGas(b.logs[n], b.receipts);
      var front := LogParties(b, addrs, n, m - 1);
      assert addrs[..m] == addrs[..m - 1] + [a];
      var side := Usdc.Side(log, a);
      var more: seq<Party> := if side.Some? then [Party(InLog(n), a, side.value)] else [];
      ListsAppend(b, addrs, front, Usdc.LogEvents(log, addrs[..m - 1], gas, b.contract), more,
                  Usdc.LogEvent(log, a, gas, b.contract));
      os := front + more;
    }
  }

  lemma {:induction false} LogsParties(b: Chain, addrs: seq<Address>, n: nat) returns (os: seq<Party>)
    requires Distinct(addrs) && n <= |b.logs|
    ensures Lists(b, addrs, os, Usdc.UsdcActivity(b.logs[..n], addrs, b.receipts, b.contract))
    ensures forall o :: o in os <==> TakesPart(b, addrs, o) && o.src.InLog? && o.src.i < n
  {
    if n == 0 {
      os := [];
    } else {
      var log := b.logs[n - 1];
      var front := LogsParties(b, addrs, n - 1);
      var more := LogParties(b, addrs, n - 1, |addrs|);
      assert addrs[..|addrs|] == addrs && b.logs[..n][..n - 1] == b.logs[..n - 1];
      ListsAppend(b, addrs, front, Usdc.UsdcActivity(b.logs[..n - 1], addrs, b.receipts, b.contract), more,
                  Usdc.LogEvents(log, addrs, Usdc.DirectGas(log, b.receipts), b.contract));
      os := front + more;
    }
  }

  /** A block's message has one event for every party, and no other. */
  lemma BlockParties(cfg: Scanner.Config, block: Scanner.Block, addrs: seq<Address>)
    returns (os: seq<Party>)
    requires Distinct(addrs)
    ensures Lists(ChainOf(cfg, block), addrs, os, Scanner.BlockEvents(cfg, block, addrs))
    ensures forall o :: o in os <==> TakesPart(ChainOf(cfg, block), addrs, o)
  {
    var b := ChainOf(cfg, block);
    var native := TxsParties(b, addrs, |b.txs|);
    var usdc := LogsParties(b, addrs, |b.logs|);
    assert b.txs[..|b.txs|] == b.txs && b.logs[..|b.logs|] == b.logs;
    ListsAppend(b, addrs, native, Native.NativeScan(b.txs, addrs, b.c), usdc,
                Usdc.UsdcActivity(b.logs, addrs, b.receipts, b.contract));
    os := native + usdc;
  }

  // ---------- When the block goes in ----------

  /** The party's event becomes a row: its wallet is known, and a sent transaction's receipt was found. */
  predicate HasRow(b: Chain, addrs: seq<Address>, network: nat, wallets: Wallets, o: Party) {
    && TakesPart(b, addrs, o) && (o.addr, network) in wallets
    && (o.src.InTx? && o.side.Outgoing? ==> HashOf(b, o.src) in b.c.receipts)
  }

  function AmountOf(b: Chain, src: Source): nat
    requires Within(b, src)
  {
    if src.InTx? then b.txs[src.i].value else b.logs[src.i].amount
  }

  function Fee(r: Receipt): nat {
    (if r.effectiveGasPrice.Some? then r.effectiveGasPrice.value else 0) * r.gasUsed
  }

  /** What the party is recorded to have paid for the transaction. */
  function FeeOf(b: Chain, o: Party): nat
    requires Within(b, o.src)
  {
    var h, receipts := HashOf(b, o.src), if o.src.InTx? then b.c.receipts else b.receipts;
    if (o.side.Outgoing? || o.side.Burn?) && h in receipts then Fee(receipts[h]) else 0
  }

  ghost predicate NumbersFit(b: Chain, addrs: seq<Address>, network: nat, wallets: Wallets) {
    forall o :: HasRow(b, addrs, network, wallets, o) ==>
      TwentyDigits(AmountOf(b, o.src)) && TwentyDigits(FeeOf(b, o))
  }

  /** The table has no row yet for a party's wallet and side of its transaction. */
  ghost predicate NewToTable(b: Chain, addrs: seq<Address>, network: nat, wallets: Wallets, table: seq<Row>) {
    forall o, k :: HasRow(b, addrs, network, wallets, o) && 0 <= k < |table| ==>
      Key(table[k]) != (Some(HashOf(b, o.src)), wallets[(o.addr, network)], o.side)
  }

  /** No wallet is on the same side of one transaction twice, as a party to it or to one of its logs. */
  ghost predicate OncePerSide(b: Chain, addrs: seq<Address>, network: nat, wallets: Wallets) {
    forall o, o' :: HasRow(b, addrs, network, wallets, o) && HasRow(b, addrs, network, wallets, o') && o != o'
                    && o.addr == o'.addr && o.side == o'.side ==>
      HashOf(b, o.src) != HashOf(b, o'.src)
  }

  lemma PartyRow(b: Chain, addrs: seq<Address>, network: nat, wallets: Wallets, o: Party)
    requires TakesPart(b, addrs, o)
    ensures Mappable(EventOf(b, addrs, o), network, wallets) <==> HasRow(b, addrs, network, wallets, o)
    ensures HasRow(b, addrs, network, wallets, o) ==>
      var e := EventOf(b, addrs, o);
      && EventRowKey(e, network, wallets) == (Some(HashOf(b, o.src)), wallets[(o.addr, network)], o.side)
      && (FitsColumns(e) <==> TwentyDigits(AmountOf(b, o.src)) && TwentyDigits(FeeOf(b, o)))
  {
  }

  lemma InsertableNeeds(b: Chain, addrs: seq<Address>, network: nat, wallets: Wallets,
                        table: seq<Row>, os: seq<Party>, events: seq<ActivityEvent>)
    requires Lists(b, addrs, os, events) && forall o :: o in os <==> TakesPart(b, addrs, o)
    requires Insertable(table, events, network, wallets)
    ensures NumbersFit(b, addrs, network, wallets) && NewToTable(b, addrs, network, wallets, table)
    ensures OncePerSide(b, addrs, network, wallets)
  {
    forall o | HasRow(b, addrs, network, wallets, o)
      ensures TwentyDigits(AmountOf(b, o.src)) && TwentyDigits(FeeOf(b, o))
      ensures forall k :: 0 <= k < |table| ==>
        Key(table[k]) != (Some(HashOf(b, o.src)), wallets[(o.addr, network)], o.side)
    {
      var i :| 0 <= i < |os| && os[i] == o;
      PartyRow(b, addrs, network, wallets, os[i]);
    }
    forall o, o' | HasRow(b, addrs, network, wallets, o) && HasRow(b, addrs, network, wallets, o') && o != o'
                   && o.addr == o'.addr && o.side == o'.side
      ensures HashOf(b, o.src) != HashOf(b, o'.src)
    {
      var i :| 0 <= i < |os| && os[i] == o;
      var j :| 0 <= j < |os| && os[j] == o';
      PartyRow(b, addrs, network, wallets, o);
      PartyRow(b, addrs, network, wallets, o');
      assert EventRowKey(events[i], network, wallets) != EventRowKey(events[j], network, wallets);
    }
  }

  lemma InsertableSuffices(b: Chain, addrs: seq<Address>, network: nat, wallets: Wallets,
                           table: seq<Row>, os: seq<Party>, events: seq<ActivityEvent>)
    requires Lists(b, addrs, os, events) && OneWalletEach(network, wallets)
    requires NumbersFit(b, addrs, network, wallets) && NewToTable(b, addrs, network, wallets, table)
    requires OncePerSide(b, addrs, network, wallets)
    ensures Insertable(table, events, network, wallets)
  {
    forall i | 0 <= i < |events| && Mappable(events[i], network, wallets)
      ensures FitsColumns(events[i])
      ensures forall k :: 0 <= k < |table| ==> Key(table[k]) != EventRowKey(events[i], network, wallets)
    {
      PartyRow(b, addrs, network, wallets, os[i]);
    }
    forall i, j | 0 <= i < j < |events|
                  && Mappable(events[i], network, wallets) && Mappable(events[j], network, wallets)
      ensures EventRowKey(events[i], network, wallets) != EventRowKey(events[j], network, wallets)
    {
      PartyRow(b, addrs, network, wallets, os[i]);
      PartyRow(b, addrs, network, wallets, os[j]);
      assert os[i] != os[j];
      assert os[i].addr != os[j].addr ==> wallets[(os[i].addr, network)] != wallets[(os[j].addr, network)];
    }
  }

  /** What a block with activity must be like for its message to be stored. */
  ghost predicate StorableBlock(cfg: Scanner.Config, block: Scanner.Block, addrs: seq<Address>, wallets: Wallets,
                                table: seq<Row>)
  {
    && cfg.networkId.Uuid?
    && (var b := ChainOf(cfg, block);
        && NumbersFit(b, addrs, cfg.networkId.id, wallets)
        && NewToTable(b, addrs, cfg.networkId.id, wallets, table)
        && OncePerSide(b, addrs, cfg.networkId.id, wallets))
  }

  lemma BlockStoredNeeds(cfg: Scanner.Config, block: Scanner.Block, addrs: seq<Address>,
                         wallets: Wallets, table: seq<Row>, o: Party)
    requires UniqueKeys(table) && Distinct(addrs) && TakesPart(ChainOf(cfg, block), addrs, o)
    requires Commits(table, Scanner.MessageOf(cfg, block, addrs), wallets)
    ensures StorableBlock(cfg, block, addrs, wallets, table)
  {
    var msg, b := Scanner.MessageOf(cfg, block, addrs), ChainOf(cfg, block);
    var os := BlockParties(cfg, block, addrs);
    assert o in os;
    CommitsExactly(table, msg, wallets);
    InsertableNeeds(b, addrs, cfg.networkId.id, wallets, table, os, msg.events);
  }

  /** A block's message is stored if and only if nobody watched takes part in the block, or the network id is a UUID,
      all numbers fit their columns, the table is new to it, and no wallet is on one side of a transaction twice. */
  lemma BlockStoredExactly(cfg: Scanner.Config, block: Scanner.Block, addrs: seq<Address>,
                           wallets: Wallets, table: seq<Row>)
    requires UniqueKeys(table) && Distinct(addrs)
    requires cfg.networkId.Uuid? ==> OneWalletEach(cfg.networkId.id, wallets)
    ensures Commits(table, Scanner.MessageOf(cfg, block, addrs), wallets) <==>
            (forall o :: !TakesPart(ChainOf(cfg, block), addrs, o)) || StorableBlock(cfg, block, addrs, wallets, table)
  {
    var msg, b := Scanner.MessageOf(cfg, block, addrs), ChainOf(cfg, block);
    var os := BlockParties(cfg, block, addrs);
    if msg.events != [] {
      assert os[0] in os;
      if Commits(table, msg, wallets) {
        BlockStoredNeeds(cfg, block, addrs, wallets, table, os[0]);
      } else if StorableBlock(cfg, block, addrs, wallets, table) {
        InsertableSuffices(b, addrs, cfg.networkId.id, wallets, table, os, msg.events);
        CommitsExactly(table, msg, wallets);
      }
    } else {
      assert forall o :: o !in os;
    }
  }

  // ---------- Over all delivery schedules ----------

  /** Some schedule of deliveries gets all batches of the message into the table. */
  ghost predicate GetsIn(msg: BlockMessage, table: seq<Row>, wallets: Wallets) {
    StreamGetsIn(Wires(Chunked(msg, BATCH_SIZE)), table, wallets)
  }

  lemma {:induction false} StorableMessageChunks(msg: BlockMessage, wallets: Wallets)
    requires WellFormed(msg) && AllStorable(Image(msg, wallets))
    ensures forall i :: 0 <= i < |Chunked(msg, BATCH_SIZE)| ==> Sound(Wires(Chunked(msg, BATCH_SIZE))[i], wallets)
  {
    var batches := Wires(Chunked(msg, BATCH_SIZE));
    ChunkRows(msg, BATCH_SIZE, wallets);
    ChunksWellFormed(msg, BATCH_SIZE);
    forall i | 0 <= i < |batches|
      ensures Sound(batches[i], wallets)
    {
      PartStorable(batches, wallets, i);
    }
  }

  /** A message that can be stored in one piece gets in batch by batch, and no schedule of redeliveries and crashes
      gets in one that cannot. */
  lemma GetsInExactly(msg: BlockMessage, table: seq<Row>, wallets: Wallets)
    requires UniqueKeys(table) && msg.events != []
    ensures GetsIn(msg, table, wallets) <==> Commits(table, msg, wallets)
  {
    StreamGetsInExactly(Wires(Chunked(msg, BATCH_SIZE)), table, wallets);
    ChunkRows(msg, BATCH_SIZE, wallets);
    if GetsIn(msg, table, wallets) {
      SoundChunksMakeSoundMessage(msg, BATCH_SIZE, wallets);
    }
    if Commits(table, msg, wallets) {
      StorableMessageChunks(msg, wallets);
    }
  }

  /** A block with activity gets into the ledger, by some schedule, if and only if it is a storable one. */
  lemma BlockGetsInExactly(cfg: Scanner.Config, block: Scanner.Block, addrs: seq<Address>,
                           wallets: Wallets, table: seq<Row>)
    requires UniqueKeys(table) && Distinct(addrs)
    requires cfg.networkId.Uuid? ==> OneWalletEach(cfg.networkId.id, wallets)
    requires exists o :: TakesPart(ChainOf(cfg, block), addrs, o)
    ensures GetsIn(Scanner.MessageOf(cfg, block, addrs), table, wallets) <==>
            StorableBlock(cfg, block, addrs, wallets, table)
  {
    var msg := Scanner.MessageOf(cfg, block, addrs);
    var os := BlockParties(cfg, block, addrs);
    var o :| TakesPart(ChainOf(cfg, block), addrs, o);
    assert o in os;
    BlockStoredExactly(cfg, block, addrs, wallets, table);
    GetsInExactly(msg, table, wallets);
  }

  /** A wallet on one side of one transaction twice keeps the whole block out of every table, under every schedule. */
  lemma RepeatedSideNeverGetsIn(cfg: Scanner.Config, block: Scanner.Block, addrs: seq<Address>,
                                wallets: Wallets, table: seq<Row>, o: Party, o': Party)
    requires UniqueKeys(table) && Distinct(addrs) && cfg.networkId.Uuid? && o != o'
    requires HasRow(ChainOf(cfg, block), addrs, cfg.networkId.id, wallets, o)
    requires HasRow(ChainOf(cfg, block), addrs, cfg.networkId.id, wallets, o')
    requires o.addr == o'.addr && o.side == o'.side
    requires HashOf(ChainOf(cfg, block), o.src) == HashOf(ChainOf(cfg, block), o'.src)
    ensures !GetsIn(Scanner.MessageOf(cfg, block, addrs), table, wallets)
  {
    var msg := Scanner.MessageOf(cfg, block, addrs);
    var os := BlockParties(cfg, block, addrs);
    assert o in os;
    GetsInExactly(msg, table, wallets);
    assert !OncePerSide(ChainOf(cfg, block), addrs, cfg.networkId.id, wallets);
    if Commits(table, msg, wallets) {
      BlockStoredNeeds(cfg, block, addrs, wallets, table, o);
    }
  }

  /** The everyday collision: a watched wallet calls a contract and USDC leaves the wallet in that call. The call and
      the payment are both OUTGOING. */
  lemma PayingCallNeverGetsIn(cfg: Scanner.Config, block: Scanner.Block, addrs: seq<Address>,
                              wallets: Wallets, table: seq<Row>, i: nat, j: nat)
    requires UniqueKeys(table) && Distinct(addrs) && cfg.networkId.Uuid?
    requires i < |block.txs| && j < |ChainOf(cfg, block).logs|
    requires
      var tx, log := block.txs[i], ChainOf(cfg, block).logs[j];
      && tx.sender == Some(log.from) && log.from in addrs && (log.from, cfg.networkId.id) in wallets
      && tx.hash == log.txHash && tx.hash in block.nativeReceipts
      && (tx.to.Some? ==> tx.to.value !in cfg.knownContracts)
      && log.to != log.from && log.to != ZERO_ADDRESS
    ensures !GetsIn(Scanner.MessageOf(cfg, block, addrs), table, wallets)
  {
    var w := ChainOf(cfg, block).logs[j].from;
    RepeatedSideNeverGetsIn(cfg, block, addrs, wallets, table, Party(InTx(i), w, Outgoing),
                            Party(InLog(j), w, Outgoing));
  }

  /** Two USDC logs of one transaction with a watched wallet on the same side, such as two payments to it. */
  lemma TwoPaymentsNeverGetIn(cfg: Scanner.Config, block: Scanner.Block, addrs: seq<Address>,
                              wallets: Wallets, table: seq<Row>, i: nat, j: nat, w: Address)
    requires UniqueKeys(table) && Distinct(addrs) && cfg.networkId.Uuid?
    requires w in addrs && (w, cfg.networkId.id) in wallets
    requires i < j < |ChainOf(cfg, block).logs|
    requires
      var log, log' := ChainOf(cfg, block).logs[i], ChainOf(cfg, block).logs[j];
      log.txHash == log'.txHash && Usdc.Side(log, w).Some? && Usdc.Side(log, w) == Usdc.Side(log', w)
    ensures !GetsIn(Scanner.MessageOf(cfg, block, addrs), table, wallets)
  {
    var side := Usdc.Side(ChainOf(cfg, block).logs[i], w).value;
    RepeatedSideNeverGetsIn(cfg, block, addrs, wallets, table, Party(InLog(i), w, side), Party(InLog(j), w, side));
  }

  // ---------- A whole run, block by block ----------

  /** No transaction shows up in the activity of two blocks. */
  ghost predicate HashesApart(h: seq<Scanner.Span>) {
    forall i, j :: 0 <= i < j < |h| && h[i].Scanned? && h[j].Scanned? ==>
      forall e, e' :: e in h[i].msg.events && e' in h[j].msg.events ==> e.txHash != e'.txHash
  }

  lemma {:induction false} RunRowHasEvent(h: seq<Scanner.Span>, wallets: Wallets, r: Row)
    returns (i: nat, e: ActivityEvent)
    requires r in RunRows(h, wallets)
    ensures i < |h| && h[i].Scanned? && e in h[i].msg.events && e.txHash == r.txHash
  {
    var front, last := h[..|h| - 1], h[|h| - 1];
    if r in RunRows(front, wallets) {
      i, e := RunRowHasEvent(front, wallets, r);
    } else {
      i := |front|;
      e := ImageRowHasEvent(last.msg, wallets, r);
    }
  }

  lemma ImageRowHasEvent(msg: BlockMessage, wallets: Wallets, r: Row) returns (e: ActivityEvent)
    requires r in Image(msg, wallets)
    ensures e in msg.events && e.txHash == r.txHash
  {
    var k := RowHasEvent(msg.events, msg.networkId.id, msg.blockNumber, msg.blockTimestamp.value, wallets, r);
    e := msg.events[k];
  }

  lemma UniqueTogether(t: seq<Row>, a: seq<Row>, b: seq<Row>)
    requires UniqueKeys(t + a) && UniqueKeys(t + b)
    requires forall x, y :: x in a && y in b ==> Key(x) != Key(y)
    ensures UniqueKeys(t + (a + b))
  {
    var all := t + (a + b);
    forall i, j | 0 <= i < j < |all|
      ensures Key(all[i]) != Key(all[j])
    {
      if j < |t| + |a| {
        assert all[i] == (t + a)[i] && all[j] == (t + a)[j];
      } else if i < |t| {
        assert all[i] == (t + b)[i] && all[j] == (t + b)[j - |a|];
      } else if i >= |t| + |a| {
        assert all[i] == (t + b)[i - |a|] && all[j] == (t + b)[j - |a|];
      } else {
        assert all[i] == a[i - |t|] && all[j] == b[j - |t| - |a|];
      }
    }
  }

  /** Each scanned block's message would be stored by the table as it was before the run. */
  ghost predicate EachCommits(h: seq<Scanner.Span>, table0: seq<Row>, wallets: Wallets) {
    forall i :: 0 <= i < |h| && h[i].Scanned? ==> Commits(table0, h[i].msg, wallets)
  }

  lemma CommittedImage(table: seq<Row>, msg: BlockMessage, wallets: Wallets)
    requires UniqueKeys(table) && Commits(table, msg, wallets)
    ensures AllStorable(Image(msg, wallets)) && UniqueKeys(table + Image(msg, wallets))
  {
    if msg.events == [] {
      EmptyMessageHasNoRows(msg, wallets);
      assert table + [] == table;
    }
  }

  lemma {:induction false} BlocksFitTogether(h: seq<Scanner.Span>, table0: seq<Row>, wallets: Wallets)
    requires UniqueKeys(table0) && HashesApart(h) && EachCommits(h, table0, wallets)
    ensures UniqueKeys(table0 + RunRows(h, wallets)) && AllStorable(RunRows(h, wallets))
  {
    if h == [] {
      assert table0 + [] == table0;
    } else {
      var front, last := h[..|h| - 1], h[|h| - 1];
      assert forall i :: 0 <= i < |front| ==> front[i] == h[i];
      BlocksFitTogether(front, table0, wallets);
      if last.Scanned? {
        var earlier, mine := RunRows(front, wallets), Image(last.msg, wallets);
        CommittedImage(table0, last.msg, wallets);
        forall x, y | x in earlier && y in mine
          ensures Key(x) != Key(y)
        {
          var i, e := RunRowHasEvent(front, wallets, x);
          var e' := ImageRowHasEvent(last.msg, wallets, y);
          assert h[i] == front[i] && e.txHash != e'.txHash;
        }
        UniqueTogether(table0, earlier, mine);
        assert RunRows(h, wallets) == earlier + mine;
      } else {
        assert RunRows(h, wallets) == RunRows(front, wallets);
      }
    }
  }

  lemma {:induction false} ImageWithinRun(h: seq<Scanner.Span>, wallets: Wallets, i: nat)
    requires i < |h| && h[i].Scanned?
    ensures multiset(Image(h[i].msg, wallets)) <= multiset(RunRows(h, wallets))
  {
    var front, last := h[..|h| - 1], h[|h| - 1];
    if i < |front| {
      ImageWithinRun(front, wallets, i);
    }
  }

  lemma {:induction false} FitsAlone(h: seq<Scanner.Span>, table0: seq<Row>, wallets: Wallets, i: nat)
    requires UniqueKeys(table0 + RunRows(h, wallets)) && AllStorable(RunRows(h, wallets))
    requires i < |h| && h[i].Scanned? && (h[i].msg.events == [] || WellFormed(h[i].msg))
    ensures Commits(table0, h[i].msg, wallets)
  {
    var mine := Image(h[i].msg, wallets);
    ImageWithinRun(h, wallets, i);
    UniqueWithin(table0, mine, RunRows(h, wallets));
    StorableSubmultiset(mine, RunRows(h, wallets));
  }

  lemma {:induction false} AcceptedStream(t: seq<Attempt>)
    requires AllOk(t)
    ensures |Stream(t)| == |t|
  {
    if t != [] {
      AcceptedStream(t[..|t| - 1]);
    }
  }

  lemma {:induction false} SenderLeavesTrace(h: seq<Scanner.Span>, i: nat)
    requires i < |h| && Sending.Sends(h[i])
    ensures Sending.TraceOf(true, h) != []
  {
    if i < |h| - 1 {
      SenderLeavesTrace(h[..|h| - 1], i);
    } else {
      PublishIsPrefix(h[i].msg, h[i].rejects, Scanner.SpanTrace(true, h[i]), Chunked(h[i].msg, BATCH_SIZE));
    }
  }

  /** When nothing was refused and no transaction shows up in two blocks, some schedule gets the whole run into the
      ledger if and only if each scanned block alone would be stored. */
  lemma {:induction false} RunGetsInBlockByBlock(cfg: Scanner.Config, up: Scanner.Setup, ticks: seq<Scanner.TickInput>,
                                                 table0: seq<Row>, wallets: Wallets)
    requires cfg.publishing && AllOk(Scanner.After(cfg, up, ticks).attempts) && UniqueKeys(table0)
    requires HashesApart(Scanner.After(cfg, up, ticks).history)
    ensures StreamGetsIn(Stream(Scanner.After(cfg, up, ticks).attempts), table0, wallets) <==>
            EachCommits(Scanner.After(cfg, up, ticks).history, table0, wallets)
  {
    var run := Scanner.After(cfg, up, ticks);
    var h, batches := run.history, Stream(run.attempts);
    Sending.RunTrace(cfg, up, ticks);
    RunGetsInExactly(cfg, up, ticks, table0, wallets);
    KeptIsAll(h, wallets);
    AcceptedStream(run.attempts);
    if StreamGetsIn(batches, table0, wallets) {
      forall i | 0 <= i < |h| && h[i].Scanned?
        ensures Commits(table0, h[i].msg, wallets)
      {
        var k := Sending.MessagesAreBlockActivity(cfg, up, ticks, i);
        if h[i].msg.events != [] {
          SenderLeavesTrace(h, i);
        }
        FitsAlone(h, table0, wallets, i);
      }
    }
    if EachCommits(h, table0, wallets) {
      BlocksFitTogether(h, table0, wallets);
      if batches != [] {
        SomeoneSent(h);
        var i :| 0 <= i < |h| && Sending.Sends(h[i]);
        var k := Sending.MessagesAreBlockActivity(cfg, up, ticks, i);
        assert Commits(table0, h[i].msg, wallets);
      }
    }
  }

  lemma {:induction false} SomeoneSent(h: seq<Scanner.Span>)
    requires Sending.TraceOf(true, h) != []
    ensures exists i :: 0 <= i < |h| && Sending.Sends(h[i])
  {
    var front, last := h[..|h| - 1], h[|h| - 1];
    if Sending.Sends(last) {
      assert Sending.Sends(h[|h| - 1]);
    } else {
      SomeoneSent(front);
      var i :| 0 <= i < |front| && Sending.Sends(front[i]);
      assert Sending.Sends(h[i]);
    }
  }

  lemma {:induction false} KeptIsAll(h: seq<Scanner.Span>, wallets: Wallets)
    requires AllOk(Sending.TraceOf(true, h))
    ensures KeptRows(h, wallets) == RunRows(h, wallets)
  {
    if h != [] {
      var front, last := h[..|h| - 1], h[|h| - 1];
      Sending.AllOkAppend(Sending.TraceOf(true, front), Scanner.SpanTrace(true, last));
      KeptIsAll(front, wallets);
      if last.Scanned? {
        KeptWithLost(last, wallets);
        SpanLosesNothing(last, wallets);
      }
    }
  }

  /** The same, read off the transactions and logs of the blocks that the ticks fetched. */
  lemma {:induction false} RunGetsInByActivity(cfg: Scanner.Config, up: Scanner.Setup, ticks: seq<Scanner.TickInput>,
                                               table0: seq<Row>, wallets: Wallets)
    requires cfg.publishing && AllOk(Scanner.After(cfg, up, ticks).attempts) && UniqueKeys(table0)
    requires HashesApart(Scanner.After(cfg, up, ticks).history)
    requires cfg.networkId.Uuid? ==> OneWalletEach(cfg.networkId.id, wallets)
    requires forall k :: 0 <= k < |ticks| && ticks[k].wallets.Some? ==> Distinct(ticks[k].wallets.value)
    ensures StreamGetsIn(Stream(Scanner.After(cfg, up, ticks).attempts), table0, wallets) <==>
            forall i, k :: 0 <= i < |Scanner.After(cfg, up, ticks).history| && 0 <= k < |ticks| ==>
              FitsIfScanned(cfg, Scanner.After(cfg, up, ticks).history[i], ticks[k], table0, wallets)
  {
    var h := Scanner.After(cfg, up, ticks).history;
    RunGetsInBlockByBlock(cfg, up, ticks, table0, wallets);
    forall i, k | 0 <= i < |h| && 0 <= k < |ticks| && Sending.FromTick(cfg, h[i], ticks[k])
      ensures FitsIfScanned(cfg, h[i], ticks[k], table0, wallets) <==> Commits(table0, h[i].msg, wallets)
    {
      BlockStoredExactly(cfg, ticks[k].blocks[h[i].n], ticks[k].wallets.value, wallets, table0);
    }
    if forall i, k :: 0 <= i < |h| && 0 <= k < |ticks| ==> FitsIfScanned(cfg, h[i], ticks[k], table0, wallets) {
      forall i | 0 <= i < |h| && h[i].Scanned?
        ensures Commits(table0, h[i].msg, wallets)
      {
        var k := Sending.MessagesAreBlockActivity(cfg, up, ticks, i);
        assert FitsIfScanned(cfg, h[i], ticks[k], table0, wallets);
      }
    }
  }

  /** If the span is the scan of a block of that tick, nobody watched takes part in the block or it is storable. */
  ghost predicate FitsIfScanned(cfg: Scanner.Config, span: Scanner.Span, t: Scanner.TickInput, table: seq<Row>,
                                wallets: Wallets)
  {
    Sending.FromTick(cfg, span, t) ==>
      var block, addrs := t.blocks[span.n], t.wallets.value;
      (forall o :: !TakesPart(ChainOf(cfg, block), addrs, o)) || StorableBlock(cfg, block, addrs, wallets, table)
  }
}
