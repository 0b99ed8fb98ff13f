/** Where a stored row comes from: through both services, back to the block and the head its tick read. */
module Provenance {
  import opened Schema
  import opened Publishing
  import opened Ledger
  import opened LedgerDeliveries
  import opened Pipeline
  import opened Scanner
  import Native = NativeEvents
  import Usdc = UsdcEvents
  import Sending = ScannerPublishing

  /** The event is a watched address's side of a transaction of the block, or of a USDC log of it where the network
      has USDC and the log query succeeded. */
  ghost predicate IsActivityOf(e: ActivityEvent, cfg: Config, block: Block, addrs: seq<Address>) {
    || Native.IsActivity(e, block.txs, addrs,
                         Native.Context(block.nativeReceipts, cfg.knownContracts, cfg.nativeSymbol))
    || (cfg.usdcListen && cfg.usdc.Some? && block.logs.Some?
        && Usdc.IsActivity(e, block.logs.value, addrs, block.usdcReceipts, cfg.usdc.value))
  }

  /** A block's message holds exactly the activity of the watched addresses in that block, native before USDC, under
      the block's number, hash and time. */
  lemma BlockMessageExactly(cfg: Config, block: Block, addrs: seq<Address>, e: ActivityEvent)
    ensures
      var msg := MessageOf(cfg, block, addrs);
      && msg.networkId == cfg.networkId && msg.blockNumber == block.number && msg.blockHash == block.hash
      && msg.blockTimestamp == Some(block.timestamp)
      && (e in msg.events <==> IsActivityOf(e, cfg, block, addrs))
  {
    Native.NativeEventsExactly(e, block.txs, addrs,
                               Native.Context(block.nativeReceipts, cfg.knownContracts, cfg.nativeSymbol));
    if cfg.usdc.Some? && block.logs.Some? {
      Usdc.UsdcEventsExactly(e, block.logs.value, addrs, block.usdcReceipts, cfg.usdc.value);
    }
  }

  lemma {:induction false} ConcatMember(batches: seq<BlockMessage>, i: nat, e: ActivityEvent)
    requires i < |batches| && e in batches[i].events
    ensures e in ConcatEvents(batches)
  {
    if i > 0 {
      ConcatMember(batches[1..], i - 1, e);
    }
  }

  /** The batch is one of the span's: its envelope, and some of its events. */
  ghost predicate IsPartOf(batch: BlockMessage, span: Span) {
    && span.Scanned? && batch.(events := span.msg.events) == span.msg
    && forall e :: e in batch.events ==> e in span.msg.events
  }

  lemma SpanParts(span: Span, w: Wire)
    requires w in Stream(SpanTrace(true, span))
    ensures w.Decoded? && IsPartOf(w.msg, span)
  {
    var batches := Chunked(span.msg, BATCH_SIZE);
    AttemptsTaken(batches, 0, span.rejects);
    ChunkRoundTrip(span.msg, BATCH_SIZE);
    var i :| 0 <= i < |batches| && w == Decoded(batches[i]);
    forall e | e in batches[i].events
      ensures e in span.msg.events
    {
      ConcatMember(batches, i, e);
    }
  }

  lemma {:induction false} StreamPart(h: seq<Span>, w: Wire) returns (i: nat)
    requires w in Stream(Sending.TraceOf(true, h))
    ensures i < |h| && w.Decoded? && IsPartOf(w.msg, h[i])
  {
    var front, last := h[..|h| - 1], h[|h| - 1];
    StreamAppend(Sending.TraceOf(true, front), SpanTrace(true, last));
    if w in Stream(Sending.TraceOf(true, front)) {
      i := StreamPart(front, w);
    } else {
      i := |front|;
      SpanParts(last, w);
    }
  }

  /** The batch carries the network, number, hash and time of a block that tick t fetched as its n-th, at least the
      buffer below the head it read, and nothing but activity of that block for the wallets the tick read. */
  ghost predicate CarriesBlock(batch: BlockMessage, cfg: Config, t: TickInput, n: int) {
    && t.head.Head? && n + cfg.safeBlockBuffer <= t.head.number
    && t.wallets.Some? && n in t.blocks
    && batch.networkId == cfg.networkId && batch.blockNumber == t.blocks[n].number
    && batch.blockHash == t.blocks[n].hash && batch.blockTimestamp == Some(t.blocks[n].timestamp)
    && forall e :: e in batch.events ==> IsActivityOf(e, cfg, t.blocks[n], t.wallets.value)
  }

  /** Every batch that reaches the broker in a run is of that kind. */
  lemma {:induction false} BatchProvenance(cfg: Config, up: Setup, ticks: seq<TickInput>, w: Wire)
    returns (k: nat, n: int)
    requires cfg.publishing && w in Stream(After(cfg, up, ticks).attempts)
    ensures k < |ticks| && w.Decoded? && CarriesBlock(w.msg, cfg, ticks[k], n)
  {
    var h := After(cfg, up, ticks).history;
    Sending.RunTrace(cfg, up, ticks);
    var i := StreamPart(h, w);
    k := Sending.MessagesAreBlockActivity(cfg, up, ticks, i);
    n := h[i].n;
    PartCarriesBlock(w.msg, cfg, h[i], ticks[k]);
  }

  lemma PartCarriesBlock(batch: BlockMessage, cfg: Config, span: Span, t: TickInput)
    requires IsPartOf(batch, span) && Sending.FromTick(cfg, span, t)
    requires t.head.Head? && span.n + cfg.safeBlockBuffer <= t.head.number
    ensures CarriesBlock(batch, cfg, t, span.n)
  {
    var block, addrs := t.blocks[span.n], t.wallets.value;
    forall e
      ensures e in span.msg.events <==> IsActivityOf(e, cfg, block, addrs)
    {
      BlockMessageExactly(cfg, block, addrs, e);
    }
  }

  /** A row that was not there before came in with some delivery. */
  lemma {:induction false} RowDelivered(batches: seq<Wire>, table0: seq<Row>, ds: seq<Delivery>, r: Row)
    returns (m: nat)
    requires r in DeliverAll(batches, Initial(batches, table0), ds).table && r !in table0
    ensures m < |ds| && ds[m].i < |batches| && r in RowsIn(batches[ds[m].i], ds[m].wallets)
  {
    var front, d := ds[..|ds| - 1], ds[|ds| - 1];
    var s := DeliverAll(batches, Initial(batches, table0), front);
    DeliveryIsAtomic(batches, s, d);
    if r in s.table {
      m := RowDelivered(batches, table0, front, r);
    } else {
      m := |front|;
    }
  }

  /** Every added row tells the truth. In every run and every schedule it was stored from an event e, a watched
      address's side of a transaction or USDC log of a block that tick k fetched; it records that event field by field,
      with the block's number and time, under the id of that address's wallet; and the block lies at least the buffer
      below the head that tick k read. */
  lemma {:induction false} RowProvenance(cfg: Config, up: Setup, ticks: seq<TickInput>, table0: seq<Row>,
                                         ds: seq<Delivery>, r: Row)
    returns (k: nat, n: int, m: nat, e: ActivityEvent)
    requires cfg.publishing
    requires r !in table0
    requires
      var batches := Stream(After(cfg, up, ticks).attempts);
      r in DeliverAll(batches, Initial(batches, table0), ds).table
    ensures k < |ticks| && m < |ds| && cfg.networkId.Uuid?
    ensures
      var t := ticks[k];
      && t.head.Head? && n + cfg.safeBlockBuffer <= t.head.number
      && t.wallets.Some? && n in t.blocks
      && IsActivityOf(e, cfg, t.blocks[n], t.wallets.value)
      && Records(r, e, cfg.networkId.id, t.blocks[n].number, t.blocks[n].timestamp, ds[m].wallets)
  {
    var batches := Stream(After(cfg, up, ticks).attempts);
    m := RowDelivered(batches, table0, ds, r);
    var w := batches[ds[m].i];
    k, n := BatchProvenance(cfg, up, ticks, w);
    var i := RowHasEvent(w.msg.events, w.msg.networkId.id, w.msg.blockNumber, w.msg.blockTimestamp.value,
                         ds[m].wallets, r);
    e := w.msg.events[i];
  }
}
