/** Scan, publish, persist: what the listener's batches become in the ledger. */
module Pipeline {
  import opened Schema
  import opened Publishing
  import opened Ledger
  import opened LedgerDeliveries
  import Native = NativeEvents
  import Usdc = UsdcEvents
  import Scanner
  import Coverage = ScannerCoverage
  import Sending = ScannerPublishing

  // ---------- Splitting a message changes no row ----------

  function Wires(batches: seq<BlockMessage>): (w: seq<Wire>)
    ensures |w| == |batches|
    ensures forall i :: 0 <= i < |w| ==> w[i] == Decoded(batches[i])
  {
    seq(|batches|, i requires 0 <= i < |batches| => Decoded(batches[i]))
  }

  lemma RowsAssociate(a: seq<Row>, b: seq<Row>, c: seq<Row>)
    ensures a + b + c == a + (b + c)
  {
  }

  lemma {:induction false} AllRowsAppend(a: seq<Wire>, b: seq<Wire>, wallets: Wallets)
    ensures AllRows(a + b, wallets) == AllRows(a, wallets) + AllRows(b, wallets)
  {
    if b == [] {
      assert a + b == a;
    } else {
      var all, front, last := a + b, b[..|b| - 1], b[|b| - 1];
      assert all[..|all| - 1] == a + front && all[|all| - 1] == last;
      AllRowsAppend(a, front, wallets);
      RowsAssociate(AllRows(a, wallets), AllRows(front, wallets), RowsIn(last, wallets));
    }
  }

  lemma {:induction false} AllRowsOne(w: Wire, wallets: Wallets)
    ensures AllRows([w], wallets) == RowsIn(w, wallets)
  {
    assert [w][..0] == [];
    assert AllRows([w], wallets) == AllRows([], wallets) + RowsIn(w, wallets);
  }

  lemma ImageSplit(msg: BlockMessage, n: nat, wallets: Wallets)
    requires n <= |msg.events|
    ensures Image(msg, wallets) ==
            Image(msg.(events := msg.events[..n]), wallets) + Image(msg.(events := msg.events[n..]), wallets)
  {
    assert msg.events[..n] + msg.events[n..] == msg.events;
    if WellFormed(msg) {
      RowsOfAppend(msg.events[..n], msg.events[n..], msg.networkId.id, msg.blockNumber,
                   msg.blockTimestamp.value, wallets);
    }
  }

  lemma WiresCons(first: BlockMessage, rest: seq<BlockMessage>)
    ensures Wires([first] + rest) == [Decoded(first)] + Wires(rest)
  {
  }

  lemma {:induction false} ChunkRows(msg: BlockMessage, n: nat, wallets: Wallets)
    requires n > 0
    ensures AllRows(Wires(Chunked(msg, n)), wallets) == Image(msg, wallets)
    decreases |msg.events|
  {
    if |msg.events| <= n {
      assert Wires(Chunked(msg, n)) == [Decoded(msg)];
      AllRowsOne(Decoded(msg), wallets);
    } else {
      var first, rest := msg.(events := msg.events[..n]), msg.(events := msg.events[n..]);
      ChunkRows(rest, n, wallets);
      ChunkStep(msg, n);
      WiresCons(first, Chunked(rest, n));
      AllRowsAppend([Decoded(first)], Wires(Chunked(rest, n)), wallets);
      AllRowsOne(Decoded(first), wallets);
      ImageSplit(msg, n, wallets);
    }
  }

  lemma {:induction false} ChunksWellFormed(msg: BlockMessage, n: nat)
    requires n > 0
    ensures forall i :: 0 <= i < |Chunked(msg, n)| ==> (WellFormed(Chunked(msg, n)[i]) <==> WellFormed(msg))
  {
    ChunkEnvelopes(msg, n);
    forall i | 0 <= i < |Chunked(msg, n)|
      ensures WellFormed(Chunked(msg, n)[i]) <==> WellFormed(msg)
    {
      assert Chunked(msg, n)[i].(events := msg.events) == msg;
    }
  }

  lemma {:induction false} SoundChunksMakeSoundMessage(msg: BlockMessage, n: nat, wallets: Wallets)
    requires n > 0 && forall i :: 0 <= i < |Chunked(msg, n)| ==> Sound(Wires(Chunked(msg, n))[i], wallets)
    ensures msg.events == [] || WellFormed(msg)
    ensures AllStorable(Image(msg, wallets))
  {
    ChunkRows(msg, n, wallets);
    AllRowsStorable(Wires(Chunked(msg, n)), wallets);
    if msg.events != [] {
      ChunkSizes(msg, n);
      ChunksWellFormed(msg, n);
      assert Sound(Wires(Chunked(msg, n))[0], wallets);
    }
  }

  /** Batching is transparent. Deliver the batches of a message in any order, any number of times, with crashes:
      once all have committed, the unsplit message would have been stored too, and the rows are the same. */
  lemma {:induction false} BatchingIsTransparent(msg: BlockMessage, n: nat, table0: seq<Row>, wallets: Wallets,
                                                 ds: seq<Delivery>, batches: seq<Wire>, s: State)
    requires n > 0 && UniqueKeys(table0)
    requires forall k :: 0 <= k < |ds| ==> ds[k].wallets == wallets
    requires batches == Wires(Chunked(msg, n)) && s == DeliverAll(batches, Initial(batches, table0), ds)
    requires AllCommitted(batches, s)
    ensures Commits(table0, msg, wallets)
    ensures multiset(s.table) == multiset(table0 + Image(msg, wallets))
  {
    DeliveryOrderIsImmaterial(batches, table0, wallets, ds);
    AlwaysSumOfBatches(batches, table0, wallets, ds);
    ChunkRows(msg, n, wallets);
    UniqueSubmultiset(table0 + Image(msg, wallets), s.table);
    CommittedAreSound(batches, table0, wallets, s);
    SoundChunksMakeSoundMessage(msg, n, wallets);
  }

  /** And if the unsplit message would be stored, the first normal delivery of every batch stores and acks it. */
  lemma {:induction false} BatchesOfStorableMessageCommit(msg: BlockMessage, n: nat, table0: seq<Row>, wallets: Wallets,
                                                          ds: seq<Delivery>, i: nat)
    requires n > 0 && Commits(table0, msg, wallets) && msg.events != []
    requires forall k :: 0 <= k < |ds| ==> ds[k].wallets == wallets
    requires i < |Chunked(msg, n)|
    requires i !in DeliverAll(Wires(Chunked(msg, n)), Initial(Wires(Chunked(msg, n)), table0), ds).committed
    ensures
      var batches := Wires(Chunked(msg, n));
      i in DeliverAll(batches, Initial(batches, table0), ds + [Delivery(i, Handled, wallets)]).acked
  {
    ChunkRows(msg, n, wallets);
    ChunksWellFormed(msg, n);
    FirstDeliveriesCommit(Wires(Chunked(msg, n)), table0, wallets, ds, i);
  }

  // ---------- From a run of the listener to the table ----------

  /** What the broker holds: the batches it accepted, in order. */
  function Stream(trace: seq<Attempt>): seq<Wire> {
    if trace == [] then []
    else Stream(trace[..|trace| - 1]) + if trace[|trace| - 1].ok then [Decoded(trace[|trace| - 1].batch)] else []
  }

  /** The rows of every scanned block's activity, as if each block were stored in one piece. */
  function RunRows(h: seq<Scanner.Span>, wallets: Wallets): seq<Row> {
    if h == [] then []
    else
      var last := h[|h| - 1];
      RunRows(h[..|h| - 1], wallets) + if last.Scanned? then Image(last.msg, wallets) else []
  }

  lemma {:induction false} StreamAppend(a: seq<Attempt>, b: seq<Attempt>)
    ensures Stream(a + b) == Stream(a) + Stream(b)
  {
    if b == [] {
      assert a + b == a;
    } else {
      assert (a + b)[..|a + b| - 1] == a + b[..|b| - 1];
      StreamAppend(a, b[..|b| - 1]);
    }
  }

  /** How many of n batches go through before the broker refuses one. */
  function Taken(rejects: set<nat>, n: nat, i: nat := 0): (k: nat)
    requires i <= n
    ensures i <= k <= n
    decreases n - i
  {
    if i == n || i + 1 in rejects then i else Taken(rejects, n, i + 1)
  }

  /** The batches of a scanned block that the broker took, and those it refused or was never sent. */
  function KeptBatches(span: Scanner.Span): seq<Wire>
    requires span.Scanned?
  {
    var batches := Chunked(span.msg, BATCH_SIZE);
    Wires(batches[..Taken(span.rejects, |batches|)])
  }

  function LostBatches(span: Scanner.Span): seq<Wire>
    requires span.Scanned?
  {
    var batches := Chunked(span.msg, BATCH_SIZE);
    Wires(batches[Taken(span.rejects, |batches|)..])
  }

  /** The rows of the scanned blocks that reached the broker, and those that did not. */
  function KeptRows(h: seq<Scanner.Span>, wallets: Wallets): seq<Row> {
    if h == [] then []
    else
      var last := h[|h| - 1];
      KeptRows(h[..|h| - 1], wallets) + if last.Scanned? then AllRows(KeptBatches(last), wallets) else []
  }

  function LostRows(h: seq<Scanner.Span>, wallets: Wallets): seq<Row> {
    if h == [] then []
    else
      var last := h[|h| - 1];
      LostRows(h[..|h| - 1], wallets) + if last.Scanned? then AllRows(LostBatches(last), wallets) else []
  }

  lemma {:induction false} AttemptsTaken(batches: seq<BlockMessage>, i: nat, rejects: set<nat>)
    requires i <= |batches|
    ensures Stream(Attempts(batches, i, rejects)) == Wires(batches[i..Taken(rejects, |batches|, i)])
    decreases |batches| - i
  {
    if i < |batches| {
      var t := Attempts(batches, i, rejects);
      assert [t[0]][..0] == [] && Stream([]) == [];
      if i + 1 in rejects {
        assert t == [t[0]];
      } else {
        AttemptsTaken(batches, i + 1, rejects);
        StreamAppend([t[0]], Attempts(batches, i + 1, rejects));
        var rest := batches[i + 1..Taken(rejects, |batches|, i)];
        assert batches[i..Taken(rejects, |batches|, i)] == [batches[i]] + rest;
        WiresCons(batches[i], rest);
        assert Stream([t[0]]) == [Decoded(batches[i])];
      }
    }
  }

  lemma EmptyMessageHasNoRows(msg: BlockMessage, wallets: Wallets)
    requires msg.events == []
    ensures Image(msg, wallets) == []
  {
  }

  lemma {:induction false} RowsOfParts(batches: seq<BlockMessage>, k: nat, wallets: Wallets)
    requires k <= |batches|
    ensures AllRows(Wires(batches), wallets) ==
            AllRows(Wires(batches[..k]), wallets) + AllRows(Wires(batches[k..]), wallets)
  {
    AllRowsAppend(Wires(batches[..k]), Wires(batches[k..]), wallets);
    assert Wires(batches) == Wires(batches[..k]) + Wires(batches[k..]);
  }

  lemma {:induction false} KeptWithLost(span: Scanner.Span, wallets: Wallets)
    requires span.Scanned?
    ensures AllRows(KeptBatches(span), wallets) + AllRows(LostBatches(span), wallets) == Image(span.msg, wallets)
  {
    ChunkRows(span.msg, BATCH_SIZE, wallets);
    var batches := Chunked(span.msg, BATCH_SIZE);
    RowsOfParts(batches, Taken(span.rejects, |batches|), wallets);
  }

  lemma {:induction false} SpanKept(span: Scanner.Span, wallets: Wallets)
    requires span.Scanned?
    ensures AllRows(Stream(Scanner.SpanTrace(true, span)), wallets) == AllRows(KeptBatches(span), wallets)
  {
    if span.msg.events == [] {
      KeptWithLost(span, wallets);
      EmptyMessageHasNoRows(span.msg, wallets);
    } else {
      var batches := Chunked(span.msg, BATCH_SIZE);
      AttemptsTaken(batches, 0, span.rejects);
      assert batches[0..Taken(span.rejects, |batches|)] == batches[..Taken(span.rejects, |batches|)];
    }
  }

  lemma {:induction false} StreamKept(h: seq<Scanner.Span>, wallets: Wallets)
    ensures AllRows(Stream(Sending.TraceOf(true, h)), wallets) == KeptRows(h, wallets)
  {
    if h != [] {
      var front, last := h[..|h| - 1], h[|h| - 1];
      var t, more := Sending.TraceOf(true, front), Scanner.SpanTrace(true, last);
      StreamKept(front, wallets);
      StreamAppend(t, more);
      AllRowsAppend(Stream(t), Stream(more), wallets);
      if last.Scanned? {
        SpanKept(last, wallets);
      }
    }
  }

  lemma RowsAddUp(kept: seq<Row>, lost: seq<Row>, all: seq<Row>, k: seq<Row>, l: seq<Row>)
    requires multiset(kept) + multiset(lost) == multiset(all)
    ensures multiset(kept + k) + multiset(lost + l) == multiset(all + (k + l))
  {
    assert multiset(kept + k) == multiset(kept) + multiset(k) && multiset(lost + l) == multiset(lost) + multiset(l);
    assert multiset(all + (k + l)) == multiset(all) + multiset(k + l) && multiset(k + l) == multiset(k) + multiset(l);
  }

  /** No row of a scanned block is kept and lost at once, and none is neither. */
  lemma {:induction false} KeptAndLost(h: seq<Scanner.Span>, wallets: Wallets)
    ensures multiset(KeptRows(h, wallets)) + multiset(LostRows(h, wallets)) == multiset(RunRows(h, wallets))
  {
    if h != [] {
      var front, last := h[..|h| - 1], h[|h| - 1];
      KeptAndLost(front, wallets);
      if last.Scanned? {
        KeptWithLost(last, wallets);
        RowsAddUp(KeptRows(front, wallets), LostRows(front, wallets), RunRows(front, wallets),
                  AllRows(KeptBatches(last), wallets), AllRows(LostBatches(last), wallets));
      }
    }
  }

  lemma {:induction false} TakenAll(rejects: set<nat>, n: nat, i: nat)
    requires i <= n
    ensures Taken(rejects, n, i) == n <==> forall j :: i < j <= n ==> j !in rejects
    decreases n - i
  {
    if i < n && i + 1 !in rejects {
      TakenAll(rejects, n, i + 1);
    }
  }

  lemma {:induction false} NothingLost(h: seq<Scanner.Span>, wallets: Wallets)
    requires AllOk(Sending.TraceOf(true, h))
    ensures LostRows(h, wallets) == []
  {
    if h != [] {
      var front, last := h[..|h| - 1], h[|h| - 1];
      Sending.AllOkAppend(Sending.TraceOf(true, front), Scanner.SpanTrace(true, last));
      NothingLost(front, wallets);
      if last.Scanned? {
        SpanLosesNothing(last, wallets);
      }
    }
  }

  lemma {:induction false} SpanLosesNothing(span: Scanner.Span, wallets: Wallets)
    requires span.Scanned? && AllOk(Scanner.SpanTrace(true, span))
    ensures AllRows(LostBatches(span), wallets) == []
  {
    var batches := Chunked(span.msg, BATCH_SIZE);
    if span.msg.events == [] {
      KeptWithLost(span, wallets);
      EmptyMessageHasNoRows(span.msg, wallets);
    } else {
      PublishIsPrefix(span.msg, span.rejects, Scanner.SpanTrace(true, span), batches);
      TakenAll(span.rejects, |batches|, 0);
      assert LostBatches(span) == [];
    }
  }

  /** Every row is accounted for, whatever the broker refuses and however it delivers: the table and the rows of the
      batches that never reached the broker together hold at most the rows of the scanned blocks' activity, and exactly
      those once every batch has committed. */
  lemma {:induction false} EveryRowAccountedFor(cfg: Scanner.Config, up: Scanner.Setup, ticks: seq<Scanner.TickInput>,
                                                table0: seq<Row>, wallets: Wallets, ds: seq<Delivery>)
    requires cfg.publishing
    requires UniqueKeys(table0) && forall k :: 0 <= k < |ds| ==> ds[k].wallets == wallets
    ensures
      var run := Scanner.After(cfg, up, ticks);
      var batches := Stream(run.attempts);
      var s := DeliverAll(batches, Initial(batches, table0), ds);
      && UniqueKeys(s.table)
      && multiset(s.table) + multiset(LostRows(run.history, wallets))
         <= multiset(table0 + RunRows(run.history, wallets))
      && (AllCommitted(batches, s) ==>
            multiset(s.table) + multiset(LostRows(run.history, wallets)) ==
            multiset(table0 + RunRows(run.history, wallets)))
  {
    var run := Scanner.After(cfg, up, ticks);
    var batches := Stream(run.attempts);
    Sending.RunTrace(cfg, up, ticks);
    StreamKept(run.history, wallets);
    KeptAndLost(run.history, wallets);
    LedgerSafety(batches, table0, ds);
    DeliveryOrderIsImmaterial(batches, table0, wallets, ds);
    var kept, all := KeptRows(run.history, wallets), RunRows(run.history, wallets);
    assert multiset(table0 + kept) == multiset(table0) + multiset(kept);
    assert multiset(table0 + all) == multiset(table0) + multiset(all);
  }

  /** When the broker refused nothing, the ledger never holds more than the rows of the scanned blocks' activity, and
      holds exactly those once every batch has committed, whatever the delivery schedule. */
  lemma {:induction false} EndToEnd(cfg: Scanner.Config, up: Scanner.Setup, ticks: seq<Scanner.TickInput>,
                                    table0: seq<Row>, wallets: Wallets, ds: seq<Delivery>)
    requires cfg.publishing && AllOk(Scanner.After(cfg, up, ticks).attempts)
    requires UniqueKeys(table0) && forall k :: 0 <= k < |ds| ==> ds[k].wallets == wallets
    ensures
      var run := Scanner.After(cfg, up, ticks);
      var batches := Stream(run.attempts);
      var s := DeliverAll(batches, Initial(batches, table0), ds);
      && UniqueKeys(s.table)
      && multiset(s.table) <= multiset(table0 + RunRows(run.history, wallets))
      && (AllCommitted(batches, s) ==>
            multiset(s.table) == multiset(table0 + RunRows(run.history, wallets)))
  {
    Sending.RunTrace(cfg, up, ticks);
    NothingLost(Scanner.After(cfg, up, ticks).history, wallets);
    EveryRowAccountedFor(cfg, up, ticks, table0, wallets, ds);
  }

  // ---------- Which runs get in at all ----------

  /** A batch of the stream carries events, and the header of its block's message. */
  ghost predicate FromNetwork(w: Wire, network: NetworkId) {
    w.Decoded? && w.msg.events != [] && w.msg.networkId == network && w.msg.blockTimestamp.Some?
  }

  lemma {:induction false} ChunksFromNetwork(msg: BlockMessage, network: NetworkId)
    requires msg.networkId == network && msg.blockTimestamp.Some? && msg.events != []
    ensures forall i :: 0 <= i < |Chunked(msg, BATCH_SIZE)| ==>
      FromNetwork(Decoded(Chunked(msg, BATCH_SIZE)[i]), network)
  {
    var batches := Chunked(msg, BATCH_SIZE);
    ChunkEnvelopes(msg, BATCH_SIZE);
    ChunkSizes(msg, BATCH_SIZE);
    forall i | 0 <= i < |batches|
      ensures FromNetwork(Decoded(batches[i]), network)
    {
      assert batches[i].(events := msg.events) == msg && 0 < |batches[i].events|;
    }
  }

  lemma {:induction false} StreamFromNetwork(h: seq<Scanner.Span>, network: NetworkId)
    requires forall i :: 0 <= i < |h| && h[i].Scanned? ==>
      h[i].msg.networkId == network && h[i].msg.blockTimestamp.Some?
    ensures forall w :: w in Stream(Sending.TraceOf(true, h)) ==> FromNetwork(w, network)
  {
    if h != [] {
      var front, last := h[..|h| - 1], h[|h| - 1];
      StreamFromNetwork(front, network);
      StreamAppend(Sending.TraceOf(true, front), Scanner.SpanTrace(true, last));
      if Sending.Sends(last) {
        AttemptsTaken(Chunked(last.msg, BATCH_SIZE), 0, last.rejects);
        ChunksFromNetwork(last.msg, network);
      }
    }
  }

  lemma {:induction false} RunFromNetwork(cfg: Scanner.Config, up: Scanner.Setup, ticks: seq<Scanner.TickInput>)
    requires cfg.publishing
    ensures forall w :: w in Stream(Scanner.After(cfg, up, ticks).attempts) ==> FromNetwork(w, cfg.networkId)
  {
    var h := Scanner.After(cfg, up, ticks).history;
    Sending.RunTrace(cfg, up, ticks);
    forall i | 0 <= i < |h| && h[i].Scanned?
      ensures h[i].msg.networkId == cfg.networkId && h[i].msg.blockTimestamp.Some?
    {
      var k := Sending.MessagesAreBlockActivity(cfg, up, ticks, i);
    }
    StreamFromNetwork(h, cfg.networkId);
  }

  lemma {:induction false} AllSoundExactly(batches: seq<Wire>, network: NetworkId, wallets: Wallets)
    requires forall w :: w in batches ==> FromNetwork(w, network)
    ensures (forall i :: 0 <= i < |batches| ==> Sound(batches[i], wallets)) <==>
            (batches == [] || network.Uuid?) && AllStorable(AllRows(batches, wallets))
  {
    if forall i :: 0 <= i < |batches| ==> Sound(batches[i], wallets) {
      AllRowsStorable(batches, wallets);
      if batches != [] {
        assert batches[0] in batches && Sound(batches[0], wallets);
      }
    }
    if (batches == [] || network.Uuid?) && AllStorable(AllRows(batches, wallets)) {
      forall i | 0 <= i < |batches|
        ensures Sound(batches[i], wallets)
      {
        assert batches[i] in batches;
        PartStorable(batches, wallets, i);
      }
    }
  }

  /** In any run, some schedule gets everything the broker took into the ledger if and only if the network id is a UUID
      (or nothing was taken), every row fits its columns, and no two rows share a key with each other or the table. */
  lemma {:induction false} RunGetsInExactly(cfg: Scanner.Config, up: Scanner.Setup, ticks: seq<Scanner.TickInput>,
                                            table0: seq<Row>, wallets: Wallets)
    requires cfg.publishing && UniqueKeys(table0)
    ensures
      var run := Scanner.After(cfg, up, ticks);
      var batches, kept := Stream(run.attempts), KeptRows(run.history, wallets);
      StreamGetsIn(batches, table0, wallets) <==>
      (batches == [] || cfg.networkId.Uuid?) && AllStorable(kept) && UniqueKeys(table0 + kept)
  {
    var run := Scanner.After(cfg, up, ticks);
    Sending.RunTrace(cfg, up, ticks);
    StreamKept(run.history, wallets);
    RunFromNetwork(cfg, up, ticks);
    StreamGetsInExactly(Stream(run.attempts), table0, wallets);
    AllSoundExactly(Stream(run.attempts), cfg.networkId, wallets);
  }

  lemma SpanBlockNumbers(span: Scanner.Span, k: nat)
    requires k < |Scanner.SpanTrace(true, span)|
    ensures span.Scanned? && Scanner.SpanTrace(true, span)[k].batch.blockNumber == span.msg.blockNumber
  {
    var t, batches := PublishTrace(span.msg, span.rejects), Chunked(span.msg, BATCH_SIZE);
    PublishIsPrefix(span.msg, span.rejects, t, batches);
    ChunkEnvelopes(span.msg, BATCH_SIZE);
    assert batches[k].(events := span.msg.events) == span.msg;
  }

  lemma {:induction false} StreamBlockNumbers(h: seq<Scanner.Span>, top: int)
    requires forall i :: 0 <= i < |h| && h[i].Scanned? ==> h[i].msg.blockNumber <= top
    ensures forall w :: w in Stream(Sending.TraceOf(true, h)) ==> w.Decoded? && w.msg.blockNumber <= top
  {
    if h != [] {
      var front, last := h[..|h| - 1], h[|h| - 1];
      StreamBlockNumbers(front, top);
      var more := Scanner.SpanTrace(true, last);
      forall k | 0 <= k < |more|
        ensures more[k].batch.blockNumber <= top
      {
        SpanBlockNumbers(last, k);
      }
      StreamAppend(Sending.TraceOf(true, front), more);
      StreamOnly(more, top);
    }
  }

  lemma {:induction false} StreamOnly(t: seq<Attempt>, top: int)
    requires forall k :: 0 <= k < |t| ==> t[k].batch.blockNumber <= top
    ensures forall w :: w in Stream(t) ==> w.Decoded? && w.msg.blockNumber <= top
  {
    if t != [] {
      StreamOnly(t[..|t| - 1], top);
    }
  }

  lemma {:induction false} RowsWithinBlocks(batches: seq<Wire>, table0: seq<Row>, ds: seq<Delivery>, top: int)
    requires forall w :: w in batches ==> w.Decoded? && w.msg.blockNumber <= top
    ensures forall r :: r in DeliverAll(batches, Initial(batches, table0), ds).table ==>
      r in table0 || r.blockNumber <= top
  {
    if ds != [] {
      var front, d := ds[..|ds| - 1], ds[|ds| - 1];
      RowsWithinBlocks(batches, table0, front, top);
      var s := DeliverAll(batches, Initial(batches, table0), front);
      DeliveryIsAtomic(batches, s, d);
      var e := Deliver(batches, s, d);
      forall r | r in e.table
        ensures r in table0 || r.blockNumber <= top
      {
        if r !in s.table {
          var w := batches[d.i];
          assert w in batches && r in RowsIn(w, d.wallets);
          var i := RowHasEvent(w.msg.events, w.msg.networkId.id, w.msg.blockNumber, w.msg.blockTimestamp.value,
                               d.wallets, r);
        }
      }
    }
  }

  /** Finality reaches the table: in every run, whatever fails on either side, a row added by the listener's
      batches belongs to a block at least the buffer below the highest head read. */
  lemma {:induction false} OnlyFinalBlocksAreStored(cfg: Scanner.Config, up: Scanner.Setup,
                                                    ticks: seq<Scanner.TickInput>, top: int, table0: seq<Row>,
                                                    ds: seq<Delivery>)
    requires cfg.publishing && Sending.Honest(ticks) && Coverage.HeadsAtMost(up, ticks, top)
    ensures
      var batches := Stream(Scanner.After(cfg, up, ticks).attempts);
      forall r :: r in DeliverAll(batches, Initial(batches, table0), ds).table ==>
        r in table0 || r.blockNumber + cfg.safeBlockBuffer <= top
  {
    var run := Scanner.After(cfg, up, ticks);
    Sending.RunTrace(cfg, up, ticks);
    Sending.RunLabelled(cfg, up, ticks);
    Coverage.NothingBeyondSafe(cfg, up, ticks, top);
    StreamBlockNumbers(run.history, top - cfg.safeBlockBuffer);
    RowsWithinBlocks(Stream(run.attempts), table0, ds, top - cfg.safeBlockBuffer);
  }

  // ---------- What the two services make of particular events ----------

  /** An outgoing native event becomes a row exactly when its receipt was found: without one its fee is the empty
      text, which the ledger cannot read. */
  lemma OutgoingRowNeedsReceipt(tx: Native.Tx, addr: Address, c: Native.Context, network: nat,
                                wallets: Wallets)
    ensures Mappable(Native.OutgoingEvent(tx, addr, c), network, wallets) <==>
            (addr, network) in wallets && tx.hash in c.receipts
  {
  }

  /** Every USDC event becomes a row as soon as its wallet is known, receipt or not. */
  lemma {:induction false} UsdcEventsAlwaysMap(logs: seq<Usdc.Log>, addrs: seq<Address>, chain: map<Hash, Receipt>,
                                               contract: Address, network: nat, wallets: Wallets)
    ensures forall e :: e in Usdc.UsdcActivity(logs, addrs, chain, contract) ==>
      (Mappable(e, network, wallets) <==> (e.wallet, network) in wallets)
  {
    if logs != [] {
      var front, log := logs[..|logs| - 1], logs[|logs| - 1];
      UsdcEventsAlwaysMap(front, addrs, chain, contract, network, wallets);
      LogEventsAlwaysMap(log, addrs, Usdc.DirectGas(log, chain), contract, network, wallets);
    }
  }

  lemma {:induction false} LogEventsAlwaysMap(log: Usdc.Log, addrs: seq<Address>, gas: Option<GasDetails>,
                                              contract: Address, network: nat, wallets: Wallets)
    requires gas.Some? ==> Readable(gas.value.feePaid)
    ensures forall e :: e in Usdc.LogEvents(log, addrs, gas, contract) ==>
      (Mappable(e, network, wallets) <==> (e.wallet, network) in wallets)
  {
    if addrs != [] {
      LogEventsAlwaysMap(log, addrs[..|addrs| - 1], gas, contract, network, wallets);
    }
  }

  ghost predicate OneWalletEach(network: nat, wallets: Wallets) {
    forall a, b :: (a, network) in wallets && (b, network) in wallets && a != b ==>
      wallets[(a, network)] != wallets[(b, network)]
  }

  /** The native activity of a block is never refused for its keys: it goes in whenever its numbers fit and its
      transactions are new to the table. */
  lemma {:induction false} NativeActivityCommits(msg: BlockMessage, txs: seq<Native.Tx>, addrs: seq<Address>,
                                                 c: Native.Context, table: seq<Row>, wallets: Wallets)
    requires Distinct(addrs) && Native.HashesDistinct(txs) && msg.events == Native.NativeScan(txs, addrs, c)
    requires WellFormed(msg) && OneWalletEach(msg.networkId.id, wallets) && UniqueKeys(table)
    requires forall i :: 0 <= i < |msg.events| ==> FitsColumns(msg.events[i])
    requires forall i, k :: 0 <= i < |msg.events| && 0 <= k < |table| ==> table[k].txHash != msg.events[i].txHash
    ensures Commits(table, msg, wallets)
  {
    Native.NativeExact(txs, addrs, c);
    Native.NativeKeysDistinct(txs, Native.Elements(addrs), c);
    var events, network := msg.events, msg.networkId.id;
    forall i, j | 0 <= i < j < |events|
                  && Mappable(events[i], network, wallets) && Mappable(events[j], network, wallets)
      ensures EventRowKey(events[i], network, wallets) != EventRowKey(events[j], network, wallets)
    {
      assert Native.EventKey(events[i]) != Native.EventKey(events[j]);
    }
    CommitsExactly(table, msg, wallets);
  }

  /** Two mappable events with one key in one batch: the whole batch is refused, by every table. */
  lemma RepeatedKeyRefusesBatch(table: seq<Row>, msg: BlockMessage, wallets: Wallets, i: nat, j: nat)
    requires UniqueKeys(table) && WellFormed(msg) && i < j < |msg.events|
    requires Mappable(msg.events[i], msg.networkId.id, wallets) && Mappable(msg.events[j], msg.networkId.id, wallets)
    requires EventRowKey(msg.events[i], msg.networkId.id, wallets) ==
             EventRowKey(msg.events[j], msg.networkId.id, wallets)
    ensures !Commits(table, msg, wallets)
  {
    CommitsExactly(table, msg, wallets);
  }

  /** An amount of twenty-one digits, such as 100 ETH in wei, keeps its whole batch out for good. */
  lemma OversizedAmountRefusesBatch(table: seq<Row>, msg: BlockMessage, wallets: Wallets, i: nat)
    requires UniqueKeys(table) && WellFormed(msg) && i < |msg.events|
    requires Mappable(msg.events[i], msg.networkId.id, wallets)
    requires msg.events[i].amount.Some? && msg.events[i].amount.value.value >= 100_000_000_000_000_000_000
    ensures !Commits(table, msg, wallets)
  {
    CommitsExactly(table, msg, wallets);
  }
}
