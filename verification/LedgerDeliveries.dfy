/** The ledger behind an at-least-once broker: any delivery order, any number of redeliveries, crashes on either
    side of the commit. */
module LedgerDeliveries {
  import opened Schema
  import opened Ledger

  // ---------- Exactly when a batch goes in ----------

  function EventRowKey(e: ActivityEvent, network: nat, wallets: Wallets): (Option<Hash>, WalletId, ActivityType)
    requires (e.wallet, network) in wallets
  {
    (e.txHash, wallets[(e.wallet, network)], e.activityType)
  }

  predicate TwentyDigits(n: int) {
    -99_999_999_999_999_999_999 <= n <= 99_999_999_999_999_999_999
  }

  predicate Fits(n: Option<NumText>) {
    n.Some? && n.value.Digits? ==> TwentyDigits(n.value.value)
  }

  predicate FitsColumns(e: ActivityEvent) {
    e.txHash.Some? && Fits(e.amount) && (e.gas.Some? ==> Fits(e.gas.value.feePaid))
  }

  /** Of the mappable events: all fit their columns, no two share a key, and no key is taken. */
  ghost predicate Insertable(table: seq<Row>, events: seq<ActivityEvent>, network: nat, wallets: Wallets) {
    && (forall i :: 0 <= i < |events| && Mappable(events[i], network, wallets) ==>
          && FitsColumns(events[i])
          && forall k :: 0 <= k < |table| ==> Key(table[k]) != EventRowKey(events[i], network, wallets))
    && (forall i, j :: 0 <= i < j < |events|
                       && Mappable(events[i], network, wallets) && Mappable(events[j], network, wallets) ==>
          EventRowKey(events[i], network, wallets) != EventRowKey(events[j], network, wallets))
  }

  lemma InsertableSnoc(table: seq<Row>, front: seq<ActivityEvent>, e: ActivityEvent, network: nat,
                       wallets: Wallets)
    ensures Insertable(table, front + [e], network, wallets) <==>
      && Insertable(table, front, network, wallets)
      && (Mappable(e, network, wallets) ==>
            && FitsColumns(e)
            && (forall k :: 0 <= k < |table| ==> Key(table[k]) != EventRowKey(e, network, wallets))
            && (forall i :: 0 <= i < |front| && Mappable(front[i], network, wallets) ==>
                  EventRowKey(front[i], network, wallets) != EventRowKey(e, network, wallets)))
  {
    var all := front + [e];
    assert all[|front|] == e;
    assert forall i :: 0 <= i < |front| ==> all[i] == front[i];
  }

  /** The new row is fresh for the table and the batch's earlier rows exactly when its event's key is. */
  lemma {:induction false} FreshRow(table: seq<Row>, front: seq<ActivityEvent>, e: ActivityEvent, network: nat,
                                    number: int, time: int, wallets: Wallets, r: Row)
    requires ToEntity(e, network, number, time, wallets) == Some(r)
    ensures
      var before := table + RowsOf(front, network, number, time, wallets);
      (forall k :: 0 <= k < |before| ==> Key(before[k]) != Key(r)) <==>
      ((forall k :: 0 <= k < |table| ==> Key(table[k]) != EventRowKey(e, network, wallets)) &&
       (forall i :: 0 <= i < |front| && Mappable(front[i], network, wallets) ==>
          EventRowKey(front[i], network, wallets) != EventRowKey(e, network, wallets)))
  {
    var rows := RowsOf(front, network, number, time, wallets);
    var before := table + rows;
    if forall k :: 0 <= k < |before| ==> Key(before[k]) != Key(r) {
      forall k | 0 <= k < |table|
        ensures Key(table[k]) != EventRowKey(e, network, wallets)
      {
        assert before[k] == table[k];
      }
      forall i | 0 <= i < |front| && Mappable(front[i], network, wallets)
        ensures EventRowKey(front[i], network, wallets) != EventRowKey(e, network, wallets)
      {
        MappableEventHasRow(front, network, number, time, wallets, i);
        var x :| x in rows && Key(x) == EventRowKey(front[i], network, wallets);
        var m :| 0 <= m < |rows| && rows[m] == x;
        assert before[|table| + m] == x;
      }
    }
    if (forall k :: 0 <= k < |table| ==> Key(table[k]) != EventRowKey(e, network, wallets)) &&
       (forall i :: 0 <= i < |front| && Mappable(front[i], network, wallets) ==>
          EventRowKey(front[i], network, wallets) != EventRowKey(e, network, wallets)) {
      forall k | 0 <= k < |before|
        ensures Key(before[k]) != Key(r)
      {
        if k >= |table| {
          assert before[k] == rows[k - |table|];
          var i := RowHasEvent(front, network, number, time, wallets, before[k]);
        }
      }
    }
  }

  lemma {:induction false} InsertableExactly(table: seq<Row>, events: seq<ActivityEvent>, network: nat, number: int,
                                             time: int, wallets: Wallets)
    requires UniqueKeys(table)
    ensures
      var rows := RowsOf(events, network, number, time, wallets);
      AllStorable(rows) && UniqueKeys(table + rows) <==> Insertable(table, events, network, wallets)
  {
    if events == [] {
      assert table + [] == table;
    } else {
      var front, e := events[..|events| - 1], events[|events| - 1];
      InsertableExactly(table, front, network, number, time, wallets);
      assert events == front + [e];
      InsertableSnoc(table, front, e, network, wallets);
      var row := ToEntity(e, network, number, time, wallets);
      var rows := RowsOf(front, network, number, time, wallets);
      if row.Some? {
        assert table + (rows + [row.value]) == table + rows + [row.value];
        assert RowsOf(events, network, number, time, wallets) == rows + [row.value];
        FreshRow(table, front, e, network, number, time, wallets, row.value);
        StorableSnoc(rows, row.value);
        UniqueSnocExactly(table + rows, row.value);
        assert Storable(row.value) <==> FitsColumns(e);
        assert Mappable(e, network, wallets);
      } else {
        assert !Mappable(e, network, wallets);
        assert RowsOf(events, network, number, time, wallets) == rows;
      }
    }
  }

  lemma UniqueSnocExactly(t: seq<Row>, r: Row)
    ensures UniqueKeys(t + [r]) <==> UniqueKeys(t) && forall k :: 0 <= k < |t| ==> Key(t[k]) != Key(r)
  {
    if UniqueKeys(t) {
      UniqueSnoc(t, r);
    } else if UniqueKeys(t + [r]) {
      UniquePrefix(t, [r]);
    }
  }

  lemma StorableSnoc(rows: seq<Row>, r: Row)
    ensures AllStorable(rows + [r]) <==> AllStorable(rows) && Storable(r)
  {
    assert (rows + [r])[|rows|] == r;
    assert forall i :: 0 <= i < |rows| ==> (rows + [r])[i] == rows[i];
  }

  /** A batch is stored if and only if it is empty, or its header is well formed and its mappable events fit
      their columns and bring keys that are new and distinct. */
  lemma CommitsExactly(table: seq<Row>, msg: BlockMessage, wallets: Wallets)
    requires UniqueKeys(table)
    ensures Commits(table, msg, wallets) <==>
            msg.events == [] || (WellFormed(msg) && Insertable(table, msg.events, msg.networkId.id, wallets))
  {
    if WellFormed(msg) {
      InsertableExactly(table, msg.events, msg.networkId.id, msg.blockNumber, msg.blockTimestamp.value, wallets);
    }
  }

  // ---------- Deliveries ----------

  /** Handled normally; failing for a reason outside the batch; or cut off before or after the commit, which
      also stands for an ack that never arrives. */
  datatype Fate = Handled | Failing | CrashBeforeCommit | CrashAfterCommit

  datatype Delivery = Delivery(i: nat, fate: Fate, wallets: Wallets)

  /** `acked` keeps the wallet table an acked batch was stored under, `committed` the order of first commits. */
  datatype State = State(table: seq<Row>, pending: set<nat>, acked: map<nat, Wallets>, committed: seq<nat>)

  function Upto(n: nat): (u: set<nat>)
    ensures forall i: nat :: i in u <==> i < n
  {
    if n == 0 then {} else Upto(n - 1) + {n - 1}
  }

  function Initial(batches: seq<Wire>, table: seq<Row>): State {
    State(table, Upto(|batches|), map[], [])
  }

  function Commit(s: State, w: Wire, i: nat, wallets: Wallets): State {
    s.(table := s.table + RowsIn(w, wallets),
    committed := if i in s.committed then s.committed else s.committed + [i])
  }

  function Deliver(batches: seq<Wire>, s: State, d: Delivery): State {
    if d.i !in s.pending || d.i >= |batches| then s
    else if d.fate.Failing? || d.fate.CrashBeforeCommit? then s
    else if !Accepts(s.table, batches[d.i], d.wallets) then s
    else
      var r := Commit(s, batches[d.i], d.i, d.wallets);
      if d.fate.CrashAfterCommit? then r
      else r.(pending := r.pending - {d.i}, acked := r.acked[d.i := d.wallets])
  }

  function DeliverAll(batches: seq<Wire>, s: State, ds: seq<Delivery>): State {
    if ds == [] then s else Deliver(batches, DeliverAll(batches, s, ds[..|ds| - 1]), ds[|ds| - 1])
  }

  /** Safety: keys stay unique, no batch is lost, and an acked batch has every mappable row in the table. */
  ghost predicate Safe(batches: seq<Wire>, table0: seq<Row>, s: State) {
    && UniqueKeys(s.table)
    && table0 <= s.table
    && (forall i :: 0 <= i < |batches| <==> i in s.pending || i in s.acked)
    && (forall i :: i in s.pending ==> i !in s.acked)
    && (forall i :: i in s.acked ==> i < |batches| && batches[i].Decoded?
                                     && forall r :: r in RowsIn(batches[i], s.acked[i]) ==> r in s.table)
  }

  lemma {:induction false} LedgerSafety(batches: seq<Wire>, table0: seq<Row>, ds: seq<Delivery>)
    requires UniqueKeys(table0)
    ensures Safe(batches, table0, DeliverAll(batches, Initial(batches, table0), ds))
  {
    if ds != [] {
      LedgerSafety(batches, table0, ds[..|ds| - 1]);
      DeliverySafe(batches, table0, DeliverAll(batches, Initial(batches, table0), ds[..|ds| - 1]), ds[|ds| - 1]);
    }
  }

  lemma DeliverySafe(batches: seq<Wire>, table0: seq<Row>, s: State, d: Delivery)
    requires Safe(batches, table0, s)
    ensures Safe(batches, table0, Deliver(batches, s, d))
  {
    var r := Deliver(batches, s, d);
    if r != s {
      assert Accepts(s.table, batches[d.i], d.wallets);
      if batches[d.i].msg.events == [] {
        assert RowsIn(batches[d.i], d.wallets) == [];
        assert r.table == s.table;
      }
      assert UniqueKeys(r.table);
    }
  }

  /** All or nothing: a delivery adds every mappable row of its batch, in order, or changes no row. */
  lemma DeliveryIsAtomic(batches: seq<Wire>, s: State, d: Delivery)
    ensures
      var r := Deliver(batches, s, d);
      && (r.table == s.table || (d.i < |batches| && r.table == s.table + RowsIn(batches[d.i], d.wallets)))
      && (d.i in r.acked && d.i !in s.acked ==> r.table == s.table + RowsIn(batches[d.i], d.wallets))
  {
  }

  /** What becomes of a delivery: a failure or a crash before the commit changes nothing; a normal one commits and acks
      exactly when the batch is accepted, and changes nothing otherwise; a crash after the commit keeps it pending. */
  lemma FateDecides(batches: seq<Wire>, s: State, d: Delivery)
    requires d.i in s.pending && d.i < |batches|
    ensures d.fate in {Failing, CrashBeforeCommit} || !Accepts(s.table, batches[d.i], d.wallets) ==>
      Deliver(batches, s, d) == s
    ensures d.fate in {Handled, CrashAfterCommit} && Accepts(s.table, batches[d.i], d.wallets) ==>
      var r := Deliver(batches, s, d);
      && r.table == s.table + RowsIn(batches[d.i], d.wallets)
      && d.i in r.committed && (forall k :: k in r.committed <==> k in s.committed || k == d.i)
      && r.pending == (if d.fate == Handled then s.pending - {d.i} else s.pending)
      && r.acked == if d.fate == Handled then s.acked[d.i := d.wallets] else s.acked
  {
  }

  /** One delivery taken through the ledger's listener. What becomes of the table is its doing: all mappable rows of
      the batch or none; a crash only keeps its reply from the broker. */
  method HandleDelivery(listener: BlockActivityListener, batches: seq<Wire>, s: State, d: Delivery) returns (r: State)
    requires s.table == listener.service.table && UniqueKeys(s.table)
    modifies listener.service
    ensures r == Deliver(batches, s, d) && listener.service.table == r.table && UniqueKeys(r.table)
    ensures
      var before, after := old(listener.service.table), listener.service.table;
      after == before || (d.i < |batches| && after == before + RowsIn(batches[d.i], d.wallets))
  {
    if d.i !in s.pending || d.i >= |batches| || d.fate.CrashBeforeCommit? {
      return s;
    }
    var reply := listener.Handle(batches[d.i], d.wallets, d.fate.Failing?);
    r := s.(table := listener.service.table);
    if reply.Nak? {
      return;
    }
    if d.i !in s.committed {
      r := r.(committed := s.committed + [d.i]);
    }
    if !d.fate.CrashAfterCommit? {
      r := r.(pending := s.pending - {d.i}, acked := s.acked[d.i := d.wallets]);
    }
  }

  /** A whole schedule of deliveries, from the table the ledger starts with. */
  method HandleDeliveries(listener: BlockActivityListener, batches: seq<Wire>, ds: seq<Delivery>) returns (s: State)
    requires UniqueKeys(listener.service.table)
    modifies listener.service
    ensures s == DeliverAll(batches, Initial(batches, old(listener.service.table)), ds)
    ensures listener.service.table == s.table
  {
    s := Initial(batches, listener.service.table);
    for k := 0 to |ds|
      invariant s == DeliverAll(batches, Initial(batches, old(listener.service.table)), ds[..k])
      invariant listener.service.table == s.table && UniqueKeys(s.table)
    {
      assert ds[..k + 1][..k] == ds[..k];
      s := HandleDelivery(listener, batches, s, ds[k]);
    }
    assert ds[..|ds|] == ds;
  }

  // ---------- Refusal is permanent ----------

  lemma UniqueSubsequence(a: seq<Row>, mid: seq<Row>, b: seq<Row>)
    requires UniqueKeys(a + mid + b)
    ensures UniqueKeys(a + b)
  {
    var long, short := a + mid + b, a + b;
    forall i, j | 0 <= i < j < |short|
      ensures Key(short[i]) != Key(short[j])
    {
      var i', j' := if i < |a| then i else i + |mid|, if j < |a| then j else j + |mid|;
      assert long[i'] == short[i] && long[j'] == short[j];
    }
  }

  /** A batch refused for its content stays pending whatever is delivered afterwards, as long as the wallet
      table it is mapped with stays the same. */
  lemma {:induction false} RefusalIsPermanent(batches: seq<Wire>, s: State, ds: seq<Delivery>, i: nat, wallets: Wallets)
    requires i in s.pending && i < |batches| && !Accepts(s.table, batches[i], wallets)
    requires forall k :: 0 <= k < |ds| && ds[k].i == i ==> ds[k].wallets == wallets
    ensures i in DeliverAll(batches, s, ds).pending
    ensures s.table <= DeliverAll(batches, s, ds).table
    ensures !Accepts(DeliverAll(batches, s, ds).table, batches[i], wallets)
  {
    if ds != [] {
      var front, d := ds[..|ds| - 1], ds[|ds| - 1];
      RefusalIsPermanent(batches, s, front, i, wallets);
      var before, after := DeliverAll(batches, s, front), DeliverAll(batches, s, ds);
      DeliveryIsAtomic(batches, before, d);
      var more := after.table[|before.table|..];
      assert before.table + more == after.table;
      if Accepts(after.table, batches[i], wallets) && batches[i].msg.events != [] {
        UniqueSubsequence(before.table, more, RowsIn(batches[i], wallets));
      }
    }
  }

  lemma OverlapNotUnique(t: seq<Row>, rows: seq<Row>)
    requires rows != [] && rows[0] in t
    ensures !UniqueKeys(t + rows)
  {
    var k :| 0 <= k < |t| && t[k] == rows[0];
    var twice := t + rows;
    assert twice[k] == twice[|t|];
  }

  /** A batch that committed rows and was not acked is refused from then on. */
  lemma CommittedIsRefused(batches: seq<Wire>, s: State, d: Delivery)
    requires d.i in s.pending && d.i < |batches| && d.fate.CrashAfterCommit?
    requires Accepts(s.table, batches[d.i], d.wallets) && RowsIn(batches[d.i], d.wallets) != []
    ensures !Accepts(Deliver(batches, s, d).table, batches[d.i], d.wallets)
    ensures d.i in Deliver(batches, s, d).pending
  {
    OverlapNotUnique(Deliver(batches, s, d).table, RowsIn(batches[d.i], d.wallets));
  }

  /** So a crash between commit and ack leaves the batch unacked for good, though its rows are stored. */
  lemma {:induction false} CrashAfterCommitNeverAcked(batches: seq<Wire>, s: State, d: Delivery, ds: seq<Delivery>)
    requires d.i in s.pending && d.i < |batches| && d.fate.CrashAfterCommit?
    requires Accepts(s.table, batches[d.i], d.wallets) && RowsIn(batches[d.i], d.wallets) != []
    requires forall k :: 0 <= k < |ds| && ds[k].i == d.i ==> ds[k].wallets == d.wallets
    ensures
      var e := DeliverAll(batches, Deliver(batches, s, d), ds);
      d.i in e.pending && s.table + RowsIn(batches[d.i], d.wallets) <= e.table
  {
    var r := Deliver(batches, s, d);
    CommittedIsRefused(batches, s, d);
    assert r.table == s.table + RowsIn(batches[d.i], d.wallets);
    RefusalIsPermanent(batches, r, ds, d.i, d.wallets);
  }

  // ---------- The table is a sum of whole batches ----------

  function CommittedRows(batches: seq<Wire>, order: seq<nat>, wallets: Wallets): seq<Row> {
    if order == [] then []
    else
      var i := order[|order| - 1];
      CommittedRows(batches, order[..|order| - 1], wallets) + if i < |batches| then RowsIn(batches[i], wallets) else []
  }

  lemma {:induction false} CommittedRowsMember(batches: seq<Wire>, order: seq<nat>, wallets: Wallets, i: nat)
    requires i in order && i < |batches|
    ensures forall r :: r in RowsIn(batches[i], wallets) ==> r in CommittedRows(batches, order, wallets)
  {
    var front := order[..|order| - 1];
    if order[|order| - 1] != i {
      assert order == front + [order[|order| - 1]];
      CommittedRowsMember(batches, front, wallets, i);
    }
  }

  /** A batch that a table could take. */
  predicate Sound(w: Wire, wallets: Wallets) {
    w.Decoded? && (w.msg.events == [] || WellFormed(w.msg)) && AllStorable(RowsIn(w, wallets))
  }

  /** Under one wallet table the rows added are those of distinct whole batches, in the order of their commits. */
  ghost predicate SumOfBatches(batches: seq<Wire>, table0: seq<Row>, wallets: Wallets, s: State) {
    && UniqueKeys(s.table)
    && Distinct(s.committed)
    && (forall k :: 0 <= k < |s.committed| ==> s.committed[k] < |batches|)
    && (forall i :: i in s.acked ==> i in s.committed)
    && (forall k :: 0 <= k < |s.committed| ==> Sound(batches[s.committed[k]], wallets))
    && s.table == table0 + CommittedRows(batches, s.committed, wallets)
  }

  lemma EmptyBatchHasNoRows(w: Wire, wallets: Wallets)
    requires w.Decoded? && w.msg.events == []
    ensures RowsIn(w, wallets) == []
  {
  }

  /** A second commit of a batch can only be one that adds nothing. */
  lemma RecommitAddsNothing(batches: seq<Wire>, table0: seq<Row>, wallets: Wallets, s: State, i: nat)
    requires SumOfBatches(batches, table0, wallets, s) && i in s.committed && i < |batches|
    requires Accepts(s.table, batches[i], wallets)
    ensures RowsIn(batches[i], wallets) == []
  {
    var rows := RowsIn(batches[i], wallets);
    if rows != [] {
      CommittedRowsMember(batches, s.committed, wallets, i);
      OverlapNotUnique(s.table, rows);
    }
  }

  lemma {:induction false} FirstCommitAddsBatch(batches: seq<Wire>, table0: seq<Row>, wallets: Wallets, s: State,
                                                i: nat)
    requires SumOfBatches(batches, table0, wallets, s) && i !in s.committed && i < |batches|
    ensures s.table + RowsIn(batches[i], wallets) == table0 + CommittedRows(batches, s.committed + [i], wallets)
  {
    assert (s.committed + [i])[..|s.committed|] == s.committed;
    var before, rows := CommittedRows(batches, s.committed, wallets), RowsIn(batches[i], wallets);
    assert table0 + before + rows == table0 + (before + rows);
  }

  lemma AcceptedIsSound(table: seq<Row>, w: Wire, wallets: Wallets)
    requires UniqueKeys(table) && Accepts(table, w, wallets)
    ensures Sound(w, wallets) && UniqueKeys(table + RowsIn(w, wallets))
  {
    if w.msg.events == [] {
      EmptyBatchHasNoRows(w, wallets);
      assert table + [] == table;
    }
  }

  lemma CommitKeepsSum(batches: seq<Wire>, table0: seq<Row>, wallets: Wallets, s: State, i: nat)
    requires SumOfBatches(batches, table0, wallets, s) && i < |batches| && Accepts(s.table, batches[i], wallets)
    ensures SumOfBatches(batches, table0, wallets, Commit(s, batches[i], i, wallets))
  {
    AcceptedIsSound(s.table, batches[i], wallets);
    if i in s.committed {
      RecommitAddsNothing(batches, table0, wallets, s, i);
      assert s.table + [] == s.table;
    } else {
      FirstCommitAddsBatch(batches, table0, wallets, s, i);
      DistinctSnoc(s.committed, i);
    }
  }

  lemma SumOfBatchesStep(batches: seq<Wire>, table0: seq<Row>, wallets: Wallets, s: State,
                         d: Delivery)
    requires SumOfBatches(batches, table0, wallets, s) && d.wallets == wallets
    ensures SumOfBatches(batches, table0, wallets, Deliver(batches, s, d))
  {
    if d.i in s.pending && d.i < |batches| && Accepts(s.table, batches[d.i], wallets) {
      CommitKeepsSum(batches, table0, wallets, s, d.i);
      assert d.i in Commit(s, batches[d.i], d.i, wallets).committed;
    }
  }

  lemma {:induction false} AlwaysSumOfBatches(batches: seq<Wire>, table0: seq<Row>, wallets: Wallets, ds: seq<Delivery>)
    requires UniqueKeys(table0)
    requires forall k :: 0 <= k < |ds| ==> ds[k].wallets == wallets
    ensures SumOfBatches(batches, table0, wallets, DeliverAll(batches, Initial(batches, table0), ds))
  {
    if ds == [] {
      assert table0 + [] == table0;
    } else {
      AlwaysSumOfBatches(batches, table0, wallets, ds[..|ds| - 1]);
      SumOfBatchesStep(batches, table0, wallets, DeliverAll(batches, Initial(batches, table0), ds[..|ds| - 1]),
                       ds[|ds| - 1]);
    }
  }

  /** What the unique key makes of a redelivery: a batch that has committed is acked by its next normal delivery if
      and only if it has no rows at all. */
  lemma {:induction false} RedeliveryAckedExactly(batches: seq<Wire>, table0: seq<Row>, wallets: Wallets,
                                                  ds: seq<Delivery>, i: nat)
    requires UniqueKeys(table0) && i < |batches|
    requires forall k :: 0 <= k < |ds| ==> ds[k].wallets == wallets
    requires i in DeliverAll(batches, Initial(batches, table0), ds).committed
    requires i in DeliverAll(batches, Initial(batches, table0), ds).pending
    ensures i in DeliverAll(batches, Initial(batches, table0), ds + [Delivery(i, Handled, wallets)]).acked <==>
            RowsIn(batches[i], wallets) == []
  {
    var s, d := DeliverAll(batches, Initial(batches, table0), ds), Delivery(i, Handled, wallets);
    AlwaysSumOfBatches(batches, table0, wallets, ds);
    LedgerSafety(batches, table0, ds);
    assert (ds + [d])[..|ds|] == ds;
    if Accepts(s.table, batches[i], wallets) {
      RecommitAddsNothing(batches, table0, wallets, s, i);
    } else {
      var k :| 0 <= k < |s.committed| && s.committed[k] == i;
      assert Sound(batches[s.committed[k]], wallets);
      assert s.table + [] == s.table;
    }
  }

  /** The rows of all batches, in stream order. */
  function AllRows(batches: seq<Wire>, wallets: Wallets): seq<Row> {
    if batches == [] then []
    else AllRows(batches[..|batches| - 1], wallets) + RowsIn(batches[|batches| - 1], wallets)
  }

  /** The rows of the batches numbered in `which`, counted without an order. */
  function RowSum(batches: seq<Wire>, which: set<nat>, wallets: Wallets): multiset<Row> {
    if batches == [] then multiset{}
    else
      var n := |batches| - 1;
      RowSum(batches[..n], which, wallets) + if n in which then multiset(RowsIn(batches[n], wallets)) else multiset{}
  }

  /** The rows of batch i, if there is one. */
  function RowsAt(batches: seq<Wire>, i: nat, wallets: Wallets): multiset<Row> {
    if i < |batches| then multiset(RowsIn(batches[i], wallets)) else multiset{}
  }

  lemma {:induction false} RowSumAdd(batches: seq<Wire>, which: set<nat>, i: nat, wallets: Wallets)
    requires i !in which
    ensures RowSum(batches, which + {i}, wallets) == RowSum(batches, which, wallets) + RowsAt(batches, i, wallets)
  {
    if batches != [] {
      var front := batches[..|batches| - 1];
      RowSumAdd(front, which, i, wallets);
      if i == |front| {
        assert RowsAt(front, i, wallets) == multiset{};
      } else {
        assert |front| in which + {i} <==> |front| in which;
        assert RowsAt(front, i, wallets) == RowsAt(batches, i, wallets);
      }
    }
  }

  lemma {:induction false} RowSumBounds(batches: seq<Wire>, which: set<nat>, wallets: Wallets)
    ensures RowSum(batches, which, wallets) <= multiset(AllRows(batches, wallets))
    ensures (forall i :: 0 <= i < |batches| ==> i in which) ==>
      RowSum(batches, which, wallets) == multiset(AllRows(batches, wallets))
  {
    if batches != [] {
      RowSumBounds(batches[..|batches| - 1], which, wallets);
    }
  }

  function Members(order: seq<nat>): set<nat> {
    set i | i in order
  }

  lemma {:induction false} CommittedRowsSum(batches: seq<Wire>, order: seq<nat>, wallets: Wallets)
    requires Distinct(order)
    ensures multiset(CommittedRows(batches, order, wallets)) == RowSum(batches, Members(order), wallets)
  {
    if order == [] {
      RowSumNone(batches, wallets);
    } else {
      var front, i := order[..|order| - 1], order[|order| - 1];
      CommittedRowsSum(batches, front, wallets);
      assert order == front + [i];
      assert Members(order) == Members(front) + {i};
      RowSumAdd(batches, Members(front), i, wallets);
      var more := if i < |batches| then RowsIn(batches[i], wallets) else [];
      assert multiset(CommittedRows(batches, front, wallets) + more) ==
             multiset(CommittedRows(batches, front, wallets)) + multiset(more);
    }
  }

  lemma {:induction false} RowSumNone(batches: seq<Wire>, wallets: Wallets)
    ensures RowSum(batches, Members([]), wallets) == multiset{}
  {
    if batches != [] {
      RowSumNone(batches[..|batches| - 1], wallets);
    }
  }

  lemma {:induction false} CommittedWithinAll(batches: seq<Wire>, order: seq<nat>, wallets: Wallets)
    requires Distinct(order)
    ensures multiset(CommittedRows(batches, order, wallets)) <= multiset(AllRows(batches, wallets))
    ensures (forall i :: 0 <= i < |batches| ==> i in order) ==>
      multiset(CommittedRows(batches, order, wallets)) == multiset(AllRows(batches, wallets))
  {
    CommittedRowsSum(batches, order, wallets);
    RowSumBounds(batches, Members(order), wallets);
  }

  lemma OnTop(table0: seq<Row>, mine: seq<Row>, all: seq<Row>)
    requires multiset(mine) <= multiset(all)
    ensures multiset(table0 + mine) <= multiset(table0 + all)
    ensures multiset(mine) == multiset(all) ==> multiset(table0 + mine) == multiset(table0 + all)
  {
    assert multiset(table0 + mine) == multiset(table0) + multiset(mine);
    assert multiset(table0 + all) == multiset(table0) + multiset(all);
  }

  ghost predicate AllCommitted(batches: seq<Wire>, s: State) {
    forall i :: 0 <= i < |batches| ==> i in s.committed
  }

  /** In every reachable state the table holds at most the rows of all batches on top of what it began with, and
      exactly those once every batch has committed, whatever the order, the redeliveries and the crashes. */
  lemma {:induction false} DeliveryOrderIsImmaterial(batches: seq<Wire>, table0: seq<Row>, wallets: Wallets,
                                                     ds: seq<Delivery>)
    requires UniqueKeys(table0)
    requires forall k :: 0 <= k < |ds| ==> ds[k].wallets == wallets
    ensures multiset(DeliverAll(batches, Initial(batches, table0), ds).table) <=
            multiset(table0 + AllRows(batches, wallets))
    ensures AllCommitted(batches, DeliverAll(batches, Initial(batches, table0), ds)) ==>
      multiset(DeliverAll(batches, Initial(batches, table0), ds).table) == multiset(table0 + AllRows(batches, wallets))
  {
    var s := DeliverAll(batches, Initial(batches, table0), ds);
    AlwaysSumOfBatches(batches, table0, wallets, ds);
    CommittedWithinAll(batches, s.committed, wallets);
    OnTop(table0, CommittedRows(batches, s.committed, wallets), AllRows(batches, wallets));
  }

  // ---------- Nothing stands in the way of a clean stream ----------

  lemma {:induction false} UniqueCount(t: seq<Row>, r: Row)
    requires UniqueKeys(t)
    ensures multiset(t)[r] <= 1
  {
    if t != [] {
      var front, last := t[..|t| - 1], t[|t| - 1];
      assert t == front + [last];
      UniquePrefix(front, [last]);
      UniqueCount(front, r);
      UniqueSnoc(front, last);
      if last == r {
        assert r !in front;
      }
    }
  }

  lemma UniqueSubmultiset(a: seq<Row>, b: seq<Row>)
    requires multiset(a) <= multiset(b) && UniqueKeys(b)
    ensures UniqueKeys(a)
  {
    forall i, j | 0 <= i < j < |a|
      ensures Key(a[i]) != Key(a[j])
    {
      UniqueCount(b, a[i]);
      assert a == a[..j] + [a[j]] + a[j + 1..];
      assert a[..j][i] == a[i] && a[i] in a[..j];
      assert a[i] in multiset(a) && a[j] in multiset(a);
      assert a[i] in b && a[j] in b;
      var i', j' :| 0 <= i' < |b| && 0 <= j' < |b| && b[i'] == a[i] && b[j'] == a[j];
      assert multiset(a)[a[i]] <= 1;
      assert a[i] != a[j];
    }
  }

  lemma {:induction false} RowsWithinAll(batches: seq<Wire>, wallets: Wallets, committed: seq<nat>, i: nat)
    requires Distinct(committed) && i !in committed && i < |batches|
    ensures multiset(CommittedRows(batches, committed, wallets) + RowsIn(batches[i], wallets))
            <= multiset(AllRows(batches, wallets))
  {
    CommittedRowsSum(batches, committed, wallets);
    RowSumAdd(batches, Members(committed), i, wallets);
    RowSumBounds(batches, Members(committed) + {i}, wallets);
  }

  lemma UniqueWithin(table0: seq<Row>, mine: seq<Row>, all: seq<Row>)
    requires multiset(mine) <= multiset(all) && UniqueKeys(table0 + all)
    ensures UniqueKeys(table0 + mine)
  {
    UniqueSubmultiset(table0 + mine, table0 + all);
  }

  lemma {:induction false} CleanBatchAccepted(batches: seq<Wire>, table0: seq<Row>, wallets: Wallets,
                                              committed: seq<nat>, i: nat)
    requires Distinct(committed) && i !in committed && i < |batches|
    requires UniqueKeys(table0 + AllRows(batches, wallets)) && AllStorable(AllRows(batches, wallets))
    requires batches[i].Decoded? && WellFormed(batches[i].msg)
    ensures Accepts(table0 + CommittedRows(batches, committed, wallets), batches[i], wallets)
  {
    var before, rows, all := CommittedRows(batches, committed, wallets), RowsIn(batches[i], wallets),
      AllRows(batches, wallets);
    RowsWithinAll(batches, wallets, committed, i);
    UniqueWithin(table0, before + rows, all);
    assert table0 + (before + rows) == table0 + before + rows;
    assert multiset(rows) <= multiset(before + rows);
    StorableSubmultiset(rows, all);
  }

  lemma StorableSubmultiset(a: seq<Row>, b: seq<Row>)
    requires multiset(a) <= multiset(b) && AllStorable(b)
    ensures AllStorable(a)
  {
    forall k | 0 <= k < |a|
      ensures Storable(a[k])
    {
      assert a[k] in multiset(a);
      assert a[k] in b;
    }
  }

  /** If the whole stream, taken at once, would fit the table, then in every reachable state the next normal
      delivery of a batch that has not committed yet commits and acks it. */
  lemma {:induction false} FirstDeliveriesCommit(batches: seq<Wire>, table0: seq<Row>, wallets: Wallets,
                                                 ds: seq<Delivery>, i: nat)
    requires forall k :: 0 <= k < |ds| ==> ds[k].wallets == wallets
    requires UniqueKeys(table0 + AllRows(batches, wallets)) && AllStorable(AllRows(batches, wallets))
    requires i < |batches| && batches[i].Decoded? && WellFormed(batches[i].msg)
    requires i !in DeliverAll(batches, Initial(batches, table0), ds).committed
    ensures i in DeliverAll(batches, Initial(batches, table0), ds + [Delivery(i, Handled, wallets)]).acked
  {
    var s, d := DeliverAll(batches, Initial(batches, table0), ds), Delivery(i, Handled, wallets);
    UniquePrefix(table0, AllRows(batches, wallets));
    AlwaysSumOfBatches(batches, table0, wallets, ds);
    LedgerSafety(batches, table0, ds);
    CleanBatchAccepted(batches, table0, wallets, s.committed, i);
    assert (ds + [d])[..|ds|] == ds;
  }

  // ---------- Which streams get in at all ----------

  lemma CommittedAreSound(batches: seq<Wire>, table0: seq<Row>, wallets: Wallets, s: State)
    requires SumOfBatches(batches, table0, wallets, s) && AllCommitted(batches, s)
    ensures forall i :: 0 <= i < |batches| ==> Sound(batches[i], wallets)
  {
    forall i | 0 <= i < |batches|
      ensures Sound(batches[i], wallets)
    {
      assert i in s.committed;
      var k :| 0 <= k < |s.committed| && s.committed[k] == i;
      assert Sound(batches[s.committed[k]], wallets);
    }
  }

  lemma {:induction false} AllRowsStorable(batches: seq<Wire>, wallets: Wallets)
    requires forall i :: 0 <= i < |batches| ==> Sound(batches[i], wallets)
    ensures AllStorable(AllRows(batches, wallets))
  {
    if batches != [] {
      AllRowsStorable(batches[..|batches| - 1], wallets);
      assert Sound(batches[|batches| - 1], wallets);
    }
  }

  lemma StorableParts(a: seq<Row>, b: seq<Row>)
    requires AllStorable(a + b)
    ensures AllStorable(a) && AllStorable(b)
  {
    assert forall i :: 0 <= i < |a| ==> (a + b)[i] == a[i];
    assert forall i :: 0 <= i < |b| ==> (a + b)[|a| + i] == b[i];
  }

  lemma {:induction false} PartStorable(batches: seq<Wire>, wallets: Wallets, i: nat)
    requires i < |batches| && AllStorable(AllRows(batches, wallets))
    ensures AllStorable(RowsIn(batches[i], wallets))
  {
    var front, last := batches[..|batches| - 1], batches[|batches| - 1];
    StorableParts(AllRows(front, wallets), RowsIn(last, wallets));
    if i < |front| {
      PartStorable(front, wallets, i);
    }
  }

  lemma {:induction false} CommittedStays(batches: seq<Wire>, s: State, ds: seq<Delivery>, d: Delivery)
    ensures DeliverAll(batches, s, ds + [d]) == Deliver(batches, DeliverAll(batches, s, ds), d)
    ensures forall i :: i in DeliverAll(batches, s, ds).committed ==> i in DeliverAll(batches, s, ds + [d]).committed
  {
    assert (ds + [d])[..|ds|] == ds;
  }

  lemma {:induction false} SoundBatchAccepted(batches: seq<Wire>, table0: seq<Row>, wallets: Wallets,
                                              committed: seq<nat>, i: nat)
    requires Distinct(committed) && i !in committed && i < |batches| && Sound(batches[i], wallets)
    requires UniqueKeys(table0 + AllRows(batches, wallets)) && AllStorable(AllRows(batches, wallets))
    ensures Accepts(table0 + CommittedRows(batches, committed, wallets), batches[i], wallets)
  {
    if batches[i].msg.events != [] {
      CleanBatchAccepted(batches, table0, wallets, committed, i);
    }
  }

  lemma {:induction false} NextCommits(batches: seq<Wire>, table0: seq<Row>, wallets: Wallets, ds: seq<Delivery>,
                                       i: nat)
    requires forall k :: 0 <= k < |ds| ==> ds[k].wallets == wallets
    requires UniqueKeys(table0 + AllRows(batches, wallets)) && AllStorable(AllRows(batches, wallets))
    requires i < |batches| && Sound(batches[i], wallets)
    ensures i in DeliverAll(batches, Initial(batches, table0), ds + [Delivery(i, Handled, wallets)]).committed
  {
    var s, d := DeliverAll(batches, Initial(batches, table0), ds), Delivery(i, Handled, wallets);
    CommittedStays(batches, Initial(batches, table0), ds, d);
    if i !in s.committed {
      UniquePrefix(table0, AllRows(batches, wallets));
      AlwaysSumOfBatches(batches, table0, wallets, ds);
      LedgerSafety(batches, table0, ds);
      SoundBatchAccepted(batches, table0, wallets, s.committed, i);
    }
  }

  /** Every batch numbered below n has committed. */
  ghost predicate CommittedUpto(s: State, n: nat) {
    forall i :: 0 <= i < n ==> i in s.committed
  }

  lemma UptoNext(s: State, r: State, n: nat)
    requires CommittedUpto(s, n) && n in r.committed
    requires forall i :: i in s.committed ==> i in r.committed
    ensures CommittedUpto(r, n + 1)
  {
  }

  lemma {:induction false} InTurnNext(batches: seq<Wire>, table0: seq<Row>, wallets: Wallets, ds: seq<Delivery>, n: nat)
    requires UniqueKeys(table0 + AllRows(batches, wallets)) && n < |batches|
    requires forall i :: 0 <= i < |batches| ==> Sound(batches[i], wallets)
    requires forall k :: 0 <= k < |ds| ==> ds[k].wallets == wallets
    requires CommittedUpto(DeliverAll(batches, Initial(batches, table0), ds), n)
    ensures CommittedUpto(DeliverAll(batches, Initial(batches, table0), ds + [Delivery(n, Handled, wallets)]), n + 1)
  {
    var d := Delivery(n, Handled, wallets);
    AllRowsStorable(batches, wallets);
    NextCommits(batches, table0, wallets, ds, n);
    CommittedStays(batches, Initial(batches, table0), ds, d);
    UptoNext(DeliverAll(batches, Initial(batches, table0), ds), DeliverAll(batches, Initial(batches, table0), ds + [d]),
             n);
  }

  /** Delivering the first n batches in turn. */
  lemma {:induction false} InTurnCommits(batches: seq<Wire>, table0: seq<Row>, wallets: Wallets, n: nat)
    returns (ds: seq<Delivery>)
    requires UniqueKeys(table0 + AllRows(batches, wallets)) && n <= |batches|
    requires forall i :: 0 <= i < |batches| ==> Sound(batches[i], wallets)
    ensures forall k :: 0 <= k < |ds| ==> ds[k].wallets == wallets
    ensures CommittedUpto(DeliverAll(batches, Initial(batches, table0), ds), n)
  {
    ds := [];
    if n > 0 {
      ds := InTurnCommits(batches, table0, wallets, n - 1);
      InTurnNext(batches, table0, wallets, ds, n - 1);
      ds := ds + [Delivery(n - 1, Handled, wallets)];
    }
  }

  /** Some schedule of deliveries gets all batches into the table. */
  ghost predicate StreamGetsIn(batches: seq<Wire>, table0: seq<Row>, wallets: Wallets) {
    exists ds: seq<Delivery> ::
      && (forall k :: 0 <= k < |ds| ==> ds[k].wallets == wallets)
      && AllCommitted(batches, DeliverAll(batches, Initial(batches, table0), ds))
  }

  /** Some schedule, with redeliveries and crashes as it may be, gets a whole stream in if and only if every batch is
      one that a table could take and all their rows together keep the unique key. */
  lemma {:induction false} StreamGetsInExactly(batches: seq<Wire>, table0: seq<Row>, wallets: Wallets)
    requires UniqueKeys(table0)
    ensures StreamGetsIn(batches, table0, wallets) <==>
      && UniqueKeys(table0 + AllRows(batches, wallets))
      && forall i :: 0 <= i < |batches| ==> Sound(batches[i], wallets)
  {
    if StreamGetsIn(batches, table0, wallets) {
      var ds: seq<Delivery> :|
        && (forall k :: 0 <= k < |ds| ==> ds[k].wallets == wallets)
        && AllCommitted(batches, DeliverAll(batches, Initial(batches, table0), ds));
      var s := DeliverAll(batches, Initial(batches, table0), ds);
      AlwaysSumOfBatches(batches, table0, wallets, ds);
      CommittedAreSound(batches, table0, wallets, s);
      DeliveryOrderIsImmaterial(batches, table0, wallets, ds);
      UniqueSubmultiset(table0 + AllRows(batches, wallets), s.table);
    }
    if UniqueKeys(table0 + AllRows(batches, wallets))
       && forall i :: 0 <= i < |batches| ==> Sound(batches[i], wallets) {
      var ds := InTurnCommits(batches, table0, wallets, |batches|);
      assert AllCommitted(batches, DeliverAll(batches, Initial(batches, table0), ds));
    }
  }
}
