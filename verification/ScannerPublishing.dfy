/** What a run sends to the broker. */
module ScannerPublishing {
  import opened Schema
  import opened Publishing
  import opened Scanner
  import opened ScannerCoverage
  import Native = NativeEvents

  function TraceOf(publishing: bool, h: seq<Span>): seq<Attempt> {
    if h == [] then []
    else TraceOf(publishing, h[..|h| - 1]) + SpanTrace(publishing, h[|h| - 1])
  }

  /** The activity of every scanned block, in the order of scanning. */
  function ActivityOf(h: seq<Span>): seq<ActivityEvent> {
    if h == [] then []
    else ActivityOf(h[..|h| - 1]) + if h[|h| - 1].Scanned? then h[|h| - 1].msg.events else []
  }

  lemma {:induction false} ScanTrace(cfg: Config, s: State, p: nat, t: TickInput, addrs: seq<Address>, n: int, end: int)
    requires p < |s.providers|
    requires s.attempts == TraceOf(cfg.publishing, s.history)
    ensures
      var r := Scan(cfg, s, p, t, addrs, n, end);
      r.attempts == TraceOf(cfg.publishing, r.history)
    decreases end - n + 1
  {
    if n <= end && n in t.blocks {
      var s' := Process(cfg, s, t, addrs, n);
      assert s'.history[..|s'.history| - 1] == s.history;
      ScanTrace(cfg, s', p, t, addrs, n + 1, end);
    }
  }

  lemma {:induction false} SkipTrace(publishing: bool, h: seq<Span>, first: int, last: int)
    ensures TraceOf(publishing, h + [Skipped(first, last)]) == TraceOf(publishing, h)
  {
    assert (h + [Skipped(first, last)])[..|h|] == h;
  }

  lemma AdvanceKeepsTrace(s: State, ok: bool)
    ensures Advance(s, ok).attempts == s.attempts && Advance(s, ok).history == s.history
  {
  }

  lemma TickTrace(cfg: Config, s: State, t: TickInput)
    requires s.attempts == TraceOf(cfg.publishing, s.history)
    ensures Tick(cfg, s, t).attempts == TraceOf(cfg.publishing, Tick(cfg, s, t).history)
  {
    var r := Refresh(s, t);
    var p := FirstHealthy(r.providers);
    if p < |r.providers| && t.head.Head? && t.wallets.Some? {
      var safe := SafeBlock(cfg, t.head.number);
      var from := StartOf(r, safe);
      if t.wallets.value == [] {
        SkipTrace(cfg.publishing, s.history, from, safe);
      } else if from <= safe {
        var end := EndOf(cfg, from, safe);
        ScanTrace(cfg, r, p, t, t.wallets.value, from, end);
        AdvanceKeepsTrace(Scan(cfg, r, p, t, t.wallets.value, from, end), t.writeOk);
      }
    }
  }

  lemma {:induction false} RunTrace(cfg: Config, up: Setup, ticks: seq<TickInput>)
    ensures After(cfg, up, ticks).attempts == TraceOf(cfg.publishing, After(cfg, up, ticks).history)
  {
    if ticks != [] {
      RunTrace(cfg, up, ticks[..|ticks| - 1]);
      TickTrace(cfg, After(cfg, up, ticks[..|ticks| - 1]), ticks[|ticks| - 1]);
    }
  }

  /** Without a publisher no call is made. */
  lemma {:induction false} NoPublisherNoCalls(cfg: Config, up: Setup, ticks: seq<TickInput>)
    requires !cfg.publishing
    ensures After(cfg, up, ticks).attempts == []
  {
    RunTrace(cfg, up, ticks);
    NoTrace(After(cfg, up, ticks).history);
  }

  lemma {:induction false} NoTrace(h: seq<Span>)
    ensures TraceOf(false, h) == []
  {
    if h != [] {
      NoTrace(h[..|h| - 1]);
    }
  }

  // ---------- Order ----------

  /** Providers return the block they are asked for. */
  ghost predicate Honest(ticks: seq<TickInput>) {
    forall k, n :: 0 <= k < |ticks| && n in ticks[k].blocks ==> ticks[k].blocks[n].number == n
  }

  ghost predicate Labelled(h: seq<Span>) {
    forall i :: 0 <= i < |h| && h[i].Scanned? ==> h[i].msg.blockNumber == h[i].n
  }

  lemma {:induction false} ScanLabelled(cfg: Config, s: State, p: nat, t: TickInput, addrs: seq<Address>, n: int,
                                        end: int)
    requires p < |s.providers| && Labelled(s.history)
    requires forall m :: m in t.blocks ==> t.blocks[m].number == m
    ensures Labelled(Scan(cfg, s, p, t, addrs, n, end).history)
    decreases end - n + 1
  {
    if n <= end && n in t.blocks {
      var s' := Process(cfg, s, t, addrs, n);
      assert s'.history[|s.history|].msg.blockNumber == n;
      assert Labelled(s'.history);
      ScanLabelled(cfg, s', p, t, addrs, n + 1, end);
    }
  }

  lemma TickLabelled(cfg: Config, s: State, t: TickInput)
    requires Labelled(s.history) && forall m :: m in t.blocks ==> t.blocks[m].number == m
    ensures Labelled(Tick(cfg, s, t).history)
  {
    var r := Refresh(s, t);
    var p := FirstHealthy(r.providers);
    if p < |r.providers| && t.head.Head? && t.wallets.Some? && t.wallets.value != [] {
      var safe := SafeBlock(cfg, t.head.number);
      var from := StartOf(r, safe);
      ScanLabelled(cfg, r, p, t, t.wallets.value, from, EndOf(cfg, from, safe));
    }
  }

  lemma {:induction false} RunLabelled(cfg: Config, up: Setup, ticks: seq<TickInput>)
    requires Honest(ticks)
    ensures Labelled(After(cfg, up, ticks).history)
  {
    if ticks != [] {
      var front, t := ticks[..|ticks| - 1], ticks[|ticks| - 1];
      assert forall k :: 0 <= k < |front| ==> front[k] == ticks[k];
      RunLabelled(cfg, up, front);
      assert forall m :: m in t.blocks ==> t.blocks[m].number == m;
      TickLabelled(cfg, After(cfg, up, front), t);
    }
  }

  /** The span's message is the activity of a block this tick fetched, for the wallets this tick read. */
  predicate FromTick(cfg: Config, span: Span, t: TickInput) {
    span.Scanned? && t.wallets.Some? && span.n in t.blocks
    && span.msg == MessageOf(cfg, t.blocks[span.n], t.wallets.value) && span.rejects == RejectsOf(t, span.n)
  }

  lemma {:induction false} ScanMessages(cfg: Config, s: State, p: nat, t: TickInput, addrs: seq<Address>,
                                        n: int, end: int)
    requires p < |s.providers| && t.wallets == Some(addrs)
    ensures
      var r := Scan(cfg, s, p, t, addrs, n, end);
      s.history <= r.history && forall i :: |s.history| <= i < |r.history| ==> FromTick(cfg, r.history[i], t)
    decreases end - n + 1
  {
    if n <= end && n in t.blocks {
      var s' := Process(cfg, s, t, addrs, n);
      ScanMessages(cfg, s', p, t, addrs, n + 1, end);
      var r := Scan(cfg, s', p, t, addrs, n + 1, end);
      assert r.history[|s.history|] == s'.history[|s.history|];
    }
  }

  lemma TickMessages(cfg: Config, s: State, t: TickInput)
    ensures
      var r := Tick(cfg, s, t);
      s.history <= r.history
      && forall i :: |s.history| <= i < |r.history| && r.history[i].Scanned? ==> FromTick(cfg, r.history[i], t)
  {
    var r := Refresh(s, t);
    var p := FirstHealthy(r.providers);
    if p < |r.providers| && t.head.Head? && t.wallets.Some? && t.wallets.value != [] {
      var safe := SafeBlock(cfg, t.head.number);
      var from := StartOf(r, safe);
      if from <= safe {
        var end := EndOf(cfg, from, safe);
        ScanMessages(cfg, r, p, t, t.wallets.value, from, end);
        AdvanceKeepsTrace(Scan(cfg, r, p, t, t.wallets.value, from, end), t.writeOk);
      }
    }
  }

  lemma NewSpanFromTick(cfg: Config, s: State, t: TickInput, i: nat)
    requires |s.history| <= i < |Tick(cfg, s, t).history| && Tick(cfg, s, t).history[i].Scanned?
    ensures FromTick(cfg, Tick(cfg, s, t).history[i], t)
    ensures t.head.Head? && Tick(cfg, s, t).history[i].n + cfg.safeBlockBuffer <= t.head.number
  {
    TickMessages(cfg, s, t);
    TickBound(cfg, s, t);
    assert Tick(cfg, s, t).history[|s.history|..][i - |s.history|] == Tick(cfg, s, t).history[i];
  }

  /** Every message a run assembles is the activity of the block it scanned, for the wallets of that tick, and that
      block lies at least the buffer below the head the tick read. */
  lemma {:induction false} MessagesAreBlockActivity(cfg: Config, up: Setup, ticks: seq<TickInput>, i: nat)
    returns (k: nat)
    requires i < |After(cfg, up, ticks).history| && After(cfg, up, ticks).history[i].Scanned?
    ensures k < |ticks| && FromTick(cfg, After(cfg, up, ticks).history[i], ticks[k])
    ensures ticks[k].head.Head? && After(cfg, up, ticks).history[i].n + cfg.safeBlockBuffer <= ticks[k].head.number
  {
    assert ticks != [];
    var front, t := ticks[..|ticks| - 1], ticks[|ticks| - 1];
    var s := After(cfg, up, front);
    if i < |s.history| {
      TickMessages(cfg, s, t);
      k := MessagesAreBlockActivity(cfg, up, front, i);
    } else {
      NewSpanFromTick(cfg, s, t, i);
      k := |front|;
    }
  }

  predicate Before(a: Attempt, b: Attempt) {
    a.block < b.block || (a.block == b.block && a.index < b.index)
  }

  predicate InOrder(trace: seq<Attempt>) {
    forall i, j :: 0 <= i < j < |trace| ==> Before(trace[i], trace[j])
  }

  lemma SpanInOrder(publishing: bool, span: Span)
    requires span.Scanned? ==> span.msg.blockNumber == span.n
    ensures InOrder(SpanTrace(publishing, span))
    ensures forall i :: 0 <= i < |SpanTrace(publishing, span)| ==>
      span.Scanned? && SpanTrace(publishing, span)[i].block == span.n
  {
    if span.Scanned? && publishing && span.msg.events != [] {
      PublishIsPrefix(span.msg, span.rejects, SpanTrace(publishing, span), Chunked(span.msg, BATCH_SIZE));
    }
  }

  lemma {:induction false} TraceInOrder(publishing: bool, h: seq<Span>, lo: int, hi: int)
    requires Chain(h, lo, hi) && Labelled(h)
    ensures InOrder(TraceOf(publishing, h))
    ensures forall i :: 0 <= i < |TraceOf(publishing, h)| ==> TraceOf(publishing, h)[i].block <= hi
  {
    if h != [] {
      TraceInOrder(publishing, h[..|h| - 1], lo, h[|h| - 1].Lo() - 1);
      SpanInOrder(publishing, h[|h| - 1]);
    }
  }

  /** The (block, batch index) tags of a run's broker calls strictly increase. */
  lemma {:induction false} PublishOrder(cfg: Config, up: Setup, ticks: seq<TickInput>)
    requires NeverRewinds(cfg, up, ticks) && Honest(ticks)
    ensures InOrder(After(cfg, up, ticks).attempts)
  {
    var s := After(cfg, up, ticks);
    RunContiguous(cfg, up, ticks);
    RunTrace(cfg, up, ticks);
    RunLabelled(cfg, up, ticks);
    if s.history != [] {
      TraceInOrder(cfg.publishing, s.history, s.history[0].Lo(), s.lastBlock.value);
    }
  }

  function AttemptsFor(trace: seq<Attempt>, block: int): seq<Attempt> {
    if trace == [] then []
    else
      AttemptsFor(trace[..|trace| - 1], block) +
      if trace[|trace| - 1].block == block then [trace[|trace| - 1]] else []
  }

  lemma {:induction false} AttemptsForAppend(a: seq<Attempt>, b: seq<Attempt>, block: int)
    ensures AttemptsFor(a + b, block) == AttemptsFor(a, block) + AttemptsFor(b, block)
  {
    if b == [] {
      assert a + b == a;
    } else {
      assert (a + b)[..|a + b| - 1] == a + b[..|b| - 1];
      AttemptsForAppend(a, b[..|b| - 1], block);
    }
  }

  lemma {:induction false} AttemptsForUniform(a: seq<Attempt>, block: int, all: bool)
    requires forall i :: 0 <= i < |a| ==> (a[i].block == block <==> all)
    ensures AttemptsFor(a, block) == if all then a else []
  {
    if a != [] {
      var front, last := a[..|a| - 1], a[|a| - 1];
      AttemptsForUniform(front, block, all);
      assert last.block == block <==> all;
      assert a == front + [last];
    }
  }

  lemma {:induction false} TraceForBlock(publishing: bool, h: seq<Span>, lo: int, hi: int, i: nat)
    requires Chain(h, lo, hi) && Labelled(h) && i < |h| && h[i].Scanned?
    ensures AttemptsFor(TraceOf(publishing, h), h[i].n) == SpanTrace(publishing, h[i])
  {
    var front, last := h[..|h| - 1], h[|h| - 1];
    var t, more := TraceOf(publishing, front), SpanTrace(publishing, last);
    AttemptsForAppend(t, more, h[i].n);
    TraceInOrder(publishing, front, lo, last.Lo() - 1);
    SpanInOrder(publishing, last);
    if i == |h| - 1 {
      AttemptsForUniform(t, h[i].n, false);
      AttemptsForUniform(more, h[i].n, true);
    } else {
      TraceForBlock(publishing, front, lo, last.Lo() - 1, i);
      SpanWithin(front, lo, last.Lo() - 1, i);
      AttemptsForUniform(more, h[i].n, false);
    }
  }

  lemma {:induction false} SpanWithin(h: seq<Span>, lo: int, hi: int, i: nat)
    requires Chain(h, lo, hi) && i < |h|
    ensures h[i].Hi() <= hi
  {
    var front, last := h[..|h| - 1], h[|h| - 1];
    if i < |front| {
      SpanWithin(front, lo, last.Lo() - 1, i);
    }
  }

  lemma SpanAttempts(span: Span, mine: seq<Attempt>)
    requires span.Scanned? && span.msg.events != [] && mine == SpanTrace(true, span)
    ensures
      var batches := Chunked(span.msg, BATCH_SIZE);
      && 1 <= |mine| <= |batches|
      && (forall k :: 0 <= k < |mine| ==> mine[k].batch == batches[k] && mine[k].index == k + 1)
      && (AllOk(mine) ==> |mine| == |batches|)
      && (!AllOk(mine) ==> !mine[|mine| - 1].ok && AllOk(mine[..|mine| - 1]))
  {
    PublishIsPrefix(span.msg, span.rejects, mine, Chunked(span.msg, BATCH_SIZE));
  }

  /** The broker calls of one scanned block, picked out of the whole run, are a prefix of its batch list;
      a prefix cut short ends in the call that failed. */
  lemma {:induction false} BlockAttemptsArePrefix(cfg: Config, up: Setup, ticks: seq<TickInput>, i: nat)
    requires NeverRewinds(cfg, up, ticks) && Honest(ticks) && cfg.publishing
    requires i < |After(cfg, up, ticks).history| && After(cfg, up, ticks).history[i].Scanned?
    requires After(cfg, up, ticks).history[i].msg.events != []
    ensures
      var s := After(cfg, up, ticks);
      var span := s.history[i];
      var mine, batches := AttemptsFor(s.attempts, span.n), Chunked(span.msg, BATCH_SIZE);
      && 1 <= |mine| <= |batches|
      && (forall k :: 0 <= k < |mine| ==> mine[k].batch == batches[k] && mine[k].index == k + 1)
      && (AllOk(mine) ==> |mine| == |batches|)
      && (!AllOk(mine) ==> !mine[|mine| - 1].ok && AllOk(mine[..|mine| - 1]))
  {
    var s := After(cfg, up, ticks);
    RunContiguous(cfg, up, ticks);
    RunTrace(cfg, up, ticks);
    RunLabelled(cfg, up, ticks);
    var span := s.history[i];
    TraceForBlock(cfg.publishing, s.history, s.history[0].Lo(), s.lastBlock.value, i);
    SpanAttempts(span, AttemptsFor(s.attempts, span.n));
  }

  // ---------- Does a block wait for the batches of the one before it? ----------

  /** What the messaging documentation promises: no call goes out for another block after a refused one. */
  predicate NextBlockWaits(trace: seq<Attempt>) {
    forall i, j :: 0 <= i < j < |trace| && trace[i].block != trace[j].block ==> trace[i].ok
  }

  /** The span sends batches, and the broker takes all of them. */
  predicate Unrefused(span: Span)
    requires span.Scanned?
  {
    forall b :: 1 <= b <= |Chunked(span.msg, BATCH_SIZE)| ==> b !in span.rejects
  }

  predicate Sends(span: Span) {
    span.Scanned? && span.msg.events != []
  }

  /** No batch is refused of a block after which another one has activity to send. */
  ghost predicate OnlyLastSenderRefused(h: seq<Span>) {
    forall i, j :: 0 <= i < j < |h| && Sends(h[i]) && Sends(h[j]) ==> Unrefused(h[i])
  }

  ghost predicate NoneRefused(h: seq<Span>) {
    forall i :: 0 <= i < |h| && Sends(h[i]) ==> Unrefused(h[i])
  }

  /** The calls of the last block's span: all for one block, and every one before the last accepted. */
  predicate OneBlock(t: seq<Attempt>, block: int) {
    forall i :: 0 <= i < |t| ==> t[i].block == block && (i < |t| - 1 ==> t[i].ok)
  }

  lemma WaitsAppend(a: seq<Attempt>, b: seq<Attempt>, block: int)
    requires OneBlock(b, block) && forall i :: 0 <= i < |a| ==> a[i].block < block
    ensures NextBlockWaits(a + b) <==> NextBlockWaits(a) && (b != [] ==> AllOk(a))
  {
    var t := a + b;
    assert forall i :: 0 <= i < |a| ==> t[i] == a[i];
    assert forall i :: |a| <= i < |t| ==> t[i] == b[i - |a|];
    if NextBlockWaits(t) && b != [] {
      forall i | 0 <= i < |a|
        ensures a[i].ok
      {
        assert t[i].block != t[|a|].block;
      }
    }
    if NextBlockWaits(t) {
      assert forall i, j :: 0 <= i < j < |a| && a[i].block != a[j].block ==> t[i].ok;
    }
  }

  lemma SpanSends(span: Span)
    requires span.Scanned? ==> span.msg.blockNumber == span.n
    ensures Sends(span) <==> SpanTrace(true, span) != []
    ensures Sends(span) ==> OneBlock(SpanTrace(true, span), span.n)
    ensures Sends(span) ==> (AllOk(SpanTrace(true, span)) <==> Unrefused(span))
  {
    if Sends(span) {
      PublishIsPrefix(span.msg, span.rejects, SpanTrace(true, span), Chunked(span.msg, BATCH_SIZE));
    }
  }

  lemma {:induction false} AllOkIffNoneRefused(h: seq<Span>)
    requires Labelled(h)
    ensures AllOk(TraceOf(true, h)) <==> NoneRefused(h)
  {
    if h != [] {
      var front, last := h[..|h| - 1], h[|h| - 1];
      AllOkIffNoneRefused(front);
      SpanSends(last);
      AllOkAppend(TraceOf(true, front), SpanTrace(true, last));
      assert h == front + [last];
      NoneRefusedSnoc(front, last);
    }
  }

  lemma NoneRefusedSnoc(front: seq<Span>, last: Span)
    ensures NoneRefused(front + [last]) <==> NoneRefused(front) && (Sends(last) ==> Unrefused(last))
    ensures OnlyLastSenderRefused(front + [last]) <==>
            OnlyLastSenderRefused(front) && (Sends(last) ==> NoneRefused(front))
  {
    var h := front + [last];
    assert h[|front|] == last;
    assert forall i :: 0 <= i < |front| ==> h[i] == front[i];
  }

  lemma WaitsSpan(front: seq<Span>, last: Span, lo: int)
    requires Chain(front, lo, last.Lo() - 1) && Labelled(front + [last])
    ensures NextBlockWaits(TraceOf(true, front) + SpanTrace(true, last)) <==>
            NextBlockWaits(TraceOf(true, front)) && (Sends(last) ==> NoneRefused(front))
  {
    var a, b := TraceOf(true, front), SpanTrace(true, last);
    assert (front + [last])[|front|] == last;
    assert forall i :: 0 <= i < |front| ==> (front + [last])[i] == front[i];
    SpanSends(last);
    if Sends(last) {
      TraceInOrder(true, front, lo, last.Lo() - 1);
      AllOkIffNoneRefused(front);
      WaitsAppend(a, b, last.n);
    } else {
      assert a + b == a;
    }
  }

  lemma {:induction false} WaitsIffLastRefused(h: seq<Span>, lo: int, hi: int)
    requires Chain(h, lo, hi) && Labelled(h)
    ensures NextBlockWaits(TraceOf(true, h)) <==> OnlyLastSenderRefused(h)
  {
    if h != [] {
      var front, last := h[..|h| - 1], h[|h| - 1];
      assert h == front + [last];
      WaitsIffLastRefused(front, lo, last.Lo() - 1);
      WaitsSpan(front, last, lo);
      NoneRefusedSnoc(front, last);
    }
  }

  /** Within one block a call follows accepted ones only. */
  predicate BlocksStopAtRefusal(trace: seq<Attempt>) {
    forall i, j :: 0 <= i < j < |trace| && trace[i].block == trace[j].block ==> trace[i].ok
  }

  lemma {:induction false} TraceStopsAtRefusal(h: seq<Span>, lo: int, hi: int)
    requires Chain(h, lo, hi) && Labelled(h)
    ensures BlocksStopAtRefusal(TraceOf(true, h))
  {
    if h != [] {
      var front, last := h[..|h| - 1], h[|h| - 1];
      TraceStopsAtRefusal(front, lo, last.Lo() - 1);
      TraceInOrder(true, front, lo, last.Lo() - 1);
      SpanSends(last);
    }
  }

  /** Every call before the last one was accepted. */
  predicate OnlyLastCallRefused(trace: seq<Attempt>) {
    forall i :: 0 <= i < |trace| - 1 ==> trace[i].ok
  }

  /** The documented order holds in a run if and only if the broker refused no call but perhaps the last one of all;
      in terms of what it refuses, if and only if no batch is refused of a block after which another one has
      activity to send. */
  lemma {:induction false} NextBlockWaitsExactly(cfg: Config, up: Setup, ticks: seq<TickInput>)
    requires NeverRewinds(cfg, up, ticks) && Honest(ticks) && cfg.publishing
    ensures
      var s := After(cfg, up, ticks);
      && (NextBlockWaits(s.attempts) <==> OnlyLastCallRefused(s.attempts))
      && (NextBlockWaits(s.attempts) <==> OnlyLastSenderRefused(s.history))
  {
    var s := After(cfg, up, ticks);
    RunContiguous(cfg, up, ticks);
    RunTrace(cfg, up, ticks);
    RunLabelled(cfg, up, ticks);
    if s.history != [] {
      WaitsIffLastRefused(s.history, s.history[0].Lo(), s.lastBlock.value);
      TraceStopsAtRefusal(s.history, s.history[0].Lo(), s.lastBlock.value);
    }
    if NextBlockWaits(s.attempts) {
      forall i | 0 <= i < |s.attempts| - 1
        ensures s.attempts[i].ok
      {
        assert s.attempts[i].block == s.attempts[|s.attempts| - 1].block || s.attempts[i].ok;
      }
    }
  }

  /** Two blocks that each pay the watched wallet 1; the broker refuses the first one's only batch and is sent the
      second one's all the same. */
  lemma NextBlockDoesNotWait()
    ensures
      var cfg := Config(0, 10, Uuid(0), "ETH", {}, false, None, true);
      var pay := Native.Tx(7, Some(1), 5, [], None);
      var block, next := Block(100, 0, 0, [pay], map[], None, map[]), Block(101, 0, 0, [pay], map[], None, map[]);
      var t := QuietTick(101, [1], map[100 := block, 101 := next]).(rejects := map[100 := {1}]);
      var calls := After(cfg, Setup(1, 0, Some(100), true), [t]).attempts;
      && |calls| == 2 && !calls[0].ok && calls[0].block == 100 && calls[1].block == 101
      && !NextBlockWaits(calls)
  {
    var cfg := Config(0, 10, Uuid(0), "ETH", {}, false, None, true);
    var pay := Native.Tx(7, Some(1), 5, [], None);
    var block, next := Block(100, 0, 0, [pay], map[], None, map[]), Block(101, 0, 0, [pay], map[], None, map[]);
    var t := QuietTick(101, [1], map[100 := block, 101 := next]).(rejects := map[100 := {1}]);
    var up := Setup(1, 0, Some(100), true);
    AfterSnoc(cfg, up, [], t);
    assert [] + [t] == [t];
    var s0 := Start(cfg, up);
    var s1 := Process(cfg, s0, t, [1], 100);
    var s2 := Process(cfg, s1, t, [1], 101);
    assert Scan(cfg, s0, 0, t, [1], 100, 101) == s2;
    OnePayment(cfg, block, pay, {1});
    OnePayment(cfg, next, pay, {});
    assert s2.attempts == [] + SpanTrace(true, s2.history[0]) + SpanTrace(true, s2.history[1]);
    AdvanceKeepsTrace(s2, true);
  }

  lemma OnePayment(cfg: Config, block: Block, pay: Native.Tx, rejects: set<nat>)
    requires block.txs == [pay] && pay.to == Some(1) && pay.sender == None && !cfg.usdcListen
    ensures
      var msg := MessageOf(cfg, block, [1]);
      && msg.events != []
      && PublishTrace(msg, rejects) == [Attempt(block.number, 1, 1, msg, 1 !in rejects)]
  {
    var c := Native.Context(block.nativeReceipts, cfg.knownContracts, cfg.nativeSymbol);
    assert [pay][..0] == [];
    Native.NativeExact([pay], [1], c);
    assert Native.Elements([1]) == {1};
    assert Native.BlockActivity([pay], {1}, c) == Native.TxActivity(pay, {1}, c);
    var msg := MessageOf(cfg, block, [1]);
    assert Chunked(msg, BATCH_SIZE) == [msg];
    assert Attempts([msg], 1, rejects) == [];
  }

  // ---------- Loss ----------

  /** The events of the batches the broker took. */
  function Accepted(trace: seq<Attempt>): seq<ActivityEvent> {
    if trace == [] then []
    else Accepted(trace[..|trace| - 1]) + if trace[|trace| - 1].ok then trace[|trace| - 1].batch.events else []
  }

  lemma {:induction false} AcceptedAppend(a: seq<Attempt>, b: seq<Attempt>)
    ensures Accepted(a + b) == Accepted(a) + Accepted(b)
  {
    if b == [] {
      assert a + b == a;
    } else {
      assert (a + b)[..|a + b| - 1] == a + b[..|b| - 1];
      AcceptedAppend(a, b[..|b| - 1]);
    }
  }

  lemma {:induction false} AttemptsAccepted(batches: seq<BlockMessage>, i: nat, rejects: set<nat>)
    requires i <= |batches|
    requires forall k :: 0 <= k < |batches| ==> batches[k].events != []
    ensures
      var t, want := Attempts(batches, i, rejects), ConcatEvents(batches[i..]);
      && Accepted(t) <= want
      && (AllOk(t) <==> Accepted(t) == want)
    decreases |batches| - i
  {
    if i < |batches| {
      var t := Attempts(batches, i, rejects);
      assert batches[i..][1..] == batches[i + 1..];
      if i + 1 in rejects {
        assert t[..0] == [] && !t[0].ok;
        assert |ConcatEvents(batches[i..])| >= |batches[i].events|;
      } else {
        var rest := Attempts(batches, i + 1, rejects);
        AttemptsAccepted(batches, i + 1, rejects);
        AcceptedAppend([t[0]], rest);
        assert [t[0]][..0] == [];
        assert Accepted([t[0]]) == batches[i].events;
        assert Accepted(t) == batches[i].events + Accepted(rest);
        AllOkCons(t[0], rest);
        var have, want := Accepted(rest), ConcatEvents(batches[i + 1..]);
        assert batches[i].events + want == ConcatEvents(batches[i..]);
        if |have| < |want| {
          assert |Accepted(t)| < |ConcatEvents(batches[i..])|;
        }
      }
    }
  }

  lemma SpanAccepted(span: Span)
    requires span.Scanned?
    ensures |Accepted(SpanTrace(true, span))| <= |span.msg.events|
    ensures AllOk(SpanTrace(true, span)) ==> Accepted(SpanTrace(true, span)) == span.msg.events
    ensures !AllOk(SpanTrace(true, span)) ==> |Accepted(SpanTrace(true, span))| < |span.msg.events|
  {
    if span.msg.events != [] {
      var batches := Chunked(span.msg, BATCH_SIZE);
      ChunkRoundTrip(span.msg, BATCH_SIZE);
      forall k | 0 <= k < |batches|
        ensures batches[k].events != []
      {
        assert 0 < |batches[k].events|;
      }
      AttemptsAccepted(batches, 0, span.rejects);
      assert batches[0..] == batches;
    }
  }

  lemma AllOkAppend(a: seq<Attempt>, b: seq<Attempt>)
    ensures AllOk(a + b) <==> AllOk(a) && AllOk(b)
  {
    assert forall i :: 0 <= i < |a| ==> (a + b)[i] == a[i];
    assert forall i :: 0 <= i < |b| ==> (a + b)[|a| + i] == b[i];
  }

  lemma {:induction false} HistoryAccepted(h: seq<Span>)
    ensures |Accepted(TraceOf(true, h))| <= |ActivityOf(h)|
    ensures AllOk(TraceOf(true, h)) ==> Accepted(TraceOf(true, h)) == ActivityOf(h)
    ensures !AllOk(TraceOf(true, h)) ==> |Accepted(TraceOf(true, h))| < |ActivityOf(h)|
  {
    if h != [] {
      var front, last := h[..|h| - 1], h[|h| - 1];
      HistoryAccepted(front);
      AcceptedAppend(TraceOf(true, front), SpanTrace(true, last));
      AllOkAppend(TraceOf(true, front), SpanTrace(true, last));
      if last.Scanned? {
        SpanAccepted(last);
      }
    }
  }

  /** In every run of a publishing listener, the broker holds exactly the activity of the scanned blocks, in
      scanning order, if and only if it refused no call. */
  lemma {:induction false} LosslessIffNothingRefused(cfg: Config, up: Setup, ticks: seq<TickInput>)
    requires cfg.publishing
    ensures
      var s := After(cfg, up, ticks);
      Accepted(s.attempts) == ActivityOf(s.history) <==> AllOk(s.attempts)
  {
    RunTrace(cfg, up, ticks);
    HistoryAccepted(After(cfg, up, ticks).history);
  }

  // ---------- A refusal changes nothing else ----------

  function Forgiven(ticks: seq<TickInput>): seq<TickInput> {
    if ticks == [] then []
    else Forgiven(ticks[..|ticks| - 1]) + [ticks[|ticks| - 1].(rejects := map[])]
  }

  function EraseSpans(h: seq<Span>): seq<Span> {
    if h == [] then []
    else
      EraseSpans(h[..|h| - 1]) + [if h[|h| - 1].Scanned? then h[|h| - 1].(rejects := {}) else h[|h| - 1]]
  }

  /** A state without the broker's answers. */
  function Erase(s: State): State {
    s.(attempts := [], history := EraseSpans(s.history))
  }

  lemma {:induction false} EraseSnoc(h: seq<Span>, span: Span)
    ensures EraseSpans(h + [span]) == EraseSpans(h) + [if span.Scanned? then span.(rejects := {}) else span]
  {
    assert (h + [span])[..|h|] == h;
  }

  lemma {:induction false} ScanErase(cfg: Config, s: State, s': State, p: nat, t: TickInput, addrs: seq<Address>,
                                     n: int, end: int)
    requires Erase(s) == Erase(s') && p < |s.providers|
    ensures Erase(Scan(cfg, s, p, t, addrs, n, end)) == Erase(Scan(cfg, s', p, t.(rejects := map[]), addrs, n, end))
    decreases end - n + 1
  {
    if n <= end && n in t.blocks {
      var t' := t.(rejects := map[]);
      EraseSnoc(s.history, Scanned(n, MessageOf(cfg, t.blocks[n], addrs), RejectsOf(t, n)));
      EraseSnoc(s'.history, Scanned(n, MessageOf(cfg, t.blocks[n], addrs), {}));
      ScanErase(cfg, Process(cfg, s, t, addrs, n), Process(cfg, s', t', addrs, n), p, t, addrs, n + 1, end);
    }
  }

  lemma EraseFields(s: State, s': State)
    requires Erase(s) == Erase(s')
    ensures s' == s.(attempts := s'.attempts, history := s'.history)
  {
    assert Erase(s).fromBlock == Erase(s').fromBlock;
    assert Erase(s).writes == Erase(s').writes;
  }

  lemma SkipErase(s: State, s': State, safe: int, ok: bool)
    requires Erase(s) == Erase(s')
    ensures Erase(SkipTo(s, safe, ok)) == Erase(SkipTo(s', safe, ok))
  {
    EraseFields(s, s');
    EraseSnoc(s.history, Skipped(StartOf(s, safe), safe));
    EraseSnoc(s'.history, Skipped(StartOf(s, safe), safe));
  }

  lemma AdvanceErase(s: State, s': State, ok: bool)
    requires Erase(s) == Erase(s')
    ensures Erase(Advance(s, ok)) == Erase(Advance(s', ok))
  {
    EraseFields(s, s');
  }

  lemma RefreshErase(s: State, s': State, t: TickInput)
    requires Erase(s) == Erase(s')
    ensures Erase(Refresh(s, t)) == Erase(Refresh(s', t))
  {
    EraseFields(s, s');
  }

  lemma TickErase(cfg: Config, s: State, s': State, t: TickInput)
    requires Erase(s) == Erase(s')
    ensures Erase(Tick(cfg, s, t)) == Erase(Tick(cfg, s', t.(rejects := map[])))
  {
    var t' := t.(rejects := map[]);
    var r, r' := Refresh(s, t), Refresh(s', t');
    RefreshErase(s, s', t);
    EraseFields(r, r');
    var p := FirstHealthy(r.providers);
    if p < |r.providers| && t.head.Head? && t.wallets.Some? {
      var safe := SafeBlock(cfg, t.head.number);
      var from := StartOf(r, safe);
      if t.wallets.value == [] {
        SkipErase(r, r', safe, t.writeOk);
      } else if from <= safe {
        var end := EndOf(cfg, from, safe);
        ScanErase(cfg, r, r', p, t, t.wallets.value, from, end);
        AdvanceErase(Scan(cfg, r, p, t, t.wallets.value, from, end), Scan(cfg, r', p, t', t.wallets.value, from, end),
                     t.writeOk);
      }
    }
  }

  /** Whatever the broker refuses, the blocks scanned, the pointer, the checkpoint, the session and the
      providers are those of the run in which it refuses nothing: no block waits for an earlier batch. */
  lemma {:induction false} RefusalsHoldNothingBack(cfg: Config, up: Setup, ticks: seq<TickInput>)
    ensures Erase(After(cfg, up, ticks)) == Erase(After(cfg, up, Forgiven(ticks)))
  {
    if ticks != [] {
      var front, t := ticks[..|ticks| - 1], ticks[|ticks| - 1];
      RefusalsHoldNothingBack(cfg, up, front);
      AfterSnoc(cfg, up, Forgiven(front), t.(rejects := map[]));
      TickErase(cfg, After(cfg, up, front), After(cfg, up, Forgiven(front)), t);
    }
  }
}
