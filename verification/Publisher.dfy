/** Splitting a block's activity into batches and publishing them (publisher/publisher.go). */
module Publishing {
  import opened Schema

  const BATCH_SIZE: nat := 100

  /** The simple form of the split: peel off the first n events until at most n are left. */
  function Chunked(msg: BlockMessage, n: nat): (batches: seq<BlockMessage>)
    requires n > 0
    ensures |batches| >= 1
    decreases |msg.events|
  {
    if |msg.events| <= n then [msg]
    else [msg.(events := msg.events[..n])] + Chunked(msg.(events := msg.events[n..]), n)
  }

  method Chunk(msg: BlockMessage, n: nat) returns (batches: seq<BlockMessage>)
    requires n > 0
    ensures batches == Chunked(msg, n)
  {
    if |msg.events| <= n {
      return [msg];
    }
    batches := [];
    var i := 0;
    while i < |msg.events|
      invariant 0 <= i
      invariant i < |msg.events| ==>
        batches + Chunked(msg.(events := msg.events[i..]), n) == Chunked(msg, n)
      invariant i >= |msg.events| ==> batches == Chunked(msg, n)
    {
      ghost var rest := msg.(events := msg.events[i..]);
      var end := i + n;
      if end > |msg.events| {
        end := |msg.events|;
      }
      assert msg.events[i..end] == rest.events[..end - i];
      if end < |msg.events| {
        assert msg.events[end..] == rest.events[n..];
      } else {
        assert msg.events[i..end] == rest.events;
      }
      batches := batches + [BlockMessage(msg.networkId, msg.blockNumber, msg.blockHash, msg.blockTimestamp,
                                         msg.events[i..end])];
      i := i + n;
    }
  }

  function ConcatEvents(batches: seq<BlockMessage>): seq<ActivityEvent> {
    if batches == [] then [] else batches[0].events + ConcatEvents(batches[1..])
  }

  lemma {:induction false} ConcatEventsAppend(a: seq<BlockMessage>, b: seq<BlockMessage>)
    ensures ConcatEvents(a + b) == ConcatEvents(a) + ConcatEvents(b)
  {
    if a == [] {
      assert a + b == b;
    } else {
      assert (a + b)[1..] == a[1..] + b;
      ConcatEventsAppend(a[1..], b);
    }
  }

  lemma DivStep(len: nat, n: nat)
    requires n > 0 && len > n
    ensures (len + n - 1) / n == 1 + (len - 1) / n
  {
    var q, r := (len - 1) / n, (len - 1) % n;
    assert len - 1 == q * n + r;
    assert len + n - 1 == (q + 1) * n + r;
    assert (len + n - 1) / n == q + 1 by { DivUnique(len + n - 1, n, q + 1, r); }
  }

  lemma DivUnique(a: int, n: nat, q: int, r: int)
    requires n > 0 && 0 <= r < n && a == q * n + r
    ensures a / n == q
  {
    var d := a / n - q;
    assert a == (a / n) * n + a % n;
    assert d * n == r - a % n;
    MulGap(d, n);
  }

  lemma MulGap(d: int, n: nat)
    ensures d >= 1 ==> d * n >= n
    ensures d <= -1 ==> d * n + n <= 0
  {
  }

  /** The first batch and the rest of the split. */
  lemma {:induction false} ChunkStep(msg: BlockMessage, n: nat)
    requires 0 < n < |msg.events|
    ensures Chunked(msg, n) == [msg.(events := msg.events[..n])] + Chunked(msg.(events := msg.events[n..]), n)
    ensures Chunked(msg, n)[1..] == Chunked(msg.(events := msg.events[n..]), n)
  {
  }

  lemma {:induction false} ChunkConcat(msg: BlockMessage, n: nat)
    requires n > 0
    ensures ConcatEvents(Chunked(msg, n)) == msg.events
    decreases |msg.events|
  {
    if |msg.events| <= n {
      assert Chunked(msg, n)[1..] == [];
      assert msg.events + [] == msg.events;
    } else {
      ChunkConcat(msg.(events := msg.events[n..]), n);
      ChunkStep(msg, n);
      assert msg.events[..n] + msg.events[n..] == msg.events;
    }
  }

  lemma {:induction false} ChunkEnvelopes(msg: BlockMessage, n: nat)
    requires n > 0
    ensures forall i :: 0 <= i < |Chunked(msg, n)| ==> Chunked(msg, n)[i].(events := msg.events) == msg
    decreases |msg.events|
  {
    if |msg.events| > n {
      var rest := msg.(events := msg.events[n..]);
      ChunkEnvelopes(rest, n);
      ChunkStep(msg, n);
      forall i | 1 <= i < |Chunked(msg, n)|
        ensures Chunked(msg, n)[i].(events := msg.events) == msg
      {
        assert Chunked(msg, n)[i] == Chunked(rest, n)[i - 1];
        assert Chunked(rest, n)[i - 1].(events := rest.events) == rest;
      }
    }
  }

  lemma {:induction false} ChunkSizes(msg: BlockMessage, n: nat)
    requires n > 0
    ensures forall i :: 0 <= i < |Chunked(msg, n)| - 1 ==> |Chunked(msg, n)[i].events| == n
    ensures msg.events != [] ==> forall i :: 0 <= i < |Chunked(msg, n)| ==> 0 < |Chunked(msg, n)[i].events| <= n
    decreases |msg.events|
  {
    if |msg.events| > n {
      var rest := msg.(events := msg.events[n..]);
      ChunkSizes(rest, n);
      ChunkStep(msg, n);
      forall i | 1 <= i < |Chunked(msg, n)|
        ensures Chunked(msg, n)[i] == Chunked(rest, n)[i - 1]
      {
      }
    }
  }

  lemma {:induction false} ChunkCount(msg: BlockMessage, n: nat)
    requires n > 0
    ensures |Chunked(msg, n)| == if msg.events == [] then 1 else (|msg.events| + n - 1) / n
    decreases |msg.events|
  {
    if |msg.events| <= n {
      if msg.events != [] {
        DivUnique(|msg.events| + n - 1, n, 1, |msg.events| - 1);
      }
    } else {
      ChunkCount(msg.(events := msg.events[n..]), n);
      ChunkStep(msg, n);
      DivStep(|msg.events|, n);
    }
  }

  /** Round trip: nothing is lost, reordered or repeated, all envelopes agree, every batch but the
      last is full, and there are max(1, ceil(len / n)) of them. */
  lemma {:induction false} ChunkRoundTrip(msg: BlockMessage, n: nat)
    requires n > 0
    ensures ConcatEvents(Chunked(msg, n)) == msg.events
    ensures forall i :: 0 <= i < |Chunked(msg, n)| ==> Chunked(msg, n)[i].(events := msg.events) == msg
    ensures forall i :: 0 <= i < |Chunked(msg, n)| - 1 ==> |Chunked(msg, n)[i].events| == n
    ensures msg.events != [] ==> forall i :: 0 <= i < |Chunked(msg, n)| ==> 0 < |Chunked(msg, n)[i].events| <= n
    ensures |Chunked(msg, n)| == if msg.events == [] then 1 else (|msg.events| + n - 1) / n
  {
    ChunkConcat(msg, n);
    ChunkEnvelopes(msg, n);
    ChunkSizes(msg, n);
    ChunkCount(msg, n);
  }

  /** One call of the broker: the headers it carries, the batch, and whether the broker accepted it. */
  datatype Attempt = Attempt(block: int, index: nat, total: nat, batch: BlockMessage, ok: bool)

  /** What publishing the batches from position i on does when the batch indices in `rejects` fail:
      in order, one attempt a batch, stopping at the first failure. */
  function Attempts(batches: seq<BlockMessage>, i: nat, rejects: set<nat>): (trace: seq<Attempt>)
    requires i <= |batches|
    decreases |batches| - i
  {
    if i == |batches| then []
    else
      var a := Attempt(batches[i].blockNumber, i + 1, |batches|, batches[i], i + 1 !in rejects);
      if a.ok then [a] + Attempts(batches, i + 1, rejects) else [a]
  }

  function PublishTrace(msg: BlockMessage, rejects: set<nat>): seq<Attempt> {
    Attempts(Chunked(msg, BATCH_SIZE), 0, rejects)
  }

  predicate AllOk(trace: seq<Attempt>) {
    forall i :: 0 <= i < |trace| ==> trace[i].ok
  }

  lemma AllOkCons(a: Attempt, rest: seq<Attempt>)
    ensures AllOk([a] + rest) <==> a.ok && AllOk(rest)
  {
    var t := [a] + rest;
    assert t[0] == a;
    assert forall k :: 0 <= k < |rest| ==> rest[k] == t[k + 1];
    assert forall k :: 1 <= k < |t| ==> t[k] == rest[k - 1];
  }

  /** Positions, headers and answers of the attempts from batch i on. */
  ghost predicate Follows(t: seq<Attempt>, batches: seq<BlockMessage>, i: nat, rejects: set<nat>) {
    && |t| <= |batches| - i
    && forall k :: 0 <= k < |t| ==>
         && t[k].batch == batches[i + k] && t[k].block == batches[i + k].blockNumber
         && t[k].index == i + k + 1 && t[k].total == |batches|
         && (t[k].ok <==> i + k + 1 !in rejects)
         && (k < |t| - 1 ==> t[k].ok)
  }

  lemma {:induction false} AttemptsFollow(batches: seq<BlockMessage>, i: nat, rejects: set<nat>)
    requires i <= |batches|
    ensures Follows(Attempts(batches, i, rejects), batches, i, rejects)
    ensures i < |batches| ==> |Attempts(batches, i, rejects)| > 0
    decreases |batches| - i
  {
    if i < |batches| && i + 1 !in rejects {
      AttemptsFollow(batches, i + 1, rejects);
      var t, rest := Attempts(batches, i, rejects), Attempts(batches, i + 1, rejects);
      assert forall k :: 1 <= k < |t| ==> t[k] == rest[k - 1];
    }
  }

  lemma {:induction false} AttemptsComplete(batches: seq<BlockMessage>, i: nat, rejects: set<nat>)
    requires i <= |batches|
    ensures AllOk(Attempts(batches, i, rejects)) <==> forall j :: i < j <= |batches| ==> j !in rejects
    ensures AllOk(Attempts(batches, i, rejects)) ==> |Attempts(batches, i, rejects)| == |batches| - i
    ensures |Attempts(batches, i, rejects)| < |batches| - i ==>
      var t := Attempts(batches, i, rejects);
      |t| > 0 && !t[|t| - 1].ok
    decreases |batches| - i
  {
    if i < |batches| {
      var t := Attempts(batches, i, rejects);
      if i + 1 !in rejects {
        AttemptsComplete(batches, i + 1, rejects);
        AttemptsFollow(batches, i + 1, rejects);
        AllOkCons(t[0], Attempts(batches, i + 1, rejects));
      } else {
        assert t == [t[0]] && !t[0].ok;
      }
    }
  }

  lemma {:induction false} AttemptsFromStart(batches: seq<BlockMessage>, rejects: set<nat>, t: seq<Attempt>)
    requires t == Attempts(batches, 0, rejects)
    ensures |t| <= |batches| && (|batches| > 0 ==> |t| > 0)
    ensures forall k :: 0 <= k < |t| ==>
      && t[k].batch == batches[k] && t[k].block == batches[k].blockNumber
      && t[k].index == k + 1 && t[k].total == |batches|
      && (k < |t| - 1 ==> t[k].ok)
  {
    AttemptsFollow(batches, 0, rejects);
  }

  /** A block's attempts are a prefix of its batches under headers 1..k of total; every one but the last
      was accepted, and all batches went out exactly when no batch index was refused. */
  lemma {:induction false} PublishIsPrefix(msg: BlockMessage, rejects: set<nat>, t: seq<Attempt>,
                                           batches: seq<BlockMessage>)
    requires t == PublishTrace(msg, rejects) && batches == Chunked(msg, BATCH_SIZE)
    ensures 1 <= |t| <= |batches|
    ensures forall k :: 0 <= k < |t| ==>
      && t[k].batch == batches[k] && t[k].block == msg.blockNumber
      && t[k].index == k + 1 && t[k].total == |batches|
      && (k < |t| - 1 ==> t[k].ok)
    ensures AllOk(t) <==> forall j :: 0 < j <= |batches| ==> j !in rejects
    ensures AllOk(t) ==> |t| == |batches|
    ensures |t| < |batches| ==> !t[|t| - 1].ok
  {
    AttemptsFromStart(batches, rejects, t);
    AttemptsComplete(batches, 0, rejects);
    ChunkEnvelopes(msg, BATCH_SIZE);
    forall k | 0 <= k < |t|
      ensures t[k].block == msg.blockNumber
    {
      assert batches[k].(events := msg.events) == msg;
    }
  }

  /** When nothing is refused, batches of at most 100 events go out: one up to 100, two from 101 on, and so forth. */
  lemma HundredPerBatch(msg: BlockMessage, t: seq<Attempt>)
    requires t == PublishTrace(msg, {})
    ensures |t| == if msg.events == [] then 1 else (|msg.events| + 99) / 100
    ensures forall k :: 0 <= k < |t| ==> |t[k].batch.events| <= 100 && (k < |t| - 1 ==> |t[k].batch.events| == 100)
  {
    var batches := Chunked(msg, BATCH_SIZE);
    PublishIsPrefix(msg, {}, t, batches);
    ChunkRoundTrip(msg, BATCH_SIZE);
    if msg.events == [] {
      assert batches == [msg];
    }
  }

  /** The publisher and, in `log`, every call it made to the broker. */
  class Publisher {
    var log: seq<Attempt>

    constructor ()
      ensures log == []
    {
      log := [];
    }

    method PublishBatch(msg: BlockMessage, index: nat, total: nat, accepted: bool) returns (ok: bool)
      modifies this
      ensures ok == accepted
      ensures log == old(log) + [Attempt(msg.blockNumber, index, total, msg, accepted)]
    {
      log := log + [Attempt(msg.blockNumber, index, total, msg, accepted)];
      ok := accepted;
    }

    method Publish(msg: BlockMessage, rejects: set<nat>) returns (ok: bool)
      modifies this
      ensures log == old(log) + PublishTrace(msg, rejects)
      ensures ok == AllOk(PublishTrace(msg, rejects))
    {
      var batches := Chunk(msg, BATCH_SIZE);
      var total := |batches|;
      var i := 0;
      AttemptsComplete(batches, 0, rejects);
      while i < total
        invariant 0 <= i <= total
        invariant log + Attempts(batches, i, rejects) == old(log) + PublishTrace(msg, rejects)
        invariant forall j :: 0 < j <= i ==> j !in rejects
      {
        var accepted := PublishBatch(batches[i], i + 1, total, i + 1 !in rejects);
        if !accepted {
          return false;
        }
        i := i + 1;
      }
      return true;
    }
  }
}
