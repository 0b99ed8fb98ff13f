/** The SIWE nonce store used by one caller at a time (service/SiweNonceService.java). Times are milliseconds. */
module NonceStore {
  import opened Schema

  const NONCE_TTL: int := 300_000

  function Swept(store: map<string, int>, now: int): map<string, int> {
    map n | n in store && !(store[n] < now) :: store[n]
  }

  class SiweNonceService {
    var nonceStore: map<string, int>

    constructor ()
      ensures nonceStore == map[]
    {
      nonceStore := map[];
    }

    /** `random` stands for the hex text of 32 random bytes. */
    method IssueNonce(random: string, now: int) returns (nonce: string, expiresAt: int)
      modifies this
      ensures nonce == random && expiresAt == now + 300_000
      ensures nonceStore == old(nonceStore)[nonce := expiresAt]
    {
      nonce := random;
      expiresAt := now + NONCE_TTL;
      nonceStore := nonceStore[nonce := expiresAt];
    }

    method ConsumeNonce(nonce: string, now: int) returns (ok: bool)
      modifies this
      ensures nonceStore == old(nonceStore) - {nonce}
      ensures ok <==> nonce in old(nonceStore) && now < old(nonceStore)[nonce]
    {
      if nonce !in nonceStore {
        assert nonceStore - {nonce} == nonceStore;
        return false;
      }
      var expiresAt := nonceStore[nonce];
      nonceStore := nonceStore - {nonce};
      return now < expiresAt;
    }

    method EvictExpired(now: int)
      modifies this
      ensures nonceStore == Swept(old(nonceStore), now)
    {
      var left := nonceStore.Keys;
      while left != {}
        invariant left <= old(nonceStore).Keys
        invariant forall n :: n in nonceStore <==>
          n in old(nonceStore) && (n in left || !(old(nonceStore)[n] < now))
        invariant forall n :: n in nonceStore ==> nonceStore[n] == old(nonceStore)[n]
        decreases |left|
      {
        var n :| n in left;
        left := left - {n};
        if nonceStore[n] < now {
          nonceStore := nonceStore - {n};
        }
      }
    }
  }

  // ---------- How long a nonce is kept ----------

  datatype Op = Issue(nonce: string, at: int) | Consume(nonce: string, at: int) | Sweep(at: int)

  /** The store, when each nonce in it was issued, and the clock reading of the last sweep. */
  datatype Kept = Kept(store: map<string, int>, issuedAt: map<string, int>, lastSweep: Option<int>)

  function Apply(k: Kept, op: Op): Kept {
    match op
    case Issue(n, at) => k.(store := k.store[n := at + NONCE_TTL], issuedAt := k.issuedAt[n := at])
    case Consume(n, at) => k.(store := k.store - {n})
    case Sweep(at) => k.(store := Swept(k.store, at), lastSweep := Some(at))
  }

  function ApplyAll(ops: seq<Op>): Kept {
    if ops == [] then Kept(map[], map[], None) else Apply(ApplyAll(ops[..|ops| - 1]), ops[|ops| - 1])
  }

  /** Calls of the service made one after the other leave the store that Apply says. */
  method RunOps(service: SiweNonceService, ops: seq<Op>)
    requires service.nonceStore == map[]
    modifies service
    ensures service.nonceStore == ApplyAll(ops).store
  {
    for i := 0 to |ops|
      invariant service.nonceStore == ApplyAll(ops[..i]).store
    {
      assert ops[..i + 1][..i] == ops[..i];
      match ops[i]
      case Issue(random, at) =>
        var nonce, expiresAt := service.IssueNonce(random, at);
      case Consume(nonce, at) =>
        var ok := service.ConsumeNonce(nonce, at);
      case Sweep(at) =>
        service.EvictExpired(at);
    }
    assert ops[..|ops|] == ops;
  }

  predicate MonotoneOps(ops: seq<Op>) {
    forall i, j :: 0 <= i < j < |ops| ==> ops[i].at <= ops[j].at
  }

  /** No stored nonce is older than six minutes at `now`. */
  ghost predicate Fresh(k: Kept, now: int) {
    forall n :: n in k.store ==> n in k.issuedAt && now - k.issuedAt[n] <= 360_000
  }

  /** While the last sweep is at most a minute old, no stored nonce was issued more than six minutes ago. */
  ghost predicate Bounded(ops: seq<Op>) {
    var k := ApplyAll(ops);
    forall now :: k.lastSweep.Some? && now - k.lastSweep.value <= 60_000 ==> Fresh(k, now)
  }

  /** Operation i issued a nonce that nothing has touched since. */
  predicate Untouched(ops: seq<Op>, i: nat) {
    && i < |ops| && ops[i].Issue?
    && forall j :: i < j < |ops| ==> ops[j].Sweep? || ops[j].nonce != ops[i].nonce
  }

  predicate SweptSince(ops: seq<Op>, i: nat) {
    exists j :: i < j < |ops| && ops[j].Sweep?
  }

  /** Where a stored nonce comes from; a sweep since then has found it alive. */
  lemma {:induction false} StoredIsIssued(ops: seq<Op>, n: string) returns (i: nat)
    requires n in ApplyAll(ops).store
    ensures Untouched(ops, i) && ops[i].nonce == n
    ensures
      var k := ApplyAll(ops);
      && n in k.issuedAt && k.issuedAt[n] == ops[i].at && k.store[n] == ops[i].at + 300_000
      && (SweptSince(ops, i) ==> k.lastSweep.Some? && k.store[n] >= k.lastSweep.value)
  {
    var front, op := ops[..|ops| - 1], ops[|ops| - 1];
    if op.Issue? && op.nonce == n {
      i := |front|;
    } else {
      i := StoredIsIssued(front, n);
      if SweptSince(ops, i) && !op.Sweep? {
        var j :| i < j < |ops| && ops[j].Sweep?;
        assert front[j].Sweep?;
      }
    }
  }

  lemma {:induction false} IssuedIsStored(ops: seq<Op>, i: nat)
    requires Untouched(ops, i) && !SweptSince(ops, i)
    ensures
      var k := ApplyAll(ops);
      ops[i].nonce in k.store && ops[i].nonce in k.issuedAt && k.issuedAt[ops[i].nonce] == ops[i].at
    decreases |ops|
  {
    var front, op := ops[..|ops| - 1], ops[|ops| - 1];
    if i < |front| {
      assert forall j :: i < j < |front| ==> front[j] == ops[j];
      IssuedIsStored(front, i);
      assert !op.Sweep? && op.nonce != ops[i].nonce;
    }
  }

  /** Operation i issued, after the last sweep, a nonce still stored, from a clock more than five minutes behind the
      one that sweep read. */
  predicate IssuedBehind(ops: seq<Op>, i: nat) {
    && Untouched(ops, i) && !SweptSince(ops, i)
    && ApplyAll(ops).lastSweep.Some? && ops[i].at + 300_000 < ApplyAll(ops).lastSweep.value
  }

  /** The bound holds after a run of operations, under any clock, if and only if there is no such nonce. */
  lemma RetentionExactly(ops: seq<Op>)
    ensures Bounded(ops) <==> forall i :: !IssuedBehind(ops, i)
  {
    var k := ApplyAll(ops);
    if exists i :: IssuedBehind(ops, i) {
      var i :| IssuedBehind(ops, i);
      IssuedIsStored(ops, i);
      assert !Fresh(k, k.lastSweep.value + 60_000);
    } else {
      forall now | k.lastSweep.Some? && now - k.lastSweep.value <= 60_000
        ensures Fresh(k, now)
      {
        forall n | n in k.store
          ensures n in k.issuedAt && now - k.issuedAt[n] <= 360_000
        {
          var i := StoredIsIssued(ops, n);
          assert !IssuedBehind(ops, i);
        }
      }
    }
  }

  /** No issueNonce reads a clock more than five minutes behind an evictExpired before it. */
  predicate NoIssueFarBehind(ops: seq<Op>) {
    forall i, j :: 0 <= i < j < |ops| && ops[i].Sweep? && ops[j].Issue? ==> ops[j].at + 300_000 >= ops[i].at
  }

  lemma {:induction false} LastSweepIsSweep(ops: seq<Op>) returns (j: nat)
    requires ApplyAll(ops).lastSweep.Some?
    ensures j < |ops| && ops[j].Sweep? && ApplyAll(ops).lastSweep == Some(ops[j].at)
    ensures forall i :: j < i < |ops| ==> !ops[i].Sweep?
  {
    j := |ops| - 1;
    if !ops[j].Sweep? {
      j := LastSweepIsSweep(ops[..|ops| - 1]);
    }
  }

  /** With clocks that agree within five minutes the bound holds in every reachable state. */
  lemma {:induction false} RetentionBound(ops: seq<Op>, now: int)
    requires NoIssueFarBehind(ops)
    requires ApplyAll(ops).lastSweep.Some? && now - ApplyAll(ops).lastSweep.value <= 60_000
    ensures forall n :: n in ApplyAll(ops).store ==>
      n in ApplyAll(ops).issuedAt && now - ApplyAll(ops).issuedAt[n] <= 360_000
  {
    var j := LastSweepIsSweep(ops);
    forall i
      ensures !IssuedBehind(ops, i)
    {
      if Untouched(ops, i) && !SweptSince(ops, i) {
        assert j < i;
      }
    }
    RetentionExactly(ops);
    assert Fresh(ApplyAll(ops), now);
  }

  /** A nonce issued just after a sweep, from a clock stepped back by more than five minutes, is older than that. */
  lemma ClockStepBackBreaksRetention(n: string)
    ensures
      var ops, now := [Sweep(1_000_000), Issue(n, 0)], 1_000_000;
      && ApplyAll(ops).lastSweep == Some(now)
      && n in ApplyAll(ops).store && n in ApplyAll(ops).issuedAt
      && now - ApplyAll(ops).issuedAt[n] > 360_000
  {
    var ops := [Sweep(1_000_000), Issue(n, 0)];
    assert ops[..1] == [Sweep(1_000_000)] && ops[..1][..0] == [];
    assert ApplyAll(ops[..1]) == Apply(ApplyAll([]), Sweep(1_000_000));
  }

  /** The bound is met with equality: a nonce that expires at the very instant of a sweep is kept by it. */
  lemma RetentionBoundIsSharp(n: string)
    ensures
      var ops := [Issue(n, 0), Sweep(300_000)];
      var now := 360_000;
      && MonotoneOps(ops) && ApplyAll(ops).lastSweep == Some(300_000)
      && n in ApplyAll(ops).store && n in ApplyAll(ops).issuedAt
      && now - ApplyAll(ops).issuedAt[n] == 360_000
  {
    var ops := [Issue(n, 0), Sweep(300_000)];
    assert ops[..1] == [Issue(n, 0)] && ops[..1][..0] == [];
    assert ApplyAll(ops[..1]) == Apply(ApplyAll([]), Issue(n, 0));
  }
}
