/** How fast a run catches up, which provider it uses, and what it records about itself. */
module ScannerProgress {
  import opened Schema
  import opened Scanner
  import opened ScannerCoverage

  // ---------- Backlog ----------

  /** Confirmed but uncovered blocks in state s when the head is at `head`. */
  function Backlog(cfg: Config, s: State, head: int): int {
    var safe := head - cfg.safeBlockBuffer;
    safe - FirstOf(s, safe) + 1
  }

  /** Nothing goes wrong during the tick. */
  ghost predicate Smooth(cfg: Config, s: State, t: TickInput) {
    && s.fromBlock.Some? && t.head.Head? && t.wallets.Some?
    && (exists i :: 0 <= i < |s.providers| && s.providers[i].healthy)
    && forall n :: s.fromBlock.value <= n <= t.head.number - cfg.safeBlockBuffer ==> n in t.blocks
  }

  /** A smooth tick takes min(backlog, cap) off the backlog. */
  lemma SmoothTick(cfg: Config, s: State, t: TickInput)
    requires Smooth(cfg, s, t) && PointerFollows(s) && cfg.maxBlocksPerTick >= 1
    ensures Tick(cfg, s, t).fromBlock.Some?
    ensures Backlog(cfg, s, t.head.number) <= 0 ==> Backlog(cfg, Tick(cfg, s, t), t.head.number) <= 0
    ensures Backlog(cfg, s, t.head.number) > 0 ==>
      Backlog(cfg, Tick(cfg, s, t), t.head.number) <= Max(0, Backlog(cfg, s, t.head.number) - cfg.maxBlocksPerTick)
  {
    var r := Refresh(s, t);
    var i :| 0 <= i < |s.providers| && s.providers[i].healthy;
    assert r.providers[i].healthy;
    var p := FirstHealthy(r.providers);
    var safe := SafeBlock(cfg, t.head.number);
    if t.wallets.value != [] && StartOf(r, safe) <= safe {
      var from := StartOf(r, safe);
      var to := ScanEffect(cfg, r, p, t, t.wallets.value, from, EndOf(cfg, from, safe));
    }
  }

  /** A smooth tick within the cap reaches the block that lies exactly the buffer below the head. */
  lemma SmoothTickCatchesUp(cfg: Config, s: State, t: TickInput)
    requires Smooth(cfg, s, t) && 1 <= Backlog(cfg, s, t.head.number) <= cfg.maxBlocksPerTick
    ensures
      var r := Tick(cfg, s, t);
      r.lastBlock.Some? && r.lastBlock.value + cfg.safeBlockBuffer == t.head.number
  {
    var r := Refresh(s, t);
    var i :| 0 <= i < |s.providers| && s.providers[i].healthy;
    assert r.providers[i].healthy;
    var p := FirstHealthy(r.providers);
    var safe := SafeBlock(cfg, t.head.number);
    if t.wallets.value != [] {
      var from := StartOf(r, safe);
      var to := ScanEffect(cfg, r, p, t, t.wallets.value, from, EndOf(cfg, from, safe));
    }
  }

  function Max(a: int, b: int): int { if a < b then b else a }

  predicate GrowsAt(ticks: seq<TickInput>, k: int, g: int) {
    0 < k < |ticks| ==>
      && ticks[k - 1].head.Head? && ticks[k].head.Head?
      && 0 <= ticks[k].head.number - ticks[k - 1].head.number <= g
  }

  /** Head growth of at most g a tick. */
  ghost predicate GrowsBy(ticks: seq<TickInput>, g: int) {
    && (forall k :: 0 <= k < |ticks| ==> ticks[k].head.Head?)
    && forall k :: GrowsAt(ticks, k, g)
  }

  /** Nothing goes wrong during tick k of the run. */
  ghost predicate SmoothAt(cfg: Config, up: Setup, ticks: seq<TickInput>, k: nat)
    requires k < |ticks|
  {
    Smooth(cfg, After(cfg, up, ticks[..k]), ticks[k])
  }

  ghost predicate SmoothRun(cfg: Config, up: Setup, ticks: seq<TickInput>) {
    forall k :: 0 <= k < |ticks| ==> SmoothAt(cfg, up, ticks, k)
  }

  /** The backlog that tick k meets. */
  function BacklogAt(cfg: Config, up: Setup, ticks: seq<TickInput>, k: nat): int
    requires k < |ticks| && ticks[k].head.Head?
  {
    Backlog(cfg, After(cfg, up, ticks[..k]), ticks[k].head.number)
  }

  function BacklogsTo(cfg: Config, up: Setup, ticks: seq<TickInput>, n: nat): (b: seq<int>)
    requires n <= |ticks| && forall k :: 0 <= k < |ticks| ==> ticks[k].head.Head?
    ensures |b| == n && forall k :: 0 <= k < n ==> b[k] == BacklogAt(cfg, up, ticks, k)
  {
    if n == 0 then [] else BacklogsTo(cfg, up, ticks, n - 1) + [BacklogAt(cfg, up, ticks, n - 1)]
  }

  lemma BacklogStep(cfg: Config, up: Setup, ticks: seq<TickInput>, g: int, n: nat)
    requires 0 <= g && cfg.maxBlocksPerTick >= 1 && 0 < n < |ticks|
    requires GrowsBy(ticks, g) && SmoothRun(cfg, up, ticks)
    ensures BacklogAt(cfg, up, ticks, n) <= g + Max(0, BacklogAt(cfg, up, ticks, n - 1) - cfg.maxBlocksPerTick)
  {
    var s, t := After(cfg, up, ticks[..n - 1]), ticks[n - 1];
    assert ticks[..n][..n - 1] == ticks[..n - 1];
    assert After(cfg, up, ticks[..n]) == Tick(cfg, s, t);
    RunPointer(cfg, up, ticks[..n - 1]);
    assert SmoothAt(cfg, up, ticks, n - 1);
    SmoothTick(cfg, s, t);
    assert GrowsAt(ticks, n, g);
  }

  predicate DrainsAt(b: seq<int>, k: int, g: int, cap: int) {
    0 < k < |b| ==> b[k] <= g + Max(0, b[k - 1] - cap)
  }

  lemma {:induction false} DrainBound(b: seq<int>, n: nat, g: int, cap: int)
    requires 0 <= g <= cap && n < |b|
    requires forall k :: DrainsAt(b, k, g, cap)
    ensures b[n] <= Max(g, b[0] - n * (cap - g))
    decreases n
  {
    if n > 0 {
      DrainBound(b, n - 1, g, cap);
      assert n * (cap - g) == (n - 1) * (cap - g) + (cap - g);
      assert DrainsAt(b, n, g, cap);
    }
  }

  lemma BacklogsDrain(cfg: Config, up: Setup, ticks: seq<TickInput>, g: int) returns (b: seq<int>)
    requires 0 <= g && cfg.maxBlocksPerTick >= 1
    requires GrowsBy(ticks, g) && SmoothRun(cfg, up, ticks)
    ensures |b| == |ticks| && forall k :: 0 <= k < |b| ==> b[k] == BacklogAt(cfg, up, ticks, k)
    ensures forall k :: DrainsAt(b, k, g, cfg.maxBlocksPerTick)
  {
    b := BacklogsTo(cfg, up, ticks, |ticks|);
    forall k | 0 < k < |b|
      ensures DrainsAt(b, k, g, cfg.maxBlocksPerTick)
    {
      BacklogStep(cfg, up, ticks, g, k);
      assert b[k] == BacklogAt(cfg, up, ticks, k) && b[k - 1] == BacklogAt(cfg, up, ticks, k - 1);
    }
  }

  /** With cap M and head growth at most g <= M, the backlog bn met by tick n is at most
      max(g, b0 - n * (M - g)), where b0 is the backlog met by the first tick. */
  lemma BacklogBound(cfg: Config, up: Setup, ticks: seq<TickInput>, g: int, n: nat, b0: int, bn: int)
    requires 0 <= g <= cfg.maxBlocksPerTick && cfg.maxBlocksPerTick >= 1 && n < |ticks|
    requires GrowsBy(ticks, g) && SmoothRun(cfg, up, ticks)
    requires b0 == BacklogAt(cfg, up, ticks, 0) && bn == BacklogAt(cfg, up, ticks, n)
    ensures bn <= Max(g, b0 - n * (cfg.maxBlocksPerTick - g))
  {
    var b := BacklogsDrain(cfg, up, ticks, g);
    assert b[0] == b0 && b[n] == bn;
    DrainBound(b, n, g, cfg.maxBlocksPerTick);
  }

  /** Catch-up ends: with g < M, every tick from the b0-th on meets a backlog of at most g. */
  lemma CatchUp(cfg: Config, up: Setup, ticks: seq<TickInput>, g: int, n: nat, b0: int, bn: int)
    requires 0 <= g < cfg.maxBlocksPerTick && b0 <= n < |ticks|
    requires GrowsBy(ticks, g) && SmoothRun(cfg, up, ticks)
    requires b0 == BacklogAt(cfg, up, ticks, 0) && bn == BacklogAt(cfg, up, ticks, n)
    ensures bn <= g
  {
    BacklogBound(cfg, up, ticks, g, n, b0, bn);
    DrainedBy(b0, n, cfg.maxBlocksPerTick - g, g);
  }

  lemma DrainedBy(b0: int, n: nat, m: int, g: int)
    requires n >= b0 && m >= 1 && g >= 0
    ensures Max(g, b0 - n * m) == g
  {
    assert n * m == n + n * (m - 1);
    assert n * (m - 1) >= 0;
  }

  // ---------- Providers ----------

  /** The provider a tick uses; the provider count when there is none. */
  function Used(s: State, t: TickInput): nat {
    FirstHealthy(Refresh(s, t).providers)
  }

  /** A tick touches at most the provider it uses, and at most once. */
  lemma TickProviders(cfg: Config, s: State, t: TickInput)
    ensures
      var before, after, p := Refresh(s, t).providers, Tick(cfg, s, t).providers, Used(s, t);
      && |after| == |before|
      && (after == before || (p < |before| && after == before[p := Fail(before[p])]))
      && (p == |before| ==> Tick(cfg, s, t) == Refresh(s, t))
    ensures Tick(cfg, s, t).nextRetry == Refresh(s, t).nextRetry
  {
    var r := Refresh(s, t);
    var p := FirstHealthy(r.providers);
    if p < |r.providers| && t.head.Head? && t.wallets.Some? && t.wallets.value != [] {
      var safe := SafeBlock(cfg, t.head.number);
      var from := StartOf(r, safe);
      if from <= safe {
        var to := ScanEffect(cfg, r, p, t, t.wallets.value, from, EndOf(cfg, from, safe));
      }
    }
  }

  predicate HealthOk(s: State) {
    forall i :: 0 <= i < |s.providers| ==> s.providers[i].failures == if s.providers[i].healthy then 0 else 1
  }

  /** In every reachable state a provider's failure count is 0 or 1, and 1 exactly when it is unhealthy. */
  lemma {:induction false} ProviderHealth(cfg: Config, up: Setup, ticks: seq<TickInput>)
    ensures HealthOk(After(cfg, up, ticks)) && |After(cfg, up, ticks).providers| == up.providers
  {
    if ticks != [] {
      ProviderHealth(cfg, up, ticks[..|ticks| - 1]);
      TickProviders(cfg, After(cfg, up, ticks[..|ticks| - 1]), ticks[|ticks| - 1]);
    }
  }

  predicate RetryDue(s: State, t: TickInput) {
    t.checkAt >= s.nextRetry
  }

  /** The tick ends in an error that is held against the provider it uses. */
  predicate Faults(cfg: Config, s: State, t: TickInput) {
    Tick(cfg, s, t).providers != Refresh(s, t).providers
  }

  /** ... and that happens exactly when the head reading fails transiently, or a block of the range it scans
      cannot be fetched for a transient reason. */
  lemma FaultsExactly(cfg: Config, s: State, t: TickInput)
    ensures Faults(cfg, s, t) <==>
      && Used(s, t) < |s.providers|
      && (match t.head
          case HeadError(transient) => transient
          case Head(number) =>
            var safe := number - cfg.safeBlockBuffer;
            var from := FirstOf(s, safe);
            && t.wallets.Some? && t.wallets.value != [] && t.fetchTransient && from <= safe
            && exists n :: from <= n <= safe && n < from + cfg.maxBlocksPerTick && n !in t.blocks)
  {
    var r := Refresh(s, t);
    var p := FirstHealthy(r.providers);
    if p < |r.providers| {
      assert r.providers[p] != Fail(r.providers[p]);
      if t.head.Head? && t.wallets.Some? && t.wallets.value != [] {
        var safe := SafeBlock(cfg, t.head.number);
        var from := StartOf(r, safe);
        if from <= safe {
          var to := ScanEffect(cfg, r, p, t, t.wallets.value, from, EndOf(cfg, from, safe));
        }
      }
    }
  }

  function HealthyCount(ps: seq<Health>): (c: nat)
    ensures c <= |ps|
  {
    if ps == [] then 0 else HealthyCount(ps[..|ps| - 1]) + if ps[|ps| - 1].healthy then 1 else 0
  }

  lemma {:induction false} HealthyCountFail(ps: seq<Health>, p: nat)
    requires p < |ps| && ps[p].healthy
    ensures HealthyCount(ps[p := Fail(ps[p])]) == HealthyCount(ps) - 1
  {
    var after := ps[p := Fail(ps[p])];
    if p == |ps| - 1 {
      assert after[..|ps| - 1] == ps[..|ps| - 1];
    } else {
      HealthyCountFail(ps[..|ps| - 1], p);
      assert after[..|ps| - 1] == ps[..|ps| - 1][p := Fail(ps[p])];
    }
  }

  /** Ticks base..|ticks| of the run that fault their provider. */
  function FaultCount(cfg: Config, up: Setup, ticks: seq<TickInput>, base: nat): nat
    requires base <= |ticks|
    decreases |ticks|
  {
    if |ticks| == base then 0
    else
      var front := ticks[..|ticks| - 1];
      FaultCount(cfg, up, front, base) + if Faults(cfg, After(cfg, up, front), ticks[|ticks| - 1]) then 1 else 0
  }

  /** Tick k opens without a recovery pass. */
  predicate NoRetryAt(cfg: Config, up: Setup, ticks: seq<TickInput>, k: nat)
    requires k < |ticks|
  {
    !RetryDue(After(cfg, up, ticks[..k]), ticks[k])
  }

  ghost predicate NoRetryFrom(cfg: Config, up: Setup, ticks: seq<TickInput>, base: nat) {
    forall k :: base <= k < |ticks| ==> NoRetryAt(cfg, up, ticks, k)
  }

  lemma {:induction false} NoRetryFront(cfg: Config, up: Setup, ticks: seq<TickInput>, base: nat)
    requires base < |ticks| && NoRetryFrom(cfg, up, ticks, base)
    ensures NoRetryFrom(cfg, up, ticks[..|ticks| - 1], base)
    ensures !RetryDue(After(cfg, up, ticks[..|ticks| - 1]), ticks[|ticks| - 1])
  {
    var front := ticks[..|ticks| - 1];
    forall k | base <= k < |front|
      ensures NoRetryAt(cfg, up, front, k)
    {
      assert NoRetryAt(cfg, up, ticks, k);
      assert front[..k] == ticks[..k];
    }
    assert NoRetryAt(cfg, up, ticks, |ticks| - 1);
  }

  /** Between recovery passes every fault costs exactly one healthy provider, so there are at most as many
      faults as healthy providers to begin with. */
  lemma {:induction false} FaultsAreConserved(cfg: Config, up: Setup, ticks: seq<TickInput>, base: nat)
    requires base <= |ticks| && NoRetryFrom(cfg, up, ticks, base)
    ensures FaultCount(cfg, up, ticks, base) + HealthyCount(After(cfg, up, ticks).providers) ==
            HealthyCount(After(cfg, up, ticks[..base]).providers) <= up.providers
    decreases |ticks|
  {
    ProviderHealth(cfg, up, ticks[..base]);
    if |ticks| == base {
      assert ticks[..base] == ticks;
    } else {
      var front, t := ticks[..|ticks| - 1], ticks[|ticks| - 1];
      NoRetryFront(cfg, up, ticks, base);
      FaultsAreConserved(cfg, up, front, base);
      assert front[..base] == ticks[..base];
      var s := After(cfg, up, front);
      TickProviders(cfg, s, t);
      if Faults(cfg, s, t) {
        HealthyCountFail(s.providers, Used(s, t));
      }
    }
  }

  predicate AllUnhealthy(ps: seq<Health>) {
    forall i :: 0 <= i < |ps| ==> !ps[i].healthy
  }

  /** The provider that tick k of the run uses. */
  function UsedAt(cfg: Config, up: Setup, ticks: seq<TickInput>, k: nat): nat
    requires k < |ticks|
  {
    Used(After(cfg, up, ticks[..k]), ticks[k])
  }

  /** Between recovery passes the provider used never moves back in the list, moves on exactly after a fault,
      and there is none exactly when all are unhealthy. */
  lemma {:induction false} Failover(cfg: Config, up: Setup, ticks: seq<TickInput>, k: nat)
    requires 0 < k < |ticks| && NoRetryAt(cfg, up, ticks, k)
    ensures UsedAt(cfg, up, ticks, k - 1) <= UsedAt(cfg, up, ticks, k)
    ensures UsedAt(cfg, up, ticks, k - 1) < UsedAt(cfg, up, ticks, k) <==>
            Faults(cfg, After(cfg, up, ticks[..k - 1]), ticks[k - 1])
    ensures UsedAt(cfg, up, ticks, k) == up.providers <==>
            AllUnhealthy(After(cfg, up, ticks[..k]).providers)
  {
    var s, s' := After(cfg, up, ticks[..k - 1]), After(cfg, up, ticks[..k]);
    assert ticks[..k][..k - 1] == ticks[..k - 1];
    assert s' == Tick(cfg, s, ticks[k - 1]);
    ProviderHealth(cfg, up, ticks[..k]);
    FailoverStep(cfg, s, ticks[k - 1], s', ticks[k]);
  }

  lemma FailoverStep(cfg: Config, s: State, t: TickInput, s': State, u: TickInput)
    requires s' == Tick(cfg, s, t) && !RetryDue(s', u)
    ensures Used(s, t) <= Used(s', u)
    ensures Used(s, t) < Used(s', u) <==> Faults(cfg, s, t)
    ensures Used(s', u) == |s'.providers| <==> AllUnhealthy(s'.providers)
  {
    TickProviders(cfg, s, t);
    var before, p, p' := Refresh(s, t).providers, Used(s, t), Used(s', u);
    assert forall i :: 0 <= i < p ==> !s'.providers[i].healthy;
    assert p' < |s'.providers| ==> s'.providers[p'].healthy;
    assert forall i :: 0 <= i < p' ==> !s'.providers[i].healthy;
    if Faults(cfg, s, t) {
      assert !s'.providers[p].healthy;
    } else if p < |before| {
      assert s'.providers[p].healthy;
    }
  }

  /** Over a whole stretch without a recovery pass the provider used never moves back. */
  lemma {:induction false} UsedNeverMovesBack(cfg: Config, up: Setup, ticks: seq<TickInput>, i: nat, j: nat)
    requires i <= j < |ticks| && NoRetryFrom(cfg, up, ticks, i + 1)
    ensures UsedAt(cfg, up, ticks, i) <= UsedAt(cfg, up, ticks, j)
    decreases j
  {
    if i < j {
      UsedNeverMovesBack(cfg, up, ticks, i, j - 1);
      assert NoRetryAt(cfg, up, ticks, j);
      Failover(cfg, up, ticks, j);
    }
  }

  // ---------- Recovery passes ----------

  /** In every tick the retry time is re-armed from a clock read no earlier than the one it was checked with. The
      original compares times that carry a monotonic reading, so within one process this is always so. */
  ghost predicate ClockRuns(ticks: seq<TickInput>) {
    forall k :: 0 <= k < |ticks| ==> ticks[k].checkAt <= ticks[k].rearmAt
  }

  /** How many ticks open with a recovery pass. */
  function Passes(cfg: Config, up: Setup, ticks: seq<TickInput>): nat {
    if ticks == [] then 0
    else
      var front := ticks[..|ticks| - 1];
      Passes(cfg, up, front) + if RetryDue(After(cfg, up, front), ticks[|ticks| - 1]) then 1 else 0
  }

  /** From a pass on, the next one stays at least five minutes away. */
  lemma {:induction false} RetryStaysAway(cfg: Config, up: Setup, ticks: seq<TickInput>, i: nat)
    requires ClockRuns(ticks) && i < |ticks| && !NoRetryAt(cfg, up, ticks, i)
    ensures After(cfg, up, ticks).nextRetry >= ticks[i].rearmAt + 300_000
    decreases |ticks|
  {
    var front, last := ticks[..|ticks| - 1], ticks[|ticks| - 1];
    TickProviders(cfg, After(cfg, up, front), last);
    assert last.checkAt <= last.rearmAt;
    if i < |front| {
      assert front[..i] == ticks[..i];
      RetryStaysAway(cfg, up, front, i);
    }
  }

  /** Any two recovery passes of a run are at least five minutes of clock apart. */
  lemma RecoveryPassesAreSpaced(cfg: Config, up: Setup, ticks: seq<TickInput>, i: nat, j: nat)
    requires ClockRuns(ticks) && i < j < |ticks|
    requires !NoRetryAt(cfg, up, ticks, i) && !NoRetryAt(cfg, up, ticks, j)
    ensures ticks[j].checkAt - ticks[i].rearmAt >= 300_000
  {
    assert ticks[..j][..i] == ticks[..i];
    RetryStaysAway(cfg, up, ticks[..j], i);
  }

  lemma {:induction false} RetryUnmoved(cfg: Config, up: Setup, ticks: seq<TickInput>, i: nat)
    requires i < |ticks| && !NoRetryAt(cfg, up, ticks, i) && NoRetryFrom(cfg, up, ticks, i + 1)
    ensures After(cfg, up, ticks).nextRetry == ticks[i].rearmAt + 300_000
    decreases |ticks|
  {
    var front, last := ticks[..|ticks| - 1], ticks[|ticks| - 1];
    TickProviders(cfg, After(cfg, up, front), last);
    if i < |front| {
      NoRetryFront(cfg, up, ticks, i + 1);
      assert front[..i] == ticks[..i];
      RetryUnmoved(cfg, up, front, i);
    }
  }

  /** A pass and the next one are that far apart under any clock. */
  lemma NextPassIsSpaced(cfg: Config, up: Setup, ticks: seq<TickInput>, i: nat, j: nat)
    requires i < j < |ticks| && forall k :: i < k < j ==> NoRetryAt(cfg, up, ticks, k)
    requires !NoRetryAt(cfg, up, ticks, i) && !NoRetryAt(cfg, up, ticks, j)
    ensures ticks[j].checkAt - ticks[i].rearmAt >= 300_000
  {
    var front := ticks[..j];
    assert front[..i] == ticks[..i];
    forall k | i < k < j
      ensures NoRetryAt(cfg, up, front, k)
    {
      assert NoRetryAt(cfg, up, ticks, k) && front[..k] == ticks[..k];
    }
    RetryUnmoved(cfg, up, front, i);
  }

  /** Between passes a tick opens with one exactly when five minutes have gone by since the last. */
  lemma PassDueExactly(cfg: Config, up: Setup, ticks: seq<TickInput>, i: nat, j: nat)
    requires i < j < |ticks| && forall k :: i < k < j ==> NoRetryAt(cfg, up, ticks, k)
    requires !NoRetryAt(cfg, up, ticks, i)
    ensures !NoRetryAt(cfg, up, ticks, j) <==> ticks[j].checkAt - ticks[i].rearmAt >= 300_000
  {
    var front := ticks[..j];
    assert front[..i] == ticks[..i];
    forall k | i < k < j
      ensures NoRetryAt(cfg, up, front, k)
    {
      assert NoRetryAt(cfg, up, ticks, k) && front[..k] == ticks[..k];
    }
    RetryUnmoved(cfg, up, front, i);
  }

  lemma {:induction false} RetryFromStartup(cfg: Config, up: Setup, ticks: seq<TickInput>)
    requires NoRetryFrom(cfg, up, ticks, 0)
    ensures After(cfg, up, ticks).nextRetry == up.startedAt + 300_000
  {
    if ticks != [] {
      NoRetryFront(cfg, up, ticks, 0);
      RetryFromStartup(cfg, up, ticks[..|ticks| - 1]);
      TickProviders(cfg, After(cfg, up, ticks[..|ticks| - 1]), ticks[|ticks| - 1]);
    }
  }

  /** And the first one exactly when five minutes have gone by since startup. */
  lemma FirstPassDueExactly(cfg: Config, up: Setup, ticks: seq<TickInput>, j: nat)
    requires j < |ticks| && forall k :: 0 <= k < j ==> NoRetryAt(cfg, up, ticks, k)
    ensures !NoRetryAt(cfg, up, ticks, j) <==> ticks[j].checkAt - up.startedAt >= 300_000
  {
    var front := ticks[..j];
    forall k | 0 <= k < j
      ensures NoRetryAt(cfg, up, front, k)
    {
      assert NoRetryAt(cfg, up, ticks, k) && front[..k] == ticks[..k];
    }
    RetryFromStartup(cfg, up, front);
  }

  // ---------- Who is healthy ----------

  /** A due pass resets exactly the unhealthy providers that answer it, and leaves the others as they were. */
  lemma PassOutcome(s: State, t: TickInput, i: nat)
    requires i < |s.providers|
    ensures
      var before, after := s.providers[i], Refresh(s, t).providers[i];
      after == if t.checkAt >= s.nextRetry && !before.healthy && i in t.reachable then Health(0, true) else before
  {
  }

  /** A tick that opens with a pass which some provider answers has a provider to use. */
  lemma AnsweredPassFindsProvider(cfg: Config, up: Setup, ticks: seq<TickInput>, k: nat, i: nat)
    requires k < |ticks| && !NoRetryAt(cfg, up, ticks, k) && i < up.providers && i in ticks[k].reachable
    ensures UsedAt(cfg, up, ticks, k) < up.providers
  {
    ProviderHealth(cfg, up, ticks[..k]);
    PassOutcome(After(cfg, up, ticks[..k]), ticks[k], i);
  }

  /** Tick k opens with a pass that provider i answers. */
  predicate AnswersAt(cfg: Config, up: Setup, ticks: seq<TickInput>, k: nat, i: nat)
    requires k < |ticks|
  {
    !NoRetryAt(cfg, up, ticks, k) && i in ticks[k].reachable
  }

  /** Tick k ends in an error held against provider i. */
  predicate BlamedAt(cfg: Config, up: Setup, ticks: seq<TickInput>, k: nat, i: nat)
    requires k < |ticks|
  {
    Faults(cfg, After(cfg, up, ticks[..k]), ticks[k]) && UsedAt(cfg, up, ticks, k) == i
  }

  /** Provider i was blamed in tick j and has answered no pass since. */
  ghost predicate DownSince(cfg: Config, up: Setup, ticks: seq<TickInput>, i: nat, j: nat) {
    && j < |ticks| && BlamedAt(cfg, up, ticks, j, i)
    && forall k :: j < k < |ticks| ==> !AnswersAt(cfg, up, ticks, k, i)
  }

  lemma DownSinceSnoc(cfg: Config, up: Setup, ticks: seq<TickInput>, i: nat, j: nat)
    requires j < |ticks| - 1
    ensures DownSince(cfg, up, ticks, i, j) <==>
      DownSince(cfg, up, ticks[..|ticks| - 1], i, j) && !AnswersAt(cfg, up, ticks, |ticks| - 1, i)
  {
    var front := ticks[..|ticks| - 1];
    assert front[..j] == ticks[..j];
    forall k | j < k < |front|
      ensures AnswersAt(cfg, up, front, k, i) <==> AnswersAt(cfg, up, ticks, k, i)
    {
      assert front[..k] == ticks[..k];
    }
  }

  lemma HealthOfTick(cfg: Config, s: State, t: TickInput, i: nat)
    requires i < |s.providers|
    ensures
      var r := Tick(cfg, s, t);
      && |r.providers| == |s.providers|
      && (!r.providers[i].healthy <==>
            || (Faults(cfg, s, t) && Used(s, t) == i)
            || (!s.providers[i].healthy && !(t.checkAt >= s.nextRetry && i in t.reachable)))
  {
    TickProviders(cfg, s, t);
    PassOutcome(s, t, i);
  }

  ghost predicate IsDown(cfg: Config, up: Setup, ticks: seq<TickInput>, i: nat) {
    exists j :: DownSince(cfg, up, ticks, i, j)
  }

  lemma DownSnoc(cfg: Config, up: Setup, ticks: seq<TickInput>, i: nat)
    requires ticks != []
    ensures IsDown(cfg, up, ticks, i) <==>
            || BlamedAt(cfg, up, ticks, |ticks| - 1, i)
            || (IsDown(cfg, up, ticks[..|ticks| - 1], i) && !AnswersAt(cfg, up, ticks, |ticks| - 1, i))
  {
    var front, last := ticks[..|ticks| - 1], |ticks| - 1;
    if BlamedAt(cfg, up, ticks, last, i) {
      assert DownSince(cfg, up, ticks, i, last);
    } else {
      if IsDown(cfg, up, front, i) {
        var j :| DownSince(cfg, up, front, i, j);
        DownSinceSnoc(cfg, up, ticks, i, j);
      }
      if IsDown(cfg, up, ticks, i) {
        var j :| DownSince(cfg, up, ticks, i, j);
        DownSinceSnoc(cfg, up, ticks, i, j);
      }
    }
  }

  /** At any time of a run exactly those providers are out of use that were blamed and have answered no pass since. */
  lemma {:induction false} HealthExactly(cfg: Config, up: Setup, ticks: seq<TickInput>, i: nat)
    requires i < up.providers
    ensures |After(cfg, up, ticks).providers| == up.providers
    ensures !After(cfg, up, ticks).providers[i].healthy <==> IsDown(cfg, up, ticks, i)
  {
    if ticks != [] {
      var front := ticks[..|ticks| - 1];
      HealthExactly(cfg, up, front, i);
      HealthOfTick(cfg, After(cfg, up, front), ticks[|ticks| - 1], i);
      DownSnoc(cfg, up, ticks, i);
    }
  }

  /** So p passes take at least p times five minutes from startup. */
  lemma {:induction false} PassesTakeTime(cfg: Config, up: Setup, ticks: seq<TickInput>)
    requires ClockRuns(ticks)
    ensures After(cfg, up, ticks).nextRetry >= up.startedAt + 300_000 * (Passes(cfg, up, ticks) + 1)
  {
    if ticks != [] {
      var front, last := ticks[..|ticks| - 1], ticks[|ticks| - 1];
      PassesTakeTime(cfg, up, front);
      TickProviders(cfg, After(cfg, up, front), last);
      assert last.checkAt <= last.rearmAt;
    }
  }

  lemma FaultsOfTick(cfg: Config, s: State, t: TickInput)
    ensures HealthyCount(Tick(cfg, s, t).providers) + (if Faults(cfg, s, t) then 1 else 0) ==
            HealthyCount(Refresh(s, t).providers)
  {
    TickProviders(cfg, s, t);
    if Faults(cfg, s, t) {
      HealthyCountFail(Refresh(s, t).providers, Used(s, t));
    }
  }

  /** n faults to begin with, and n more for each of p passes. */
  function Budget(n: nat, p: nat): nat {
    if p == 0 then n else Budget(n, p - 1) + n
  }

  lemma {:induction false} BudgetIsProduct(n: nat, p: nat)
    ensures Budget(n, p) == n * (p + 1)
  {
    if p > 0 {
      BudgetIsProduct(n, p - 1);
    }
  }

  /** With `spent` faults and `passes` passes so far, the healthy providers left are within the budget. */
  predicate InBudget(cfg: Config, up: Setup, ticks: seq<TickInput>, spent: nat, passes: nat) {
    spent + HealthyCount(After(cfg, up, ticks).providers) <= Budget(up.providers, passes)
  }

  lemma BudgetStep(cfg: Config, s: State, t: TickInput, n: nat, spent: nat, passes: nat)
    requires |s.providers| == n && spent + HealthyCount(s.providers) <= Budget(n, passes)
    ensures spent + (if Faults(cfg, s, t) then 1 else 0) + HealthyCount(Tick(cfg, s, t).providers) <=
            Budget(n, passes + if RetryDue(s, t) then 1 else 0)
  {
    FaultsOfTick(cfg, s, t);
  }

  /** The counts after all ticks but the last, and what the last one adds to them. */
  lemma {:induction false} LastTickCounts(cfg: Config, up: Setup, ticks: seq<TickInput>, s: State, t: TickInput)
    requires ticks != [] && s == After(cfg, up, ticks[..|ticks| - 1]) && t == ticks[|ticks| - 1]
    ensures After(cfg, up, ticks) == Tick(cfg, s, t)
    ensures Passes(cfg, up, ticks) == Passes(cfg, up, ticks[..|ticks| - 1]) + if RetryDue(s, t) then 1 else 0
    ensures FaultCount(cfg, up, ticks, 0) ==
            FaultCount(cfg, up, ticks[..|ticks| - 1], 0) + if Faults(cfg, s, t) then 1 else 0
  {
  }

  lemma {:induction false} CountsInBudget(cfg: Config, up: Setup, ticks: seq<TickInput>)
    returns (spent: nat, passes: nat)
    ensures spent == FaultCount(cfg, up, ticks, 0) && passes == Passes(cfg, up, ticks)
    ensures InBudget(cfg, up, ticks, spent, passes)
  {
    ProviderHealth(cfg, up, ticks);
    if ticks == [] {
      spent, passes := 0, 0;
    } else {
      var front, t := ticks[..|ticks| - 1], ticks[|ticks| - 1];
      var s := After(cfg, up, front);
      spent, passes := CountsInBudget(cfg, up, front);
      LastTickCounts(cfg, up, ticks, s, t);
      ProviderHealth(cfg, up, front);
      BudgetStep(cfg, s, t, up.providers, spent, passes);
      spent := spent + if Faults(cfg, s, t) then 1 else 0;
      passes := passes + if RetryDue(s, t) then 1 else 0;
    }
  }

  lemma BudgetBounds(cfg: Config, up: Setup, ticks: seq<TickInput>, spent: nat, passes: nat)
    requires InBudget(cfg, up, ticks, spent, passes)
    ensures spent <= up.providers * (passes + 1)
  {
    BudgetIsProduct(up.providers, passes);
  }

  /** Over a whole run each recovery pass allows at most one more fault per provider. */
  lemma {:induction false} FaultsOfRun(cfg: Config, up: Setup, ticks: seq<TickInput>)
    ensures FaultCount(cfg, up, ticks, 0) <= up.providers * (Passes(cfg, up, ticks) + 1)
  {
    var spent, passes := CountsInBudget(cfg, up, ticks);
    BudgetBounds(cfg, up, ticks, spent, passes);
  }

  /** A fault rate: up to a clock reading of `now` there are at most as many faults per provider as five-minute
      intervals have begun since startup. */
  lemma {:induction false} FaultsAreRateLimited(cfg: Config, up: Setup, ticks: seq<TickInput>, now: int, begun: nat)
    requires ClockRuns(ticks) && forall k :: 0 <= k < |ticks| ==> ticks[k].checkAt <= now
    requires up.startedAt <= now < up.startedAt + 300_000 * begun
    ensures FaultCount(cfg, up, ticks, 0) <= up.providers * begun
  {
    var spent, passes := CountsInBudget(cfg, up, ticks);
    BudgetBounds(cfg, up, ticks, spent, passes);
    PassesWithin(cfg, up, ticks, now);
    Scaled(up.providers, passes + 1, begun);
  }

  lemma Scaled(n: nat, a: nat, b: nat)
    requires a <= b
    ensures n * a <= n * b
  {
  }

  lemma {:induction false} PassesWithin(cfg: Config, up: Setup, ticks: seq<TickInput>, now: int)
    requires ClockRuns(ticks) && up.startedAt <= now && forall k :: 0 <= k < |ticks| ==> ticks[k].checkAt <= now
    ensures 300_000 * Passes(cfg, up, ticks) <= now - up.startedAt
  {
    if ticks != [] {
      var front, t := ticks[..|ticks| - 1], ticks[|ticks| - 1];
      assert forall k :: 0 <= k < |front| ==> front[k] == ticks[k];
      PassesWithin(cfg, up, front, now);
      PassesTakeTime(cfg, up, front);
      assert t.checkAt <= now;
    }
  }

  // ---------- Session row and checkpoint ----------

  predicate SessionFits(s: State) {
    s.session.Some? ==>
      && s.session.value.toBlock.None? && !s.session.value.closed
      && (if s.history == [] then s.fromBlock == Some(s.session.value.fromBlock)
          else s.history[0].Lo() == s.session.value.fromBlock && s.history[0].Lo() <= s.history[0].Hi())
  }

  /** Recorded checkpoints never step back and never pass the last block. */
  predicate WritesFit(s: State) {
    && (forall i, j :: 0 <= i < j < |s.writes| ==> s.writes[i] <= s.writes[j])
    && (s.writes != [] ==> s.lastBlock.Some?)
    && forall i :: 0 <= i < |s.writes| ==> s.writes[i] <= s.lastBlock.value
  }

  lemma {:induction false} RunSession(cfg: Config, up: Setup, ticks: seq<TickInput>)
    requires HeadsNonDecreasing(up, ticks)
    ensures SessionFits(After(cfg, up, ticks))
    ensures up.head.Some? && After(cfg, up, ticks).session.Some? ==>
      After(cfg, up, ticks).session.value.fromBlock + cfg.safeBlockBuffer == up.head.value
    ensures After(cfg, up, ticks).session.Some? ==> up.head.Some?
  {
    if ticks != [] {
      var front, t := ticks[..|ticks| - 1], ticks[|ticks| - 1];
      RunSession(cfg, up, front);
      RunPointer(cfg, up, front);
      var s := After(cfg, up, front);
      var scans, from, to := TickEffect(cfg, s, t);
      var r := After(cfg, up, ticks);
      if s.history != [] {
        assert r.history[0] == s.history[0];
      }
    }
  }

  /** The last recorded checkpoint is the last block. */
  predicate WritesCurrent(s: State) {
    s.lastBlock.Some? ==> s.writes != [] && s.writes[|s.writes| - 1] == s.lastBlock.value
  }

  lemma TickWrites(cfg: Config, s: State, t: TickInput)
    requires Contiguous(s) && WritesFit(s) && !Rewinds(cfg, s, t)
    ensures WritesFit(Tick(cfg, s, t))
    ensures WritesCurrent(s) && t.writeOk ==> WritesCurrent(Tick(cfg, s, t))
  {
    TickContiguous(cfg, s, t);
    var scans, from, to := TickEffect(cfg, s, t);
    var r := Tick(cfg, s, t);
    if r.writes != s.writes {
      assert r.lastBlock.Some? && r.writes == s.writes + [r.lastBlock.value];
    }
  }

  /** Checkpoints within a run are non-decreasing and never pass the last block; if every update succeeds, the
      stored checkpoint is the last block. */
  lemma {:induction false} CheckpointsFollow(cfg: Config, up: Setup, ticks: seq<TickInput>)
    requires NeverRewinds(cfg, up, ticks)
    ensures WritesFit(After(cfg, up, ticks))
    ensures (forall k :: 0 <= k < |ticks| ==> ticks[k].writeOk) ==> WritesCurrent(After(cfg, up, ticks))
  {
    if ticks != [] {
      var front := ticks[..|ticks| - 1];
      NeverRewindsFront(cfg, up, ticks);
      CheckpointsFollow(cfg, up, front);
      RunContiguous(cfg, up, front);
      TickWrites(cfg, After(cfg, up, front), ticks[|ticks| - 1]);
    }
  }

  /** The closed row is exactly what was covered: an interval with each block in it covered once and no other block
      covered at all, without an end exactly when nothing was. */
  ghost predicate RowFits(row: Session, h: seq<Span>) {
    && row.closed
    && (row.toBlock.None? <==> h == [])
    && (row.toBlock.None? ==> forall b :: Times(h, b) == 0)
    && (row.toBlock.Some? ==>
          && row.fromBlock <= row.toBlock.value + 1
          && forall b :: Times(h, b) == if row.fromBlock <= b <= row.toBlock.value then 1 else 0)
  }

  /** The row stays as startup made it, and the run's first span begins at the block it names. */
  lemma {:induction false} SessionStartsRun(cfg: Config, up: Setup, ticks: seq<TickInput>)
    ensures
      var s := After(cfg, up, ticks);
      && s.session == Start(cfg, up).session
      && (s.session.Some? ==>
            var from := s.session.value.fromBlock;
            if s.history == [] then s.fromBlock == Some(from) else s.history[0].Lo() == from)
  {
    if ticks != [] {
      var front, t := ticks[..|ticks| - 1], ticks[|ticks| - 1];
      SessionStartsRun(cfg, up, front);
      RunPointer(cfg, up, front);
      var s := After(cfg, up, front);
      var scans, from, to := TickEffect(cfg, s, t);
      if s.history != [] {
        assert After(cfg, up, ticks).history[0] == s.history[0];
      }
    }
  }

  /** The row that shutdown leaves describes the run if and only if no tick without wallets read a safe block behind
      the pointer. */
  lemma {:induction false} SessionExactness(cfg: Config, up: Setup, ticks: seq<TickInput>)
    requires After(cfg, up, ticks).session.Some?
    ensures RowFits(Close(After(cfg, up, ticks), true).session.value, After(cfg, up, ticks).history) <==>
            NeverRewinds(cfg, up, ticks)
    ensures Close(After(cfg, up, ticks), false) == After(cfg, up, ticks)
  {
    CoverageExactness(cfg, up, ticks);
    SessionStartsRun(cfg, up, ticks);
    RunPointer(cfg, up, ticks);
  }

  /** With non-decreasing heads the closed row has an end exactly when a block was covered, and then it is a
      non-empty interval. */
  lemma {:induction false} SessionMatchesCoverage(cfg: Config, up: Setup, ticks: seq<TickInput>)
    requires HeadsNonDecreasing(up, ticks) && After(cfg, up, ticks).session.Some?
    ensures
      var s := After(cfg, up, ticks);
      var row := Close(s, true).session.value;
      && row.closed
      && (row.toBlock.None? <==> forall b :: Times(s.history, b) == 0)
      && (row.toBlock.Some? ==>
            && row.fromBlock <= row.toBlock.value
            && forall b :: Times(s.history, b) == if row.fromBlock <= b <= row.toBlock.value then 1 else 0)
  {
    var s := After(cfg, up, ticks);
    NonDecreasingNeverRewinds(cfg, up, ticks);
    SessionExactness(cfg, up, ticks);
    RunContiguous(cfg, up, ticks);
    RunSession(cfg, up, ticks);
    if s.history != [] {
      HeadInside(s.history, s.history[0].Lo(), s.lastBlock.value);
      assert Times(s.history, s.history[0].Lo()) == 1;
    }
  }

  /** A run that scans block 100 and then, with no wallet to watch, reads a lagging head: its row says 100..99. */
  lemma RewoundRowMissesBlock()
    ensures
      var cfg := Config(0, 10, Uuid(0), "ETH", {}, false, None, true);
      var block := Block(100, 0, 0, [], map[], None, map[]);
      var s := After(cfg, Setup(1, 0, Some(100), true), [ScanningTick(100, block), IdleTick(99)]);
      Close(s, true).session == Some(Session(100, Some(99), true)) && Times(s.history, 100) == 1
  {
    var cfg := Config(0, 10, Uuid(0), "ETH", {}, false, None, true);
    var block := Block(100, 0, 0, [], map[], None, map[]);
    var t0, t1 := ScanningTick(100, block), IdleTick(99);
    var up := Setup(1, 0, Some(100), true);
    assert [t0, t1] == ([] + [t0]) + [t1];
    AfterSnoc(cfg, up, [], t0);
    AfterSnoc(cfg, up, [] + [t0], t1);
    ScansOne(cfg, Start(cfg, up), 100, block);
    var s1 := Tick(cfg, Start(cfg, up), t0);
    SkipsBack(cfg, s1, 99);
    TimesSnoc([], s1.history[0], 100);
    TimesSnoc(s1.history, Skipped(101, 99), 100);
  }

  lemma {:induction false} HeadInside(h: seq<Span>, lo: int, hi: int)
    requires h != [] && Chain(h, lo, hi)
    ensures h[0].Hi() <= hi
  {
    if |h| > 1 {
      HeadInside(h[..|h| - 1], lo, h[|h| - 1].Lo() - 1);
    }
  }
}
