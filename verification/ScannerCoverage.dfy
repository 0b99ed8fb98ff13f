/** Which blocks a run covers, and how often. */
module ScannerCoverage {
  import opened Schema
  import opened Scanner

  /** How many spans of the history contain block b. */
  function Times(h: seq<Span>, b: int): nat {
    if h == [] then 0
    else Times(h[..|h| - 1], b) + if h[|h| - 1].Lo() <= b <= h[|h| - 1].Hi() then 1 else 0
  }

  function ScannedBlocks(h: seq<Span>): seq<int> {
    if h == [] then []
    else ScannedBlocks(h[..|h| - 1]) + if h[|h| - 1].Scanned? then [h[|h| - 1].n] else []
  }

  predicate Increasing(s: seq<int>) {
    forall i, j :: 0 <= i < j < |s| ==> s[i] < s[j]
  }

  /** Each span starts where the one before it ended; together they fill lo..hi. */
  predicate Chain(h: seq<Span>, lo: int, hi: int) {
    if h == [] then hi == lo - 1
    else
      var last := h[|h| - 1];
      Chain(h[..|h| - 1], lo, last.Lo() - 1) && last.Lo() <= last.Hi() + 1 && last.Hi() == hi
  }

  lemma {:induction false} ChainTimes(h: seq<Span>, lo: int, hi: int)
    requires Chain(h, lo, hi)
    ensures lo <= hi + 1
    ensures h != [] ==> h[0].Lo() == lo
    ensures forall b :: Times(h, b) == if lo <= b <= hi then 1 else 0
  {
    if h != [] {
      ChainTimes(h[..|h| - 1], lo, h[|h| - 1].Lo() - 1);
    }
  }

  lemma IncreasingSnoc(s: seq<int>, n: int)
    requires Increasing(s) && forall i :: 0 <= i < |s| ==> s[i] < n
    ensures Increasing(s + [n])
  {
  }

  lemma {:induction false} ChainScansUpward(h: seq<Span>, lo: int, hi: int)
    requires Chain(h, lo, hi)
    ensures Increasing(ScannedBlocks(h))
    ensures forall i :: 0 <= i < |ScannedBlocks(h)| ==> ScannedBlocks(h)[i] <= hi
  {
    if h != [] {
      var front, last := h[..|h| - 1], h[|h| - 1];
      ChainScansUpward(front, lo, last.Lo() - 1);
      if last.Scanned? {
        IncreasingSnoc(ScannedBlocks(front), last.n);
      }
    }
  }

  lemma {:induction false} ChainExtend(h: seq<Span>, h': seq<Span>, lo: int, from: int, to: int)
    requires Chain(h, lo, from - 1)
    requires h <= h' && |h'| == |h| + to - from + 1
    requires forall i :: |h| <= i < |h'| ==> h'[i].Scanned? && h'[i].n == from + i - |h|
    ensures Chain(h', lo, to)
    decreases |h'|
  {
    if |h'| == |h| {
      assert h' == h;
    } else {
      var front := h'[..|h'| - 1];
      assert h <= front;
      ChainExtend(h, front, lo, from, to - 1);
    }
  }

  /** The pointer fact every branch relies on. */
  predicate PointerFollows(s: State) {
    && (s.lastBlock.Some? ==> s.fromBlock == Some(s.lastBlock.value + 1))
    && (s.history == [] <==> s.lastBlock.None?)
  }

  /** The history fills an interval that starts where it began and ends at the last block. */
  ghost predicate Contiguous(s: State) {
    && PointerFollows(s)
    && (s.history != [] ==> Chain(s.history, s.history[0].Lo(), s.lastBlock.value))
  }

  /** Exactly once: every block from the first covered one to the last block, and no other. */
  ghost predicate ExactlyOnce(s: State) {
    if s.history == [] then s.lastBlock.None?
    else
      && s.lastBlock.Some?
      && s.history[0].Lo() <= s.lastBlock.value + 1
      && forall b :: Times(s.history, b) == if s.history[0].Lo() <= b <= s.lastBlock.value then 1 else 0
  }

  /** The tick reaches the branch for "no wallet to watch". */
  predicate Idle(s: State, t: TickInput) {
    var r := Refresh(s, t);
    FirstHealthy(r.providers) < |r.providers| && t.head.Head? && t.wallets == Some([])
  }

  /** ... and that branch moves the pointer back: the safe block lies before what is already covered. */
  predicate Rewinds(cfg: Config, s: State, t: TickInput) {
    Idle(s, t) && s.fromBlock.Some? && t.head.number - cfg.safeBlockBuffer + 1 < s.fromBlock.value
  }

  /** Tick k of the run does that. */
  predicate RewindsAt(cfg: Config, up: Setup, ticks: seq<TickInput>, k: nat)
    requires k < |ticks|
  {
    Rewinds(cfg, After(cfg, up, ticks[..k]), ticks[k])
  }

  ghost predicate NeverRewinds(cfg: Config, up: Setup, ticks: seq<TickInput>) {
    forall k :: 0 <= k < |ticks| ==> !RewindsAt(cfg, up, ticks, k)
  }

  lemma NeverRewindsPrefix(cfg: Config, up: Setup, ticks: seq<TickInput>, n: nat)
    requires n <= |ticks| && NeverRewinds(cfg, up, ticks)
    ensures NeverRewinds(cfg, up, ticks[..n])
  {
    forall k | 0 <= k < n
      ensures !RewindsAt(cfg, up, ticks[..n], k)
    {
      assert ticks[..n][..k] == ticks[..k];
      assert !RewindsAt(cfg, up, ticks, k);
    }
  }

  lemma {:induction false} NeverRewindsFront(cfg: Config, up: Setup, ticks: seq<TickInput>)
    requires ticks != [] && NeverRewinds(cfg, up, ticks)
    ensures NeverRewinds(cfg, up, ticks[..|ticks| - 1])
    ensures !Rewinds(cfg, After(cfg, up, ticks[..|ticks| - 1]), ticks[|ticks| - 1])
  {
    NeverRewindsPrefix(cfg, up, ticks, |ticks| - 1);
    assert !RewindsAt(cfg, up, ticks, |ticks| - 1);
  }

  /** What a tick that scans does, after the recovery pass. */
  lemma ScanAndAdvance(cfg: Config, s: State, p: nat, t: TickInput, addrs: seq<Address>, from: int,
                       end: int) returns (to: int)
    requires p < |s.providers|
    ensures
      var r := Advance(Scan(cfg, s, p, t, addrs, from, end), t.writeOk);
      && from - 1 <= to && (to <= end || to == from - 1)
      && s.history <= r.history && s.session == r.session
      && |r.history| == |s.history| + to - from + 1
      && (forall i :: |s.history| <= i < |r.history| ==>
            r.history[i].Scanned? && r.history[i].n == from + i - |s.history|)
      && r.lastBlock == (if from <= to then Some(to) else s.lastBlock)
      && r.fromBlock == (if r.lastBlock.Some? then Some(r.lastBlock.value + 1) else s.fromBlock)
      && r.writes == if r.lastBlock.Some? && t.writeOk then s.writes + [r.lastBlock.value] else s.writes
  {
    to := ScanEffect(cfg, s, p, t, addrs, from, end);
  }

  /** Where a tick starts: at the pointer, or at the safe block while there is no pointer. */
  function FirstOf(s: State, safe: int): int {
    match s.fromBlock
    case None => safe
    case Some(n) => n
  }

  /** What one tick does to the covered interval, whatever happens in it. `to` is the last block reached when
      it scans. */
  lemma TickEffect(cfg: Config, s: State, t: TickInput) returns (scans: bool, from: int, to: int)
    ensures s.history <= Tick(cfg, s, t).history && s.session == Tick(cfg, s, t).session
    ensures Idle(s, t) ==>
      && !scans && t.head.Head?
      && (var safe := t.head.number - cfg.safeBlockBuffer;
          && Tick(cfg, s, t).history == s.history + [Skipped(FirstOf(s, safe), safe)]
          && Tick(cfg, s, t).lastBlock == Some(safe) && Tick(cfg, s, t).fromBlock == Some(safe + 1)
          && Tick(cfg, s, t).writes == if t.writeOk then s.writes + [safe] else s.writes)
    ensures !Idle(s, t) && !scans ==>
      && Tick(cfg, s, t).history == s.history && Tick(cfg, s, t).lastBlock == s.lastBlock
      && Tick(cfg, s, t).fromBlock == s.fromBlock && Tick(cfg, s, t).writes == s.writes
    ensures scans ==>
      && t.head.Head?
      && from == FirstOf(s, t.head.number - cfg.safeBlockBuffer) <= t.head.number - cfg.safeBlockBuffer
      && from - 1 <= to <= t.head.number - cfg.safeBlockBuffer
      && (to - from + 1 <= cfg.maxBlocksPerTick || to == from - 1)
      && |Tick(cfg, s, t).history| == |s.history| + to - from + 1
      && (forall i :: |s.history| <= i < |Tick(cfg, s, t).history| ==>
            Tick(cfg, s, t).history[i].Scanned? && Tick(cfg, s, t).history[i].n == from + i - |s.history|)
      && Tick(cfg, s, t).lastBlock == (if from <= to then Some(to) else s.lastBlock)
      && (var l := Tick(cfg, s, t).lastBlock;
          && Tick(cfg, s, t).fromBlock == (if l.Some? then Some(l.value + 1) else s.fromBlock)
          && Tick(cfg, s, t).writes == if l.Some? && t.writeOk then s.writes + [l.value] else s.writes)
  {
    scans, from, to := false, 0, 0;
    var r := Refresh(s, t);
    var p := FirstHealthy(r.providers);
    if p < |r.providers| && t.head.Head? && t.wallets.Some? && t.wallets.value != [] {
      var safe := SafeBlock(cfg, t.head.number);
      from := StartOf(r, safe);
      if from <= safe {
        scans := true;
        to := ScanAndAdvance(cfg, r, p, t, t.wallets.value, from, EndOf(cfg, from, safe));
      }
    }
  }

  /** Where the covered interval starts, or would start with the next span. */
  function Origin(s: State, next: int): int {
    if s.history == [] then next else s.history[0].Lo()
  }

  lemma IdleContiguous(s: State, r: State, safe: int)
    requires Contiguous(s) && !(s.fromBlock.Some? && safe + 1 < s.fromBlock.value)
    requires r.history == s.history + [Skipped(FirstOf(s, safe), safe)]
    requires r.lastBlock == Some(safe) && r.fromBlock == Some(safe + 1)
    ensures Contiguous(r)
  {
    var lo := Origin(s, FirstOf(s, safe));
    assert r.history[..|r.history| - 1] == s.history;
    assert Chain(s.history, lo, FirstOf(s, safe) - 1);
    assert Chain(r.history, lo, safe);
    assert r.history[0].Lo() == lo;
  }

  lemma ScanContiguous(s: State, r: State, safe: int, from: int, to: int)
    requires Contiguous(s) && from == FirstOf(s, safe) && from - 1 <= to
    requires s.history <= r.history && |r.history| == |s.history| + to - from + 1
    requires forall i :: |s.history| <= i < |r.history| ==>
      r.history[i].Scanned? && r.history[i].n == from + i - |s.history|
    requires r.lastBlock == if from <= to then Some(to) else s.lastBlock
    requires r.fromBlock == if r.lastBlock.Some? then Some(r.lastBlock.value + 1) else s.fromBlock
    ensures Contiguous(r)
    ensures s.lastBlock.Some? ==> r.lastBlock.Some? && r.lastBlock.value >= s.lastBlock.value
  {
    if from > to {
      assert r.history == s.history;
    } else {
      var lo := Origin(s, from);
      ChainExtend(s.history, r.history, lo, from, to);
      assert r.history[0].Lo() == lo;
    }
  }

  lemma TickContiguous(cfg: Config, s: State, t: TickInput)
    requires Contiguous(s) && !Rewinds(cfg, s, t)
    ensures Contiguous(Tick(cfg, s, t))
    ensures s.lastBlock.Some? ==>
      Tick(cfg, s, t).lastBlock.Some? && Tick(cfg, s, t).lastBlock.value >= s.lastBlock.value
  {
    var scans, from, to := TickEffect(cfg, s, t);
    var r := Tick(cfg, s, t);
    if Idle(s, t) {
      IdleContiguous(s, r, t.head.number - cfg.safeBlockBuffer);
    } else if scans {
      ScanContiguous(s, r, t.head.number - cfg.safeBlockBuffer, from, to);
    }
  }

  lemma {:induction false} RunContiguous(cfg: Config, up: Setup, ticks: seq<TickInput>)
    requires NeverRewinds(cfg, up, ticks)
    ensures Contiguous(After(cfg, up, ticks))
  {
    if ticks != [] {
      NeverRewindsFront(cfg, up, ticks);
      RunContiguous(cfg, up, ticks[..|ticks| - 1]);
      TickContiguous(cfg, After(cfg, up, ticks[..|ticks| - 1]), ticks[|ticks| - 1]);
    }
  }

  lemma ContiguousIsExact(s: State)
    requires Contiguous(s)
    ensures ExactlyOnce(s) && Increasing(ScannedBlocks(s.history))
  {
    if s.history != [] {
      ChainTimes(s.history, s.history[0].Lo(), s.lastBlock.value);
      ChainScansUpward(s.history, s.history[0].Lo(), s.lastBlock.value);
    }
  }

  lemma TickPointer(cfg: Config, s: State, t: TickInput)
    requires PointerFollows(s)
    ensures PointerFollows(Tick(cfg, s, t))
  {
    var scans, from, to := TickEffect(cfg, s, t);
  }

  lemma {:induction false} RunPointer(cfg: Config, up: Setup, ticks: seq<TickInput>)
    ensures PointerFollows(After(cfg, up, ticks))
  {
    if ticks != [] {
      RunPointer(cfg, up, ticks[..|ticks| - 1]);
      TickPointer(cfg, After(cfg, up, ticks[..|ticks| - 1]), ticks[|ticks| - 1]);
    }
  }

  // ---------- A rewind is never made good ----------

  predicate CoveredFrom(h: seq<Span>, base: nat, b: int) {
    exists i :: base <= i < |h| && h[i].Lo() <= b <= h[i].Hi()
  }

  lemma {:induction false} TimesGrow(h: seq<Span>, h': seq<Span>, b: int)
    requires h <= h'
    ensures Times(h', b) >= Times(h, b)
    ensures CoveredFrom(h', |h|, b) ==> Times(h', b) > Times(h, b)
    decreases |h'|
  {
    if h == h' {
      assert !CoveredFrom(h', |h|, b);
    } else {
      var front := h'[..|h'| - 1];
      TimesGrow(h, front, b);
      if CoveredFrom(h', |h|, b) {
        var i :| |h| <= i < |h'| && h'[i].Lo() <= b <= h'[i].Hi();
        assert i < |front| ==> front[i] == h'[i];
      }
    }
  }

  /** How often block b should have been covered by now. */
  function Due(s: State, b: int): nat
    requires s.history != [] && s.lastBlock.Some?
  {
    if s.history[0].Lo() <= b <= s.lastBlock.value then 1 else 0
  }

  predicate TooOften(s: State, b: int)
    requires s.history != [] && s.lastBlock.Some?
  {
    Times(s.history, b) > Due(s, b)
  }

  /** The last block lies before the origin, or some block is covered too often. */
  ghost predicate Broken(s: State) {
    && s.history != [] && s.lastBlock.Some?
    && (s.history[0].Lo() > s.lastBlock.value + 1 || exists b :: TooOften(s, b))
  }

  lemma BrokenIsInexact(s: State)
    requires Broken(s)
    ensures !ExactlyOnce(s)
  {
    if s.history[0].Lo() <= s.lastBlock.value + 1 {
      var b :| TooOften(s, b);
      assert Times(s.history, b) != Due(s, b);
    }
  }

  /** After a tick the blocks between the old and the new last block are covered once more. */
  lemma TickCoversAhead(cfg: Config, s: State, t: TickInput, b: int)
    requires PointerFollows(s) && s.lastBlock.Some?
    ensures
      var r := Tick(cfg, s, t);
      && s.history <= r.history && r.lastBlock.Some?
      && (s.lastBlock.value < b <= r.lastBlock.value ==> CoveredFrom(r.history, |s.history|, b))
  {
    var scans, from, to := TickEffect(cfg, s, t);
    var r := Tick(cfg, s, t);
    if s.lastBlock.value < b <= r.lastBlock.value {
      var i := if scans then |s.history| + b - from else |s.history|;
      assert r.history[i].Lo() <= b <= r.history[i].Hi();
    }
  }

  lemma BrokenStays(cfg: Config, s: State, t: TickInput)
    requires PointerFollows(s) && Broken(s)
    ensures Broken(Tick(cfg, s, t))
  {
    var r := Tick(cfg, s, t);
    var next := s.lastBlock.value + 1;
    TickCoversAhead(cfg, s, t, next);
    assert r.history[0] == s.history[0];
    if s.history[0].Lo() > next {
      TimesGrow(s.history, r.history, next);
      assert r.lastBlock.value >= next ==> TooOften(r, next);
    } else {
      var b :| TooOften(s, b);
      TickCoversAhead(cfg, s, t, b);
      TimesGrow(s.history, r.history, b);
      assert TooOften(r, b);
    }
  }

  lemma RewindBreaks(cfg: Config, s: State, t: TickInput)
    requires PointerFollows(s) && ExactlyOnce(s) && Rewinds(cfg, s, t)
    ensures Broken(Tick(cfg, s, t))
  {
    var scans, from, to := TickEffect(cfg, s, t);
    var r := Tick(cfg, s, t);
    if s.history != [] {
      assert r.history[0] == s.history[0];
      var b := s.lastBlock.value;
      TimesGrow(s.history, r.history, b);
      assert r.history[0].Lo() <= b ==> TooOften(r, b);
    }
  }

  lemma {:induction false} RewoundRunIsBroken(cfg: Config, up: Setup, ticks: seq<TickInput>, k: nat)
    requires k < |ticks| && RewindsAt(cfg, up, ticks, k)
    ensures Broken(After(cfg, up, ticks))
  {
    var front, last := ticks[..|ticks| - 1], ticks[|ticks| - 1];
    RunPointer(cfg, up, front);
    if k < |front| {
      assert front[..k] == ticks[..k];
      RewoundRunIsBroken(cfg, up, front, k);
      BrokenStays(cfg, After(cfg, up, front), last);
    } else if NeverRewinds(cfg, up, front) {
      RunContiguous(cfg, up, front);
      ContiguousIsExact(After(cfg, up, front));
      RewindBreaks(cfg, After(cfg, up, front), last);
    } else {
      var j :| 0 <= j < |front| && RewindsAt(cfg, up, front, j);
      RewoundRunIsBroken(cfg, up, front, j);
      BrokenStays(cfg, After(cfg, up, front), last);
    }
  }

  /** Coverage is exact at the boundary before tick k (after the run for k = |ticks|). */
  ghost predicate ExactAt(cfg: Config, up: Setup, ticks: seq<TickInput>, k: nat)
    requires k <= |ticks|
  {
    ExactlyOnce(After(cfg, up, ticks[..k]))
  }

  ghost predicate ExactThroughout(cfg: Config, up: Setup, ticks: seq<TickInput>) {
    forall k :: 0 <= k <= |ticks| ==> ExactAt(cfg, up, ticks, k)
  }

  /** A run ends with exactly-once coverage if and only if no tick without wallets read a safe block behind the
      pointer: no later tick makes good such a rewind. Blocks are then also scanned in increasing order. */
  lemma {:induction false} CoverageExactness(cfg: Config, up: Setup, ticks: seq<TickInput>)
    ensures ExactlyOnce(After(cfg, up, ticks)) <==> NeverRewinds(cfg, up, ticks)
    ensures ExactThroughout(cfg, up, ticks) <==> NeverRewinds(cfg, up, ticks)
    ensures NeverRewinds(cfg, up, ticks) ==> Increasing(ScannedBlocks(After(cfg, up, ticks).history))
  {
    if NeverRewinds(cfg, up, ticks) {
      forall k | 0 <= k <= |ticks|
        ensures ExactAt(cfg, up, ticks, k)
      {
        NeverRewindsPrefix(cfg, up, ticks, k);
        RunContiguous(cfg, up, ticks[..k]);
        ContiguousIsExact(After(cfg, up, ticks[..k]));
      }
      RunContiguous(cfg, up, ticks);
      ContiguousIsExact(After(cfg, up, ticks));
    } else {
      var k :| 0 <= k < |ticks| && RewindsAt(cfg, up, ticks, k);
      RewoundRunIsBroken(cfg, up, ticks, k);
      BrokenIsInexact(After(cfg, up, ticks));
      assert ticks[..|ticks|] == ticks;
      assert !ExactAt(cfg, up, ticks, |ticks|);
    }
  }

  // ---------- Non-decreasing heads are enough ----------

  ghost predicate HeadsAtMost(up: Setup, ticks: seq<TickInput>, top: int) {
    && (up.head.Some? ==> up.head.value <= top)
    && forall k :: 0 <= k < |ticks| && ticks[k].head.Head? ==> ticks[k].head.number <= top
  }

  ghost predicate HeadsNonDecreasing(up: Setup, ticks: seq<TickInput>) {
    && (forall k :: 0 <= k < |ticks| && ticks[k].head.Head? && up.head.Some? ==> up.head.value <= ticks[k].head.number)
    && (forall j, k :: 0 <= j < k < |ticks| && ticks[j].head.Head? && ticks[k].head.Head? ==>
          ticks[j].head.number <= ticks[k].head.number)
  }

  /** Finality over a whole run, whatever the order of the heads: nothing past the deepest safe block. */
  lemma {:induction false} NothingBeyondSafe(cfg: Config, up: Setup, ticks: seq<TickInput>, top: int)
    requires HeadsAtMost(up, ticks, top)
    ensures
      var s := After(cfg, up, ticks);
      && (s.fromBlock.Some? ==> s.fromBlock.value + cfg.safeBlockBuffer <= top + 1)
      && (s.lastBlock.Some? ==> s.lastBlock.value + cfg.safeBlockBuffer <= top)
      && forall i :: 0 <= i < |s.history| && s.history[i].Scanned? ==> s.history[i].n + cfg.safeBlockBuffer <= top
  {
    if ticks != [] {
      var front, t := ticks[..|ticks| - 1], ticks[|ticks| - 1];
      NothingBeyondSafe(cfg, up, front, top);
      var s := After(cfg, up, front);
      var scans, from, to := TickEffect(cfg, s, t);
      assert t.head.Head? ==> t.head.number <= top;
    }
  }

  lemma NonDecreasingNeverRewinds(cfg: Config, up: Setup, ticks: seq<TickInput>)
    requires HeadsNonDecreasing(up, ticks)
    ensures NeverRewinds(cfg, up, ticks)
  {
    forall k | 0 <= k < |ticks|
      ensures !RewindsAt(cfg, up, ticks, k)
    {
      if ticks[k].head.Head? {
        NothingBeyondSafe(cfg, up, ticks[..k], ticks[k].head.number);
      }
    }
  }

  /** The documented case: with non-decreasing heads, any pattern of failures leaves coverage exact. */
  lemma {:induction false} NonDecreasingHeadsCoverOnce(cfg: Config, up: Setup, ticks: seq<TickInput>)
    requires HeadsNonDecreasing(up, ticks)
    ensures ExactThroughout(cfg, up, ticks)
    ensures Increasing(ScannedBlocks(After(cfg, up, ticks).history))
  {
    NonDecreasingNeverRewinds(cfg, up, ticks);
    CoverageExactness(cfg, up, ticks);
  }

  /** A tick's blocks are consecutive, at most max(0, cap) many, and at least the buffer below the head it read. */
  lemma TickBound(cfg: Config, s: State, t: TickInput)
    ensures s.history <= Tick(cfg, s, t).history
    ensures
      var added := Tick(cfg, s, t).history[|s.history|..];
      && (Idle(s, t) <==> added != [] && added[0].Skipped?)
      && (Idle(s, t) ==> |added| == 1 && added[0].Hi() + cfg.safeBlockBuffer == t.head.number)
      && (!Idle(s, t) ==> |added| <= if cfg.maxBlocksPerTick > 0 then cfg.maxBlocksPerTick else 0)
      && (forall i :: 0 <= i < |added| && !Idle(s, t) ==>
            && t.head.Head? && added[i].Scanned? && added[i].n == added[0].n + i
            && added[i].n + cfg.safeBlockBuffer <= t.head.number)
    ensures
      var r := Tick(cfg, s, t);
      Idle(s, t) ==>
        && r.lastBlock.Some? && r.lastBlock.value + cfg.safeBlockBuffer == t.head.number
        && r.fromBlock == Some(r.lastBlock.value + 1)
  {
    var scans, from, to := TickEffect(cfg, s, t);
    var r := Tick(cfg, s, t);
    if Idle(s, t) {
      assert r.history[|s.history|].Skipped?;
    }
  }

  // ---------- Where a run starts ----------

  lemma {:induction false} PointerBeforeFirst(cfg: Config, up: Setup, ticks: seq<TickInput>)
    ensures After(cfg, up, ticks).history == [] ==>
      && After(cfg, up, ticks).lastBlock == None
      && After(cfg, up, ticks).fromBlock ==
         if up.providers > 0 && up.head.Some? then Some(up.head.value - cfg.safeBlockBuffer) else None
    ensures |After(cfg, up, ticks).providers| == up.providers
  {
    if ticks != [] {
      var front, t := ticks[..|ticks| - 1], ticks[|ticks| - 1];
      PointerBeforeFirst(cfg, up, front);
      RunPointer(cfg, up, front);
      var scans, from, to := TickEffect(cfg, After(cfg, up, front), t);
      ProviderCount(cfg, After(cfg, up, front), t);
    }
  }

  lemma ProviderCount(cfg: Config, s: State, t: TickInput)
    ensures |Tick(cfg, s, t).providers| == |s.providers|
  {
    var r := Refresh(s, t);
    var p := FirstHealthy(r.providers);
    if p < |r.providers| && t.head.Head? && t.wallets.Some? && t.wallets.value != [] {
      var safe := SafeBlock(cfg, t.head.number);
      var from := StartOf(r, safe);
      var to := ScanEffect(cfg, r, p, t, t.wallets.value, from, EndOf(cfg, from, safe));
    }
  }

  /** A run covers blocks from the buffer below the head read at startup; if that could not be read, from the buffer
      below the head read by the tick that covers something first. */
  lemma {:induction false} RunStartsBelowHead(cfg: Config, up: Setup, ticks: seq<TickInput>) returns (k: nat)
    requires After(cfg, up, ticks).history != []
    ensures k < |ticks| && After(cfg, up, ticks[..k]).history == []
    ensures
      var first := After(cfg, up, ticks).history[0].Lo() + cfg.safeBlockBuffer;
      match up.head
      case Some(h) => first == h
      case None => ticks[k].head.Head? && first == ticks[k].head.number
  {
    var front, t := ticks[..|ticks| - 1], ticks[|ticks| - 1];
    var s, r := After(cfg, up, front), After(cfg, up, ticks);
    var scans, from, to := TickEffect(cfg, s, t);
    if s.history != [] {
      k := RunStartsBelowHead(cfg, up, front);
      assert front[..k] == ticks[..k] && r.history[0] == s.history[0];
    } else {
      k := |front|;
      PointerBeforeFirst(cfg, up, front);
    }
  }

  // ---------- The failing case ----------

  lemma {:induction false} AfterSnoc(cfg: Config, up: Setup, ticks: seq<TickInput>, t: TickInput)
    ensures After(cfg, up, ticks + [t]) == Tick(cfg, After(cfg, up, ticks), t)
  {
    assert (ticks + [t])[..|ticks|] == ticks;
  }

  function QuietTick(head: int, wallets: seq<Address>, blocks: map<int, Block>): TickInput {
    TickInput(0, 0, {}, Head(head), Some(wallets), blocks, false, map[], true)
  }

  function ScanningTick(n: int, block: Block): TickInput {
    QuietTick(n, [1], map[n := block])
  }

  function IdleTick(n: int): TickInput {
    QuietTick(n, [], map[])
  }

  /** One healthy provider, and no recovery pass due. */
  predicate Quiet(cfg: Config, s: State) {
    cfg.safeBlockBuffer == 0 && cfg.maxBlocksPerTick >= 1 && s.providers == [Health(0, true)] && s.nextRetry > 0
  }

  lemma ScansOne(cfg: Config, s: State, n: int, block: Block)
    requires Quiet(cfg, s) && s.fromBlock == Some(n)
    ensures
      var r := Tick(cfg, s, ScanningTick(n, block));
      && Quiet(cfg, r) && r.fromBlock == Some(n + 1) && r.lastBlock == Some(n) && r.session == s.session
      && |r.history| == |s.history| + 1 && r.history[|s.history|].Scanned? && r.history[|s.history|].n == n
      && r.history == s.history + [r.history[|s.history|]]
  {
    var t := ScanningTick(n, block);
    assert FirstHealthy(s.providers) == 0;
    assert Scan(cfg, s, 0, t, [1], n, n) == Process(cfg, s, t, [1], n);
    assert Tick(cfg, s, t) == Advance(Scan(cfg, s, 0, t, [1], n, n), true);
  }

  lemma SkipsBack(cfg: Config, s: State, n: int)
    requires Quiet(cfg, s) && s.fromBlock.Some?
    ensures
      var r := Tick(cfg, s, IdleTick(n));
      && Quiet(cfg, r) && r.fromBlock == Some(n + 1) && r.lastBlock == Some(n) && r.session == s.session
      && r.history == s.history + [Skipped(s.fromBlock.value, n)]
  {
    assert FirstHealthy(s.providers) == 0;
  }

  lemma {:induction false} TimesSnoc(h: seq<Span>, span: Span, b: int)
    ensures Times(h + [span], b) == Times(h, b) + if span.Lo() <= b <= span.Hi() then 1 else 0
  {
    assert (h + [span])[..|h|] == h;
  }

  /** A provider that lags behind while no wallet is watched makes the listener scan block 100 twice. */
  lemma LaggingHeadRescans()
    ensures
      var cfg := Config(0, 10, Uuid(0), "ETH", {}, false, None, true);
      var block := Block(100, 0, 0, [], map[], None, map[]);
      var ticks := [ScanningTick(100, block), IdleTick(99), ScanningTick(100, block)];
      Times(After(cfg, Setup(1, 0, Some(100), true), ticks).history, 100) == 2
  {
    var cfg := Config(0, 10, Uuid(0), "ETH", {}, false, None, true);
    var block := Block(100, 0, 0, [], map[], None, map[]);
    var t0, t1 := ScanningTick(100, block), IdleTick(99);
    var up := Setup(1, 0, Some(100), true);
    assert [t0, t1, t0] == (([] + [t0]) + [t1]) + [t0];
    AfterSnoc(cfg, up, [], t0);
    AfterSnoc(cfg, up, [] + [t0], t1);
    AfterSnoc(cfg, up, ([] + [t0]) + [t1], t0);
    ScansOne(cfg, Start(cfg, up), 100, block);
    var s1 := Tick(cfg, Start(cfg, up), t0);
    SkipsBack(cfg, s1, 99);
    var s2 := Tick(cfg, s1, t1);
    ScansOne(cfg, s2, 100, block);
    var s3 := Tick(cfg, s2, t0);
    TimesSnoc([], s1.history[0], 100);
    TimesSnoc(s1.history, Skipped(101, 99), 100);
    TimesSnoc(s2.history, s3.history[2], 100);
  }
}
