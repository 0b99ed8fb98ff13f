/** The nonce store under concurrent callers: every clock reading and every map operation is a step of its own. */
module NonceInterleavings {
  import opened Schema
  import opened NonceStore

  type Thread = nat

  /** issueNonce reads the clock, then puts. consumeNonce removes, then (if it removed something) reads the
      clock. evictExpired reads the clock, then removes entries one by one, each on condition. */
  datatype Step =
    | IssueRead(t: Thread, nonce: string, now: int)
    | IssuePut(t: Thread)
    | ConsumeRemove(t: Thread, nonce: string)
    | ConsumeFinish(t: Thread, now: int)
    | EvictRead(t: Thread, now: int)
    | EvictEntry(t: Thread, nonce: string)

  /** `id` numbers the put that made the entry. */
  datatype Entry = Entry(id: nat, expiresAt: int)

  datatype Put = Put(nonce: string, issuedAt: int)
  datatype Taken = Taken(nonce: string, entry: Option<Entry>)

  /** What a finished consumeNonce answered, with the entry it had removed and the clock it read. */
  datatype Answer = Answer(t: Thread, nonce: string, ok: bool, entry: Option<Entry>, readAt: int)

  datatype State = State(
    store: map<string, Entry>,
    issuing: map<Thread, Put>,
    consuming: map<Thread, Taken>,
    sweeping: map<Thread, int>,
    puts: seq<Put>,
    answers: seq<Answer>)

  const IDLE := State(map[], map[], map[], map[], [], [])

  /** A step of a thread that is not at that point of its call does nothing. */
  function Do(s: State, step: Step): State {
    match step
    case IssueRead(t, n, now) =>
      if t in s.issuing then s else s.(issuing := s.issuing[t := Put(n, now)])
    case IssuePut(t) =>
      if t !in s.issuing then s
      else
        var p := s.issuing[t];
        s.(issuing := s.issuing - {t}, puts := s.puts + [p],
        store := s.store[p.nonce := Entry(|s.puts|, p.issuedAt + NONCE_TTL)])
    case ConsumeRemove(t, n) =>
      if t in s.consuming then s
      else
        var e := if n in s.store then Some(s.store[n]) else None;
        s.(consuming := s.consuming[t := Taken(n, e)], store := s.store - {n})
    case ConsumeFinish(t, now) =>
      if t !in s.consuming then s
      else
        var c := s.consuming[t];
        var ok := c.entry.Some? && now < c.entry.value.expiresAt;
        s.(consuming := s.consuming - {t}, answers := s.answers + [Answer(t, c.nonce, ok, c.entry, now)])
    case EvictRead(t, now) => s.(sweeping := s.sweeping[t := now])
    case EvictEntry(t, n) =>
      if t in s.sweeping && n in s.store && s.store[n].expiresAt < s.sweeping[t] then s.(store := s.store - {n}) else s
  }

  function DoAll(steps: seq<Step>): State {
    if steps == [] then IDLE else Do(DoAll(steps[..|steps| - 1]), steps[|steps| - 1])
  }

  // ---------- One shot ----------

  /** The entry was made by put number id, for this nonce. */
  predicate MadeBy(e: Entry, n: string, puts: seq<Put>) {
    e.id < |puts| && puts[e.id].nonce == n && e.expiresAt == puts[e.id].issuedAt + 300_000
  }

  /** Every entry comes from a put of its nonce, and every answer says whether its entry was still alive. */
  ghost predicate Sourced(s: State) {
    && (forall n :: n in s.store ==> MadeBy(s.store[n], n, s.puts))
    && (forall t :: t in s.consuming && s.consuming[t].entry.Some? ==>
          MadeBy(s.consuming[t].entry.value, s.consuming[t].nonce, s.puts))
    && (forall i :: 0 <= i < |s.answers| && s.answers[i].entry.Some? ==>
          MadeBy(s.answers[i].entry.value, s.answers[i].nonce, s.puts))
    && (forall i :: 0 <= i < |s.answers| ==>
          (s.answers[i].ok <==> s.answers[i].entry.Some? && s.answers[i].readAt < s.answers[i].entry.value.expiresAt))
  }

  /** No put's entry is both stored and in a caller's hands, or in two callers' hands. */
  ghost predicate Apart(s: State) {
    && (forall n, t :: n in s.store && t in s.consuming && s.consuming[t].entry.Some? ==>
          s.store[n].id != s.consuming[t].entry.value.id)
    && (forall t, u :: t in s.consuming && u in s.consuming && t != u
                       && s.consuming[t].entry.Some? && s.consuming[u].entry.Some? ==>
          s.consuming[t].entry.value.id != s.consuming[u].entry.value.id)
  }

  /** No put's entry that was answered for is still stored, held, or in another answer. */
  ghost predicate Spent(s: State) {
    && (forall n, i :: n in s.store && 0 <= i < |s.answers| && s.answers[i].entry.Some? ==>
          s.store[n].id != s.answers[i].entry.value.id)
    && (forall t, i :: t in s.consuming && s.consuming[t].entry.Some?
                       && 0 <= i < |s.answers| && s.answers[i].entry.Some? ==>
          s.consuming[t].entry.value.id != s.answers[i].entry.value.id)
    && (forall i, j :: 0 <= i < j < |s.answers| && s.answers[i].entry.Some? && s.answers[j].entry.Some? ==>
          s.answers[i].entry.value.id != s.answers[j].entry.value.id)
  }

  /** Every entry is in one place only: the store, one caller's hands, or one answer. */
  ghost predicate OnePlace(s: State) {
    Sourced(s) && Apart(s) && Spent(s)
  }

  lemma PutKeepsOnePlace(s: State, t: Thread)
    requires OnePlace(s)
    ensures OnePlace(Do(s, IssuePut(t)))
  {
  }

  lemma RemoveKeepsApart(s: State, t: Thread, n: string)
    requires Sourced(s) && Apart(s)
    ensures Apart(Do(s, ConsumeRemove(t, n)))
  {
  }

  lemma RemoveKeepsSpent(s: State, t: Thread, n: string)
    requires Spent(s)
    ensures Spent(Do(s, ConsumeRemove(t, n)))
  {
  }

  lemma RemoveKeepsOnePlace(s: State, t: Thread, n: string)
    requires OnePlace(s)
    ensures OnePlace(Do(s, ConsumeRemove(t, n)))
  {
    RemoveKeepsApart(s, t, n);
    RemoveKeepsSpent(s, t, n);
  }

  lemma FinishKeepsSourced(s: State, t: Thread, now: int)
    requires Sourced(s)
    ensures Sourced(Do(s, ConsumeFinish(t, now)))
  {
  }

  lemma FinishKeepsSpent(s: State, t: Thread, now: int)
    requires Apart(s) && Spent(s)
    ensures Spent(Do(s, ConsumeFinish(t, now)))
  {
  }

  lemma FinishKeepsOnePlace(s: State, t: Thread, now: int)
    requires OnePlace(s)
    ensures OnePlace(Do(s, ConsumeFinish(t, now)))
  {
    FinishKeepsSourced(s, t, now);
    FinishKeepsSpent(s, t, now);
  }

  lemma EvictKeepsOnePlace(s: State, t: Thread, n: string)
    requires OnePlace(s)
    ensures OnePlace(Do(s, EvictEntry(t, n)))
  {
  }

  lemma {:induction false} AlwaysOnePlace(steps: seq<Step>)
    ensures OnePlace(DoAll(steps))
  {
    if steps != [] {
      var s := DoAll(steps[..|steps| - 1]);
      AlwaysOnePlace(steps[..|steps| - 1]);
      match steps[|steps| - 1]
      case IssueRead(t, n, now) =>
      case IssuePut(t) => PutKeepsOnePlace(s, t);
      case ConsumeRemove(t, n) => RemoveKeepsOnePlace(s, t, n);
      case ConsumeFinish(t, now) => FinishKeepsOnePlace(s, t, now);
      case EvictRead(t, now) =>
      case EvictEntry(t, n) => EvictKeepsOnePlace(s, t, n);
    }
  }

  /** Successes used up distinct puts of their nonce, each before the end of that put's lifetime. */
  ghost predicate OneShotAnswers(answers: seq<Answer>, puts: seq<Put>) {
    && (forall i :: 0 <= i < |answers| && answers[i].ok ==>
          && answers[i].entry.Some?
          && answers[i].entry.value.id < |puts|
          && puts[answers[i].entry.value.id].nonce == answers[i].nonce
          && answers[i].readAt < puts[answers[i].entry.value.id].issuedAt + 300_000)
    && (forall i, j :: 0 <= i < j < |answers| && answers[i].ok && answers[j].ok ==>
          answers[i].entry.value.id != answers[j].entry.value.id)
  }

  /** One-shot in every interleaving. */
  lemma {:induction false} OneShot(steps: seq<Step>)
    ensures OneShotAnswers(DoAll(steps).answers, DoAll(steps).puts)
  {
    AlwaysOnePlace(steps);
  }

  function SuccessIds(answers: seq<Answer>, n: string): set<nat> {
    set i | 0 <= i < |answers| && answers[i].ok && answers[i].nonce == n && answers[i].entry.Some?
      :: answers[i].entry.value.id
  }

  function Successes(answers: seq<Answer>, n: string): nat {
    if answers == [] then 0
    else
      var a := answers[|answers| - 1];
      Successes(answers[..|answers| - 1], n) + if a.ok && a.nonce == n then 1 else 0
  }

  function Issues(puts: seq<Put>, n: string): nat {
    if puts == [] then 0
    else Issues(puts[..|puts| - 1], n) + if puts[|puts| - 1].nonce == n then 1 else 0
  }

  lemma OneShotFront(front: seq<Answer>, a: Answer, puts: seq<Put>)
    requires OneShotAnswers(front + [a], puts)
    ensures OneShotAnswers(front, puts)
    ensures a.ok ==> a.entry.Some? && forall n :: a.entry.value.id !in SuccessIds(front, n)
  {
    var all := front + [a];
    assert all[|front|] == a;
    assert forall i :: 0 <= i < |front| ==> all[i] == front[i];
  }

  lemma {:induction false} SuccessesAreIds(answers: seq<Answer>, puts: seq<Put>, n: string)
    requires OneShotAnswers(answers, puts)
    ensures Successes(answers, n) == |SuccessIds(answers, n)|
  {
    if answers != [] {
      var front, a := answers[..|answers| - 1], answers[|answers| - 1];
      assert answers == front + [a];
      OneShotFront(front, a, puts);
      SuccessesAreIds(front, puts, n);
      if a.ok && a.nonce == n {
        SuccessIdsSnoc(front, a, n);
        assert |SuccessIds(front, n) + {a.entry.value.id}| == |SuccessIds(front, n)| + 1;
      } else {
        SuccessIdsOther(front, a, n);
      }
    }
  }

  lemma SuccessIdsOther(front: seq<Answer>, a: Answer, n: string)
    requires !(a.ok && a.nonce == n)
    ensures SuccessIds(front + [a], n) == SuccessIds(front, n)
  {
    var all := front + [a];
    assert all[|front|] == a;
    assert forall i :: 0 <= i < |front| ==> all[i] == front[i];
    forall id | id in SuccessIds(front, n)
      ensures id in SuccessIds(all, n)
    {
      var i :| 0 <= i < |front| && front[i].ok && front[i].nonce == n && front[i].entry.Some?
                && front[i].entry.value.id == id;
      assert all[i] == front[i];
    }
  }

  lemma SuccessIdsSnoc(front: seq<Answer>, a: Answer, n: string)
    requires a.ok && a.nonce == n && a.entry.Some?
    ensures SuccessIds(front + [a], n) == SuccessIds(front, n) + {a.entry.value.id}
  {
    var all := front + [a];
    assert all[|front|] == a;
    forall id | id in SuccessIds(front, n)
      ensures id in SuccessIds(all, n)
    {
      var i :| 0 <= i < |front| && front[i].ok && front[i].nonce == n && front[i].entry.Some?
                && front[i].entry.value.id == id;
      assert all[i] == front[i];
    }
  }

  function IssueIds(puts: seq<Put>, n: string): set<nat> {
    set i | 0 <= i < |puts| && puts[i].nonce == n :: i
  }

  lemma IssueIdsSnoc(front: seq<Put>, p: Put, n: string)
    ensures IssueIds(front + [p], n) == IssueIds(front, n) + if p.nonce == n then {|front|} else {}
  {
    var all := front + [p];
    assert forall i :: 0 <= i < |front| ==> all[i] == front[i];
    assert all[|front|] == p;
  }

  lemma {:induction false} IssuesAreIds(puts: seq<Put>, n: string)
    ensures Issues(puts, n) == |IssueIds(puts, n)|
  {
    if puts != [] {
      var front, p := puts[..|puts| - 1], puts[|puts| - 1];
      IssuesAreIds(front, n);
      assert puts == front + [p];
      IssueIdsSnoc(front, p, n);
      assert |front| !in IssueIds(front, n);
    }
  }

  lemma SubsetSize(a: set<nat>, b: set<nat>)
    requires a <= b
    ensures |a| <= |b|
  {
    assert b == a + (b - a);
  }

  /** A nonce is consumed successfully at most as often as it was issued. */
  lemma {:induction false} SuccessesAtMostIssues(steps: seq<Step>, n: string)
    ensures Successes(DoAll(steps).answers, n) <= Issues(DoAll(steps).puts, n)
  {
    var s := DoAll(steps);
    OneShot(steps);
    SuccessesAreIds(s.answers, s.puts, n);
    IssuesAreIds(s.puts, n);
    assert SuccessIds(s.answers, n) <= IssueIds(s.puts, n);
    SubsetSize(SuccessIds(s.answers, n), IssueIds(s.puts, n));
  }

  // ---------- What an undisturbed nonce is good for ----------

  predicate StepOfIssue(step: Step, t: Thread) {
    (step.IssueRead? || step.IssuePut?) && step.t == t
  }

  predicate StepOfConsume(step: Step, t: Thread) {
    (step.ConsumeRemove? || step.ConsumeFinish?) && step.t == t
  }

  lemma OtherStepKeepsIssue(s: State, t: Thread, step: Step)
    requires t in s.issuing && !StepOfIssue(step, t)
    ensures t in Do(s, step).issuing && Do(s, step).issuing[t] == s.issuing[t]
  {
  }

  lemma {:induction false} IssueUnderWay(read: seq<Step>, t: Thread, mid: seq<Step>)
    requires t in DoAll(read).issuing
    requires forall k :: 0 <= k < |mid| ==> !StepOfIssue(mid[k], t)
    ensures t in DoAll(read + mid).issuing && DoAll(read + mid).issuing[t] == DoAll(read).issuing[t]
    decreases |mid|
  {
    if mid == [] {
      assert read + mid == read;
    } else {
      var front, last := mid[..|mid| - 1], mid[|mid| - 1];
      IssueUnderWay(read, t, front);
      OtherStepKeepsIssue(DoAll(read + front), t, last);
      assert read + mid == (read + front) + [last];
      Snoc(read + front, last, read + mid);
    }
  }

  /** Whatever other threads do in between, an issueNonce stores its nonce, to expire five minutes after the clock it
      read. */
  lemma {:induction false} IssueStoresItsNonce(steps: seq<Step>, t: Thread, n: string, now: int, mid: seq<Step>)
    requires t !in DoAll(steps).issuing
    requires forall k :: 0 <= k < |mid| ==> !StepOfIssue(mid[k], t)
    ensures
      var all := steps + [IssueRead(t, n, now)] + mid;
      var s := DoAll(all + [IssuePut(t)]);
      && n in s.store && s.store[n].expiresAt == now + 300_000
      && s.puts == DoAll(all).puts + [Put(n, now)]
  {
    var read := steps + [IssueRead(t, n, now)];
    Snoc(steps, IssueRead(t, n, now), read);
    IssueUnderWay(read, t, mid);
    Snoc(read + mid, IssuePut(t), read + mid + [IssuePut(t)]);
  }

  /** The step neither asks for the nonce nor stores it anew. */
  predicate LeavesAlone(s: State, step: Step, n: string) {
    && !(step.ConsumeRemove? && step.nonce == n)
    && !(step.IssuePut? && step.t in s.issuing && s.issuing[step.t].nonce == n)
  }

  predicate LeftAloneAt(steps: seq<Step>, later: seq<Step>, k: nat, n: string)
    requires k < |later|
  {
    LeavesAlone(DoAll(steps + later[..k]), later[k], n)
  }

  ghost predicate LeftAlone(steps: seq<Step>, later: seq<Step>, n: string) {
    forall k :: 0 <= k < |later| ==> LeftAloneAt(steps, later, k, n)
  }

  lemma {:induction false} LeftAloneFront(steps: seq<Step>, later: seq<Step>, n: string)
    requires later != [] && LeftAlone(steps, later, n)
    ensures LeftAlone(steps, later[..|later| - 1], n)
    ensures LeavesAlone(DoAll(steps + later[..|later| - 1]), later[|later| - 1], n)
  {
    var front := later[..|later| - 1];
    forall k | 0 <= k < |front|
      ensures LeftAloneAt(steps, front, k, n)
    {
      assert LeftAloneAt(steps, later, k, n);
      assert front[..k] == later[..k];
    }
    assert LeftAloneAt(steps, later, |front|, n);
  }

  /** No sweep has read a clock later than `clock`. */
  ghost predicate SweepsReadAtMost(steps: seq<Step>, clock: int) {
    forall i :: 0 <= i < |steps| && steps[i].EvictRead? ==> steps[i].now <= clock
  }

  lemma {:induction false} SweepingAtMost(steps: seq<Step>, clock: int)
    requires SweepsReadAtMost(steps, clock)
    ensures forall t :: t in DoAll(steps).sweeping ==> DoAll(steps).sweeping[t] <= clock
  {
    if steps != [] {
      var front, last := steps[..|steps| - 1], steps[|steps| - 1];
      assert forall i :: 0 <= i < |front| ==> front[i] == steps[i];
      SweepingAtMost(front, clock);
      assert last.EvictRead? ==> last.now <= clock;
    }
  }

  /** Entry e of the nonce is still stored, unless it was evicted. */
  predicate Holds(s: State, n: string, e: Entry) {
    n in s.store ==> s.store[n] == e
  }

  lemma StepLeavesEntry(s: State, step: Step, n: string, e: Entry)
    requires Holds(s, n, e) && LeavesAlone(s, step, n)
    ensures Holds(Do(s, step), n, e)
    ensures n in s.store && (forall t :: t in s.sweeping ==> s.sweeping[t] <= e.expiresAt) ==> n in Do(s, step).store
  {
  }

  /** An entry left alone is never changed, and survives every sweep that reads a clock no later than its expiry. */
  lemma {:induction false} EntryLeftAlone(steps: seq<Step>, later: seq<Step>, n: string)
    requires n in DoAll(steps).store && LeftAlone(steps, later, n)
    ensures n in DoAll(steps + later).store ==> DoAll(steps + later).store[n] == DoAll(steps).store[n]
    ensures SweepsReadAtMost(steps + later, DoAll(steps).store[n].expiresAt) ==> n in DoAll(steps + later).store
    decreases |later|
  {
    if later == [] {
      assert steps + later == steps;
    } else {
      var front, last := later[..|later| - 1], later[|later| - 1];
      var before := steps + front;
      assert forall i :: 0 <= i < |before| ==> before[i] == (steps + later)[i];
      var e := DoAll(steps).store[n];
      LeftAloneFront(steps, later, n);
      EntryLeftAlone(steps, front, n);
      if SweepsReadAtMost(before, e.expiresAt) {
        SweepingAtMost(before, e.expiresAt);
      }
      StepLeavesEntry(DoAll(before), last, n, e);
      assert steps + later == before + [last];
      Snoc(before, last, steps + later);
    }
  }

  lemma OtherStepKeepsConsume(s: State, t: Thread, step: Step)
    requires t in s.consuming && !StepOfConsume(step, t)
    ensures t in Do(s, step).consuming && Do(s, step).consuming[t] == s.consuming[t]
  {
  }

  lemma {:induction false} ConsumeUnderWay(removed: seq<Step>, t: Thread, mid: seq<Step>)
    requires t in DoAll(removed).consuming
    requires forall k :: 0 <= k < |mid| ==> !StepOfConsume(mid[k], t)
    ensures t in DoAll(removed + mid).consuming
    ensures DoAll(removed + mid).consuming[t] == DoAll(removed).consuming[t]
    decreases |mid|
  {
    if mid == [] {
      assert removed + mid == removed;
    } else {
      var front, last := mid[..|mid| - 1], mid[|mid| - 1];
      ConsumeUnderWay(removed, t, front);
      OtherStepKeepsConsume(DoAll(removed + front), t, last);
      assert removed + mid == (removed + front) + [last];
      Snoc(removed + front, last, removed + mid);
    }
  }

  /** What a call of consumeNonce answers that takes up after `steps`, other threads' steps in between. */
  lemma {:induction false} ConsumeAnswers(steps: seq<Step>, t: Thread, n: string, mid: seq<Step>, now: int)
    requires t !in DoAll(steps).consuming
    requires forall k :: 0 <= k < |mid| ==> !StepOfConsume(mid[k], t)
    ensures
      var all, store := steps + [ConsumeRemove(t, n)] + mid, DoAll(steps).store;
      DoAll(all + [ConsumeFinish(t, now)]).answers ==
      DoAll(all).answers + [Answer(t, n, n in store && now < store[n].expiresAt,
                                   if n in store then Some(store[n]) else None, now)]
  {
    var removed := steps + [ConsumeRemove(t, n)];
    Snoc(steps, ConsumeRemove(t, n), removed);
    ConsumeUnderWay(removed, t, mid);
    Snoc(removed + mid, ConsumeFinish(t, now), removed + mid + [ConsumeFinish(t, now)]);
  }

  lemma SweepsBefore(early: seq<Step>, all: seq<Step>, t: Thread, now: int)
    requires early <= all && NoStepBack(all + [ConsumeFinish(t, now)])
    ensures SweepsReadAtMost(early, now)
  {
    var whole := all + [ConsumeFinish(t, now)];
    forall i | 0 <= i < |early| && early[i].EvictRead?
      ensures early[i].now <= now
    {
      assert whole[i] == early[i] && whole[|whole| - 1] == ConsumeFinish(t, now);
    }
  }

  /** From the put on. */
  lemma {:induction false} StoredNonceAnswer(issued: seq<Step>, later: seq<Step>, t: Thread, n: string,
                                             mid: seq<Step>, now: int)
    requires n in DoAll(issued).store && LeftAlone(issued, later, n)
    requires t !in DoAll(issued + later).consuming
    requires forall k :: 0 <= k < |mid| ==> !StepOfConsume(mid[k], t)
    requires SweepsReadAtMost(issued + later, now)
    ensures
      var all := issued + later + [ConsumeRemove(t, n)] + mid;
      var answers := DoAll(all + [ConsumeFinish(t, now)]).answers;
      && |answers| == |DoAll(all).answers| + 1
      && Verdict(answers[|answers| - 1]) == (t, n, now < DoAll(issued).store[n].expiresAt)
  {
    EntryLeftAlone(issued, later, n);
    ConsumeAnswers(issued + later, t, n, mid, now);
  }

  /** The positive half of one-shot. A nonce issued by thread i, neither asked for nor issued again since, is accepted
      by the first consumeNonce that asks for it if and only if that call reads a clock less than five minutes past the
      issue's; whatever runs at the same time, as long as no sweep has read a later clock. */
  lemma {:induction false} IssuedNonceAnswer(steps: seq<Step>, i: Thread, at: int, mid: seq<Step>, issued: seq<Step>,
                                             later: seq<Step>, t: Thread, n: string, mid': seq<Step>, all: seq<Step>,
                                             now: int)
    requires i !in DoAll(steps).issuing && forall k :: 0 <= k < |mid| ==> !StepOfIssue(mid[k], i)
    requires issued == steps + [IssueRead(i, n, at)] + mid + [IssuePut(i)] && LeftAlone(issued, later, n)
    requires t !in DoAll(issued + later).consuming && forall k :: 0 <= k < |mid'| ==> !StepOfConsume(mid'[k], t)
    requires all == issued + later + [ConsumeRemove(t, n)] + mid' && NoStepBack(all + [ConsumeFinish(t, now)])
    ensures
      var answers := DoAll(all + [ConsumeFinish(t, now)]).answers;
      && |answers| == |DoAll(all).answers| + 1
      && Verdict(answers[|answers| - 1]) == (t, n, now < at + 300_000)
  {
    IssueStoresItsNonce(steps, i, n, at, mid);
    SweepsBefore(issued + later, all, t, now);
    StoredNonceAnswer(issued, later, t, n, mid', now);
  }

  // ---------- Eviction is invisible ----------

  predicate IsEviction(step: Step) {
    step.EvictRead? || step.EvictEntry?
  }

  function WithoutEvictions(steps: seq<Step>): seq<Step> {
    if steps == [] then []
    else
      var last := steps[|steps| - 1];
      WithoutEvictions(steps[..|steps| - 1]) + if IsEviction(last) then [] else [last]
  }

  /** What callers see. */
  function Verdict(a: Answer): (Thread, string, bool) {
    (a.t, a.nonce, a.ok)
  }

  predicate SameVerdicts(a: seq<Answer>, b: seq<Answer>) {
    |a| == |b| && forall i :: 0 <= i < |a| ==> Verdict(a[i]) == Verdict(b[i])
  }

  /** Entries evicted and since then neither replaced nor asked for, and those that a consumeNonce still under way
      would have removed had they not been evicted before. */
  datatype Losses = Losses(evicted: map<string, Entry>, missed: map<Thread, Entry>)

  function Track(l: Losses, s: State, step: Step): Losses {
    match step
    case IssueRead(t, n, now) => l
    case IssuePut(t) => if t in s.issuing then l.(evicted := l.evicted - {s.issuing[t].nonce}) else l
    case ConsumeRemove(t, n) =>
      if t in s.consuming then l
      else Losses(l.evicted - {n}, if n in l.evicted then l.missed[t := l.evicted[n]] else l.missed)
    case ConsumeFinish(t, now) => l.(missed := l.missed - {t})
    case EvictRead(t, now) => l
    case EvictEntry(t, n) =>
      if n in s.store && n !in Do(s, step).store then l.(evicted := l.evicted[n := s.store[n]]) else l
  }

  function Lost(steps: seq<Step>): Losses {
    if steps == [] then Losses(map[], map[])
    else Track(Lost(steps[..|steps| - 1]), DoAll(steps[..|steps| - 1]), steps[|steps| - 1])
  }

  /** The step ends a consumeNonce at a time when an entry it missed would still be alive. (A call that found nothing
      reads no clock; `now` is what it would read.) */
  predicate Misses(l: Losses, step: Step) {
    step.ConsumeFinish? && step.t in l.missed && step.now < l.missed[step.t].expiresAt
  }

  predicate MissesAt(steps: seq<Step>, k: nat)
    requires k < |steps|
  {
    Misses(Lost(steps[..k]), steps[k])
  }

  ghost predicate NeverMisses(steps: seq<Step>) {
    forall k :: 0 <= k < |steps| ==> !MissesAt(steps, k)
  }

  /** The store of s' is that of s with the evicted entries still in it. */
  ghost predicate SameStore(s: State, l: Losses, s': State) {
    && (forall n :: n in l.evicted ==> n !in s.store)
    && s'.store == s.store + l.evicted
  }

  /** Callers under way in s' are those of s, and hold the entries that those of s missed. */
  ghost predicate SameCallers(s: State, l: Losses, s': State) {
    && s'.consuming.Keys == s.consuming.Keys
    && (forall t :: t in l.missed ==> t in s.consuming && s.consuming[t].entry.None?)
    && (forall t :: t in s.consuming ==>
          var c := s.consuming[t];
          s'.consuming[t] == if t in l.missed then c.(entry := Some(l.missed[t])) else c)
  }

  /** s' is s with the evicted entries still around. */
  ghost predicate Restores(s: State, l: Losses, s': State) {
    && s.issuing == s'.issuing && s.puts == s'.puts && |s.answers| == |s'.answers|
    && SameStore(s, l, s') && SameCallers(s, l, s')
  }

  lemma PutRestores(s: State, l: Losses, s': State, t: Thread)
    requires Restores(s, l, s')
    ensures Restores(Do(s, IssuePut(t)), Track(l, s, IssuePut(t)), Do(s', IssuePut(t)))
  {
  }

  lemma RemoveRestoresStore(s: State, l: Losses, s': State, t: Thread, n: string)
    requires SameStore(s, l, s') && s'.consuming.Keys == s.consuming.Keys
    ensures SameStore(Do(s, ConsumeRemove(t, n)), Track(l, s, ConsumeRemove(t, n)), Do(s', ConsumeRemove(t, n)))
  {
    if t !in s.consuming {
      assert t !in s'.consuming;
      assert s'.store - {n} == (s.store - {n}) + (l.evicted - {n});
    }
  }

  lemma RemoveRestoresCallers(s: State, l: Losses, s': State, t: Thread, n: string)
    requires SameStore(s, l, s') && SameCallers(s, l, s')
    ensures SameCallers(Do(s, ConsumeRemove(t, n)), Track(l, s, ConsumeRemove(t, n)), Do(s', ConsumeRemove(t, n)))
  {
    if t !in s.consuming {
      assert t !in s'.consuming && t !in l.missed;
    }
  }

  lemma RemoveRestores(s: State, l: Losses, s': State, t: Thread, n: string)
    requires Restores(s, l, s')
    ensures Restores(Do(s, ConsumeRemove(t, n)), Track(l, s, ConsumeRemove(t, n)), Do(s', ConsumeRemove(t, n)))
  {
    RemoveRestoresStore(s, l, s', t, n);
    RemoveRestoresCallers(s, l, s', t, n);
  }

  lemma FinishRestoresCallers(s: State, l: Losses, s': State, t: Thread, now: int)
    requires SameCallers(s, l, s')
    ensures SameCallers(Do(s, ConsumeFinish(t, now)), Track(l, s, ConsumeFinish(t, now)), Do(s', ConsumeFinish(t, now)))
  {
    if t !in s.consuming {
      assert l.missed - {t} == l.missed;
    }
  }

  lemma FinishRestores(s: State, l: Losses, s': State, t: Thread, now: int)
    requires Restores(s, l, s')
    ensures Restores(Do(s, ConsumeFinish(t, now)), Track(l, s, ConsumeFinish(t, now)), Do(s', ConsumeFinish(t, now)))
  {
    FinishRestoresCallers(s, l, s', t, now);
  }

  lemma EvictRestores(s: State, l: Losses, s': State, t: Thread, n: string)
    requires Restores(s, l, s')
    ensures Restores(Do(s, EvictEntry(t, n)), Track(l, s, EvictEntry(t, n)), s')
  {
  }

  lemma StepRestores(s: State, l: Losses, s': State, step: Step)
    requires Restores(s, l, s')
    ensures Restores(Do(s, step), Track(l, s, step), if IsEviction(step) then s' else Do(s', step))
  {
    match step
    case IssueRead(t, n, now) =>
    case IssuePut(t) => PutRestores(s, l, s', t);
    case ConsumeRemove(t, n) => RemoveRestores(s, l, s', t, n);
    case ConsumeFinish(t, now) => FinishRestores(s, l, s', t, now);
    case EvictRead(t, now) =>
    case EvictEntry(t, n) => EvictRestores(s, l, s', t, n);
  }

  lemma StepVerdicts(s: State, l: Losses, s': State, step: Step)
    requires Restores(s, l, s')
    ensures
      var r, r' := Do(s, step), if IsEviction(step) then s' else Do(s', step);
      SameVerdicts(r.answers, r'.answers) <==> SameVerdicts(s.answers, s'.answers) && !Misses(l, step)
  {
    if step.ConsumeFinish? && step.t in s.consuming {
      var a, a' := Do(s, step).answers, Do(s', step).answers;
      var n := |s.answers|;
      assert Verdict(a[n]) == Verdict(a'[n]) <==> !Misses(l, step);
      assert forall i :: 0 <= i < n ==> a[i] == s.answers[i] && a'[i] == s'.answers[i];
    }
  }

  lemma {:induction false} NeverMissesSnoc(front: seq<Step>, step: Step)
    ensures NeverMisses(front + [step]) <==> NeverMisses(front) && !Misses(Lost(front), step)
  {
    var all := front + [step];
    assert all[..|front|] == front;
    assert MissesAt(all, |front|) <==> Misses(Lost(front), step);
    forall k | 0 <= k < |front|
      ensures MissesAt(all, k) <==> MissesAt(front, k)
    {
      assert all[..k] == front[..k];
    }
  }

  lemma {:induction false} EvictionsRestored(steps: seq<Step>)
    ensures Restores(DoAll(steps), Lost(steps), DoAll(WithoutEvictions(steps)))
    ensures SameVerdicts(DoAll(steps).answers, DoAll(WithoutEvictions(steps)).answers) <==> NeverMisses(steps)
  {
    if steps != [] {
      var front, last := steps[..|steps| - 1], steps[|steps| - 1];
      var kept := WithoutEvictions(front);
      EvictionsRestored(front);
      StepRestores(DoAll(front), Lost(front), DoAll(kept), last);
      StepVerdicts(DoAll(front), Lost(front), DoAll(kept), last);
      assert steps == front + [last];
      NeverMissesSnoc(front, last);
      Snoc(front, last, steps);
      Snoc(kept, last, kept + [last]);
      assert WithoutEvictions(steps) == if IsEviction(last) then kept else kept + [last];
    }
  }

  /** Every interleaving, under any clock, gives the answers it would give with all evictions removed if and only
      if no consumeNonce that comes too late for an evicted entry would read a clock before that entry's expiry. */
  lemma {:induction false} EvictionInvisibleExactly(steps: seq<Step>)
    ensures SameVerdicts(DoAll(steps).answers, DoAll(WithoutEvictions(steps)).answers) <==> NeverMisses(steps)
  {
    EvictionsRestored(steps);
  }

  lemma {:induction false} LostHaveExpired(steps: seq<Step>, clock: int)
    requires SweepsReadAtMost(steps, clock)
    ensures forall t :: t in DoAll(steps).sweeping ==> DoAll(steps).sweeping[t] <= clock
    ensures forall n :: n in Lost(steps).evicted ==> Lost(steps).evicted[n].expiresAt <= clock
    ensures forall t :: t in Lost(steps).missed ==> Lost(steps).missed[t].expiresAt <= clock
  {
    if steps != [] {
      var front, last := steps[..|steps| - 1], steps[|steps| - 1];
      assert forall i :: 0 <= i < |front| ==> front[i] == steps[i];
      LostHaveExpired(front, clock);
      assert last.EvictRead? ==> last.now <= clock;
    }
  }

  /** No consumeNonce reads an earlier clock than an evictExpired that read it before. */
  ghost predicate NoStepBack(steps: seq<Step>) {
    forall i, j :: 0 <= i < j < |steps| && steps[i].EvictRead? && steps[j].ConsumeFinish? ==>
      steps[i].now <= steps[j].now
  }

  /** With a monotone clock, every interleaving gives the answers it would give with all evictions removed,
      however stale the clock reading an eviction acts on. The readings of issueNonce may be anything. */
  lemma {:induction false} EvictionIsInvisible(steps: seq<Step>)
    requires NoStepBack(steps)
    ensures SameVerdicts(DoAll(steps).answers, DoAll(WithoutEvictions(steps)).answers)
  {
    forall k | 0 <= k < |steps|
      ensures !MissesAt(steps, k)
    {
      if steps[k].ConsumeFinish? {
        LostHaveExpired(steps[..k], steps[k].now);
      }
    }
    EvictionInvisibleExactly(steps);
  }

  lemma IssuedOnce(n: string)
    ensures DoAll([IssueRead(0, n, 0), IssuePut(0)]) ==
            State(map[n := Entry(0, NONCE_TTL)], map[], map[], map[], [Put(n, 0)], [])
  {
    var a, b := IssueRead(0, n, 0), IssuePut(0);
    Snoc([], a, [a]);
    Snoc([a], b, [a, b]);
    assert Do(IDLE, a).issuing[0] == Put(n, 0);
    var s := DoAll([a, b]);
    assert s.issuing == map[];
    assert s.store == map[n := Entry(0, NONCE_TTL)];
  }

  /** The end of a consumeNonce call that starts when no other is under way. */
  lemma {:induction false} ConsumedAlone(steps: seq<Step>, t: Thread, n: string, now: int)
    requires t !in DoAll(steps).consuming
    ensures
      var s, e := DoAll(steps), DoAll(steps + [ConsumeRemove(t, n), ConsumeFinish(t, now)]);
      && |e.answers| == |s.answers| + 1
      && (e.answers[|s.answers|].ok <==> n in s.store && now < s.store[n].expiresAt)
    ensures WithoutEvictions(steps + [ConsumeRemove(t, n), ConsumeFinish(t, now)]) ==
            WithoutEvictions(steps) + [ConsumeRemove(t, n), ConsumeFinish(t, now)]
  {
    var d, f := ConsumeRemove(t, n), ConsumeFinish(t, now);
    Snoc(steps, d, steps + [d]);
    Snoc(steps + [d], f, steps + [d, f]);
  }

  function EvictAll(t: Thread, keys: seq<string>): seq<Step> {
    if keys == [] then [] else EvictAll(t, keys[..|keys| - 1]) + [EvictEntry(t, keys[|keys| - 1])]
  }

  function Expiries(store: map<string, Entry>): map<string, int> {
    map n | n in store :: store[n].expiresAt
  }

  /** e is s after a sweep begun at `now` has met the nonces in `met`. */
  ghost predicate SweptOf(s: State, e: State, t: Thread, now: int, met: seq<string>) {
    && e == s.(store := e.store, sweeping := s.sweeping[t := now])
    && (forall n :: n in e.store <==> n in s.store && !(n in met && s.store[n].expiresAt < now))
    && (forall n :: n in e.store ==> e.store[n] == s.store[n])
  }

  lemma SweptSnoc(s: State, e: State, t: Thread, now: int, met: seq<string>, n: string)
    requires SweptOf(s, e, t, now, met)
    ensures SweptOf(s, Do(e, EvictEntry(t, n)), t, now, met + [n])
  {
    assert e.sweeping[t] == now;
  }

  lemma {:induction false} EvictAllRemoves(steps: seq<Step>, t: Thread, now: int, keys: seq<string>)
    ensures SweptOf(DoAll(steps), DoAll(steps + [EvictRead(t, now)] + EvictAll(t, keys)), t, now, keys)
  {
    var read := steps + [EvictRead(t, now)];
    if keys == [] {
      Snoc(steps, EvictRead(t, now), read);
      assert read + EvictAll(t, keys) == read;
    } else {
      var front, k := keys[..|keys| - 1], keys[|keys| - 1];
      EvictAllRemoves(steps, t, now, front);
      var most := read + EvictAll(t, front);
      assert read + EvictAll(t, keys) == most + [EvictEntry(t, k)];
      Snoc(most, EvictEntry(t, k), read + EvictAll(t, keys));
      SweptSnoc(DoAll(steps), DoAll(most), t, now, front, k);
      assert keys == front + [k];
    }
  }

  /** A sweep that meets every stored nonce, in any order and with nothing in between, leaves what the
      undisturbed evictExpired leaves. */
  lemma {:induction false} SweepIsItsSteps(steps: seq<Step>, t: Thread, now: int, keys: seq<string>)
    requires forall n :: n in DoAll(steps).store ==> n in keys
    ensures Expiries(DoAll(steps + [EvictRead(t, now)] + EvictAll(t, keys)).store) ==
            Swept(Expiries(DoAll(steps).store), now)
  {
    EvictAllRemoves(steps, t, now, keys);
  }

  /** A clock that steps back makes an eviction visible. */
  lemma ClockStepBackShowsEviction(n: string)
    ensures
      var steps := [IssueRead(0, n, 0), IssuePut(0), EvictRead(1, NONCE_TTL + 1), EvictEntry(1, n)] +
                   [ConsumeRemove(2, n), ConsumeFinish(2, 1)];
      !SameVerdicts(DoAll(steps).answers, DoAll(WithoutEvictions(steps)).answers)
  {
    var a, b, c, d := IssueRead(0, n, 0), IssuePut(0), EvictRead(1, NONCE_TTL + 1), EvictEntry(1, n);
    IssuedOnce(n);
    Snoc([], a, [a]);
    Snoc([a], b, [a, b]);
    Snoc([a, b], c, [a, b, c]);
    Snoc([a, b, c], d, [a, b, c, d]);
    assert WithoutEvictions([a, b, c, d]) == [a, b];
    ConsumedAlone([a, b, c, d], 2, n, 1);
    ConsumedAlone([a, b], 2, n, 1);
  }

  lemma {:induction false} Snoc(steps: seq<Step>, step: Step, all: seq<Step>)
    requires all == steps + [step]
    ensures DoAll(all) == Do(DoAll(steps), step)
    ensures WithoutEvictions(all) == WithoutEvictions(steps) + if IsEviction(step) then [] else [step]
  {
    assert all[..|steps|] == steps;
  }
}
