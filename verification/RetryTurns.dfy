/**
 Whose turn it is: failing polls over a list of unfinished runs, each resuming the first run that no
 earlier failure holds back. Theorems about the tries alone come first, then those about polls.
 */
module RetryTurns {
  import opened BackgroundRetry
  import opened Sets
  import opened Wrappers

  type Runs = seq<Collection>

  /** One failed attempt, and the position in the list whose turn it was (its length if nobody's). */
  datatype Try = Try(now: nat, finished: nat, turn: nat, attempt: Attempt)

  /** Until when collection `c` is held back after the first `k` tries. */
  function HeldUntil(start: Backoff, tries: seq<Try>, k: nat, c: Collection): nat
    requires k <= |tries|
  {
    if k == 0 then (if c in start then start[c] else 0)
    else if Tries(tries[k - 1].attempt, c) then tries[k - 1].finished + DELAY
    else HeldUntil(start, tries, k - 1, c)
  }

  predicate IsOpen(start: Backoff, tries: seq<Try>, k: nat, c: Collection)
    requires k < |tries|
  {
    HeldUntil(start, tries, k, c) <= tries[k].now
  }

  /** Try `k` resumes the first run of the list that is not held back, if there is one. */
  ghost predicate InTurn(start: Backoff, tries: seq<Try>, list: Runs, k: nat)
    requires k < |tries|
  {
    var turn := tries[k].turn;
    && turn <= |list|
    && (forall j | 0 <= j < turn :: !IsOpen(start, tries, k, list[j]))
    && (turn < |list| ==> IsOpen(start, tries, k, list[turn]) && tries[k].attempt == Resume(list[turn]))
    && (turn == |list| ==> !tries[k].attempt.Resume?)
  }

  /** Tries in turn, one after the other. */
  ghost predicate Turns(start: Backoff, tries: seq<Try>, list: Runs) {
    && (forall k | 0 <= k < |tries| :: tries[k].now <= tries[k].finished)
    && (forall i, k | 0 <= i < k < |tries| :: tries[i].finished <= tries[k].now)
    && (forall k | 0 <= k < |tries| :: InTurn(start, tries, list, k))
  }

  ghost predicate Distinct(list: Runs) {
    forall i, j | 0 <= i < j < |list| :: list[i] != list[j]
  }

  function TriedBy(a: Attempt): set<Collection> {
    if a.Idle? then {} else {a.collection}
  }

  /** The collections that the tries from `from` up to `k` were about. */
  function Tried(tries: seq<Try>, from: nat, k: nat): set<Collection>
    requires from <= k <= |tries|
  {
    if from == k then {} else Tried(tries, from, k - 1) + TriedBy(tries[k - 1].attempt)
  }

  lemma {:induction false} AtMostOneEach(tries: seq<Try>, from: nat, k: nat)
    requires from <= k <= |tries|
    ensures |Tried(tries, from, k)| <= k - from
  {
    if from < k {
      AtMostOneEach(tries, from, k - 1);
      UnionSize(Tried(tries, from, k - 1), TriedBy(tries[k - 1].attempt));
    }
  }

  lemma {:induction false} TriedAt(tries: seq<Try>, from: nat, k: nat, t: nat, c: Collection)
    requires from <= t < k <= |tries| && Tries(tries[t].attempt, c)
    ensures c in Tried(tries, from, k)
  {
    if t < k - 1 {
      TriedAt(tries, from, k - 1, t, c);
    }
  }

  lemma {:induction false} TriedGrows(tries: seq<Try>, from: nat, k: nat, later: nat)
    requires from <= k <= later <= |tries|
    ensures Tried(tries, from, k) <= Tried(tries, from, later)
  {
    if k < later {
      TriedGrows(tries, from, k, later - 1);
    }
  }

  // What was not tried is held back as it was at the start.
  lemma {:induction false} Untouched(start: Backoff, tries: seq<Try>, k: nat, c: Collection)
    requires k <= |tries| && c !in Tried(tries, 0, k)
    ensures HeldUntil(start, tries, k, c) == HeldUntil(start, tries, 0, c)
  {
    if k > 0 {
      Untouched(start, tries, k - 1, c);
    }
  }

  // Every other collection is held back by its last try.
  lemma {:induction false} LastTry(start: Backoff, tries: seq<Try>, from: nat, k: nat, c: Collection) returns (j: nat)
    requires from <= k <= |tries| && c in Tried(tries, from, k)
    ensures from <= j < k && Tries(tries[j].attempt, c)
    ensures HeldUntil(start, tries, k, c) == tries[j].finished + DELAY
  {
    if Tries(tries[k - 1].attempt, c) {
      j := k - 1;
    } else {
      j := LastTry(start, tries, from, k - 1, c);
    }
  }

  // ---------------------------------------------------------------- Tries close together

  // What was tried since `from` is held back at try `k` when that starts before the delay of `from` ends.
  lemma RecentIsHeld(start: Backoff, tries: seq<Try>, list: Runs, from: nat, k: nat, c: Collection)
    requires Turns(start, tries, list) && from <= k < |tries| && c in Tried(tries, from, k)
    requires tries[k].now < tries[from].finished + DELAY
    ensures !IsOpen(start, tries, k, c)
  {
    var j := LastTry(start, tries, from, k, c);
    InOrder(start, tries, list, from, j);
  }

  lemma InOrder(start: Backoff, tries: seq<Try>, list: Runs, i: nat, k: nat)
    requires Turns(start, tries, list) && i <= k < |tries|
    ensures tries[i].now <= tries[k].now && tries[i].finished <= tries[k].finished
  {
  }

  /** Try `t` resumes a run of `among` that no try since `from` was about. */
  ghost predicate AddsOne(tries: seq<Try>, among: set<Collection>, from: nat, t: nat)
    requires from <= t < |tries|
  {
    && tries[t].attempt.Resume? && tries[t].attempt.collection in among
    && tries[t].attempt.collection !in Tried(tries, from, t)
  }

  lemma {:induction false} DifferentTries(tries: seq<Try>, among: set<Collection>, from: nat, k: nat)
    requires from <= k <= |tries|
    requires forall t | from <= t < k :: AddsOne(tries, among, from, t)
    ensures |Tried(tries, from, k)| == k - from && Tried(tries, from, k) <= among
  {
    if from < k {
      DifferentTries(tries, among, from, k - 1);
      assert AddsOne(tries, among, from, k - 1);
      assert Tried(tries, from, k) == Tried(tries, from, k - 1) + {tries[k - 1].attempt.collection};
    }
  }

  /** The first `m` runs of the list. */
  function FirstRuns(list: Runs, m: nat): set<Collection>
    requires m <= |list|
  {
    set i | 0 <= i < m :: list[i]
  }

  lemma {:induction false} FirstRunsSize(list: Runs, m: nat)
    requires m <= |list|
    ensures |FirstRuns(list, m)| <= m && (Distinct(list) ==> |FirstRuns(list, m)| == m)
  {
    if m > 0 {
      FirstRunsSize(list, m - 1);
      assert FirstRuns(list, m) == FirstRuns(list, m - 1) + {list[m - 1]};
      UnionSize(FirstRuns(list, m - 1), {list[m - 1]});
      assert Distinct(list) ==> list[m - 1] !in FirstRuns(list, m - 1);
    }
  }

  // ---------------------------------------------------------------- Within one window

  /** All tries start before the first failure ends its delay. */
  ghost predicate InOneWindow(tries: seq<Try>) {
    forall k | 0 <= k < |tries| :: tries[k].now < tries[0].finished + DELAY
  }

  /** The runs of the list that the back-off does not hold back. */
  function EligibleRuns(backoff: Backoff, list: Runs, now: nat): set<Collection> {
    set i | 0 <= i < |list| && Eligible(backoff, list[i], now) :: list[i]
  }

  // In a window a try resumes a run if and only if one remains that was not tried in it yet.
  lemma ResumesTheUntried(start: Backoff, tries: seq<Try>, list: Runs, k: nat)
    requires Turns(start, tries, list) && InOneWindow(tries) && k < |tries|
    ensures tries[k].attempt.Resume? <==> EligibleRuns(start, list, tries[k].now) - Tried(tries, 0, k) != {}
    ensures tries[k].attempt.Resume? ==>
              tries[k].attempt.collection in EligibleRuns(start, list, tries[k].now) - Tried(tries, 0, k)
  {
    forall i | 0 <= i < |list|
      ensures IsOpen(start, tries, k, list[i]) <==>
              list[i] in EligibleRuns(start, list, tries[k].now) - Tried(tries, 0, k)
    {
      OpenInWindow(start, tries, list, k, i);
    }
    assert InTurn(start, tries, list, k);
    if c :| c in EligibleRuns(start, list, tries[k].now) - Tried(tries, 0, k) {
      var i :| 0 <= i < |list| && list[i] == c;
      assert IsOpen(start, tries, k, list[i]);
    }
  }

  lemma OpenInWindow(start: Backoff, tries: seq<Try>, list: Runs, k: nat, i: nat)
    requires Turns(start, tries, list) && InOneWindow(tries) && k < |tries| && i < |list|
    ensures IsOpen(start, tries, k, list[i]) <==>
            list[i] in EligibleRuns(start, list, tries[k].now) - Tried(tries, 0, k)
  {
    if list[i] in Tried(tries, 0, k) {
      RecentIsHeld(start, tries, list, 0, k, list[i]);
    } else {
      Untouched(start, tries, k, list[i]);
    }
  }

  /** Each of the first `n` tries resumes a run. */
  ghost predicate AllResume(tries: seq<Try>, n: nat)
    requires n <= |tries|
  {
    forall k | 0 <= k < n :: tries[k].attempt.Resume?
  }

  // While every try resumes, as many runs were tried as there were tries, each of them one that remains.
  lemma EachTryIsAnother(start: Backoff, tries: seq<Try>, list: Runs, n: nat, k: nat)
    requires Turns(start, tries, list) && InOneWindow(tries) && n <= |tries| && AllResume(tries, n)
    requires n <= k + 1 && k < |tries|
    ensures |Tried(tries, 0, n)| == n && Tried(tries, 0, n) <= EligibleRuns(start, list, tries[k].now)
  {
    forall t | 0 <= t < n
      ensures AddsOne(tries, EligibleRuns(start, list, tries[k].now), 0, t)
    {
      ResumesTheUntried(start, tries, list, t);
      InOrder(start, tries, list, t, k);
    }
    DifferentTries(tries, EligibleRuns(start, list, tries[k].now), 0, n);
  }

  // While the tries before it all resumed, a try resumes if and only if more runs remain than were tried.
  lemma ResumesWhileRunsRemain(start: Backoff, tries: seq<Try>, list: Runs, k: nat)
    requires Turns(start, tries, list) && InOneWindow(tries) && k < |tries| && AllResume(tries, k)
    ensures tries[k].attempt.Resume? <==> k < |EligibleRuns(start, list, tries[k].now)|
  {
    var remaining, tried := EligibleRuns(start, list, tries[k].now), Tried(tries, 0, k);
    EachTryIsAnother(start, tries, list, k, k);
    ResumesTheUntried(start, tries, list, k);
    assert remaining == tried + (remaining - tried);
  }

  lemma {:induction false} ResumeIffRunsRemain(start: Backoff, tries: seq<Try>, list: Runs, n: nat)
    requires Turns(start, tries, list) && InOneWindow(tries) && n <= |tries|
    ensures AllResume(tries, n) <==> forall k | 0 <= k < n :: k < |EligibleRuns(start, list, tries[k].now)|
  {
    if n > 0 {
      ResumeIffRunsRemain(start, tries, list, n - 1);
      if AllResume(tries, n - 1) {
        ResumesWhileRunsRemain(start, tries, list, n - 1);
      }
    }
  }

  // No run is resumed again in a window after it was tried.
  lemma NoneTwice(start: Backoff, tries: seq<Try>, list: Runs, i: nat, k: nat)
    requires Turns(start, tries, list) && InOneWindow(tries) && i < k < |tries|
    requires tries[k].attempt.Resume?
    ensures !Tries(tries[i].attempt, tries[k].attempt.collection)
  {
    ResumesTheUntried(start, tries, list, k);
    if Tries(tries[i].attempt, tries[k].attempt.collection) {
      TriedAt(tries, 0, k, i, tries[k].attempt.collection);
    }
  }

  // As many resuming tries as the list is long try all of it.
  lemma WholeListTried(start: Backoff, tries: seq<Try>, list: Runs, n: nat)
    requires Turns(start, tries, list) && InOneWindow(tries) && |list| <= n <= |tries| && AllResume(tries, n)
    ensures n == |list| && Tried(tries, 0, n) == FirstRuns(list, |list|)
  {
    if n > 0 {
      EachTryIsAnother(start, tries, list, n, n - 1);
      FirstRunsSize(list, |list|);
      assert EligibleRuns(start, list, tries[n - 1].now) <= FirstRuns(list, |list|);
      SubsetSize(Tried(tries, 0, n), FirstRuns(list, |list|));
      SameSize(Tried(tries, 0, n), FirstRuns(list, |list|));
    }
  }

  // Then no later try of the window resumes any.
  lemma NothingIsLeft(start: Backoff, tries: seq<Try>, list: Runs, n: nat, k: nat)
    requires Turns(start, tries, list) && InOneWindow(tries) && n <= k < |tries|
    requires FirstRuns(list, |list|) <= Tried(tries, 0, n)
    ensures !tries[k].attempt.Resume?
  {
    TriedGrows(tries, 0, n, k);
    ResumesTheUntried(start, tries, list, k);
    assert EligibleRuns(start, list, tries[k].now) <= FirstRuns(list, |list|);
  }

  // ---------------------------------------------------------------- Beyond one window

  /** The first `m` runs of the list are eligible at the first try. */
  ghost predicate OpenAtFirst(start: Backoff, tries: seq<Try>, list: Runs, m: nat)
    requires m <= |list|
  {
    tries != [] ==> forall p | 0 <= p < m :: Eligible(start, list[p], tries[0].now)
  }

  /** Try `k` starts before the failure `m` tries earlier ends its delay. */
  predicate Crowded(tries: seq<Try>, k: nat, m: nat)
    requires k < |tries|
  {
    m <= k && tries[k].now < tries[k - m].finished + DELAY
  }

  // Unless the last `m` tries are that close, one of the first `m` runs is open again.
  lemma AnEarlyRunIsOpen(start: Backoff, tries: seq<Try>, list: Runs, m: nat, k: nat)
    requires Turns(start, tries, list) && Distinct(list) && k < |tries|
    requires 0 < m <= |list| && OpenAtFirst(start, tries, list, m) && !Crowded(tries, k, m)
    ensures tries[k].turn < m
  {
    var from := if m <= k then k - m + 1 else 0;
    AtMostOneEach(tries, from, k);
    var p := Missing(list, m, Tried(tries, from, k));
    LongAgoIsOpen(start, tries, list, m, k, p, from);
    assert InTurn(start, tries, list, k);
  }

  lemma Missing(list: Runs, m: nat, taken: set<Collection>) returns (p: nat)
    requires Distinct(list) && |taken| < m <= |list|
    ensures p < m && list[p] !in taken
  {
    FirstRunsSize(list, m);
    if FirstRuns(list, m) <= taken {
      SubsetSize(FirstRuns(list, m), taken);
    }
    var c :| c in FirstRuns(list, m) && c !in taken;
    p :| 0 <= p < m && list[p] == c;
  }

  lemma LongAgoIsOpen(start: Backoff, tries: seq<Try>, list: Runs, m: nat, k: nat, p: nat, from: nat)
    requires Turns(start, tries, list) && k < |tries| && p < m <= |list|
    requires OpenAtFirst(start, tries, list, m) && !Crowded(tries, k, m)
    requires from == (if m <= k then k - m + 1 else 0) && list[p] !in Tried(tries, from, k)
    ensures IsOpen(start, tries, k, list[p])
  {
    InOrder(start, tries, list, 0, k);
    if list[p] in Tried(tries, 0, k) {
      var j := LastTry(start, tries, 0, k, list[p]);
      if from <= j {
        TriedAt(tries, from, k, j, list[p]);
      }
      InOrder(start, tries, list, j, k - m);
    } else {
      Untouched(start, tries, k, list[p]);
    }
  }

  // As long as run `m` waits, tries of one delay are about as many different runs before it.
  lemma WaitingBehind(start: Backoff, tries: seq<Try>, list: Runs, m: nat, from: nat, k: nat)
    requires Turns(start, tries, list) && from <= k < |tries| && tries[k].now < tries[from].finished + DELAY
    requires m < |list| && OpenAtFirst(start, tries, list, m + 1) && list[m] !in Tried(tries, 0, k)
    ensures |Tried(tries, from, k)| == k - from && Tried(tries, from, k) <= FirstRuns(list, m)
  {
    forall t | from <= t < k
      ensures AddsOne(tries, FirstRuns(list, m), from, t)
    {
      AnotherBefore(start, tries, list, m, from, t, k);
    }
    DifferentTries(tries, FirstRuns(list, m), from, k);
  }

  lemma AnotherBefore(start: Backoff, tries: seq<Try>, list: Runs, m: nat, from: nat, t: nat, k: nat)
    requires Turns(start, tries, list) && from <= t < k < |tries| && tries[k].now < tries[from].finished + DELAY
    requires m < |list| && OpenAtFirst(start, tries, list, m + 1) && list[m] !in Tried(tries, 0, k)
    ensures AddsOne(tries, FirstRuns(list, m), from, t)
  {
    TriedGrows(tries, 0, t + 1, k);
    Waiting(start, tries, list, m, t);
    assert InTurn(start, tries, list, t);
    InOrder(start, tries, list, t, k);
    var c := tries[t].attempt.collection;
    if c in Tried(tries, from, t) {
      RecentIsHeld(start, tries, list, from, t, c);
    }
  }

  lemma Waiting(start: Backoff, tries: seq<Try>, list: Runs, m: nat, k: nat)
    requires Turns(start, tries, list) && k < |tries| && m < |list| && list[m] !in Tried(tries, 0, k)
    requires OpenAtFirst(start, tries, list, m + 1)
    ensures IsOpen(start, tries, k, list[m])
  {
    Untouched(start, tries, k, list[m]);
    InOrder(start, tries, list, 0, k);
  }

  // Then try `k` reaches run `m`.
  lemma CrowdedTurn(start: Backoff, tries: seq<Try>, list: Runs, m: nat, k: nat)
    requires Turns(start, tries, list) && Distinct(list) && k < |tries| && Crowded(tries, k, m)
    requires m < |list| && OpenAtFirst(start, tries, list, m + 1) && list[m] !in Tried(tries, 0, k)
    ensures tries[k].attempt == Resume(list[m])
  {
    WaitingBehind(start, tries, list, m, k - m, k);
    FirstRunsSize(list, m);
    SameSize(Tried(tries, k - m, k), FirstRuns(list, m));
    forall p | 0 <= p < m
      ensures !IsOpen(start, tries, k, list[p])
    {
      RecentIsHeld(start, tries, list, k - m, k, list[p]);
    }
    Waiting(start, tries, list, m, k);
    assert InTurn(start, tries, list, k);
  }

  lemma TurnIsCrowded(start: Backoff, tries: seq<Try>, list: Runs, m: nat, k: nat)
    requires Turns(start, tries, list) && Distinct(list) && m < |list| && OpenAtFirst(start, tries, list, m)
    requires k < |tries| && tries[k].attempt == Resume(list[m])
    ensures Crowded(tries, k, m)
  {
    assert InTurn(start, tries, list, k);
    if m > 0 && !Crowded(tries, k, m) {
      AnEarlyRunIsOpen(start, tries, list, m, k);
    }
  }

  // A run that is open at first is tried for the first time by being resumed.
  lemma {:induction false} FirstTryResumes(start: Backoff, tries: seq<Try>, list: Runs, m: nat, k: nat) returns (j: nat)
    requires Turns(start, tries, list) && k <= |tries|
    requires m < |list| && list[m] in Tried(tries, 0, k) && OpenAtFirst(start, tries, list, m + 1)
    ensures j < k && tries[j].attempt == Resume(list[m])
  {
    if list[m] in Tried(tries, 0, k - 1) {
      j := FirstTryResumes(start, tries, list, m, k - 1);
    } else {
      j := k - 1;
      Waiting(start, tries, list, m, j);
      assert InTurn(start, tries, list, j);
    }
  }

  ghost predicate GetsItsTurn(tries: seq<Try>, c: Collection) {
    exists k | 0 <= k < |tries| :: tries[k].attempt == Resume(c)
  }

  // Run `m` gets its turn if and only if some try starts before the failure `m` tries earlier ends its
  // delay; try `m` reaches it if and only if it starts before the first failure ends its delay.
  lemma TurnIffCrowded(start: Backoff, tries: seq<Try>, list: Runs, m: nat)
    requires Turns(start, tries, list) && Distinct(list) && m < |list| && OpenAtFirst(start, tries, list, m + 1)
    ensures GetsItsTurn(tries, list[m]) <==> exists k | 0 <= k < |tries| :: Crowded(tries, k, m)
    ensures m < |tries| ==> (tries[m].attempt == Resume(list[m]) <==> tries[m].now < tries[0].finished + DELAY)
  {
    if k :| 0 <= k < |tries| && tries[k].attempt == Resume(list[m]) {
      TurnIsCrowded(start, tries, list, m, k);
    }
    if k :| 0 <= k < |tries| && Crowded(tries, k, m) {
      var _ := TurnOfCrowd(start, tries, list, m, k);
    }
    if m < |tries| {
      if tries[m].attempt == Resume(list[m]) {
        TurnIsCrowded(start, tries, list, m, m);
      } else if Crowded(tries, m, m) {
        var j := TurnOfCrowd(start, tries, list, m, m);
        TurnIsCrowded(start, tries, list, m, j);
      }
    }
  }

  lemma TurnOfCrowd(start: Backoff, tries: seq<Try>, list: Runs, m: nat, k: nat) returns (j: nat)
    requires Turns(start, tries, list) && Distinct(list) && k < |tries| && Crowded(tries, k, m)
    requires m < |list| && OpenAtFirst(start, tries, list, m + 1)
    ensures j <= k && tries[j].attempt == Resume(list[m])
  {
    j := k;
    if list[m] in Tried(tries, 0, k) {
      j := FirstTryResumes(start, tries, list, m, k);
    } else {
      CrowdedTurn(start, tries, list, m, k);
    }
  }

  // ---------------------------------------------------------------- Polls

  /** Polls that all find the same unfinished runs, may run, and fail. */
  ghost predicate FailingPolls(events: seq<Event>, list: Runs) {
    forall i | 0 <= i < |events| ::
      events[i].Polled? && !events[i].poll.shutdown && events[i].poll.opens && !events[i].poll.metered
      && events[i].poll.unfinished == list && !events[i].poll.succeeds
  }

  function TryAt(start: Backoff, events: seq<Event>, k: nat): Try
    requires k < |events| && events[k].Polled?
  {
    var p := events[k].poll;
    Try(p.now, p.finished, FirstEligible(After(start, events[..k]), p.unfinished, p.now), AttemptAt(start, events, k))
  }

  ghost function TriesOf(start: Backoff, events: seq<Event>, list: Runs): (tries: seq<Try>)
    requires FailingPolls(events, list)
    ensures |tries| == |events|
  {
    seq(|events|, k requires 0 <= k < |events| && events[k].Polled? => TryAt(start, events, k))
  }

  // The back-off map holds a collection back exactly as long as its last failure says.
  lemma {:induction false} HeldIsBackedOff(start: Backoff, events: seq<Event>, list: Runs, k: nat, c: Collection,
                                           now: nat)
    requires FailingPolls(events, list) && k <= |events|
    ensures HeldUntil(start, TriesOf(start, events, list), k, c) <= now
       <==> Eligible(After(start, events[..k]), c, now)
  {
    if k > 0 {
      HeldIsBackedOff(start, events, list, k - 1, c, now);
      EffectOn(start, events, k - 1, c);
      assert TriesOf(start, events, list)[k - 1] == TryAt(start, events, k - 1);
    } else {
      assert events[..0] == [];
    }
  }

  lemma PollIsInTurn(start: Backoff, events: seq<Event>, list: Runs, k: nat)
    requires FailingPolls(events, list) && k < |events|
    ensures InTurn(start, TriesOf(start, events, list), list, k)
  {
    var tries := TriesOf(start, events, list);
    assert tries[k] == TryAt(start, events, k);
    forall j | 0 <= j < |list|
      ensures IsOpen(start, tries, k, list[j]) <==> Eligible(After(start, events[..k]), list[j], tries[k].now)
    {
      HeldIsBackedOff(start, events, list, k, list[j], tries[k].now);
    }
  }

  lemma PollsAreTurns(start: Backoff, events: seq<Event>, list: Runs)
    requires FailingPolls(events, list) && Clock(events)
    ensures Turns(start, TriesOf(start, events, list), list)
  {
    forall k | 0 <= k < |events|
      ensures InTurn(start, TriesOf(start, events, list), list, k)
    {
      PollIsInTurn(start, events, list, k);
    }
  }

  /** All polls start before the first failure ends its delay. */
  ghost predicate OneWindow(events: seq<Event>) {
    forall k | 0 <= k < |events| :: events[0].Polled? && events[k].Polled? &&
                                   events[k].poll.now < events[0].poll.finished + DELAY
  }

  /** Each of the first `n` polls resumes a run. */
  ghost predicate Resuming(start: Backoff, events: seq<Event>, n: nat)
    requires n <= |events|
  {
    forall k | 0 <= k < n :: AttemptAt(start, events, k).Resume?
  }

  /** At each of the first `n` polls the starting back-off leaves more runs eligible than polls came before. */
  ghost predicate RunsRemain(start: Backoff, events: seq<Event>, list: Runs, n: nat)
    requires n <= |events|
  {
    forall k | 0 <= k < n :: events[k].Polled? && k < |EligibleRuns(start, list, events[k].poll.now)|
  }

  /** One of the first `n` polls resumes `c`. */
  ghost predicate ResumedWithin(start: Backoff, events: seq<Event>, n: nat, c: Collection)
    requires n <= |events|
  {
    exists k | 0 <= k < n :: AttemptAt(start, events, k) == Resume(c)
  }

  lemma TryOfPoll(start: Backoff, events: seq<Event>, list: Runs, k: nat)
    requires FailingPolls(events, list) && k < |events|
    ensures var try := TriesOf(start, events, list)[k];
            && try.attempt == AttemptAt(start, events, k)
            && try.now == events[k].poll.now && try.finished == events[k].poll.finished
  {
  }

  lemma ResumingIsAllResume(start: Backoff, events: seq<Event>, list: Runs, n: nat)
    requires FailingPolls(events, list) && n <= |events|
    ensures Resuming(start, events, n) <==> AllResume(TriesOf(start, events, list), n)
  {
    var tries := TriesOf(start, events, list);
    forall k | 0 <= k < n
      ensures tries[k].attempt == AttemptAt(start, events, k)
    {
      TryOfPoll(start, events, list, k);
    }
  }

  lemma WindowOfTries(start: Backoff, events: seq<Event>, list: Runs)
    requires FailingPolls(events, list) && OneWindow(events)
    ensures InOneWindow(TriesOf(start, events, list))
  {
    forall k | 0 <= k < |events|
      ensures TriesOf(start, events, list)[k].now < TriesOf(start, events, list)[0].finished + DELAY
    {
      TryOfPoll(start, events, list, k);
      TryOfPoll(start, events, list, 0);
    }
  }

  // Until the first failure ends its delay, exactly what was tried is held back in addition to what was at the start.
  lemma HeldBackInWindow(start: Backoff, events: seq<Event>, list: Runs, k: nat, c: Collection, now: nat)
    requires FailingPolls(events, list) && Clock(events) && 0 < k <= |events|
    requires now < events[0].poll.finished + DELAY
    ensures Eligible(After(start, events[..k]), c, now)
       <==> Eligible(start, c, now) && forall i | 0 <= i < k :: !Tries(AttemptAt(start, events, i), c)
  {
    var tries := TriesOf(start, events, list);
    PollsAreTurns(start, events, list);
    HeldIsBackedOff(start, events, list, k, c, now);
    forall i | 0 <= i < k
      ensures tries[i].attempt == AttemptAt(start, events, i) && tries[0].finished == events[0].poll.finished
    {
      TryOfPoll(start, events, list, i);
      TryOfPoll(start, events, list, 0);
    }
    if c in Tried(tries, 0, k) {
      var i := LastTry(start, tries, 0, k, c);
      InOrder(start, tries, list, 0, i);
      assert Tries(AttemptAt(start, events, i), c);
    } else {
      Untouched(start, tries, k, c);
      forall i | 0 <= i < k
        ensures !Tries(AttemptAt(start, events, i), c)
      {
        if Tries(tries[i].attempt, c) {
          TriedAt(tries, 0, k, i, c);
        }
      }
    }
  }

  // In one window, whatever back-off it starts with: the first n polls all resume a run if and only if at
  // each of them the starting back-off leaves more runs eligible than there were polls before it.
  lemma WindowResumes(start: Backoff, events: seq<Event>, list: Runs, n: nat)
    requires FailingPolls(events, list) && Clock(events) && OneWindow(events) && n <= |events|
    ensures Resuming(start, events, n) <==> RunsRemain(start, events, list, n)
  {
    var tries := TriesOf(start, events, list);
    PollsAreTurns(start, events, list);
    WindowOfTries(start, events, list);
    ResumingIsAllResume(start, events, list, n);
    ResumeIffRunsRemain(start, tries, list, n);
    forall k | 0 <= k < n
      ensures tries[k].now == events[k].poll.now
    {
      TryOfPoll(start, events, list, k);
    }
  }

  // Nothing is resumed in a window after it was tried.
  lemma NoneResumedTwice(start: Backoff, events: seq<Event>, list: Runs, i: nat, k: nat)
    requires FailingPolls(events, list) && Clock(events) && OneWindow(events) && i < k < |events|
    requires AttemptAt(start, events, k).Resume?
    ensures !Tries(AttemptAt(start, events, i), AttemptAt(start, events, k).collection)
  {
    PollsAreTurns(start, events, list);
    WindowOfTries(start, events, list);
    TryOfPoll(start, events, list, i);
    TryOfPoll(start, events, list, k);
    NoneTwice(start, TriesOf(start, events, list), list, i, k);
  }

  // As many resuming polls as there are runs resume each exactly once, and no more can follow in the window.
  lemma EachRunIsTriedOnce(start: Backoff, events: seq<Event>, list: Runs, n: nat)
    requires FailingPolls(events, list) && Clock(events) && OneWindow(events) && |list| <= n <= |events|
    requires RunsRemain(start, events, list, n)
    ensures n == |list|
    ensures forall i | 0 <= i < n :: ResumedWithin(start, events, n, list[i])
    ensures forall i, k | 0 <= i < k < n :: AttemptAt(start, events, i) != AttemptAt(start, events, k)
    ensures forall k | n <= k < |events| :: !AttemptAt(start, events, k).Resume?
  {
    var tries := TriesOf(start, events, list);
    PollsAreTurns(start, events, list);
    WindowOfTries(start, events, list);
    WindowResumes(start, events, list, n);
    ResumingIsAllResume(start, events, list, n);
    WholeListTried(start, tries, list, n);
    forall i | 0 <= i < n
      ensures ResumedWithin(start, events, n, list[i])
    {
      assert list[i] in FirstRuns(list, n);
      var k := LastTry(start, tries, 0, n, list[i]);
      TryOfPoll(start, events, list, k);
    }
    forall i, k | 0 <= i < k < n
      ensures AttemptAt(start, events, i) != AttemptAt(start, events, k)
    {
      NoneResumedTwice(start, events, list, i, k);
    }
    forall k | n <= k < |events|
      ensures !AttemptAt(start, events, k).Resume?
    {
      TryOfPoll(start, events, list, k);
      NothingIsLeft(start, tries, list, n, k);
    }
  }

  /** The first `m` runs of the list are eligible at the first poll. */
  ghost predicate EligibleAtFirst(start: Backoff, events: seq<Event>, list: Runs, m: nat)
    requires m <= |list|
  {
    events != [] ==> events[0].Polled? && forall p | 0 <= p < m :: Eligible(start, list[p], events[0].poll.now)
  }

  /** Poll `k` starts before the failure `m` polls earlier ends its delay. */
  predicate InTime(events: seq<Event>, k: nat, m: nat)
    requires k < |events|
  {
    m <= k && events[k].Polled? && events[k - m].Polled?
    && events[k].poll.now < events[k - m].poll.finished + DELAY
  }

  lemma InTimeIsCrowded(start: Backoff, events: seq<Event>, list: Runs, k: nat, m: nat)
    requires FailingPolls(events, list) && k < |events|
    ensures InTime(events, k, m) <==> Crowded(TriesOf(start, events, list), k, m)
  {
    TryOfPoll(start, events, list, k);
    if m <= k {
      TryOfPoll(start, events, list, k - m);
    }
  }

  // However long the attempts last and however many follow: run `m` of a list whose first runs, `m` included,
  // are eligible at the first poll is resumed if and only if some poll starts before the failure `m` polls
  // earlier ends its delay.
  lemma TurnComesExactly(start: Backoff, events: seq<Event>, list: Runs, m: nat)
    requires FailingPolls(events, list) && Distinct(list) && Clock(events)
    requires m < |list| && EligibleAtFirst(start, events, list, m + 1)
    ensures ResumedWithin(start, events, |events|, list[m]) <==> exists k | 0 <= k < |events| :: InTime(events, k, m)
  {
    var tries := TriesOf(start, events, list);
    PollsAreTurns(start, events, list);
    TurnIffCrowded(start, tries, list, m);
    forall k | 0 <= k < |events|
      ensures tries[k].attempt == AttemptAt(start, events, k) && (InTime(events, k, m) <==> Crowded(tries, k, m))
    {
      TryOfPoll(start, events, list, k);
      InTimeIsCrowded(start, events, list, k, m);
    }
  }

  // In particular poll `m` resumes run `m` if and only if it starts before the first failure ends its delay.
  lemma TurnComesInOrder(start: Backoff, events: seq<Event>, list: Runs, m: nat)
    requires FailingPolls(events, list) && Distinct(list) && Clock(events) && m < |events|
    requires m < |list| && EligibleAtFirst(start, events, list, m + 1)
    ensures AttemptAt(start, events, m) == Resume(list[m]) <==> events[m].poll.now < events[0].poll.finished + DELAY
  {
    PollsAreTurns(start, events, list);
    TryOfPoll(start, events, list, m);
    TryOfPoll(start, events, list, 0);
    TurnIffCrowded(start, TriesOf(start, events, list), list, m);
  }

  // A window that starts with the whole list eligible takes its runs in order, and then none.
  lemma EligibleListGoesInOrder(start: Backoff, events: seq<Event>, list: Runs)
    requires FailingPolls(events, list) && Distinct(list) && Clock(events) && OneWindow(events)
    requires EligibleAtFirst(start, events, list, |list|)
    ensures forall k | 0 <= k < |events| && k < |list| :: AttemptAt(start, events, k) == Resume(list[k])
    ensures forall k | |list| <= k < |events| :: !AttemptAt(start, events, k).Resume?
  {
    forall k | 0 <= k < |events| && k < |list|
      ensures AttemptAt(start, events, k) == Resume(list[k])
    {
      TurnComesInOrder(start, events, list, k);
    }
    if |list| < |events| {
      assert Resuming(start, events, |list|);
      WindowResumes(start, events, list, |list|);
      EachRunIsTriedOnce(start, events, list, |list|);
    }
  }

  // Two eligible runs whose failing attempts each last the delay share all polls between them, so that no other
  // run of the list is ever tried.
  lemma SlowFailuresStarve(start: Backoff, events: seq<Event>, list: Runs, k: nat)
    requires FailingPolls(events, list) && Distinct(list) && Clock(events) && k < |events|
    requires 2 <= |list| && EligibleAtFirst(start, events, list, 2)
    requires forall i | 0 <= i < |events| :: events[i].Polled? && events[i].poll.now + DELAY <= events[i].poll.finished
    ensures AttemptAt(start, events, k) in {Resume(list[0]), Resume(list[1])}
  {
    var tries := TriesOf(start, events, list);
    PollsAreTurns(start, events, list);
    TryOfPoll(start, events, list, k);
    if 2 <= k {
      TryOfPoll(start, events, list, k - 1);
      assert tries[k - 2].finished <= tries[k - 1].now;
    }
    AnEarlyRunIsOpen(start, tries, list, 2, k);
    assert InTurn(start, tries, list, k);
  }

  /** `n` polls over the unfinished runs 1, 2 and 3, one second apart, whose attempts time out after thirty. */
  function SlowPolls(n: nat): (events: seq<Event>)
    ensures |events| == n
  {
    seq(n, (i: nat) => Polled(Poll(false, true, false, 31_000 * i, [1, 2, 3], None, 31_000 * i + 30_000, false)))
  }

  // However many such polls follow, run 3 is never tried, though it is eligible all the time.
  lemma ThirdRunStarves(n: nat)
    ensures FailingPolls(SlowPolls(n), [1, 2, 3]) && Clock(SlowPolls(n))
    ensures EligibleAtFirst(map[], SlowPolls(n), [1, 2, 3], 3)
    ensures forall k | 0 <= k < n :: !Tries(AttemptAt(map[], SlowPolls(n), k), 3)
  {
    forall k | 0 <= k < n
      ensures !Tries(AttemptAt(map[], SlowPolls(n), k), 3)
    {
      SlowFailuresStarve(map[], SlowPolls(n), [1, 2, 3], k);
    }
  }
}
