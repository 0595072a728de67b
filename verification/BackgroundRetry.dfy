/**
 Background resumption of unfinished synchronizations: which collection a poll tries, and the
 per-collection back-off that a failure sets.
 */
module BackgroundRetry {
  import opened Wrappers

  const DELAY := 30_000   // thirty seconds, in milliseconds

  type Collection = nat

  /** One poll and what it meets: whether it may run at all, the unfinished runs the store lists
      (oldest first), the due schedule it could claim instead, and how the attempt ends. */
  datatype Poll = Poll(shutdown: bool, opens: bool, metered: bool, now: nat, unfinished: seq<Collection>,
                       due: Option<Collection>, finished: nat, succeeds: bool)

  datatype Attempt = Idle | Resume(collection: Collection) | Scheduled(collection: Collection)

  type Backoff = map<Collection, nat>

  predicate Eligible(backoff: Backoff, c: Collection, now: nat) {
    c !in backoff || backoff[c] <= now
  }

  /** `i` is the position of the first eligible entry of the list, or its length. */
  predicate IsFirstEligible(backoff: Backoff, list: seq<Collection>, now: nat, i: nat) {
    && i <= |list|
    && (forall k | 0 <= k < i :: !Eligible(backoff, list[k], now))
    && (i < |list| ==> Eligible(backoff, list[i], now))
  }

  function FirstEligible(backoff: Backoff, list: seq<Collection>, now: nat): (i: nat)
    ensures IsFirstEligible(backoff, list, now, i)
  {
    if list == [] || Eligible(backoff, list[0], now) then 0
    else
      var i := FirstEligible(backoff, list[1..], now);
      assert forall k | 1 <= k < |list| :: list[k] == list[1..][k - 1];
      i + 1
  }

  function Chosen(backoff: Backoff, p: Poll): Attempt {
    if p.shutdown || !p.opens || p.metered then Idle
    else
      var i := FirstEligible(backoff, p.unfinished, p.now);
      if i < |p.unfinished| then Resume(p.unfinished[i])
      else if p.due.Some? then Scheduled(p.due.value)
      else Idle
  }

  function AfterPoll(backoff: Backoff, p: Poll): Backoff {
    match Chosen(backoff, p)
    case Idle => backoff
    case Resume(c) => AfterAttempt(backoff, c, p)
    case Scheduled(c) => AfterAttempt(backoff, c, p)
  }

  function AfterAttempt(backoff: Backoff, c: Collection, p: Poll): Backoff {
    if p.succeeds then backoff - {c} else backoff[c := p.finished + DELAY]
  }

  // ---------------------------------------------------------------- Which attempt, case by case

  predicate MayRun(p: Poll) { !p.shutdown && p.opens && !p.metered }

  /** The collection failed and its delay is not over. */
  predicate HeldBack(backoff: Backoff, c: Collection, now: nat) { c in backoff && now < backoff[c] }

  ghost predicate AllHeldBack(backoff: Backoff, p: Poll) {
    forall i | 0 <= i < |p.unfinished| :: HeldBack(backoff, p.unfinished[i], p.now)
  }

  /** `c` is the first unfinished run of the list that is not held back. */
  ghost predicate NextInList(backoff: Backoff, p: Poll, c: Collection) {
    exists i | 0 <= i < |p.unfinished| ::
      p.unfinished[i] == c && !HeldBack(backoff, c, p.now)
      && forall k | 0 <= k < i :: HeldBack(backoff, p.unfinished[k], p.now)
  }

  /** A poll that may run resumes the next run of the list; when all are held back it starts the due schedule, and
      it is idle only when there is none. */
  ghost predicate AttemptsExactly(backoff: Backoff, p: Poll, attempt: Attempt) {
    && (forall c: Collection :: attempt == Resume(c) <==> MayRun(p) && NextInList(backoff, p, c))
    && (forall c: Collection :: attempt == Scheduled(c) <==> MayRun(p) && AllHeldBack(backoff, p) && p.due == Some(c))
    && (attempt == Idle <==> !MayRun(p) || (AllHeldBack(backoff, p) && p.due == None))
  }

  lemma FirstIsNext(backoff: Backoff, p: Poll)
    ensures var i := FirstEligible(backoff, p.unfinished, p.now);
            && (i == |p.unfinished| <==> AllHeldBack(backoff, p))
            && (forall c: Collection :: NextInList(backoff, p, c) <==> i < |p.unfinished| && p.unfinished[i] == c)
  {
    var i := FirstEligible(backoff, p.unfinished, p.now);
    forall k | 0 <= k < |p.unfinished|
      ensures HeldBack(backoff, p.unfinished[k], p.now) <==> !Eligible(backoff, p.unfinished[k], p.now)
    {
    }
  }

  lemma AttemptIsExact(backoff: Backoff, p: Poll)
    ensures AttemptsExactly(backoff, p, Chosen(backoff, p))
  {
    FirstIsNext(backoff, p);
  }

  // The cases exclude each other and leave none out.
  lemma AttemptIsDetermined(backoff: Backoff, p: Poll, a: Attempt, b: Attempt)
    requires AttemptsExactly(backoff, p, a) && AttemptsExactly(backoff, p, b)
    ensures a == b
  {
  }

  // ---------------------------------------------------------------- Runs

  /** A poll, or a successful synchronization of one collection asked for by a client. */
  datatype Event = Polled(poll: Poll) | Synced(collection: Collection)

  function AfterEvent(backoff: Backoff, event: Event): Backoff {
    match event
    case Polled(p) => AfterPoll(backoff, p)
    case Synced(c) => backoff - {c}
  }

  function After(start: Backoff, events: seq<Event>): Backoff {
    if events == [] then start
    else
      AfterEvent(After(start, events[..|events| - 1]), events[|events| - 1])
  }

  function AttemptAt(start: Backoff, events: seq<Event>, i: nat): Attempt
    requires i < |events|
  {
    match events[i]
    case Polled(p) => Chosen(After(start, events[..i]), p)
    case Synced(_) => Idle
  }

  predicate Tries(a: Attempt, c: Collection) { a == Resume(c) || a == Scheduled(c) }

  /** Event `i` ended in a successful synchronization of `c`. */
  predicate SucceedsFor(start: Backoff, events: seq<Event>, i: nat, c: Collection)
    requires i < |events|
  {
    events[i] == Synced(c) ||
    (events[i].Polled? && events[i].poll.succeeds && Tries(AttemptAt(start, events, i), c))
  }

  predicate FailsFor(start: Backoff, events: seq<Event>, i: nat, c: Collection)
    requires i < |events|
  {
    events[i].Polled? && !events[i].poll.succeeds && Tries(AttemptAt(start, events, i), c)
  }

  /** The clock never runs backward, within a poll or from one to a later one. */
  ghost predicate Clock(events: seq<Event>) {
    && (forall i | 0 <= i < |events| && events[i].Polled? :: events[i].poll.now <= events[i].poll.finished)
    && (forall i, j | 0 <= i < j < |events| && events[i].Polled? && events[j].Polled? ::
          events[i].poll.finished <= events[j].poll.now)
  }

  lemma AfterExtended(start: Backoff, events: seq<Event>, event: Event)
    ensures After(start, events + [event]) == AfterEvent(After(start, events), event)
  {
    assert (events + [event])[..|events|] == events;
  }

  lemma AfterOne(start: Backoff, events: seq<Event>, k: nat)
    requires k < |events|
    ensures After(start, events[..k + 1]) == AfterEvent(After(start, events[..k]), events[k])
  {
    assert events[..k + 1][..k] == events[..k];
  }

  // What one event does to the entry of one collection.
  lemma EffectOn(start: Backoff, events: seq<Event>, k: nat, c: Collection)
    requires k < |events|
    ensures var b, b' := After(start, events[..k]), After(start, events[..k + 1]);
            if FailsFor(start, events, k, c) then c in b' && b'[c] == events[k].poll.finished + DELAY
            else if SucceedsFor(start, events, k, c) then c !in b'
            else (c in b' <==> c in b) && (c in b ==> b'[c] == b[c])
  {
    AfterOne(start, events, k);
  }

  // ---------------------------------------------------------------- Rate limit

  lemma {:induction false} BlockedUntilDelay(start: Backoff, events: seq<Event>, i: nat, k: nat, c: Collection)
    requires Clock(events) && i < k <= |events| && FailsFor(start, events, i, c)
    requires forall m | i < m < k :: !SucceedsFor(start, events, m, c)
    ensures c in After(start, events[..k])
    ensures After(start, events[..k])[c] >= events[i].poll.finished + DELAY
  {
    EffectOn(start, events, k - 1, c);
    if k > i + 1 {
      BlockedUntilDelay(start, events, i, k - 1, c);
    }
  }

  // After a failed attempt, and absent a successful synchronization, a collection is not resumed
  // again before its delay has passed.
  lemma ResumeIsRateLimited(start: Backoff, events: seq<Event>, i: nat, j: nat, c: Collection)
    requires Clock(events) && i < j < |events|
    requires FailsFor(start, events, i, c) && AttemptAt(start, events, j) == Resume(c)
    requires forall m | i < m < j :: !SucceedsFor(start, events, m, c)
    ensures events[j].poll.now >= events[i].poll.finished + DELAY
  {
    BlockedUntilDelay(start, events, i, j, c);
  }
}
