/**
 The daemon's long-lived request handler, updated in place. Each method is proved to take exactly
 the step of the state machines in DraftStaging and BackgroundRetry.
 */
module Application {
  import opened Wrappers
  import Staging = DraftStaging
  import Retry = BackgroundRetry

  class StagedCollectionDraft {
    const token: nat
    const total: nat
    var bytes: seq<byte>
    var capacity: nat
    var expiresAt: nat

    constructor (token: nat, total: nat, expiresAt: nat)
      ensures Value() == Staging.Draft(token, total, [], 0, expiresAt)
    {
      this.token, this.total, this.expiresAt := token, total, expiresAt;
      bytes, capacity := [], 0;
    }

    ghost function Value(): Staging.Draft
      reads this
    {
      Staging.Draft(token, total, bytes, capacity, expiresAt)
    }

    /** Exact reservation of room for `additional` more bytes; growing moves the present content. */
    method TryReserveExact(additional: nat, allocates: bool) returns (ok: bool, moved: nat)
      requires |bytes| + additional > capacity
      modifies this`capacity
      ensures ok == allocates
      ensures capacity == if ok then |bytes| + additional else old(capacity)
      ensures moved == if ok then |bytes| else 0
    {
      ok, moved := allocates, 0;
      if ok {
        capacity, moved := |bytes| + additional, |bytes|;
      }
    }
  }

  class ApplicationHandler {
    var staged: StagedCollectionDraft?
    var nextToken: nat
    var backoff: Retry.Backoff
    ghost var copied: nat
    ghost var log: seq<Staging.Entry>     // every administration request answered so far
    ghost var events: seq<Retry.Event>    // every poll, and every synchronization that a client saw succeed

    constructor ()
      ensures Valid() && log == [] && events == [] && backoff == map[]
    {
      staged, nextToken, backoff, copied, log, events := null, 1, map[], 0, [], [];
    }

    /** The handler is in the state its histories lead to, so every theorem about runs applies to it. */
    ghost predicate Valid()
      reads this, staged
    {
      Staging.Run(log) && State() == Staging.After(log) && backoff == Retry.After(map[], events)
    }

    ghost function State(): Staging.State
      reads this, staged
    {
      Staging.State(if staged == null then None else Some(staged.Value()), nextToken, copied)
    }

    method StagedDraft(token: nat) returns (draft: StagedCollectionDraft?)
      ensures draft == if Staging.Holds(State(), token) then staged else null
    {
      if staged != null && staged.token == token {
        return staged;
      }
      return null;
    }

    /** The complete payload of the draft, whose deadline moves; None when it is absent or incomplete. */
    method CompleteDraft(token: nat, env: Staging.Env) returns (payload: Option<seq<byte>>)
      modifies staged
      ensures var s := old(State());
              if Staging.Holds(s, token) && |s.draft.value.bytes| == s.draft.value.total then
                payload == Some(s.draft.value.bytes)
                && State() == s.(draft := Some(s.draft.value.(expiresAt := env.later + Staging.EXPIRY)))
              else payload == None && State() == s
    {
      var draft := StagedDraft(token);
      if draft == null || |draft.bytes| != draft.total {
        return None;
      }
      draft.expiresAt := env.later + Staging.EXPIRY;
      return Some(draft.bytes);
    }

    method ConsumeDraft(token: nat)
      modifies this`staged
      ensures State() == if Staging.Holds(old(State()), token) then old(State()).(draft := None) else old(State())
    {
      if staged != null && staged.token == token {
        staged := null;
      }
    }

    method BeginDraft(total: nat, env: Staging.Env) returns (out: Staging.Output)
      modifies this`staged, this`nextToken
      ensures staged == old(staged) || fresh(staged)
      ensures State() == if total == 0 || total > Staging.MAX_DRAFT_BYTES || old(staged) != null then old(State())
                         else Staging.State(
                                Some(Staging.Draft(old(nextToken), total, [], 0, env.later + Staging.EXPIRY)),
                                Staging.TokenAfter(old(nextToken)), copied)
      ensures out == if total == 0 || total > Staging.MAX_DRAFT_BYTES || old(staged) != null then Staging.REFUSAL
                     else Staging.Output(Staging.Begun(old(nextToken)), None)
    {
      if total == 0 || total > Staging.MAX_DRAFT_BYTES {
        return Staging.REFUSAL;
      }
      if staged != null {
        return Staging.REFUSAL;
      }
      var token := nextToken;
      nextToken := if nextToken < Staging.LAST_TOKEN then nextToken + 1 else 1;
      staged := new StagedCollectionDraft(token, total, env.later + Staging.EXPIRY);
      return Staging.Output(Staging.Begun(token), None);
    }

    method AppendChunk(token: nat, offset: nat, bytes: seq<byte>, env: Staging.Env) returns (out: Staging.Output)
      modifies this`copied, staged
      ensures var s := old(State());
              (State(), out) ==
              if bytes == [] || |bytes| > Staging.MAX_CHUNK_BYTES || !Staging.Holds(s, token) then (s, Staging.REFUSAL)
              else Staging.StepAppend(s, s.draft.value, offset, bytes, env)
    {
      if bytes == [] || |bytes| > Staging.MAX_CHUNK_BYTES {
        return Staging.REFUSAL;
      }
      var draft := StagedDraft(token);
      if draft == null || offset != |draft.bytes| {
        return Staging.REFUSAL;
      }
      var received := |draft.bytes| + |bytes|;
      if received > draft.total || received > Staging.MAX_DRAFT_BYTES {
        return Staging.REFUSAL;
      }
      if received > draft.capacity {
        var target := Min(2 * received, draft.total);
        var ok, moved := draft.TryReserveExact(target - |draft.bytes|, env.allocates);
        if !ok {
          return Staging.REFUSAL;
        }
        copied := copied + moved;
      }
      draft.bytes := draft.bytes + bytes;
      draft.expiresAt := env.later + Staging.EXPIRY;
      return Staging.Output(Staging.Appended(token, received, draft.total), None);
    }

    method Complete(token: nat, consumes: bool, env: Staging.Env) returns (out: Staging.Output)
      modifies this`staged, staged
      ensures staged == null || staged == old(staged)
      ensures (State(), out) == Staging.StepComplete(old(State()), token, consumes, env)
    {
      var payload := CompleteDraft(token, env);
      if payload == None {
        return Staging.REFUSAL;
      }
      if !env.decodes || !env.applies {
        return Staging.Output(Staging.Refused, payload);
      }
      if consumes {
        ConsumeDraft(token);
      }
      return Staging.Output(Staging.Completed, payload);
    }

    method Administer(request: Staging.Request, env: Staging.Env) returns (out: Staging.Output)
      requires Valid()
      modifies this, staged
      ensures Valid() && log == old(log) + [Staging.Entry(request, env, out)]
      ensures (State(), out) == Staging.Step(old(State()), request, env)
      ensures backoff == old(backoff) && events == old(events)
    {
      out := Answer(request, env);
      Staging.RunExtended(log, Staging.Entry(request, env, out));
      log := log + [Staging.Entry(request, env, out)];
    }

    method Answer(request: Staging.Request, env: Staging.Env) returns (out: Staging.Output)
      modifies this`staged, this`nextToken, this`copied, staged
      ensures (State(), out) == Staging.Step(old(State()), request, env)
    {
      if env.shutdown {
        return Staging.REFUSAL;
      }
      if staged != null && staged.expiresAt <= env.now {
        staged := null;
      }
      match request
      case Begin(total) => out := BeginDraft(total, env);
      case Append(token, offset, bytes) => out := AppendChunk(token, offset, bytes, env);
      case Estimate(token) => out := Complete(token, false, env);
      case Add(token) => out := Complete(token, true, env);
      case Edit(token, collectionId) =>
        if collectionId == 0 {
          return Staging.REFUSAL;
        }
        out := Complete(token, true, env);
      case Remove(collectionId) =>
        if collectionId == 0 || !env.applies {
          return Staging.REFUSAL;
        }
        return Staging.Output(Staging.Completed, None);
      case Abort(token) =>
        var draft := StagedDraft(token);
        if draft == null {
          return Staging.REFUSAL;
        }
        staged := null;
        return Staging.Output(Staging.Aborted(token), None);
    }

    /** A client asks for the synchronization of one collection. */
    method SyncCollection(collection: Retry.Collection, succeeds: bool) returns (ok: bool)
      requires Valid()
      modifies this`backoff, this`events
      ensures Valid() && ok == succeeds
      ensures events == old(events) + if ok then [Retry.Synced(collection)] else []
    {
      ok := SyncOne(collection, succeeds);
      if ok {
        Retry.AfterExtended(map[], events, Retry.Synced(collection));
        events := events + [Retry.Synced(collection)];
      }
    }

    /** A synchronization of one collection; only its success touches the back-off. */
    method SyncOne(collection: Retry.Collection, succeeds: bool) returns (ok: bool)
      modifies this`backoff
      ensures ok == succeeds
      ensures backoff == if ok then old(backoff) - {collection} else old(backoff)
    {
      ok := succeeds;
      if ok {
        backoff := backoff - {collection};
      }
    }

    method PollSchedule(poll: Retry.Poll) returns (attempt: Retry.Attempt)
      requires Valid()
      modifies this`backoff, this`events
      ensures Valid() && events == old(events) + [Retry.Polled(poll)]
      ensures attempt == Retry.AttemptAt(map[], events, |old(events)|)
      ensures Retry.AttemptsExactly(old(backoff), poll, attempt)
      ensures backoff == if attempt.Idle? then old(backoff)
                         else if poll.succeeds then old(backoff) - {attempt.collection}
                         else old(backoff)[attempt.collection := poll.finished + 30_000]
    {
      attempt := ResumeOrClaim(poll);
      Retry.AttemptIsExact(old(backoff), poll);
      Retry.AfterExtended(map[], events, Retry.Polled(poll));
      assert (events + [Retry.Polled(poll)])[..|events|] == events;
      events := events + [Retry.Polled(poll)];
    }

    method ResumeOrClaim(poll: Retry.Poll) returns (attempt: Retry.Attempt)
      modifies this`backoff
      ensures attempt == Retry.Chosen(old(backoff), poll)
      ensures backoff == Retry.AfterPoll(old(backoff), poll)
    {
      if poll.shutdown || !poll.opens || poll.metered {
        return Retry.Idle;
      }
      var i := 0;
      while i < |poll.unfinished| && !Retry.Eligible(backoff, poll.unfinished[i], poll.now)
        invariant 0 <= i <= |poll.unfinished|
        invariant forall k | 0 <= k < i :: !Retry.Eligible(backoff, poll.unfinished[k], poll.now)
      {
        i := i + 1;
      }
      FirstIsUnique(backoff, poll.unfinished, poll.now, i, Retry.FirstEligible(backoff, poll.unfinished, poll.now));
      if i < |poll.unfinished| {
        attempt := Retry.Resume(poll.unfinished[i]);
      } else if poll.due.Some? {
        attempt := Retry.Scheduled(poll.due.value);
      } else {
        return Retry.Idle;
      }
      var ok := SyncOne(attempt.collection, poll.succeeds);
      if !ok {
        backoff := backoff[attempt.collection := poll.finished + Retry.DELAY];
      }
    }
  }

  lemma FirstIsUnique(backoff: Retry.Backoff, list: seq<Retry.Collection>, now: nat, i: nat, j: nat)
    requires Retry.IsFirstEligible(backoff, list, now, i) && Retry.IsFirstEligible(backoff, list, now, j)
    ensures i == j
  {
  }
}
