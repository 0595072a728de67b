/**
 Every answer of the draft protocol in terms of the log alone: what was asked and answered before, and the
 clock. It follows that a payload sent in order is acknowledged in full and reaches the decoder unchanged.
 */
module DraftAnswers {
  import opened DraftStaging
  import opened Wrappers

  // ---------------------------------------------------------------- Which draft is open

  /** When the draft expires according to the first `n` entries: ten minutes after the last that touched it. */
  function Deadline(log: seq<Entry>, n: nat): nat
    requires n <= |log|
  {
    if n == 0 then 0
    else if Touches(log[n - 1].output) then log[n - 1].env.later + 600_000
    else Deadline(log, n - 1)
  }

  /** The answer ends the draft: it was aborted, or added or edited with success. */
  predicate Closes(e: Entry) {
    e.output.response.Aborted? || ((e.request.Add? || e.request.Edit?) && e.output.response.Completed?)
  }

  /** Entry `k` leaves an open draft open. */
  predicate LeavesOpen(log: seq<Entry>, k: nat)
    requires k < |log|
  {
    !log[k].output.response.Begun? && !Closes(log[k]) && (log[k].env.shutdown || log[k].env.now < Deadline(log, k))
  }

  /** The draft begun by entry `b` is still open after the first `n` entries. */
  ghost predicate Open(log: seq<Entry>, n: nat, b: nat)
    requires n <= |log|
  {
    && b < n && log[b].request.Begin? && log[b].output.response.Begun?
    && forall k | b < k < n :: LeavesOpen(log, k)
  }

  /** What has been acknowledged of the draft begun by entry `b`, within the first `n` entries. */
  function Received(log: seq<Entry>, b: nat, n: nat): seq<byte>
    requires b < n <= |log|
  {
    if n == b + 1 then [] else Received(log, b, n - 1) + Chunk(log[n - 1])
  }

  /** The room its buffer has by then: as it grows it is given twice what it needs, within its total. */
  function Room(log: seq<Entry>, b: nat, n: nat): nat
    requires b < n <= |log| && log[b].request.Begin?
  {
    if n == b + 1 then 0
    else
      var room, received := Room(log, b, n - 1), |Received(log, b, n)|;
      if received <= room then room else Min(2 * received, log[b].request.total)
  }

  /** The state holds the draft begun by entry `b`. */
  predicate HoldsDraft(s: State, log: seq<Entry>, n: nat, b: nat)
    requires b < n <= |log| && log[b].request.Begin? && log[b].output.response.Begun?
  {
    && s.draft.Some? && s.draft.value.token == log[b].output.response.token
    && s.draft.value.total == log[b].request.total && s.draft.value.bytes == Received(log, b, n)
    && s.draft.value.expiresAt == Deadline(log, n) && s.draft.value.capacity == Room(log, b, n)
  }

  lemma StepBegins(s: State, e: Entry)
    requires e.output == Step(s, e.request, e.env).1 && e.output.response.Begun?
    ensures e.request.Begin? && Touches(e.output)
    ensures var d := Step(s, e.request, e.env).0.draft;
            d.Some? && d.value.token == e.output.response.token && d.value.total == e.request.total
            && d.value.bytes == [] && d.value.expiresAt == e.env.later + 600_000 && d.value.capacity == 0
  {
  }

  lemma StepKeeps(s: State, e: Entry)
    requires e.output == Step(s, e.request, e.env).1 && !e.output.response.Begun?
    requires s.draft.Some? ==> |s.draft.value.bytes| <= s.draft.value.capacity
    ensures var d := Step(s, e.request, e.env).0.draft;
            && (d.Some? <==> s.draft.Some? && !Closes(e) && (e.env.shutdown || e.env.now < s.draft.value.expiresAt))
            && (d.Some? ==>
                  && d.value.token == s.draft.value.token && d.value.total == s.draft.value.total
                  && d.value.bytes == s.draft.value.bytes + Chunk(e)
                  && d.value.expiresAt == (if Touches(e.output) then e.env.later + 600_000 else s.draft.value.expiresAt)
                  && d.value.capacity == if |d.value.bytes| <= s.draft.value.capacity then s.draft.value.capacity
                                         else Min(2 * |d.value.bytes|, d.value.total))
  {
  }

  // A draft that the log shows open is staged, with what the log shows of it.
  lemma {:induction false} OpenIsStaged(log: seq<Entry>, n: nat, b: nat)
    requires Run(log) && n <= |log| && Open(log, n, b)
    ensures HoldsDraft(After(log[..n]), log, n, b)
    decreases n
  {
    RunPrefix(log, n - 1);
    GrowthIsAmortised(log[..n - 1]);
    var s := After(log[..n - 1]);
    if b == n - 1 {
      StepBegins(s, log[b]);
    } else {
      OpenIsStaged(log, n - 1, b);
      assert LeavesOpen(log, n - 1);
      StepKeeps(s, log[n - 1]);
    }
  }

  // Whatever is staged, the log shows open.
  lemma {:induction false} StagedIsOpen(log: seq<Entry>, n: nat) returns (b: nat)
    requires Run(log) && n <= |log| && After(log[..n]).draft.Some?
    ensures Open(log, n, b)
    decreases n
  {
    if n == 0 {
      assert false;
    }
    RunPrefix(log, n - 1);
    GrowthIsAmortised(log[..n - 1]);
    var s := After(log[..n - 1]);
    if log[n - 1].output.response.Begun? {
      StepBegins(s, log[n - 1]);
      b := n - 1;
    } else {
      StepKeeps(s, log[n - 1]);
      b := StagedIsOpen(log, n - 1);
      OpenIsStaged(log, n - 1, b);
    }
  }

  // ---------------------------------------------------------------- The answers

  /** The draft begun by entry `b` is open and not expired when entry `i` is asked. */
  ghost predicate Live(log: seq<Entry>, i: nat, b: nat)
    requires i < |log|
  {
    Open(log, i, b) && log[i].env.now < Deadline(log, i)
  }

  /** The draft that entry `i` asks about under `token` is live. */
  ghost predicate LiveUnder(log: seq<Entry>, i: nat, b: nat, token: nat)
    requires i < |log|
  {
    Live(log, i, b) && log[b].output.response.token == token
  }

  lemma LiveIsHeld(log: seq<Entry>, i: nat, b: nat)
    requires Run(log) && i < |log| && Live(log, i, b)
    ensures HoldsDraft(Expire(After(log[..i]), log[i].env.now), log, i, b)
  {
    OpenIsStaged(log, i, b);
  }

  lemma HeldIsLive(log: seq<Entry>, i: nat) returns (b: nat)
    requires Run(log) && i < |log| && Expire(After(log[..i]), log[i].env.now).draft.Some?
    ensures Live(log, i, b)
  {
    b := StagedIsOpen(log, i);
    OpenIsStaged(log, i, b);
  }

  lemma StepAt(log: seq<Entry>, i: nat)
    requires Run(log) && i < |log|
    ensures log[i].output == Step(After(log[..i]), log[i].request, log[i].env).1
  {
    RunPrefix(log, i);
  }

  // A draft is begun if and only if its size is permitted and no other is open.
  lemma BeginAnswer(log: seq<Entry>, i: nat)
    requires Run(log) && i < |log| && log[i].request.Begin?
    ensures log[i].output.response.Begun? <==>
            && !log[i].env.shutdown && 1 <= log[i].request.total <= 16_777_216 && forall b: nat :: !Live(log, i, b)
    ensures log[i].output.decoded.None? && (!log[i].output.response.Begun? ==> log[i].output.response == Refused)
  {
    StepAt(log, i);
    forall b: nat | Live(log, i, b)
      ensures !log[i].output.response.Begun?
    {
      LiveIsHeld(log, i, b);
    }
    if Expire(After(log[..i]), log[i].env.now).draft.Some? {
      var b := HeldIsLive(log, i);
    }
  }

  /** The chunk of entry `i` continues the draft begun by entry `b` within its total. */
  ghost predicate Continues(log: seq<Entry>, i: nat, b: nat)
    requires i < |log| && log[i].request.Append?
  {
    var request := log[i].request;
    && LiveUnder(log, i, b, request.token) && request.offset == |Received(log, b, i)|
    && request.offset + |request.bytes| <= log[b].request.total <= 16_777_216
  }

  /** The chunk of entry `i` may be added to the draft begun by entry `b`. */
  ghost predicate Accepts(log: seq<Entry>, i: nat, b: nat)
    requires i < |log| && log[i].request.Append?
  {
    && !log[i].env.shutdown && 1 <= |log[i].request.bytes| <= 4096 && Continues(log, i, b)
    && (log[i].env.allocates || log[i].request.offset + |log[i].request.bytes| <= Room(log, b, i))
  }

  // A chunk is acknowledged if and only if its size is permitted, it continues the open draft within its total,
  // and there is room for it or memory for more; the answer says how far the draft has come.
  lemma AppendAnswer(log: seq<Entry>, i: nat)
    requires Run(log) && i < |log| && log[i].request.Append?
    ensures log[i].output.response.Appended? <==> exists b: nat :: Accepts(log, i, b)
    ensures forall b: nat | Accepts(log, i, b) ::
              log[i].output == Output(Appended(log[i].request.token, log[i].request.offset + |log[i].request.bytes|,
                                               log[b].request.total), None)
    ensures !log[i].output.response.Appended? ==> log[i].output == Output(Refused, None)
  {
    StepAt(log, i);
    if log[i].output.response.Appended? {
      var b := HeldIsLive(log, i);
      LiveIsHeld(log, i, b);
      TotalIsPermitted(log, b);
      assert Accepts(log, i, b);
    }
    forall b: nat | Accepts(log, i, b)
      ensures HoldsDraft(Expire(After(log[..i]), log[i].env.now), log, i, b)
    {
      LiveIsHeld(log, i, b);
    }
  }

  lemma TotalIsPermitted(log: seq<Entry>, b: nat)
    requires Run(log) && b < |log| && log[b].request.Begin? && log[b].output.response.Begun?
    ensures 1 <= log[b].request.total <= 16_777_216
  {
    StepAt(log, b);
  }

  function TokenOf(request: Request): nat
    requires request.Estimate? || request.Add? || request.Edit? || request.Abort?
  {
    match request
    case Estimate(token) => token
    case Add(token) => token
    case Edit(token, _) => token
    case Abort(token) => token
  }

  /** The draft begun by entry `b` is complete, and entry `i` may ask for its completion. */
  ghost predicate Ready(log: seq<Entry>, i: nat, b: nat)
    requires i < |log| && (log[i].request.Estimate? || log[i].request.Add? || log[i].request.Edit?)
  {
    && LiveUnder(log, i, b, TokenOf(log[i].request)) && |Received(log, b, i)| == log[b].request.total
    && (log[i].request.Edit? ==> log[i].request.collectionId != 0)
  }

  // The decoder is shown a draft if and only if it is open and complete, and then all of it in order; the
  // request succeeds if and only if decoding and the library do.
  lemma CompletionAnswer(log: seq<Entry>, i: nat)
    requires Run(log) && i < |log| && (log[i].request.Estimate? || log[i].request.Add? || log[i].request.Edit?)
    ensures log[i].output.decoded.Some? <==> !log[i].env.shutdown && exists b: nat :: Ready(log, i, b)
    ensures forall b: nat | Ready(log, i, b) && !log[i].env.shutdown ::
              log[i].output.decoded == Some(Received(log, b, i))
    ensures log[i].output.response ==
            if log[i].output.decoded.Some? && log[i].env.decodes && log[i].env.applies then Completed else Refused
  {
    StepAt(log, i);
    if log[i].output.decoded.Some? {
      var b := HeldIsLive(log, i);
      LiveIsHeld(log, i, b);
      assert Ready(log, i, b);
    }
    forall b: nat | Ready(log, i, b)
      ensures HoldsDraft(Expire(After(log[..i]), log[i].env.now), log, i, b)
    {
      LiveIsHeld(log, i, b);
    }
  }

  // A draft is aborted if and only if it is open under the token given.
  lemma AbortAnswer(log: seq<Entry>, i: nat)
    requires Run(log) && i < |log| && log[i].request.Abort?
    ensures log[i].output == Output(Aborted(log[i].request.token), None) <==>
            !log[i].env.shutdown && exists b: nat :: LiveUnder(log, i, b, log[i].request.token)
    ensures log[i].output.response.Aborted? || log[i].output == Output(Refused, None)
  {
    StepAt(log, i);
    if log[i].output.response.Aborted? {
      var b := HeldIsLive(log, i);
      LiveIsHeld(log, i, b);
      assert LiveUnder(log, i, b, log[i].request.token);
    }
    forall b: nat | LiveUnder(log, i, b, log[i].request.token)
      ensures HoldsDraft(Expire(After(log[..i]), log[i].env.now), log, i, b)
    {
      LiveIsHeld(log, i, b);
    }
  }

  // Removing a collection needs no draft, and nothing at all is answered during shutdown.
  lemma RemoveAnswer(log: seq<Entry>, i: nat)
    requires Run(log) && i < |log|
    ensures log[i].request.Remove? ==>
              log[i].output == Output(if !log[i].env.shutdown && log[i].request.collectionId != 0 && log[i].env.applies
                                      then Completed else Refused, None)
    ensures log[i].env.shutdown ==> log[i].output == Output(Refused, None)
  {
    StepAt(log, i);
  }

  // ---------------------------------------------------------------- A draft from end to end

  function Joined(chunks: seq<seq<byte>>): seq<byte> {
    if chunks == [] then [] else Joined(chunks[..|chunks| - 1]) + chunks[|chunks| - 1]
  }

  lemma JoinedOneMore(chunks: seq<seq<byte>>, k: nat)
    requires k < |chunks|
    ensures Joined(chunks[..k + 1]) == Joined(chunks[..k]) + chunks[k]
  {
    assert chunks[..k + 1][..k] == chunks[..k];
  }

  lemma {:induction false} JoinedGrows(chunks: seq<seq<byte>>, k: nat)
    requires k <= |chunks|
    ensures |Joined(chunks[..k])| <= |Joined(chunks)|
    decreases |chunks| - k
  {
    if k < |chunks| {
      JoinedOneMore(chunks, k);
      JoinedGrows(chunks, k + 1);
    } else {
      assert chunks[..k] == chunks;
    }
  }

  predicate SendsChunk(log: seq<Entry>, i: nat, token: nat, chunks: seq<seq<byte>>, k: nat)
    requires k < |chunks| && i + 1 + k < |log|
  {
    log[i + 1 + k].request == Append(token, |Joined(chunks[..k])|, chunks[k]) && 1 <= |chunks[k]| <= 4096
  }

  predicate ChunkAcknowledged(log: seq<Entry>, i: nat, token: nat, total: nat, chunks: seq<seq<byte>>, k: nat)
    requires k < |chunks| && i + 1 + k < |log|
  {
    log[i + 1 + k].output == Output(Appended(token, |Joined(chunks[..k + 1])|, total), None)
  }

  /** Entries from `i` on begin a draft, send the chunks of a payload in order, and add it: within ten minutes of each
      other, outside shutdown, with memory, a payload that decodes and a library that takes it. */
  ghost predicate Session(log: seq<Entry>, i: nat, token: nat, payload: seq<byte>, chunks: seq<seq<byte>>) {
    var last := i + |chunks| + 1;
    && last < |log|
    && log[i].request == Begin(|payload|) && log[last].request == Add(token)
    && (forall k | 0 <= k < |chunks| :: SendsChunk(log, i, token, chunks, k))
    && (forall k | i <= k <= last :: !log[k].env.shutdown && log[k].env.allocates)
    && (forall k | i < k <= last :: log[k].env.now < log[k - 1].env.later + 600_000)
    && log[last].env.decodes && log[last].env.applies
  }

  /** After `k` chunks the draft begun by entry `i` holds exactly these. */
  ghost predicate Sent(log: seq<Entry>, i: nat, token: nat, chunks: seq<seq<byte>>, k: nat)
    requires k <= |chunks| && i + |chunks| + 1 < |log|
  {
    && Open(log, i + 1 + k, i) && log[i].output.response == Begun(token)
    && Received(log, i, i + 1 + k) == Joined(chunks[..k])
    && Deadline(log, i + 1 + k) == log[i + k].env.later + 600_000
  }

  lemma SendOneMore(log: seq<Entry>, i: nat, token: nat, payload: seq<byte>, chunks: seq<seq<byte>>, k: nat)
    requires Run(log) && Session(log, i, token, payload, chunks) && Joined(chunks) == payload
    requires |payload| <= 16_777_216 && k < |chunks| && Sent(log, i, token, chunks, k)
    ensures ChunkAcknowledged(log, i, token, |payload|, chunks, k) && Sent(log, i, token, chunks, k + 1)
  {
    JoinedOneMore(chunks, k);
    JoinedGrows(chunks, k + 1);
    assert SendsChunk(log, i, token, chunks, k);
    assert log[i + 1 + k].env.now < Deadline(log, i + 1 + k);
    assert Accepts(log, i + 1 + k, i);
    AppendAnswer(log, i + 1 + k);
    SentGrows(log, i, token, |payload|, chunks, k);
  }

  lemma SentGrows(log: seq<Entry>, i: nat, token: nat, total: nat, chunks: seq<seq<byte>>, k: nat)
    requires k < |chunks| && i + |chunks| + 1 < |log| && Sent(log, i, token, chunks, k)
    requires SendsChunk(log, i, token, chunks, k) && ChunkAcknowledged(log, i, token, total, chunks, k)
    requires log[i + 1 + k].env.now < log[i + k].env.later + 600_000
    ensures Sent(log, i, token, chunks, k + 1)
  {
    JoinedOneMore(chunks, k);
    assert LeavesOpen(log, i + 1 + k);
    assert Chunk(log[i + 1 + k]) == chunks[k];
  }

  lemma {:induction false} SendAll(log: seq<Entry>, i: nat, token: nat, payload: seq<byte>, chunks: seq<seq<byte>>,
                                   k: nat)
    requires Run(log) && Session(log, i, token, payload, chunks) && Joined(chunks) == payload
    requires |payload| <= 16_777_216 && k <= |chunks| && Sent(log, i, token, chunks, 0)
    ensures Sent(log, i, token, chunks, k)
    ensures forall j | 0 <= j < k :: ChunkAcknowledged(log, i, token, |payload|, chunks, j)
  {
    if k > 0 {
      SendAll(log, i, token, payload, chunks, k - 1);
      SendOneMore(log, i, token, payload, chunks, k - 1);
    }
  }

  lemma SessionBegins(log: seq<Entry>, i: nat, token: nat, payload: seq<byte>, chunks: seq<seq<byte>>)
    requires Run(log) && Session(log, i, token, payload, chunks) && 1 <= |payload| <= 16_777_216
    requires forall b: nat :: !Live(log, i, b)
    requires log[i].output.response.Begun? ==> log[i].output.response.token == token
    ensures log[i].output == Output(Begun(token), None) && Sent(log, i, token, chunks, 0)
  {
    BeginAnswer(log, i);
    assert chunks[..0] == [];
  }

  lemma SessionCompletes(log: seq<Entry>, i: nat, token: nat, payload: seq<byte>, chunks: seq<seq<byte>>)
    requires Run(log) && Session(log, i, token, payload, chunks) && Joined(chunks) == payload
    requires Sent(log, i, token, chunks, |chunks|)
    ensures log[i + |chunks| + 1].output == Output(Completed, Some(payload))
  {
    assert chunks[..|chunks|] == chunks;
    assert Ready(log, i + |chunks| + 1, i);
    CompletionAnswer(log, i + |chunks| + 1);
  }

  // A payload of any permitted length, sent in order in chunks of any permitted sizes while no other draft is
  // open, is acknowledged in full; adding it shows the decoder exactly that payload, and completes.
  lemma PayloadIsDelivered(log: seq<Entry>, i: nat, token: nat, payload: seq<byte>, chunks: seq<seq<byte>>)
    requires Run(log) && Session(log, i, token, payload, chunks) && Joined(chunks) == payload
    requires 1 <= |payload| <= 16_777_216
    requires forall b: nat :: !Live(log, i, b)
    requires log[i].output.response.Begun? ==> log[i].output.response.token == token
    ensures log[i].output == Output(Begun(token), None)
    ensures forall k | 0 <= k < |chunks| :: ChunkAcknowledged(log, i, token, |payload|, chunks, k)
    ensures log[i + |chunks| + 1].output == Output(Completed, Some(payload))
  {
    SessionBegins(log, i, token, payload, chunks);
    SendAll(log, i, token, payload, chunks, |chunks|);
    SessionCompletes(log, i, token, payload, chunks);
  }
}
