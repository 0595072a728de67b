/**
 The collection-draft staging protocol of the daemon as a state machine: one request, answered
 against the clock, is one `Step`. The theorems are about every sequence of requests.
 */
module DraftStaging {
  import opened Wrappers

  const MAX_DRAFT_BYTES := 16 * 1024 * 1024
  const MAX_CHUNK_BYTES := 4 * 1024
  const EXPIRY := 600_000                         // ten minutes, in milliseconds
  const LAST_TOKEN := 0xFFFF_FFFF_FFFF_FFFF       // the largest 64-bit token

  datatype Draft = Draft(token: nat, total: nat, bytes: seq<byte>, capacity: nat, expiresAt: nat)

  /** `copied` counts the bytes that growing the buffer has moved so far. */
  datatype State = State(draft: Option<Draft>, nextToken: nat, copied: nat)

  const INITIAL := State(None, 1, 0)

  datatype Request =
    | Begin(total: nat)
    | Append(token: nat, offset: nat, bytes: seq<byte>)
    | Estimate(token: nat)
    | Add(token: nat)
    | Edit(token: nat, collectionId: nat)
    | Remove(collectionId: nat)
    | Abort(token: nat)

  /** What one request meets outside the handler: the clock read on entry and again when a deadline
      is set, and whether allocation, decoding and the library operation succeed. */
  datatype Env = Env(shutdown: bool, now: nat, later: nat, allocates: bool, decodes: bool, applies: bool)

  datatype Response = Refused | Begun(token: nat) | Appended(token: nat, received: nat, total: nat)
                    | Completed | Aborted(token: nat)

  /** `decoded` is the payload the draft decoder was given while answering. */
  datatype Output = Output(response: Response, decoded: Option<seq<byte>>)

  const REFUSAL := Output(Refused, None)

  function Expire(s: State, now: nat): State {
    if s.draft.Some? && s.draft.value.expiresAt <= now then s.(draft := None) else s
  }

  predicate Holds(s: State, token: nat) { s.draft.Some? && s.draft.value.token == token }

  function TokenAfter(token: nat): nat { if token >= LAST_TOKEN then 1 else token + 1 }

  function Step(s: State, request: Request, env: Env): (State, Output) {
    if env.shutdown then (s, REFUSAL)
    else
      var s := Expire(s, env.now);
      match request
      case Begin(total) =>
        if total == 0 || total > MAX_DRAFT_BYTES || s.draft.Some? then (s, REFUSAL)
        else
          (State(Some(Draft(s.nextToken, total, [], 0, env.later + EXPIRY)), TokenAfter(s.nextToken), s.copied),
           Output(Begun(s.nextToken), None))
      case Append(token, offset, bytes) =>
        if bytes == [] || |bytes| > MAX_CHUNK_BYTES || !Holds(s, token) then (s, REFUSAL)
        else StepAppend(s, s.draft.value, offset, bytes, env)
      case Estimate(token) => StepComplete(s, token, false, env)
      case Add(token) => StepComplete(s, token, true, env)
      case Edit(token, collectionId) =>
        if collectionId == 0 then (s, REFUSAL) else StepComplete(s, token, true, env)
      case Remove(collectionId) =>
        if collectionId == 0 || !env.applies then (s, REFUSAL) else (s, Output(Completed, None))
      case Abort(token) =>
        if !Holds(s, token) then (s, REFUSAL) else (s.(draft := None), Output(Aborted(token), None))
  }

  function StepAppend(s: State, d: Draft, offset: nat, bytes: seq<byte>, env: Env): (State, Output) {
    var received := |d.bytes| + |bytes|;
    if offset != |d.bytes| || received > d.total || received > MAX_DRAFT_BYTES then (s, REFUSAL)
    else if received > d.capacity && !env.allocates then (s, REFUSAL)
    else
      var capacity := if received > d.capacity then Min(2 * received, d.total) else d.capacity;
      var copied := if received > d.capacity then s.copied + |d.bytes| else s.copied;
      (State(Some(Draft(d.token, d.total, d.bytes + bytes, capacity, env.later + EXPIRY)), s.nextToken, copied),
       Output(Appended(d.token, received, d.total), None))
  }

  function StepComplete(s: State, token: nat, consumes: bool, env: Env): (State, Output) {
    if !Holds(s, token) || |s.draft.value.bytes| != s.draft.value.total then (s, REFUSAL)
    else
      var d := s.draft.value;
      var touched := s.(draft := Some(d.(expiresAt := env.later + EXPIRY)));
      if !env.decodes || !env.applies then (touched, Output(Refused, Some(d.bytes)))
      else (if consumes then s.(draft := None) else touched, Output(Completed, Some(d.bytes)))
  }

  // ---------------------------------------------------------------- Runs

  /** One request with its circumstances and the answer it got. */
  datatype Entry = Entry(request: Request, env: Env, output: Output)

  function After(log: seq<Entry>): State {
    if log == [] then INITIAL
    else
      var last := log[|log| - 1];
      Step(After(log[..|log| - 1]), last.request, last.env).0
  }

  /** The log of a handler that started fresh: every answer is the one its state gives. */
  ghost predicate Run(log: seq<Entry>) {
    log == [] ||
      var n := |log| - 1;
      Run(log[..n]) && log[n].output == Step(After(log[..n]), log[n].request, log[n].env).1
  }

  lemma RunExtended(log: seq<Entry>, entry: Entry)
    requires Run(log) && entry.output == Step(After(log), entry.request, entry.env).1
    ensures Run(log + [entry])
    ensures After(log + [entry]) == Step(After(log), entry.request, entry.env).0
  {
    assert (log + [entry])[..|log|] == log;
  }

  lemma {:induction false} RunPrefix(log: seq<Entry>, k: nat)
    requires Run(log) && k <= |log|
    ensures Run(log[..k])
    ensures k < |log| ==> log[k].output == Step(After(log[..k]), log[k].request, log[k].env).1
    ensures k < |log| ==> After(log[..k + 1]) == Step(After(log[..k]), log[k].request, log[k].env).0
  {
    if k == |log| {
      assert log[..k] == log;
    } else {
      var n := |log| - 1;
      assert log[..k + 1][..k] == log[..k];
      if k < n {
        RunPrefix(log[..n], k);
        assert log[..n][..k] == log[..k] && log[..n][..k + 1] == log[..k + 1];
      } else {
        assert log[..k + 1] == log;
      }
    }
  }

  /** Requests that move the deadline: an opened draft, an accepted chunk or a completion attempt. */
  predicate Touches(out: Output) {
    out.response.Begun? || out.response.Appended? || out.decoded.Some?
  }

  /** How one step leads from a draft (or none) to the draft staged after it. */
  predicate Follows(before: Option<Draft>, after: Draft, e: Entry) {
    var out := e.output;
    && (Touches(out) ==> after.expiresAt == e.env.later + EXPIRY)
    && if out.response.Begun? then
         e.request == Begin(after.total) && out.response.token == after.token && after.bytes == []
       else
         && before.Some? && after.token == before.value.token && after.total == before.value.total
         && (!Touches(out) ==> after.expiresAt == before.value.expiresAt)
         && if out.response.Appended? then
              e.request.Append? && e.request.token == after.token
              && after.bytes == before.value.bytes + e.request.bytes
            else after.bytes == before.value.bytes
  }

  lemma StepFollows(s: State, e: Entry)
    requires e.output == Step(s, e.request, e.env).1
    ensures var s' := Step(s, e.request, e.env).0;
            s'.draft.Some? ==> Follows(s.draft, s'.draft.value, e)
  {
  }

  // ---------------------------------------------------------------- What the answers promise

  function Chunk(e: Entry): seq<byte> {
    if e.output.response.Appended? && e.request.Append? then e.request.bytes else []
  }

  /** The acknowledged chunks of a log, in order. */
  function Acknowledged(log: seq<Entry>): seq<byte> {
    if log == [] then [] else Acknowledged(log[..|log| - 1]) + Chunk(log[|log| - 1])
  }

  /** Entry `b` opened the draft `d` and the log has added to it only acknowledged chunks. */
  ghost predicate Opened(log: seq<Entry>, b: nat, d: Draft) {
    && b < |log|
    && log[b].request == Begin(d.total) && log[b].output.response == Begun(d.token)
    && d.bytes == Acknowledged(log[b + 1..])
    && (forall i | b < i < |log| :: !log[i].output.response.Begun?)
    && (forall i | b < i < |log| && log[i].output.response.Appended? ::
          log[i].request.Append? && log[i].request.token == d.token)
  }

  lemma OpenedExtends(log: seq<Entry>, b: nat, before: Draft, after: Draft)
    requires log != [] && Opened(log[..|log| - 1], b, before)
    requires !log[|log| - 1].output.response.Begun? && Follows(Some(before), after, log[|log| - 1])
    ensures Opened(log, b, after)
  {
    var n := |log| - 1;
    var since := log[b + 1..];
    assert since[..|since| - 1] == log[..n][b + 1..] && since[|since| - 1] == log[n];
    assert after.bytes == before.bytes + Chunk(log[n]);
    assert log[..n][b] == log[b];
  }

  // In every run the staged bytes are the in-order concatenation of the chunks acknowledged since
  // the draft was opened, all of them under its token.
  lemma {:induction false} StagedBytesAreAcknowledged(log: seq<Entry>) returns (b: nat)
    requires Run(log)
    ensures After(log).draft.Some? ==> Opened(log, b, After(log).draft.value)
  {
    b := 0;
    if After(log).draft.Some? {
      var n := |log| - 1;
      StepFollows(After(log[..n]), log[n]);
      if log[n].output.response.Begun? {
        b := n;
      } else {
        b := StagedBytesAreAcknowledged(log[..n]);
        OpenedExtends(log, b, After(log[..n]).draft.value, After(log).draft.value);
      }
    }
  }

  // The decoder is shown a payload only when it is complete, and then exactly what was acknowledged.
  lemma DecoderSeesCompleteDrafts(log: seq<Entry>, i: nat) returns (b: nat)
    requires Run(log) && i < |log| && log[i].output.decoded.Some?
    ensures b < i && log[b].request.Begin? && log[b].output.response.Begun?
    ensures log[i].output.decoded == Some(Acknowledged(log[b + 1..i]))
    ensures |Acknowledged(log[b + 1..i])| == log[b].request.total
    ensures forall j | b < j < i :: !log[j].output.response.Begun?
  {
    RunPrefix(log, i);
    StepDecodes(After(log[..i]), log[i].request, log[i].env);
    b := StagedBytesAreAcknowledged(log[..i]);
    assert log[..i][b + 1..] == log[b + 1..i];
    assert log[..i][b] == log[b];
  }

  lemma StepDecodes(s: State, request: Request, env: Env)
    requires Step(s, request, env).1.decoded.Some?
    ensures s.draft.Some? && Step(s, request, env).1.decoded == Some(s.draft.value.bytes)
    ensures |s.draft.value.bytes| == s.draft.value.total
  {
  }

  /** Same draft with the same content; only the deadline may differ. */
  predicate SameContent(a: Option<Draft>, b: Option<Draft>) {
    match (a, b)
    case (None, None) => true
    case (Some(x), Some(y)) => x.(expiresAt := 0) == y.(expiresAt := 0)
    case _ => false
  }

  // A refused request changes no staged byte, token, total or capacity; it can only drop a draft
  // whose deadline had already passed.
  lemma RefusalChangesNothing(s: State, request: Request, env: Env)
    requires Step(s, request, env).1.response == Refused
    ensures var s' := Step(s, request, env).0;
            && s'.nextToken == s.nextToken && s'.copied == s.copied
            && (SameContent(s'.draft, s.draft)
                || (s'.draft.None? && s.draft.Some? && s.draft.value.expiresAt <= env.now && !env.shutdown))
  {
  }

  // ---------------------------------------------------------------- Tokens

  /** How many drafts the log has opened. */
  function Grants(log: seq<Entry>): nat {
    if log == [] then 0
    else Grants(log[..|log| - 1]) + if log[|log| - 1].output.response.Begun? then 1 else 0
  }

  lemma StepGrants(s: State, request: Request, env: Env)
    ensures var (s', out) := Step(s, request, env);
            && s'.nextToken == (if out.response.Begun? then TokenAfter(s.nextToken) else s.nextToken)
            && (out.response.Begun? ==> out.response.token == s.nextToken)
  {
  }

  /** The token after `n` drafts have been opened. */
  function TokenFor(n: nat): nat {
    if n == 0 then 1 else TokenAfter(TokenFor(n - 1))
  }

  lemma {:induction false} TokenForCount(n: nat)
    ensures TokenFor(n) == 1 + n % LAST_TOKEN
  {
    if n > 0 {
      TokenForCount(n - 1);
      NextRemainder(n - 1);
    }
  }

  lemma {:induction false} NextTokenIsFor(log: seq<Entry>)
    requires Run(log)
    ensures After(log).nextToken == TokenFor(Grants(log))
  {
    if log != [] {
      var n := |log| - 1;
      NextTokenIsFor(log[..n]);
      StepGrants(After(log[..n]), log[n].request, log[n].env);
    }
  }

  lemma NextTokenCountsGrants(log: seq<Entry>)
    requires Run(log)
    ensures After(log).nextToken == 1 + Grants(log) % LAST_TOKEN
  {
    NextTokenIsFor(log);
    TokenForCount(Grants(log));
  }

  lemma NextRemainder(k: nat)
    ensures (k + 1) % LAST_TOKEN == if k % LAST_TOKEN == LAST_TOKEN - 1 then 0 else k % LAST_TOKEN + 1
  {
    var q, r := k / LAST_TOKEN, k % LAST_TOKEN;
    assert k + 1 == LAST_TOKEN * q + (r + 1);
    if r == LAST_TOKEN - 1 {
      assert k + 1 == LAST_TOKEN * (q + 1);
    }
  }

  // Tokens are never zero, and the token of each grant is fixed by how many came before it.
  lemma TokenOfGrant(log: seq<Entry>, i: nat)
    requires Run(log) && i < |log| && log[i].output.response.Begun?
    ensures log[i].output.response.token == 1 + Grants(log[..i]) % LAST_TOKEN
    ensures 1 <= log[i].output.response.token <= LAST_TOKEN
  {
    RunPrefix(log, i);
    NextTokenCountsGrants(log[..i]);
    StepGrants(After(log[..i]), log[i].request, log[i].env);
  }

  lemma {:induction false} GrantsGrow(log: seq<Entry>, i: nat, j: nat)
    requires i <= j <= |log|
    ensures Grants(log[..i]) <= Grants(log[..j])
    ensures i < j && log[i].output.response.Begun? ==> Grants(log[..i]) < Grants(log[..j])
    decreases j - i
  {
    if i < j {
      GrantsGrow(log, i, j - 1);
      assert log[..j][..j - 1] == log[..j - 1];
    }
  }

  // Two grants share a token only when the counter has wrapped between them.
  lemma TokensAreDistinct(log: seq<Entry>, i: nat, j: nat)
    requires Run(log) && i < j < |log|
    requires log[i].output.response.Begun? && log[j].output.response.Begun?
    requires log[i].output.response.token == log[j].output.response.token
    ensures Grants(log[..j]) - Grants(log[..i]) >= LAST_TOKEN
  {
    TokenOfGrant(log, i);
    TokenOfGrant(log, j);
    GrantsGrow(log, i, j);
    SameRemainder(Grants(log[..i]), Grants(log[..j]));
  }

  lemma SameRemainder(a: nat, b: nat)
    requires a < b && a % LAST_TOKEN == b % LAST_TOKEN
    ensures b - a >= LAST_TOKEN
  {
  }

  // ---------------------------------------------------------------- Replays

  lemma {:induction false} StagedTokenIsLatest(log: seq<Entry>)
    requires Run(log) && After(log).draft.Some?
    ensures Grants(log) > 0
    ensures After(log).draft.value.token == TokenFor(Grants(log) - 1)
  {
    var n := |log| - 1;
    StepFollows(After(log[..n]), log[n]);
    if log[n].output.response.Begun? {
      NextTokenIsFor(log[..n]);
      StepGrants(After(log[..n]), log[n].request, log[n].env);
    } else {
      StagedTokenIsLatest(log[..n]);
    }
  }

  // While no draft is opened in between, the staged bytes only grow.
  lemma {:induction false} BytesOnlyGrow(log: seq<Entry>, i: nat, j: nat)
    requires Run(log) && i <= j <= |log| && Grants(log[..i]) == Grants(log[..j])
    requires After(log[..j]).draft.Some?
    ensures After(log[..i]).draft.Some?
    ensures |After(log[..i]).draft.value.bytes| <= |After(log[..j]).draft.value.bytes|
    decreases j - i
  {
    if i < j {
      GrantsGrow(log, i, j - 1);
      GrantsGrow(log, j - 1, j);
      RunPrefix(log, j - 1);
      StepFollows(After(log[..j - 1]), log[j - 1]);
      BytesOnlyGrow(log, i, j - 1);
    }
  }

  lemma EqualWithinOneCycle(a: nat, b: nat)
    requires a <= b && b - a < LAST_TOKEN && TokenFor(a) == TokenFor(b)
    ensures a == b
  {
    if a < b {
      TokenForCount(a);
      TokenForCount(b);
      SameRemainder(a, b);
    }
  }

  lemma TokenAt(log: seq<Entry>, i: nat)
    requires Run(log) && i <= |log| && After(log[..i]).draft.Some?
    ensures Grants(log[..i]) > 0 && After(log[..i]).draft.value.token == TokenFor(Grants(log[..i]) - 1)
  {
    RunPrefix(log, i);
    StagedTokenIsLatest(log[..i]);
  }

  // Equal tokens within one cycle of the counter belong to one grant.
  lemma SameGrants(log: seq<Entry>, i: nat, j: nat)
    requires Run(log) && i <= j <= |log|
    requires After(log[..i]).draft.Some? && After(log[..j]).draft.Some?
    requires After(log[..i]).draft.value.token == After(log[..j]).draft.value.token
    requires Grants(log[..j]) - Grants(log[..i]) < LAST_TOKEN
    ensures Grants(log[..i]) == Grants(log[..j])
  {
    TokenAt(log, i);
    TokenAt(log, j);
    GrantsGrow(log, i, j);
    EqualWithinOneCycle(Grants(log[..i]) - 1, Grants(log[..j]) - 1);
  }

  lemma StepAppended(s: State, request: Request, env: Env)
    requires request.Append? && Step(s, request, env).1.response != Refused
    ensures var s' := Step(s, request, env).0;
            && s.draft.Some? && s.draft.value.token == request.token && |s.draft.value.bytes| == request.offset
            && s'.draft.Some? && s'.draft.value.token == request.token && |s'.draft.value.bytes| > request.offset
  {
  }

  // Sending an acknowledged chunk again is refused for as long as the counter has not wrapped.
  lemma ReplayIsRefused(log: seq<Entry>, i: nat, j: nat)
    requires Run(log) && i < j < |log| && log[j].request == log[i].request && log[i].request.Append?
    requires log[i].output.response.Appended?
    requires Grants(log[..j]) - Grants(log[..i + 1]) < LAST_TOKEN
    ensures log[j].output.response == Refused
  {
    RunPrefix(log, i);
    RunPrefix(log, j);
    if log[j].output.response != Refused {
      StepAppended(After(log[..i]), log[i].request, log[i].env);
      StepAppended(After(log[..j]), log[j].request, log[j].env);
      SameGrants(log, i + 1, j);
      BytesOnlyGrow(log, i + 1, j);
    }
  }

  // ---------------------------------------------------------------- Cost of growing the buffer

  predicate WithinCapacity(d: Draft) {
    && 0 < d.total <= MAX_DRAFT_BYTES
    && |d.bytes| <= d.capacity <= Min(d.total, 2 * |d.bytes|)
  }

  // A buffer below its declared total was sized at twice its content when it last grew, and that
  // capacity pays for the next copy.
  predicate Paid(s: State, received: nat) {
    match s.draft
    case None => s.copied == 0 || s.copied < 2 * received
    case Some(d) =>
      && WithinCapacity(d) && |d.bytes| <= received
      && (s.copied == 0 ||
          s.copied < 2 * (received - |d.bytes|) + if d.capacity < d.total then d.capacity else 2 * |d.bytes|)
  }

  lemma AppendPays(s: State, d: Draft, offset: nat, bytes: seq<byte>, env: Env, received: nat)
    requires Paid(s, received) && s.draft == Some(d) && bytes != []
    ensures var (s', out) := StepAppend(s, d, offset, bytes, env);
            Paid(s', received + if out.response.Appended? then |bytes| else 0)
  {
  }

  lemma StepPays(s: State, e: Entry, received: nat)
    requires Paid(s, received) && e.output == Step(s, e.request, e.env).1
    ensures Paid(Step(s, e.request, e.env).0, received + |Chunk(e)|)
  {
    if !e.env.shutdown {
      var live := Expire(s, e.env.now);
      if e.request.Append? && e.request.bytes != [] && Holds(live, e.request.token) {
        AppendPays(live, live.draft.value, e.request.offset, e.request.bytes, e.env, received);
      } else if !e.request.Begin? {
        QuietStep(s, e.request, e.env);
      }
    }
  }

  lemma QuietStep(s: State, request: Request, env: Env)
    requires !request.Begin?
    requires request.Append? ==> request.bytes == [] || !Holds(Expire(s, env.now), request.token)
    ensures var (s', out) := Step(s, request, env);
            && s'.copied == s.copied && !out.response.Appended?
            && (s'.draft.None? || SameContent(s'.draft, s.draft))
  {
  }

  // Capacity never exceeds the declared total or twice the bytes received, and all regrowth of a
  // run together copies less than twice the bytes it acknowledged.
  lemma {:induction false} GrowthIsAmortised(log: seq<Entry>)
    requires Run(log)
    ensures Paid(After(log), |Acknowledged(log)|)
    ensures After(log).draft.Some? ==> WithinCapacity(After(log).draft.value)
    ensures After(log).copied == 0 || After(log).copied < 2 * |Acknowledged(log)|
  {
    if log != [] {
      var n := |log| - 1;
      GrowthIsAmortised(log[..n]);
      StepPays(After(log[..n]), log[n], |Acknowledged(log[..n])|);
    }
  }

  // ---------------------------------------------------------------- Sliding expiry

  // The deadline of a staged draft is always ten minutes after the latest request that moved it.
  lemma {:induction false} DeadlineSlides(log: seq<Entry>) returns (t: nat)
    requires Run(log) && After(log).draft.Some?
    ensures t < |log| && Touches(log[t].output)
    ensures After(log).draft.value.expiresAt == log[t].env.later + EXPIRY
    ensures forall i | t < i < |log| :: !Touches(log[i].output)
  {
    var n := |log| - 1;
    StepFollows(After(log[..n]), log[n]);
    if Touches(log[n].output) {
      t := n;
    } else {
      t := DeadlineSlides(log[..n]);
    }
  }

  predicate NeedsDraft(request: Request) { !request.Begin? && !request.Remove? }

  // Ten minutes after the last request that moved its deadline a draft is gone: every request that needs
  // one is refused without being decoded, and a new draft of any permitted size opens.
  lemma ExpiredDraftIsGone(log: seq<Entry>, i: nat) returns (t: nat)
    requires Run(log) && i < |log| && After(log[..i]).draft.Some? && !log[i].env.shutdown
    ensures t < i && Touches(log[t].output) && forall k | t < k < i :: !Touches(log[k].output)
    ensures var request, output := log[i].request, log[i].output;
            var expired := log[i].env.now >= log[t].env.later + EXPIRY;
            && (expired && NeedsDraft(request) ==> output == REFUSAL && After(log[..i + 1]).draft == None)
            && (expired && request.Begin? && 0 < request.total <= MAX_DRAFT_BYTES ==> output.response.Begun?)
            && (!expired && request.Begin? ==> output == REFUSAL)
  {
    RunPrefix(log, i);
    t := DeadlineSlides(log[..i]);
    StepAtDeadline(After(log[..i]), log[i].request, log[i].env);
  }

  lemma StepAtDeadline(s: State, request: Request, env: Env)
    requires s.draft.Some? && !env.shutdown
    ensures s.draft.value.expiresAt <= env.now && NeedsDraft(request) ==>
              Step(s, request, env) == (s.(draft := None), REFUSAL)
    ensures s.draft.value.expiresAt <= env.now && request.Begin? && 0 < request.total <= MAX_DRAFT_BYTES ==>
              Step(s, request, env).1.response.Begun?
    ensures s.draft.value.expiresAt > env.now && request.Begin? ==> Step(s, request, env).1 == REFUSAL
  {
  }

  // ---------------------------------------------------------------- How drafts end

  /** The staged draft was dropped while answering, whether or not a new one was opened. */
  predicate Ends(e: Entry, after: Option<Draft>) { after.None? || e.output.response.Begun? }

  predicate NamesToken(request: Request, token: nat) {
    (request.Abort? || request.Add? || request.Edit?) && request.token == token
  }

  // A staged draft ends exactly when its deadline has passed, when its own token aborts it, or when
  // adding or editing under its own token succeeds; nobody else's request can end it.
  lemma DraftEndsOnPurpose(log: seq<Entry>, i: nat)
    requires Run(log) && i < |log| && After(log[..i]).draft.Some?
    ensures var d := After(log[..i]).draft.value;
            Ends(log[i], After(log[..i + 1]).draft) <==>
            && !log[i].env.shutdown
            && (d.expiresAt <= log[i].env.now
                || (NamesToken(log[i].request, d.token)
                    && (log[i].request.Abort? || log[i].output.response == Completed)))
  {
    RunPrefix(log, i);
    StepEnds(After(log[..i]), log[i]);
  }

  lemma StepEnds(s: State, e: Entry)
    requires s.draft.Some? && e.output == Step(s, e.request, e.env).1
    ensures Ends(e, Step(s, e.request, e.env).0.draft) <==>
            && !e.env.shutdown
            && (s.draft.value.expiresAt <= e.env.now
                || (NamesToken(e.request, s.draft.value.token)
                    && (e.request.Abort? || e.output.response == Completed)))
  {
  }
}
