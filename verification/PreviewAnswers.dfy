/**
 Where previews come from and what is submitted, over every run of the message loop: a stored preview is the
 answer to its request, and a submission carries the preview stored when it was asked for.
 */
module PreviewAnswers {
  import opened PreviewRequests
  import opened Wrappers

  /** Message `j` is the successful answer to the request in flight, for the library then shown. */
  predicate Answers(r: Readers, states: seq<State>, messages: seq<Message>, j: nat)
    requires |states| == |messages| + 1 && j < |messages|
  {
    && messages[j].Completed? && messages[j].outcome.Succeeded?
    && states[j].active == Some(messages[j].task.key)
    && r.samePath(messages[j].task.key.path, r.trim(states[j].library))
  }

  // ---------------------------------------------------------------- The create form

  lemma StepKeepsPreview(r: Readers, s: State, m: Message)
    ensures var s' := Step(r, s, m);
            s'.preview.Some? && s'.preview != s.preview ==>
              && m.Completed? && m.outcome.Succeeded? && s.active == Some(m.task.key)
              && r.samePath(m.task.key.path, r.trim(s.library))
              && m.task.work == CreatePreview(s'.preview.value.request) && s'.preview.value.pages == m.outcome.pages
  {
  }

  // A stored create preview has the pages of the answer to its request, and has been stored since.
  lemma {:induction false} CreatePreviewIsAnswer(r: Readers, states: seq<State>, messages: seq<Message>, k: nat)
    returns (j: nat)
    requires Runs(r, states, messages) && k < |states| && states[k].preview.Some?
    ensures j < k && Answers(r, states, messages, j)
    ensures messages[j].task.work == CreatePreview(states[k].preview.value.request)
    ensures messages[j].outcome.pages == states[k].preview.value.pages
    ensures forall i | j < i <= k :: states[i].preview == states[k].preview
  {
    StepKeepsPreview(r, states[k - 1], messages[k - 1]);
    if states[k - 1].preview == states[k].preview {
      j := CreatePreviewIsAnswer(r, states, messages, k - 1);
    } else {
      j := k - 1;
    }
  }

  // ---------------------------------------------------------------- The editor

  predicate EditorShows(s: State, collection: nat, preview: Preview) {
    s.editor.Some? && s.editor.value.collection == collection && s.editor.value.preview == Some(preview)
  }

  lemma StepKeepsEditPreview(r: Readers, s: State, m: Message, collection: nat, preview: Preview)
    requires EditorShows(Step(r, s, m), collection, preview) && !EditorShows(s, collection, preview)
    ensures m.Completed? && m.outcome.Succeeded? && s.active == Some(m.task.key)
    ensures r.samePath(m.task.key.path, r.trim(s.library))
    ensures m.task.work == EditPreview(preview.request) && preview.pages == m.outcome.pages
    ensures s.editor.Some? && s.editor.value.collection == collection
  {
  }

  // Likewise for the editor, which has been open on the same collection since the answer came.
  lemma {:induction false} EditPreviewIsAnswer(r: Readers, states: seq<State>, messages: seq<Message>, k: nat,
                                               collection: nat, preview: Preview)
    returns (j: nat)
    requires Runs(r, states, messages) && k < |states| && EditorShows(states[k], collection, preview)
    ensures j < k && Answers(r, states, messages, j)
    ensures messages[j].task.work == EditPreview(preview.request) && messages[j].outcome.pages == preview.pages
    ensures states[j].editor.Some? && states[j].editor.value.collection == collection
    ensures forall i | j < i <= k :: EditorShows(states[i], collection, preview)
  {
    if EditorShows(states[k - 1], collection, preview) {
      j := EditPreviewIsAnswer(r, states, messages, k - 1, collection, preview);
    } else {
      j := k - 1;
      StepKeepsEditPreview(r, states[j], messages[j], collection, preview);
    }
  }

  // Conversely the answer to a preview request is what its form shows next, and nothing else of the form changes.
  lemma AnswerIsShown(r: Readers, states: seq<State>, messages: seq<Message>, j: nat)
    requires Runs(r, states, messages) && j < |messages| && Answers(r, states, messages, j)
    ensures var task, pages := messages[j].task, messages[j].outcome.pages;
            && (task.work.CreatePreview? ==>
                  states[j + 1] == states[j].(active := None, preview := Some(Preview(task.work.request, pages))))
            && (task.work.EditPreview? ==>
                  && states[j].editor.Some?
                  && states[j + 1] == states[j].(active := None, editor := Some(states[j].editor.value.(
                       preview := Some(Preview(task.work.request, pages))))))
  {
    RunsKeepInvariant(r, states, messages, j);
    var task := messages[j].task;
    var i :| 0 <= i < |states[j].started| && states[j].started[i] == task;
    assert Current(r, states[j], states[j].started[i].work);
  }

  // ---------------------------------------------------------------- What is submitted

  /** What state `s`, in which nothing is in flight, is asked for by message `m`: a preview of its form, or the
      submission of the preview stored beside it. */
  predicate Requested(r: Readers, s: State, m: Message, work: Work) {
    && s.active.None?
    && match work
       case CreatePreview(request) =>
         m.PreviewCollection? && r.RuleOf(s.form.scope) == Some(request.rule)
         && request.endpoint == r.trim(s.form.endpoint)
       case EditPreview(request) =>
         m.PreviewEdit? && m.generation.Some? && s.editor.Some?
         && r.RuleOf(s.editor.value.form.scope) == Some(request.rule)
         && request.endpoint == s.editor.value.form.endpoint
       case CreateCollection(endpoint, preview) =>
         m == Create(true) && s.preview == Some(preview) && endpoint == r.trim(s.form.endpoint)
       case SaveEdit(preview) => m == Save(true) && s.editor.Some? && s.editor.value.preview == Some(preview)
       case _ => false
  }

  predicate Submits(work: Work) {
    work.CreatePreview? || work.EditPreview? || work.CreateCollection? || work.SaveEdit?
  }

  lemma StepSubmits(r: Readers, s: State, m: Message, i: nat)
    requires |s.started| <= i < |Step(r, s, m).started| && Submits(Step(r, s, m).started[i].work)
    ensures Requested(r, s, m, Step(r, s, m).started[i].work)
    ensures Step(r, s, m).started[i].key == Key(s.nextId, s.library)
  {
  }

  // Every preview and every submission ever started was asked for, and carries what the form showed, and
  // what was stored beside it, at that moment.
  lemma {:induction false} SubmittedAsShown(r: Readers, states: seq<State>, messages: seq<Message>, k: nat, i: nat)
    returns (j: nat)
    requires Runs(r, states, messages) && k < |states| && i < |states[k].started|
    requires Submits(states[k].started[i].work)
    ensures j < k && Requested(r, states[j], messages[j], states[k].started[i].work)
    ensures states[k].started[i].key == Key(states[j].nextId, states[j].library)
  {
    if k > 0 {
      var before := states[k - 1];
      StepStartsAfter(r, before, messages[k - 1]);
      if i < |before.started| {
        assert states[k].started[i] == before.started[i];
        j := SubmittedAsShown(r, states, messages, k - 1, i);
      } else {
        j := k - 1;
        StepSubmits(r, before, messages[j], i);
      }
    }
  }

  // Whatever is asked for in this way is started at once, as the one request in flight.
  lemma RequestedIsSubmitted(r: Readers, states: seq<State>, messages: seq<Message>, j: nat, work: Work)
    requires Runs(r, states, messages) && j < |messages| && Requested(r, states[j], messages[j], work)
    ensures var key := Key(states[j].nextId, states[j].library);
            states[j + 1].active == Some(key) && states[j + 1].started == states[j].started + [Task(key, work)]
  {
    assert states[j + 1] == Step(r, states[j], messages[j]);
  }

  // ---------------------------------------------------------------- What is submitted once

  // A collection created leaves no preview and an empty name and selection; an edit saved closes the editor.
  lemma SubmissionIsSpent(r: Readers, states: seq<State>, messages: seq<Message>, j: nat)
    requires Runs(r, states, messages) && j < |messages| && Answers(r, states, messages, j)
    ensures messages[j].task.work.CreateCollection? ==>
              && states[j + 1].preview == None
              && states[j + 1].form.name == "" && states[j + 1].form.scope.selection == ""
    ensures messages[j].task.work.SaveEdit? ==> states[j + 1].editor == None
  {
    assert states[j + 1] == Step(r, states[j], messages[j]);
  }

  predicate Creates(m: Message) { m.Completed? && m.task.work.CreateCollection? }

  // A request in flight was started, and what it submits was asked for, since the last answer.
  lemma {:induction false} ActiveSince(r: Readers, states: seq<State>, messages: seq<Message>, i: nat, j: nat, n: nat)
    requires Runs(r, states, messages) && i <= j < |states| && states[i].active == None
    requires n < |states[j].started| && states[j].active == Some(states[j].started[n].key)
    ensures |states[i].started| <= n
    decreases j - i
  {
    RunsKeepInvariant(r, states, messages, j);
    if n < |states[i].started| {
      StartedStays(r, states, messages, i, j);
      assert states[i].started[n] == states[j].started[n];
      KeyStaysRetired(r, states, messages, i, j, states[i].started[n]);
    }
  }

  lemma {:induction false} StartedStays(r: Readers, states: seq<State>, messages: seq<Message>, i: nat, j: nat)
    requires Runs(r, states, messages) && i <= j < |states|
    ensures states[i].started <= states[j].started
    decreases j - i
  {
    if i < j {
      StartedStays(r, states, messages, i, j - 1);
      StepStartsAfter(r, states[j - 1], messages[j - 1]);
    }
  }

  // Between two collections created with success the preview of the second was answered: no preview is
  // submitted twice with success.
  lemma EachCreationIsPreviewed(r: Readers, states: seq<State>, messages: seq<Message>, i: nat, j: nat)
    returns (p: nat)
    requires Runs(r, states, messages) && i < j < |messages|
    requires Answers(r, states, messages, i) && Creates(messages[i])
    requires Answers(r, states, messages, j) && Creates(messages[j])
    ensures i < p < j && Answers(r, states, messages, p)
    ensures messages[p].task.work == CreatePreview(messages[j].task.work.preview.request)
    ensures messages[p].outcome.pages == messages[j].task.work.preview.pages
  {
    SubmissionIsSpent(r, states, messages, i);
    assert states[i + 1] == Step(r, states[i], messages[i]);
    var n :| 0 <= n < |states[j].started| && states[j].started[n] == messages[j].task;
    ActiveSince(r, states, messages, i + 1, j, n);
    var asked := AskedSince(r, states, messages, i + 1, j, n);
    p := CreatePreviewIsAnswer(r, states, messages, asked);
  }

  lemma {:induction false} AskedSince(r: Readers, states: seq<State>, messages: seq<Message>, i: nat, j: nat, n: nat)
    returns (asked: nat)
    requires Runs(r, states, messages) && i <= j < |states|
    requires |states[i].started| <= n < |states[j].started| && Submits(states[j].started[n].work)
    ensures i <= asked < j && Requested(r, states[asked], messages[asked], states[j].started[n].work)
    decreases j - i
  {
    StepStartsAfter(r, states[j - 1], messages[j - 1]);
    if n < |states[j - 1].started| {
      assert states[j].started[n] == states[j - 1].started[n];
      asked := AskedSince(r, states, messages, i, j - 1, n);
    } else {
      asked := j - 1;
      StepSubmits(r, states[asked], messages[asked], n);
    }
  }

  // ---------------------------------------------------------------- What the forms show

  /** The field of a form that a change is about. */
  function Shown(form: Form, field: FormField): FormField {
    match field
    case NameField(_) => NameField(form.name)
    case LanguageField(_) => LanguageField(form.language)
    case EndpointField(_) => EndpointField(form.endpoint)
    case ModeField(_) => ModeField(form.scope.mode)
    case SelectionField(_) => SelectionField(form.scope.selection)
    case DepthField(_) => DepthField(form.scope.depth)
    case RestField(i, v) => if i < |form.rest| then RestField(i, form.rest[i]) else RestField(i, v)
  }

  predicate SameField(a: FormField, b: FormField) {
    match a
    case NameField(_) => b.NameField?
    case LanguageField(_) => b.LanguageField?
    case EndpointField(_) => b.EndpointField?
    case ModeField(_) => b.ModeField?
    case SelectionField(_) => b.SelectionField?
    case DepthField(_) => b.DepthField?
    case RestField(i, _) => b.RestField? && b.index == i
  }

  /** `after` shows the value entered, and is otherwise as `before`. */
  ghost predicate Entered(before: Form, after: Form, field: FormField) {
    && Shown(after, field) == field && |after.rest| == |before.rest|
    && forall other: FormField | !SameField(other, field) :: Shown(after, other) == Shown(before, other)
  }

  // With nothing in flight a value entered is what its form shows, in the editor for the fields it offers; the
  // other form, and everything else shown, stays.
  lemma EnteredIsShown(r: Readers, states: seq<State>, messages: seq<Message>, j: nat)
    requires Runs(r, states, messages) && j < |messages| && states[j].active.None?
    ensures messages[j].Changed? ==>
              Entered(states[j].form, states[j + 1].form, messages[j].field) && states[j + 1].editor == states[j].editor
    ensures messages[j].EditChanged? && states[j].editor.Some? ==>
              && states[j + 1].editor.Some? && states[j + 1].form == states[j].form
              && if messages[j].field.LanguageField? || messages[j].field.EndpointField?
                 then states[j + 1].editor == states[j].editor
                 else Entered(states[j].editor.value.form, states[j + 1].editor.value.form, messages[j].field)
  {
    assert states[j + 1] == Step(r, states[j], messages[j]);
  }

  // With nothing in flight a collection opened for editing is shown without a preview, and closing shows none.
  lemma EditorOpensAndCloses(r: Readers, states: seq<State>, messages: seq<Message>, j: nat)
    requires Runs(r, states, messages) && j < |messages| && states[j].active.None?
    ensures messages[j].EditCollection? && messages[j].loaded.Some? ==>
              states[j + 1] == states[j].(editor := Some(messages[j].loaded.value.(preview := None)))
    ensures messages[j].CloseEditor? ==> states[j + 1] == states[j].(editor := None)
  {
    assert states[j + 1] == Step(r, states[j], messages[j]);
  }

  // Nothing else changes the create form but a collection created.
  lemma FormIsAsEntered(r: Readers, states: seq<State>, messages: seq<Message>, j: nat)
    requires Runs(r, states, messages) && j < |messages| && states[j + 1].form != states[j].form
    ensures (messages[j].Changed? && states[j].active.None?)
            || (Creates(messages[j]) && Answers(r, states, messages, j))
  {
    assert states[j + 1] == Step(r, states[j], messages[j]);
  }

  // ---------------------------------------------------------------- The setup screen

  /** Message `j` reports the latest probe, of the path then shown. */
  predicate Reports(r: Readers, states: seq<State>, messages: seq<Message>, j: nat)
    requires |states| == |messages| + 1 && j < |messages|
  {
    && messages[j].Completed? && messages[j].task.work.Probe?
    && messages[j].task.key.id == states[j].setup.latestProbe
    && r.samePath(messages[j].task.key.path, r.trim(states[j].library))
  }

  /** Message `j` completes the loading of a library, or the preparation of an edition. */
  predicate Loads(r: Readers, states: seq<State>, messages: seq<Message>, j: nat)
    requires |states| == |messages| + 1 && j < |messages|
  {
    Answers(r, states, messages, j) && (messages[j].task.work.LoadLibrary? || messages[j].task.work.PrepareEdition?)
  }

  /** What message `j` says of the path: found, not found, failed, or a library that was just loaded. */
  predicate Says(r: Readers, states: seq<State>, messages: seq<Message>, j: nat, status: PathStatus)
    requires |states| == |messages| + 1 && j < |messages|
  {
    match status
    case Checking => messages[j].StorageChosen? && messages[j].chosen.Some? && states[j].setup.shown
    case Unavailable => Reports(r, states, messages, j) && messages[j].outcome.Failed?
    case NewLibrary => Reports(r, states, messages, j) && messages[j].outcome.Succeeded? && !messages[j].outcome.found
    case ExistingLibrary =>
      || (Reports(r, states, messages, j) && messages[j].outcome.Succeeded? && messages[j].outcome.found)
      || Loads(r, states, messages, j)
  }

  lemma StatusChanges(r: Readers, states: seq<State>, messages: seq<Message>, j: nat)
    requires Runs(r, states, messages) && j < |messages|
    ensures states[j + 1].setup.status != states[j].setup.status ==>
              Says(r, states, messages, j, states[j + 1].setup.status)
  {
    assert states[j + 1] == Step(r, states[j], messages[j]);
  }

  // What the setup screen says of a path is what its latest probe found, or that a library was loaded; until the
  // first report it says that it is checking.
  lemma {:induction false} StatusIsReported(r: Readers, states: seq<State>, messages: seq<Message>, k: nat)
    returns (j: nat)
    requires Runs(r, states, messages) && k < |states| && !states[k].setup.status.Checking?
    ensures j < k && Says(r, states, messages, j, states[k].setup.status)
    ensures forall i | j < i <= k :: states[i].setup.status == states[k].setup.status
  {
    StatusChanges(r, states, messages, k - 1);
    if states[k - 1].setup.status == states[k].setup.status {
      j := StatusIsReported(r, states, messages, k - 1);
    } else {
      j := k - 1;
    }
  }

  // Every such message is shown at once; a path chosen is probed under the next identifier.
  lemma ReportIsShown(r: Readers, states: seq<State>, messages: seq<Message>, j: nat, status: PathStatus)
    requires Runs(r, states, messages) && j < |messages| && Says(r, states, messages, j, status)
    ensures states[j + 1].setup.status == status
    ensures status.Checking? ==>
              && states[j + 1].library == messages[j].chosen.value
              && states[j + 1].setup.latestProbe == states[j].nextId
              && states[j + 1].started
              == states[j].started + [Task(Key(states[j].nextId, messages[j].chosen.value), Probe)]
    ensures status.ExistingLibrary? && !messages[j].task.work.Probe? ==> !states[j + 1].setup.shown
    ensures status.ExistingLibrary? && messages[j].task.work.LoadLibrary? ==>
              states[j + 1].library == messages[j].outcome.path
  {
    assert states[j + 1] == Step(r, states[j], messages[j]);
  }

  lemma StepLoads(r: Readers, s: State, m: Message, i: nat)
    requires |s.started| <= i < |Step(r, s, m).started| && Step(r, s, m).started[i].work.LoadLibrary?
    ensures var task := Step(r, s, m).started[i];
            && s.active.None?
            && (task.work.create ==> m.CreateLibrary? && s.setup.status.NewLibrary? && s.setup.consent)
            && (!task.work.create ==> m.Refresh? || (m.OpenLibrary? && s.setup.status.ExistingLibrary?))
            && task.key.path == if m.Refresh? then s.library else r.trim(s.library)
  {
  }

  // A library is created only where the latest probe found none.
  lemma CreatedWhereNoneWasFound(r: Readers, states: seq<State>, messages: seq<Message>, k: nat, i: nat)
    returns (j: nat)
    requires Runs(r, states, messages) && k < |messages| && |states[k].started| <= i < |states[k + 1].started|
    requires states[k + 1].started[i].work == LoadLibrary(true)
    ensures j < k && Reports(r, states, messages, j)
    ensures messages[j].outcome.Succeeded? && !messages[j].outcome.found
    ensures forall n | j < n <= k :: states[n].setup.status == NewLibrary
    ensures states[k + 1].started[i].key.path == r.trim(states[k].library)
  {
    StepLoads(r, states[k], messages[k], i);
    j := StatusIsReported(r, states, messages, k);
  }

  // With nothing in flight opening, creating, refreshing and preparing start exactly the task they name.
  lemma LoadingIsStarted(r: Readers, states: seq<State>, messages: seq<Message>, j: nat)
    requires Runs(r, states, messages) && j < |messages| && states[j].active.None?
    ensures messages[j].OpenLibrary? && states[j].setup.status.ExistingLibrary? ==>
              StartsOnly(states[j], states[j + 1], r.trim(states[j].library), LoadLibrary(false))
    ensures messages[j].CreateLibrary? && states[j].setup.status.NewLibrary? && states[j].setup.consent ==>
              StartsOnly(states[j], states[j + 1], r.trim(states[j].library), LoadLibrary(true))
    ensures messages[j].Refresh? ==> StartsOnly(states[j], states[j + 1], states[j].library, LoadLibrary(false))
    ensures messages[j].StartEdition? && states[j].setup.consent ==>
              && StartsOnly(states[j], states[j + 1], messages[j].library, PrepareEdition)
              && states[j + 1].library == messages[j].library
    ensures messages[j].Run? || messages[j].OpenPurge? ==>
              StartsOnly(states[j], states[j + 1], states[j].library, PreviewRequests.Work.Other)
  {
    assert states[j + 1] == Step(r, states[j], messages[j]);
  }

  predicate StartsOnly(before: State, after: State, path: string, work: Work) {
    var key := Key(before.nextId, path);
    after.active == Some(key) && after.started == before.started + [Task(key, work)]
  }

  // A request that fails frees the application and changes nothing else.
  lemma FailureChangesNothing(r: Readers, states: seq<State>, messages: seq<Message>, j: nat)
    requires Runs(r, states, messages) && j < |messages| && messages[j].Completed? && messages[j].outcome.Failed?
    requires !messages[j].task.work.Probe? && states[j].active == Some(messages[j].task.key)
    requires r.samePath(messages[j].task.key.path, r.trim(states[j].library))
    ensures states[j + 1] == states[j].(active := None)
  {
    assert states[j + 1] == Step(r, states[j], messages[j]);
  }
}
