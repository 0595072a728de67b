/**
 Request correlation and preview freshness in the desktop application's message loop. `Step` is the
 effect of one message on the fields concerned; `DesktopApp.App` updates those fields in place.
 */
module PreviewRequests {
  import opened Wrappers

  // ---------------------------------------------------------------- The forms

  datatype Mode = Titles | TitleList | Category

  datatype Scope = Scope(mode: Mode, selection: string, depth: string)

  /** `rest` holds the form fields that take no part in a preview: history, budget, images, schedule. */
  datatype Form = Form(name: string, language: string, endpoint: string, scope: Scope, rest: seq<string>)

  datatype Rule = ExplicitTitles(titles: seq<string>) | ListedTitles(titles: seq<string>)
                | CategoryPages(title: string, levels: nat)

  const MAX_CATEGORY_DEPTH := 16

  /** What the loop relies on but does not define: the text readers of other crates, trimming, and
      whether a request's path is the library path now shown. */
  datatype Readers = Readers(titleList: string -> Option<seq<string>>, pageTitle: string -> Option<string>,
                             integer: string -> Option<nat>, trim: string -> string,
                             samePath: (string, string) -> bool)
  {
    /** The rule that a scope spells, if it is well formed. */
    function RuleOf(scope: Scope): Option<Rule> {
      match scope.mode
      case Titles =>
        var titles := titleList(scope.selection);
        if titles.None? then None else Some(ExplicitTitles(titles.value))
      case TitleList =>
        var titles := titleList(scope.selection);
        if titles.None? then None else Some(ListedTitles(titles.value))
      case Category =>
        var title := pageTitle(scope.selection);
        var depth := integer(trim(scope.depth));
        if title.None? || depth.None? || depth.value > MAX_CATEGORY_DEPTH then None
        else Some(CategoryPages(title.value, depth.value))
    }
  }

  // ---------------------------------------------------------------- State

  datatype PreviewRequest = PreviewRequest(endpoint: string, rule: Rule)

  /** A preview as a request was answered: `pages` is whatever the endpoint resolved. */
  datatype Preview = Preview(request: PreviewRequest, pages: seq<string>)

  datatype Editor = Editor(collection: nat, generation: nat, form: Form, preview: Option<Preview>)

  datatype Key = Key(id: nat, path: string)

  datatype Work = CreatePreview(request: PreviewRequest) | EditPreview(request: PreviewRequest)
                | CreateCollection(endpoint: string, preview: Preview) | SaveEdit(preview: Preview)
                | LoadLibrary(create: bool) | PrepareEdition | Probe | Other

  /** A background task that was started under a key; its completion carries the same key. */
  datatype Task = Task(key: Key, work: Work)

  /** What a probe has found at the library path. */
  datatype PathStatus = Checking | ExistingLibrary | NewLibrary | Unavailable

  /** The setup screen: whether it is shown, the consent given there, and the path it has probed. */
  datatype Setup = Setup(shown: bool, consent: bool, latestProbe: nat, status: PathStatus)

  datatype State = State(library: string, setup: Setup, active: Option<Key>, nextId: nat, form: Form,
                         preview: Option<Preview>, editor: Option<Editor>, started: seq<Task>)

  // ---------------------------------------------------------------- Messages

  datatype FormField = NameField(string) | LanguageField(string) | EndpointField(string) | ModeField(mode: Mode)
                     | SelectionField(string) | DepthField(string) | RestField(index: nat, string)

  /** How a task ended; a successful one reports a library path, pages, or whether a library was found. */
  datatype Outcome = Failed | Succeeded(path: string, pages: seq<string>, found: bool)

  /** `Run` is any request not listed here, once its own guards have let it through. */
  datatype Message =
    | Consent(given: bool)
    | Changed(field: FormField)
    | PreviewCollection
    | Create(policiesParse: bool)
    | EditCollection(loaded: Option<Editor>)
    | EditChanged(field: FormField)
    | PreviewEdit(generation: Option<nat>)
    | Save(policiesParse: bool)
    | CloseEditor
    | OpenPurge
    | OpenLibrary
    | CreateLibrary
    | Refresh
    | ChooseAnotherLibrary
    | StorageChosen(chosen: Option<string>)
    | StartEdition(library: string)
    | Run
    | Completed(task: Task, outcome: Outcome)

  function Apply(form: Form, field: FormField): Form {
    match field
    case NameField(v) => form.(name := v)
    case LanguageField(v) => form.(language := v)
    case EndpointField(v) => form.(endpoint := v)
    case ModeField(v) => form.(scope := form.scope.(mode := v))
    case SelectionField(v) => form.(scope := form.scope.(selection := v))
    case DepthField(v) => form.(scope := form.scope.(depth := v))
    case RestField(i, v) => if i < |form.rest| then form.(rest := form.rest[i := v]) else form
  }

  /** The create form's fields whose change discards its preview. */
  predicate Discards(field: FormField) { !field.RestField? }

  /** The editor's fields whose change discards its preview. */
  predicate DiscardsEdit(field: FormField) { field.ModeField? || field.SelectionField? || field.DepthField? }

  /** The editor offers every field but the language and the endpoint. */
  predicate Editable(field: FormField) { !field.LanguageField? && !field.EndpointField? }

  // ---------------------------------------------------------------- One message

  function Issued(s: State, path: string, work: Work): State {
    s.(nextId := s.nextId + 1, started := s.started + [Task(Key(s.nextId, path), work)])
  }

  function Begun(s: State, path: string, work: Work): State {
    Issued(s, path, work).(active := Some(Key(s.nextId, path)))
  }

  function Step(r: Readers, s: State, m: Message): State {
    match m
    case Completed(task, outcome) => Complete(r, s, task, outcome)
    case StorageChosen(chosen) => if chosen.Some? && s.setup.shown then Choose(s, chosen.value) else s
    case Consent(given) => s.(setup := s.setup.(consent := given))
    case _ => if s.active.Some? then s else StepIdle(r, s, m)
  }

  /** A library path chosen on the setup screen is shown and probed, even while a request is in flight. */
  function Choose(s: State, chosen: string): State {
    Issued(s.(library := chosen, setup := s.setup.(latestProbe := s.nextId, status := Checking)), chosen, Probe)
  }

  function StepIdle(r: Readers, s: State, m: Message): State {
    match m
    case Changed(field) => s.(form := Apply(s.form, field), preview := if Discards(field) then None else s.preview)
    case PreviewCollection =>
      var rule := r.RuleOf(s.form.scope);
      if rule.None? then s
      else Begun(s, s.library, CreatePreview(PreviewRequest(r.trim(s.form.endpoint), rule.value)))
    case Create(policiesParse) =>
      if s.preview.None? || !policiesParse then s
      else Begun(s, s.library, CreateCollection(r.trim(s.form.endpoint), s.preview.value))
    case EditCollection(loaded) => if loaded.None? then s else s.(editor := Some(loaded.value.(preview := None)))
    case EditChanged(field) => s.(editor := EditorAfter(s.editor, field))
    case PreviewEdit(generation) => BeginEditPreview(r, s, generation)
    case Save(policiesParse) =>
      if s.editor.None? || s.editor.value.preview.None? || !policiesParse then s
      else Begun(s, s.library, SaveEdit(s.editor.value.preview.value))
    case CloseEditor => s.(editor := None)
    case OpenPurge => Begun(s.(editor := None), s.library, Other)
    case OpenLibrary =>
      if s.setup.status.ExistingLibrary? then Begun(s, r.trim(s.library), LoadLibrary(false)) else s
    case CreateLibrary =>
      if s.setup.status.NewLibrary? && s.setup.consent then Begun(s, r.trim(s.library), LoadLibrary(true)) else s
    case Refresh => Begun(s, s.library, LoadLibrary(false))
    case ChooseAnotherLibrary => s.(setup := s.setup.(shown := true))
    case StartEdition(library) =>
      if s.setup.consent then Begun(s.(library := library), library, PrepareEdition) else s
    case Run => Begun(s, s.library, Other)
    case _ => s
  }

  function EditorAfter(editor: Option<Editor>, field: FormField): Option<Editor> {
    if editor.None? || !Editable(field) then editor
    else Some(editor.value.(form := Apply(editor.value.form, field),
                            preview := if DiscardsEdit(field) then None else editor.value.preview))
  }

  /** The editor previews its own endpoint, untrimmed, and notes the generation it was based on. */
  function BeginEditPreview(r: Readers, s: State, generation: Option<nat>): State {
    if s.editor.None? then s
    else
      var editor := s.editor.value;
      var rule := r.RuleOf(editor.form.scope);
      if rule.None? || generation.None? then s
      else Begun(s.(editor := Some(editor.(generation := generation.value))), s.library,
                 EditPreview(PreviewRequest(editor.form.endpoint, rule.value)))
  }

  predicate Finishes(r: Readers, s: State, key: Key) {
    s.active == Some(key) && r.samePath(key.path, r.trim(s.library))
  }

  function Complete(r: Readers, s: State, task: Task, outcome: Outcome): State {
    if task.work.Probe? then Probed(r, s, task.key, outcome)
    else if !Finishes(r, s, task.key) then s
    else if outcome.Failed? then s.(active := None)
    else Succeed(s.(active := None), task, outcome)
  }

  /** Only the latest probe, of the path still shown, is believed. */
  function Probed(r: Readers, s: State, key: Key, outcome: Outcome): State {
    if key.id != s.setup.latestProbe || !r.samePath(key.path, r.trim(s.library)) then s
    else
      var status := if outcome.Failed? then Unavailable else if outcome.found then ExistingLibrary else NewLibrary;
      s.(setup := s.setup.(status := status))
  }

  function Loaded(setup: Setup): Setup { setup.(shown := false, status := ExistingLibrary) }

  function Succeed(s: State, task: Task, outcome: Outcome): State
    requires outcome.Succeeded?
  {
    match task.work
    case CreatePreview(request) => s.(preview := Some(Preview(request, outcome.pages)))
    case EditPreview(request) =>
      if s.editor.None? then s
      else s.(editor := Some(s.editor.value.(preview := Some(Preview(request, outcome.pages)))))
    case CreateCollection(_, _) =>
      s.(form := s.form.(name := "", scope := s.form.scope.(selection := "")), preview := None)
    case SaveEdit(_) => s.(editor := None)
    case LoadLibrary(_) => s.(library := outcome.path, setup := Loaded(s.setup))
    case PrepareEdition => Begun(s.(setup := Loaded(s.setup)), task.key.path, Other)
    case _ => s
  }

  // ---------------------------------------------------------------- Runs

  /** The application as it starts: one path probe has taken the first identifier. */
  ghost predicate Initial(s: State) {
    && s.active.None? && s.preview.None? && s.editor.None?
    && s.setup == Setup(true, false, 1, Checking)
    && s.nextId == 2 && s.started == [Task(Key(1, s.library), Probe)]
  }

  /** Only started tasks complete; a completion may come late, or more than once. */
  predicate Deliverable(s: State, m: Message) { m.Completed? ==> m.task in s.started }

  /** The application receives each message in the state that the previous one left. */
  ghost predicate Runs(r: Readers, states: seq<State>, messages: seq<Message>) {
    && |states| == |messages| + 1 && Initial(states[0])
    && forall k {:trigger messages[k]} | 0 <= k < |messages| ::
         Deliverable(states[k], messages[k]) && states[k + 1] == Step(r, states[k], messages[k])
  }

  lemma RunsExtended(r: Readers, states: seq<State>, messages: seq<Message>, m: Message)
    requires Runs(r, states, messages) && Deliverable(states[|messages|], m)
    ensures Runs(r, states + [Step(r, states[|messages|], m)], messages + [m])
  {
  }

  // ---------------------------------------------------------------- What every state keeps

  /** The request asked for exactly what the form now says. */
  predicate Asks(r: Readers, form: Form, endpoint: string, request: PreviewRequest) {
    request.endpoint == endpoint && r.RuleOf(form.scope) == Some(request.rule)
  }

  predicate AsksCreate(r: Readers, s: State, request: PreviewRequest) {
    Asks(r, s.form, r.trim(s.form.endpoint), request)
  }

  predicate AsksEdit(r: Readers, s: State, request: PreviewRequest) {
    s.editor.Some? && Asks(r, s.editor.value.form, s.editor.value.form.endpoint, request)
  }

  /** Every stored preview answers the form beside it. */
  predicate Fresh(r: Readers, s: State) {
    && (s.preview.Some? ==> AsksCreate(r, s, s.preview.value.request))
    && (s.editor.Some? && s.editor.value.preview.Some? ==> AsksEdit(r, s, s.editor.value.preview.value.request))
  }

  /** Identifiers are issued once, in increasing order, and the active one was issued. */
  ghost predicate Numbered(s: State) {
    && (forall i | 0 <= i < |s.started| :: s.started[i].key.id < s.nextId)
    && (forall i, j | 0 <= i < j < |s.started| :: s.started[i].key.id < s.started[j].key.id)
    && (s.active.Some? ==> s.active.value.id < s.nextId)
  }

  /** What may be said of a task while it is the active one. */
  predicate Current(r: Readers, s: State, work: Work) {
    match work
    case CreatePreview(request) => AsksCreate(r, s, request)
    case EditPreview(request) => AsksEdit(r, s, request)
    case _ => true
  }

  /** A preview in flight asks for what its form says. */
  ghost predicate InFlight(r: Readers, s: State) {
    forall i | 0 <= i < |s.started| && s.active == Some(s.started[i].key) :: Current(r, s, s.started[i].work)
  }

  /** Whatever was submitted for creation had been previewed at the endpoint submitted with it. */
  predicate Submittable(work: Work) { work.CreateCollection? ==> work.preview.request.endpoint == work.endpoint }

  ghost predicate Invariant(r: Readers, s: State) {
    && Fresh(r, s) && Numbered(s) && InFlight(r, s)
    && forall i | 0 <= i < |s.started| :: Submittable(s.started[i].work)
  }

  lemma BegunKeepsInvariant(r: Readers, s: State, path: string, work: Work)
    requires Invariant(r, s) && s.active.None? && Current(r, s, work) && Submittable(work)
    ensures Invariant(r, Begun(s, path, work))
  {
    var s' := Begun(s, path, work);
    forall i | 0 <= i < |s'.started| && s'.active == Some(s'.started[i].key)
      ensures Current(r, s', s'.started[i].work)
    {
    }
  }

  lemma EditPreviewKeepsInvariant(r: Readers, s: State, generation: Option<nat>)
    requires Invariant(r, s) && s.active.None?
    ensures Invariant(r, BeginEditPreview(r, s, generation))
  {
    if s.editor.Some? {
      var editor := s.editor.value;
      var rule := r.RuleOf(editor.form.scope);
      if rule.Some? && generation.Some? {
        var noted := s.(editor := Some(editor.(generation := generation.value)));
        assert Fresh(r, noted);
        assert Invariant(r, noted);
        BegunKeepsInvariant(r, noted, s.library, EditPreview(PreviewRequest(editor.form.endpoint, rule.value)));
      }
    }
  }

  lemma ClosingKeepsInvariant(r: Readers, s: State)
    requires Invariant(r, s) && s.active.None?
    ensures Invariant(r, s.(editor := None))
  {
  }

  lemma MovingKeepsInvariant(r: Readers, s: State, library: string, setup: Setup)
    requires Invariant(r, s)
    ensures Invariant(r, s.(library := library, setup := setup))
  {
  }

  /** Messages that start a request when nothing stands in the way. */
  predicate Begins(m: Message) {
    m.PreviewCollection? || m.Create? || m.PreviewEdit? || m.Save? || m.OpenPurge? || m.OpenLibrary?
    || m.CreateLibrary? || m.Refresh? || m.StartEdition? || m.Run?
  }

  lemma SubmissionKeepsInvariant(r: Readers, s: State, m: Message)
    requires Invariant(r, s) && s.active.None? && (m.PreviewCollection? || m.Create? || m.PreviewEdit? || m.Save?)
    ensures Invariant(r, StepIdle(r, s, m))
  {
    match m
    case PreviewCollection =>
      var rule := r.RuleOf(s.form.scope);
      if rule.Some? {
        BegunKeepsInvariant(r, s, s.library, CreatePreview(PreviewRequest(r.trim(s.form.endpoint), rule.value)));
      }
    case Create(_) =>
      if s.preview.Some? {
        BegunKeepsInvariant(r, s, s.library, CreateCollection(r.trim(s.form.endpoint), s.preview.value));
      }
    case PreviewEdit(generation) => EditPreviewKeepsInvariant(r, s, generation);
    case Save(_) =>
      if s.editor.Some? && s.editor.value.preview.Some? {
        BegunKeepsInvariant(r, s, s.library, SaveEdit(s.editor.value.preview.value));
      }
  }

  lemma OpeningKeepsInvariant(r: Readers, s: State, m: Message)
    requires Invariant(r, s) && s.active.None?
    requires m.OpenPurge? || m.OpenLibrary? || m.CreateLibrary? || m.Refresh? || m.StartEdition? || m.Run?
    ensures Invariant(r, StepIdle(r, s, m))
  {
    match m
    case OpenPurge =>
      ClosingKeepsInvariant(r, s);
      BegunKeepsInvariant(r, s.(editor := None), s.library, Other);
    case StartEdition(library) => EditionKeepsInvariant(r, s, library);
    case Run => BegunKeepsInvariant(r, s, s.library, Other);
    case _ => LoadingKeepsInvariant(r, s, m);
  }

  lemma LoadingKeepsInvariant(r: Readers, s: State, m: Message)
    requires Invariant(r, s) && s.active.None? && (m.OpenLibrary? || m.CreateLibrary? || m.Refresh?)
    ensures Invariant(r, StepIdle(r, s, m))
  {
    BegunKeepsInvariant(r, s, if m.Refresh? then s.library else r.trim(s.library), LoadLibrary(m.CreateLibrary?));
  }

  lemma EditionKeepsInvariant(r: Readers, s: State, library: string)
    requires Invariant(r, s) && s.active.None?
    ensures Invariant(r, StepIdle(r, s, StartEdition(library)))
  {
    MovingKeepsInvariant(r, s, library, s.setup);
    BegunKeepsInvariant(r, s.(library := library, setup := s.setup), library, PrepareEdition);
  }

  lemma EditingKeepsInvariant(r: Readers, s: State, m: Message)
    requires Invariant(r, s) && s.active.None? && !Begins(m)
    ensures Invariant(r, StepIdle(r, s, m))
  {
  }

  lemma IdleStepKeepsInvariant(r: Readers, s: State, m: Message)
    requires Invariant(r, s) && s.active.None?
    ensures Invariant(r, StepIdle(r, s, m))
  {
    if !Begins(m) {
      EditingKeepsInvariant(r, s, m);
    } else if m.PreviewCollection? || m.Create? || m.PreviewEdit? || m.Save? {
      SubmissionKeepsInvariant(r, s, m);
    } else {
      OpeningKeepsInvariant(r, s, m);
    }
  }

  lemma CompletionKeepsInvariant(r: Readers, s: State, task: Task, outcome: Outcome)
    requires Invariant(r, s) && task in s.started
    ensures Invariant(r, Complete(r, s, task, outcome))
  {
    var i :| 0 <= i < |s.started| && s.started[i] == task;
    if Finishes(r, s, task.key) {
      assert Current(r, s, s.started[i].work);
      var idle := s.(active := None);
      assert Invariant(r, idle);
      if outcome.Succeeded? && task.work.PrepareEdition? {
        MovingKeepsInvariant(r, idle, idle.library, Loaded(idle.setup));
        BegunKeepsInvariant(r, idle.(library := idle.library, setup := Loaded(idle.setup)), task.key.path, Other);
      }
    }
  }

  lemma ProbeKeepsInvariant(r: Readers, s: State, library: string)
    requires Invariant(r, s)
    ensures Invariant(r, Choose(s, library))
  {
    var s' := Choose(s, library);
    forall i | 0 <= i < |s'.started| && s'.active == Some(s'.started[i].key)
      ensures Current(r, s', s'.started[i].work)
    {
      assert i < |s.started| ==> s'.started[i] == s.started[i];
    }
  }

  lemma StepKeepsInvariant(r: Readers, s: State, m: Message)
    requires Invariant(r, s) && Deliverable(s, m)
    ensures Invariant(r, Step(r, s, m))
  {
    if m.Completed? {
      CompletionKeepsInvariant(r, s, m.task, m.outcome);
    } else if m.StorageChosen? {
      if m.chosen.Some? {
        ProbeKeepsInvariant(r, s, m.chosen.value);
      }
    } else if s.active.None? && !m.Consent? {
      IdleStepKeepsInvariant(r, s, m);
    }
  }

  lemma {:induction false} RunsKeepInvariant(r: Readers, states: seq<State>, messages: seq<Message>, k: nat)
    requires Runs(r, states, messages) && k < |states|
    ensures Invariant(r, states[k])
  {
    if k > 0 {
      RunsKeepInvariant(r, states, messages, k - 1);
      StepKeepsInvariant(r, states[k - 1], messages[k - 1]);
    }
  }

  // ---------------------------------------------------------------- Theorems

  // In every reachable state each stored preview answers a request for the scope, and the endpoint,
  // that its form shows.
  lemma PreviewsAreFresh(r: Readers, states: seq<State>, messages: seq<Message>, k: nat)
    requires Runs(r, states, messages) && k < |states|
    ensures states[k].preview.Some? ==> AsksCreate(r, states[k], states[k].preview.value.request)
    ensures states[k].editor.Some? && states[k].editor.value.preview.Some? ==>
              AsksEdit(r, states[k], states[k].editor.value.preview.value.request)
  {
    RunsKeepInvariant(r, states, messages, k);
  }

  // No identifier is ever used for two tasks.
  lemma RequestsAreNumberedOnce(r: Readers, states: seq<State>, messages: seq<Message>, k: nat, i: nat, j: nat)
    requires Runs(r, states, messages) && k < |states| && i < j < |states[k].started|
    ensures states[k].started[i].key.id != states[k].started[j].key.id
  {
    RunsKeepInvariant(r, states, messages, k);
  }

  // A collection is never created at an endpoint other than the one its page list came from.
  lemma CreationUsesPreviewedEndpoint(r: Readers, states: seq<State>, messages: seq<Message>, k: nat, i: nat)
    requires Runs(r, states, messages) && k < |states| && i < |states[k].started|
    requires states[k].started[i].work.CreateCollection?
    ensures states[k].started[i].work.preview.request.endpoint == states[k].started[i].work.endpoint
  {
    RunsKeepInvariant(r, states, messages, k);
  }

  /** The message ends the request in flight: its completion arrives and the library it asked is still shown. */
  predicate Ends(r: Readers, s: State, m: Message, key: Key) {
    s.active == Some(key) && m.Completed? && m.task.key == key && !m.task.work.Probe? && Finishes(r, s, key)
  }

  // While a request is in flight, no message that does not end it touches a form, a preview or the
  // request, and no work but a path probe is started.
  lemma OnlyItsCompletionEndsARequest(r: Readers, s: State, m: Message)
    requires s.active.Some? && !Ends(r, s, m, s.active.value)
    ensures var s' := Step(r, s, m);
            && s'.form == s.form && s'.preview == s.preview && s'.editor == s.editor && s'.active == s.active
            && forall i | |s.started| <= i < |s'.started| :: s'.started[i].work.Probe?
  {
  }

  // From the start of a request to the message that ends it, in every run, form, previews and editor stay as they were
  // when it was sent, and nothing but path probes is started.
  lemma {:induction false} NothingMovesUnderARequest(r: Readers, states: seq<State>, messages: seq<Message>,
                                                     i: nat, j: nat, key: Key)
    requires Runs(r, states, messages) && i <= j < |states| && states[i].active == Some(key)
    requires forall k | i <= k < j :: !Ends(r, states[k], messages[k], key)
    ensures states[j].active == Some(key) && states[j].form == states[i].form
    ensures states[j].preview == states[i].preview && states[j].editor == states[i].editor
    ensures states[i].started <= states[j].started
    ensures forall n | |states[i].started| <= n < |states[j].started| :: states[j].started[n].work.Probe?
    decreases j - i
  {
    if i < j {
      NothingMovesUnderARequest(r, states, messages, i, j - 1, key);
      OnlyItsCompletionEndsARequest(r, states[j - 1], messages[j - 1]);
      StepStartsAfter(r, states[j - 1], messages[j - 1]);
    }
  }

  // A task other than a probe whose key is not active changes nothing by completing, then or ever after.
  lemma {:induction false} RetiredTasksChangeNothing(r: Readers, states: seq<State>, messages: seq<Message>,
                                                     i: nat, j: nat)
    requires Runs(r, states, messages) && i <= j < |messages| && messages[j].Completed?
    requires messages[j].task in states[i].started && states[i].active != Some(messages[j].task.key)
    requires !messages[j].task.work.Probe?
    ensures states[j + 1] == states[j]
  {
    KeyStaysRetired(r, states, messages, i, j, messages[j].task);
  }

  // Neither does a probe that a later one has overtaken.
  lemma OvertakenProbesChangeNothing(r: Readers, states: seq<State>, messages: seq<Message>, i: nat, j: nat)
    requires Runs(r, states, messages) && i <= j < |messages| && messages[j].Completed?
    requires messages[j].task.work.Probe? && messages[j].task.key.id < states[i].setup.latestProbe
    ensures states[j + 1] == states[j]
  {
    ProbesAdvance(r, states, messages, i, j);
  }

  lemma {:induction false} ProbesAdvance(r: Readers, states: seq<State>, messages: seq<Message>, i: nat, j: nat)
    requires Runs(r, states, messages) && i <= j < |states|
    ensures states[i].setup.latestProbe <= states[j].setup.latestProbe < states[j].nextId
    decreases j
  {
    if j > 0 {
      ProbesAdvance(r, states, messages, if i < j then i else j - 1, j - 1);
      assert states[j] == Step(r, states[j - 1], messages[j - 1]);
      StepAdvancesProbe(r, states[j - 1], messages[j - 1]);
    }
  }

  lemma StepAdvancesProbe(r: Readers, s: State, m: Message)
    requires s.setup.latestProbe < s.nextId
    ensures s.setup.latestProbe <= Step(r, s, m).setup.latestProbe < Step(r, s, m).nextId
  {
    IdleStepKeepsProbe(r, s, m);
  }

  lemma IdleStepKeepsProbe(r: Readers, s: State, m: Message)
    ensures StepIdle(r, s, m).setup.latestProbe == s.setup.latestProbe && s.nextId <= StepIdle(r, s, m).nextId
  {
  }

  lemma {:induction false} KeyStaysRetired(r: Readers, states: seq<State>, messages: seq<Message>,
                                           i: nat, j: nat, task: Task)
    requires Runs(r, states, messages) && i <= j < |states|
    requires task in states[i].started && states[i].active != Some(task.key)
    ensures task in states[j].started && states[j].active != Some(task.key)
    decreases j - i
  {
    if i < j {
      KeyStaysRetired(r, states, messages, i, j - 1, task);
      RunsKeepInvariant(r, states, messages, j - 1);
      StepRetires(r, states[j - 1], messages[j - 1], task);
    }
  }

  lemma StepRetires(r: Readers, s: State, m: Message, task: Task)
    requires Numbered(s) && task in s.started && s.active != Some(task.key)
    ensures task in Step(r, s, m).started && Step(r, s, m).active != Some(task.key)
  {
    StepStartsAfter(r, s, m);
    var i :| 0 <= i < |s.started| && s.started[i] == task;
    assert Step(r, s, m).started[i] == task;
  }

  lemma StepStartsAfter(r: Readers, s: State, m: Message)
    ensures s.started <= Step(r, s, m).started
    ensures var active := Step(r, s, m).active; active.None? || active == s.active || active.value.id == s.nextId
  {
  }

  // ---------------------------------------------------------------- Consent

  predicate Stores(work: Work) { (work.LoadLibrary? && work.create) || work.PrepareEdition? }

  lemma StepNeedsConsent(r: Readers, s: State, m: Message, i: nat)
    requires |s.started| <= i < |Step(r, s, m).started| && Stores(Step(r, s, m).started[i].work)
    ensures s.setup.consent && i == |s.started|
  {
  }

  // No library is created, and no edition prepared, by a message that does not find consent given.
  lemma {:induction false} NothingIsStoredWithoutConsent(r: Readers, states: seq<State>, messages: seq<Message>,
                                                         k: nat, i: nat) returns (j: nat)
    requires Runs(r, states, messages) && k < |states| && i < |states[k].started| && Stores(states[k].started[i].work)
    ensures j < k && |states[j].started| == i && states[j].setup.consent
  {
    j := 0;
    if k > 0 {
      var before := states[k - 1];
      assert states[k] == Step(r, before, messages[k - 1]);
      StepStartsAfter(r, before, messages[k - 1]);
      if i < |before.started| {
        j := NothingIsStoredWithoutConsent(r, states, messages, k - 1, i);
      } else {
        StepNeedsConsent(r, before, messages[k - 1], i);
        j := k - 1;
      }
    }
  }

  // Consent, in turn, is given only by saying so.
  lemma {:induction false} ConsentIsGiven(r: Readers, states: seq<State>, messages: seq<Message>, k: nat)
    returns (j: nat)
    requires Runs(r, states, messages) && k < |states| && states[k].setup.consent
    ensures j < k && messages[j] == Consent(true)
    ensures forall m | j < m < k :: messages[m] != Consent(false)
  {
    j := 0;
    if k > 0 {
      assert states[k] == Step(r, states[k - 1], messages[k - 1]);
      if messages[k - 1] == Consent(true) {
        j := k - 1;
      } else {
        StepKeepsConsent(r, states[k - 1], messages[k - 1]);
        j := ConsentIsGiven(r, states, messages, k - 1);
      }
    }
  }

  lemma StepKeepsConsent(r: Readers, s: State, m: Message)
    requires !m.Consent?
    ensures Step(r, s, m).setup.consent == s.setup.consent
  {
  }
}
