/**
 The desktop application's object: its message loop assigns the fields that `PreviewRequests.Step`
 describes, and starts tasks under keys that it issues itself.
 */
module DesktopApp {
  import opened Wrappers
  import opened PreviewRequests

  class App {
    var library: string
    var setup: Setup
    var active: Option<Key>
    var nextId: nat
    var form: Form
    var preview: Option<Preview>
    var editor: Option<Editor>
    const readers: Readers
    ghost var started: seq<Task>
    ghost var states: seq<PreviewRequests.State>   // every state since the application started
    ghost var messages: seq<Message>               // and what led from each to the next

    /** The application has come here by a run, so every theorem about runs applies to it. */
    ghost predicate Valid()
      reads this
    {
      Runs(readers, states, messages) && states[|messages|] == State()
    }

    ghost function State(): State
      reads this
    {
      PreviewRequests.State.State(library, setup, active, nextId, form, preview, editor, started)
    }

    constructor (library: string, form: Form, readers: Readers)
      ensures Valid() && messages == []
      ensures this.library == library && this.form == form && this.readers == readers
    {
      this.library := library;
      this.form := form;
      this.readers := readers;
      setup := Setup(true, false, 1, Checking);
      active, preview, editor := None, None, None;
      nextId := 2;
      started := [Task(Key(1, library), Probe)];
      messages := [];
      new;
      states := [State()];
    }

    predicate IsBusy()
      reads this
    {
      active.Some?
    }

    method NextKey(path: string, ghost work: Work) returns (key: Key)
      modifies this`nextId, this`started
      ensures key == Key(old(nextId), path)
      ensures State() == Issued(old(State()), path, work)
    {
      key := Key(nextId, path);
      nextId := nextId + 1;
      started := started + [Task(key, work)];
    }

    method BeginRequest(path: string, ghost work: Work) returns (key: Key)
      modifies this`nextId, this`started, this`active
      ensures key == Key(old(nextId), path)
      ensures State() == Begun(old(State()), path, work)
    {
      key := NextKey(path, work);
      active := Some(key);
    }

    method FinishRequest(key: Key) returns (finished: bool)
      modifies this`active
      ensures finished == Finishes(readers, old(State()), key)
      ensures active == if finished then None else old(active)
    {
      if active != Some(key) || !readers.samePath(key.path, readers.trim(library)) {
        return false;
      }
      active := None;
      return true;
    }

    /** Handles one message; the result is the task that it started, if any. */
    method Update(m: Message) returns (launched: Option<Task>)
      requires Valid() && Deliverable(State(), m)
      modifies this
      ensures Valid() && messages == old(messages) + [m] && states == old(states) + [State()]
      ensures State() == Step(readers, old(State()), m)
      ensures started == old(started) + (if launched.Some? then [launched.value] else [])
    {
      launched := Dispatch(m);
      RunsExtended(readers, states, messages, m);
      states := states + [State()];
      messages := messages + [m];
    }

    method Dispatch(m: Message) returns (launched: Option<Task>)
      modifies this`library, this`setup, this`active, this`nextId, this`form, this`preview, this`editor, this`started
      ensures State() == Step(readers, old(State()), m)
      ensures started == old(started) + (if launched.Some? then [launched.value] else [])
    {
      launched := None;
      if m.Completed? {
        launched := Finish(m.task, m.outcome);
      } else if m.Consent? {
        setup := setup.(consent := m.given);
      } else if m.StorageChosen? {
        if m.chosen.Some? && setup.shown {
          launched := ChooseStorage(m.chosen.value);
        }
      } else if !IsBusy() {
        launched := Handle(m);
      }
    }

    /** Shows and probes a path, even while a request is in flight. */
    method ChooseStorage(chosen: string) returns (launched: Option<Task>)
      modifies this`library, this`setup, this`nextId, this`started
      ensures State() == Choose(old(State()), chosen)
      ensures started == old(started) + (if launched.Some? then [launched.value] else [])
    {
      library := chosen;
      setup := setup.(latestProbe := nextId, status := Checking);
      var key := NextKey(chosen, Probe);
      launched := Some(Task(key, Probe));
    }

    /** Messages that are ignored while a request is in flight. */
    method Handle(m: Message) returns (launched: Option<Task>)
      requires active.None? && !m.Completed? && !m.StorageChosen? && !m.Consent?
      modifies this`library, this`setup, this`active, this`nextId, this`form, this`preview, this`editor, this`started
      ensures State() == StepIdle(readers, old(State()), m)
      ensures started == old(started) + (if launched.Some? then [launched.value] else [])
    {
      if !Begins(m) {
        HandleEdit(m);
        return None;
      }
      if m.PreviewCollection? || m.Create? || m.PreviewEdit? || m.Save? {
        launched := HandleSubmission(m);
      } else if m.OpenLibrary? || m.CreateLibrary? || m.Refresh? {
        launched := HandleLoading(m);
      } else {
        launched := HandleOpening(m);
      }
    }

    /** Edits of the forms, and what else starts nothing. */
    method HandleEdit(m: Message)
      requires !m.Completed? && !m.StorageChosen? && !m.Consent? && !Begins(m)
      modifies this`setup, this`form, this`preview, this`editor
      ensures State() == StepIdle(readers, old(State()), m)
    {
      match m {
        case Changed(field) =>
          form := Apply(form, field);
          if Discards(field) {
            preview := None;
          }
        case EditCollection(loaded) =>
          if loaded.Some? {
            editor := Some(loaded.value.(preview := None));
          }
        case EditChanged(field) =>
          if editor.Some? && Editable(field) {
            editor := Some(editor.value.(form := Apply(editor.value.form, field)));
            if DiscardsEdit(field) {
              editor := Some(editor.value.(preview := None));
            }
          }
        case CloseEditor => editor := None;
        case ChooseAnotherLibrary => setup := setup.(shown := true);
      }
    }

    /** Previews, and what may be submitted once they have come back. */
    method HandleSubmission(m: Message) returns (launched: Option<Task>)
      requires m.PreviewCollection? || m.Create? || m.PreviewEdit? || m.Save?
      modifies this`active, this`nextId, this`editor, this`started
      ensures State() == StepIdle(readers, old(State()), m)
      ensures started == old(started) + (if launched.Some? then [launched.value] else [])
    {
      launched := None;
      match m {
        case PreviewCollection =>
          var endpoint := readers.trim(form.endpoint);
          var rule := readers.RuleOf(form.scope);
          if rule.Some? {
            launched := Launch(library, CreatePreview(PreviewRequest(endpoint, rule.value)));
          }
        case Create(policiesParse) =>
          if preview.Some? && policiesParse {
            launched := Launch(library, CreateCollection(readers.trim(form.endpoint), preview.value));
          }
        case PreviewEdit(generation) => launched := PreviewEditor(generation);
        case Save(policiesParse) =>
          if editor.Some? && editor.value.preview.Some? && policiesParse {
            launched := Launch(library, SaveEdit(editor.value.preview.value));
          }
      }
    }

    /** Preparing an edition, and every other request. */
    method HandleOpening(m: Message) returns (launched: Option<Task>)
      requires m.OpenPurge? || m.StartEdition? || m.Run?
      modifies this`library, this`active, this`nextId, this`editor, this`started
      ensures State() == StepIdle(readers, old(State()), m)
      ensures started == old(started) + (if launched.Some? then [launched.value] else [])
    {
      launched := None;
      match m {
        case OpenPurge =>
          editor := None;
          launched := Launch(library, Other);
        case StartEdition(chosen) =>
          if setup.consent {
            library := chosen;
            launched := Launch(chosen, PrepareEdition);
          }
        case Run => launched := Launch(library, Other);
      }
    }

    /** Loading the library shown, which may have to be created first. */
    method HandleLoading(m: Message) returns (launched: Option<Task>)
      requires m.OpenLibrary? || m.CreateLibrary? || m.Refresh?
      modifies this`active, this`nextId, this`started
      ensures State() == StepIdle(readers, old(State()), m)
      ensures started == old(started) + (if launched.Some? then [launched.value] else [])
    {
      launched := None;
      match m {
        case OpenLibrary =>
          if setup.status == ExistingLibrary {
            launched := Launch(readers.trim(library), LoadLibrary(false));
          }
        case CreateLibrary =>
          if setup.status == NewLibrary && setup.consent {
            launched := Launch(readers.trim(library), LoadLibrary(true));
          }
        case Refresh => launched := Launch(library, LoadLibrary(false));
      }
    }

    method PreviewEditor(generation: Option<nat>) returns (launched: Option<Task>)
      modifies this`active, this`nextId, this`editor, this`started
      ensures State() == BeginEditPreview(readers, old(State()), generation)
      ensures started == old(started) + (if launched.Some? then [launched.value] else [])
    {
      launched := None;
      if editor.None? {
        return;
      }
      var rule := readers.RuleOf(editor.value.form.scope);
      if rule.None? || generation.None? {
        return;
      }
      editor := Some(editor.value.(generation := generation.value));
      launched := Launch(library, EditPreview(PreviewRequest(editor.value.form.endpoint, rule.value)));
    }

    method Launch(path: string, work: Work) returns (launched: Option<Task>)
      modifies this`nextId, this`started, this`active
      ensures State() == Begun(old(State()), path, work)
      ensures launched == Some(Task(Key(old(nextId), path), work))
    {
      var key := BeginRequest(path, work);
      launched := Some(Task(key, work));
    }

    /** A task reports back under the key it was started with. */
    method Finish(task: Task, outcome: Outcome) returns (launched: Option<Task>)
      modifies this`library, this`setup, this`active, this`nextId, this`form, this`preview, this`editor, this`started
      ensures State() == Complete(readers, old(State()), task, outcome)
      ensures started == old(started) + (if launched.Some? then [launched.value] else [])
    {
      launched := None;
      if task.work.Probe? {
        if task.key.id == setup.latestProbe && readers.samePath(task.key.path, readers.trim(library)) {
          var status := if outcome.Failed? then Unavailable else if outcome.found then ExistingLibrary else NewLibrary;
          setup := setup.(status := status);
        }
        return;
      }
      var finished := FinishRequest(task.key);
      if !finished || outcome.Failed? {
        return;
      }
      match task.work {
        case CreatePreview(request) => preview := Some(Preview(request, outcome.pages));
        case EditPreview(request) =>
          if editor.Some? {
            editor := Some(editor.value.(preview := Some(Preview(request, outcome.pages))));
          }
        case CreateCollection(_, _) =>
          form := form.(name := "", scope := form.scope.(selection := ""));
          preview := None;
        case SaveEdit(_) => editor := None;
        case LoadLibrary(_) =>
          library := outcome.path;
          setup := Loaded(setup);
        case PrepareEdition =>
          setup := Loaded(setup);
          launched := Launch(task.key.path, Other);
        case _ =>
      }
    }
  }
}
