/**
 The archive builder from its arguments to the members it writes, and the verifier's verdict on them.
 The one file that is generated, RELEASE.txt, is spelled out here.
 */
module ReleaseArchive {
  import opened ArchiveBuilder
  import opened ArchiveOrder
  import opened ArchivePaths
  import opened ArchiveTheorems
  import opened Names
  import opened ReleaseLimits
  import opened Sets
  import opened Wrappers
  import V = ArchiveVerifier

  /** The command's arguments, and what it finds in the directories it reads. */
  datatype Arguments = Arguments(version: string, targetOs: string, targetArch: string, epoch: int,
                                 binaries: seq<Source>, documents: seq<Source>,
                                 operations: seq<(string, Source)>, services: seq<(string, Source)>)

  // ---------------------------------------------------------------- RELEASE.txt

  const HEADING := "WikiSyncer release candidate\n"
  const NOTE_CLAIM := "This archive is not, by itself," + " proof of publisher identity. "
  const NOTE_ENTRY := NOTE_CLAIM + "Verify its entry in\n"
  const NOTE_FILES := "SHA256SUMS and the detached " + "SHA256SUMS.sig before "
  const NOTE_SUMS := NOTE_FILES + "installation. Platform code\n"
  const NOTE_STATUS := "signing/notarization status " + "must be established separately " + "by the releaser.\n"

  function Field(key: string, value: string): string { key + value + "\n" }

  function Fields(a: Arguments): string {
    Field("version: ", a.version) + Field("target-os: ", a.targetOs) + Field("target-arch: ", a.targetArch)
    + Field("source-date-epoch: ", IntText(a.epoch))
  }

  function Notes(): string { NOTE_ENTRY + NOTE_SUMS + NOTE_STATUS }

  function ReleaseText(a: Arguments): string { HEADING + Fields(a) + "\n" + Notes() }

  /** One byte for each character; the whole text is ASCII by `ReleaseTextIsAscii`. */
  function Encode(text: string): (bytes: seq<byte>)
    ensures |bytes| == |text|
  {
    seq(|text|, i requires 0 <= i < |text| => text[i] as int % 0x100)
  }

  predicate Ascii(text: string) { forall i | 0 <= i < |text| :: text[i] as int < 0x80 }

  lemma AsciiJoins(a: string, b: string)
    requires Ascii(a) && Ascii(b)
    ensures Ascii(a + b)
  {
  }

  lemma ClaimNoteIsAscii()
    ensures Ascii(NOTE_CLAIM)
  {
    AsciiJoins("This archive is not, by itself,", " proof of publisher identity. ");
  }

  lemma EntryNoteIsAscii()
    ensures Ascii(NOTE_ENTRY)
  {
    ClaimNoteIsAscii();
    AsciiJoins(NOTE_CLAIM, "Verify its entry in\n");
  }

  lemma FilesNoteIsAscii()
    ensures Ascii(NOTE_FILES)
  {
    AsciiJoins("SHA256SUMS and the detached ", "SHA256SUMS.sig before ");
  }

  lemma SumsNoteIsAscii()
    ensures Ascii(NOTE_SUMS)
  {
    FilesNoteIsAscii();
    AsciiJoins(NOTE_FILES, "installation. Platform code\n");
  }

  lemma StatusNoteIsAscii()
    ensures Ascii(NOTE_STATUS)
  {
    AsciiJoins("signing/notarization status ", "must be established separately ");
    AsciiJoins("signing/notarization status " + "must be established separately ", "by the releaser.\n");
  }

  lemma NotesAreAscii()
    ensures Ascii(Notes()) && Ascii(HEADING)
  {
    EntryNoteIsAscii();
    SumsNoteIsAscii();
    StatusNoteIsAscii();
    AsciiJoins(NOTE_ENTRY, NOTE_SUMS);
    AsciiJoins(NOTE_ENTRY + NOTE_SUMS, NOTE_STATUS);
  }

  lemma FieldIsAscii(key: string, value: string)
    requires Ascii(key) && Ascii(value)
    ensures Ascii(Field(key, value))
  {
    AsciiJoins(key, value);
    AsciiJoins(key + value, "\n");
  }

  lemma IntTextIsAscii(n: int)
    ensures Ascii(IntText(n))
  {
    var digits := NatText(if n < 0 then -n else n);
    forall i | 0 <= i < |digits|
      ensures digits[i] as int < 0x80
    {
      assert digits[i] in digits && IsDecimalDigit(digits[i]);
    }
    AsciiJoins("-", digits);
  }

  lemma FieldsAreAscii(a: Arguments)
    requires Ascii(a.version) && Ascii(a.targetOs) && Ascii(a.targetArch)
    ensures Ascii(Fields(a))
  {
    IntTextIsAscii(a.epoch);
    FieldIsAscii("version: ", a.version);
    FieldIsAscii("target-os: ", a.targetOs);
    FieldIsAscii("target-arch: ", a.targetArch);
    FieldIsAscii("source-date-epoch: ", IntText(a.epoch));
    var x, y := Field("version: ", a.version), Field("target-os: ", a.targetOs);
    var z := Field("target-arch: ", a.targetArch);
    AsciiJoins(x, y);
    AsciiJoins(x + y, z);
    AsciiJoins(x + y + z, Field("source-date-epoch: ", IntText(a.epoch)));
  }

  // With checked tokens the release text is ASCII, so its encoding has one byte for each character.
  lemma ReleaseTextIsAscii(a: Arguments)
    requires CheckedToken(a.version) && CheckedToken(a.targetArch) && a.targetOs in {"macos", "linux"}
    ensures Ascii(ReleaseText(a))
    ensures forall i | 0 <= i < |ReleaseText(a)| :: Encode(ReleaseText(a))[i] == ReleaseText(a)[i] as int
  {
    assert Ascii(a.targetOs);
    FieldsAreAscii(a);
    NotesAreAscii();
    AsciiJoins(HEADING, Fields(a));
    AsciiJoins(HEADING + Fields(a), "\n");
    AsciiJoins(HEADING + Fields(a) + "\n", Notes());
  }

  lemma NotesLength()
    ensures |HEADING| == 29 && |NOTE_ENTRY| == |NOTE_CLAIM| + 20 == 81 && |NOTE_SUMS| == 78 && |NOTE_STATUS| == 76
  {
  }

  /** Everything in the release text but its four values. */
  const FIXED_LENGTH := 321

  function TextLength(a: Arguments): nat {
    FIXED_LENGTH + |a.version| + |a.targetOs| + |a.targetArch| + |IntText(a.epoch)|
  }

  lemma ReleaseTextLength(a: Arguments)
    ensures |ReleaseText(a)| == TextLength(a)
  {
    NotesLength();
    assert |"version: "| == 9 && |"target-os: "| == 11 && |"target-arch: "| == 13 && |"source-date-epoch: "| == 19;
  }

  // ---------------------------------------------------------------- From arguments to members

  function InputsOf(a: Arguments): Inputs {
    Inputs(a.version, a.targetOs, a.targetArch, Encode(ReleaseText(a)), a.binaries, a.documents, a.operations,
           a.services)
  }

  /** The directories hold what a file system can hold, and the target is one the command offers. */
  ghost predicate WellGiven(a: Arguments) { WellListed(InputsOf(a)) }

  const TIME_BOUND := 0x1_0000_0000   // the time field of the compressed file's header has 32 bits

  ghost predicate CanBuild(a: Arguments)
    requires WellGiven(a)
  {
    0 <= a.epoch < TIME_BOUND && Buildable(InputsOf(a))
  }

  /** An archive: the name of its file and the members of its tar file. */
  datatype Archive = Archive(name: string, members: seq<V.Member>)

  ghost function Built(a: Arguments): Archive
    requires WellGiven(a) && CanBuild(a)
  {
    Archive(Root(InputsOf(a)) + ".tar.gz", Members(ArchiveOf(InputsOf(a)), a.epoch))
  }

  // Building is a function of the arguments and of what the directories hold.
  method BuildArchive(a: Arguments) returns (r: Option<Archive>)
    requires WellGiven(a)
    ensures r == if CanBuild(a) then Some(Built(a)) else None
  {
    if a.epoch < 0 {
      return None;
    }
    var inputs := InputsOf(a);
    var entries := BuildEntries(inputs);
    if entries.None? {
      return None;
    }
    if a.epoch >= TIME_BOUND {
      return None;   // writing the header fails, and the unfinished file is removed
    }
    return Some(Archive(Root(inputs) + ".tar.gz", Members(entries.value, a.epoch)));
  }

  predicate PlainListings(a: Arguments) {
    && (forall i | 0 <= i < |a.operations| :: '\\' !in a.operations[i].0)
    && (forall i | 0 <= i < |a.services| :: '\\' !in a.services[i].0)
  }

  // The verifier accepts a built archive exactly when no listed name holds a backslash and the four
  // values leave the release text within the bound for one member.
  lemma BuiltArchivesAreAccepted(a: Arguments)
    requires WellGiven(a) && CanBuild(a)
    ensures V.Acceptable(Built(a).members, Built(a).name, V.REQUIRED) <==>
            PlainListings(a) && TextLength(a) <= MAX_MEMBER_BYTES
  {
    ReleaseTextLength(a);
    BuiltEntriesAreAccepted(InputsOf(a), a.epoch);
  }

  // ---------------------------------------------------------------- Few files always fit

  /** The names of a path and of all that lies above it. */
  function PathNames(root: string, parts: seq<string>): (names: set<string>)
    ensures |names| <= |parts| + 1
  {
    if parts == [] then {Name(root, [])} else PathNames(root, parts[..|parts| - 1]) + {Name(root, parts)}
  }

  lemma {:induction false} PrefixIsNamed(root: string, parts: seq<string>, below: seq<string>)
    requires below <= parts
    ensures Name(root, below) in PathNames(root, parts)
    decreases |parts|
  {
    if below != parts {
      PrefixIsNamed(root, parts[..|parts| - 1], below);
    }
  }

  function AllNames(root: string, files: seq<File>): set<string> {
    if files == [] then {}
    else AllNames(root, files[..|files| - 1]) + PathNames(root, Components(files[|files| - 1].place))
  }

  lemma {:induction false} AllNamesCount(root: string, files: seq<File>)
    requires forall f <- files :: PlaceOk(f.place)
    ensures |AllNames(root, files)| <= 4 * |files|
  {
    if files != [] {
      var last := files[|files| - 1];
      assert last in files;
      PlaceIsPath(last.place);
      AllNamesCount(root, files[..|files| - 1]);
      UnionSize(AllNames(root, files[..|files| - 1]), PathNames(root, Components(last.place)));
    }
  }

  lemma {:induction false} FileNamesAreAll(root: string, files: seq<File>, f: File, below: seq<string>)
    requires f in files && below <= Components(f.place)
    ensures Name(root, below) in AllNames(root, files)
  {
    var last := |files| - 1;
    if f == files[last] {
      PrefixIsNamed(root, Components(f.place), below);
    } else {
      FileNamesAreAll(root, files[..last], f, below);
    }
  }

  function ListedNames(entries: seq<Entry>): set<string> {
    if entries == [] then {} else ListedNames(entries[..|entries| - 1]) + {entries[|entries| - 1].name}
  }

  lemma {:induction false} ListedNamesCount(entries: seq<Entry>, all: set<string>)
    requires NamesDistinct(entries) && forall i | 0 <= i < |entries| :: entries[i].name in all
    ensures |ListedNames(entries)| == |entries| && ListedNames(entries) <= all
    ensures forall name <- ListedNames(entries) :: exists i | 0 <= i < |entries| :: entries[i].name == name
  {
    if entries != [] {
      ListedNamesCount(entries[..|entries| - 1], all);
    }
  }

  lemma EntriesAreNamed(root: string, files: seq<File>, entries: seq<Entry>, i: nat)
    requires Complete(root, files, entries) && i < |entries|
    ensures entries[i].name in AllNames(root, files)
  {
    assert entries[i] in entries;
    if f :| f in files && entries[i] == FileEntry(root, f) {
      FileNamesAreAll(root, files, f, Components(f.place));
    } else {
      var below :| IsDirectory(files, below) && entries[i] == DirectoryEntry(root, below);
      var f :| f in files && below < Components(f.place);
      FileNamesAreAll(root, files, f, below);
    }
  }

  // Every file brings at most three directories with it.
  lemma FewFilesFewEntries(root: string, files: seq<File>, entries: seq<Entry>)
    requires FilesOk(files) && Complete(root, files, entries)
    ensures |entries| <= 4 * |files|
  {
    forall i: nat | i < |entries|
      ensures entries[i].name in AllNames(root, files)
    {
      EntriesAreNamed(root, files, entries, i);
    }
    ListedNamesCount(entries, AllNames(root, files));
    SubsetSize(ListedNames(entries), AllNames(root, files));
    AllNamesCount(root, files);
  }

  lemma {:induction false} TotalWithin(entries: seq<Entry>, bound: nat)
    requires forall i | 0 <= i < |entries| :: entries[i].data.Some? ==> |entries[i].data.value| <= bound
    ensures TotalSize(entries) <= |entries| * bound
  {
    if entries != [] {
      TotalWithin(entries[..|entries| - 1], bound);
    }
  }

  lemma EntryIsSmall(root: string, files: seq<File>, entries: seq<Entry>, bound: nat, i: nat)
    requires Complete(root, files, entries) && i < |entries|
    requires forall f <- files :: f.source.Found? ==> |f.source.data| <= bound
    ensures entries[i].data.Some? ==> |entries[i].data.value| <= bound
  {
    assert entries[i] in entries;
    if f :| f in files && entries[i] == FileEntry(root, f) {
      assert f.source.Found? ==> |f.source.data| <= bound;
    }
  }

  lemma Scale(a: nat, b: nat, factor: nat)
    requires a <= b
    ensures a * factor <= b * factor
  {
  }

  lemma SmallArchivesFit(root: string, files: seq<File>, entries: seq<Entry>, bound: nat)
    requires FilesOk(files) && Complete(root, files, entries)
    requires forall f <- files :: f.source.Found? ==> |f.source.data| <= bound
    requires 4 * |files| <= V.MAX_MEMBERS && V.MAX_MEMBERS * bound <= V.MAX_TOTAL_BYTES
    ensures WithinLimits(entries)
  {
    FewFilesFewEntries(root, files, entries);
    forall i: nat | i < |entries|
      ensures entries[i].data.Some? ==> |entries[i].data.value| <= bound
    {
      EntryIsSmall(root, files, entries, bound, i);
    }
    TotalWithin(entries, bound);
    Scale(|entries|, V.MAX_MEMBERS, bound);
  }

  // ---------------------------------------------------------------- A built archive that is refused

  /** Empty files for one version, with one name under the operations directory. */
  function Example(name: string): Arguments {
    Arguments("1", "linux", "x86_64", 0, [Found([], true), Found([], true), Found([], true)],
              [Found([], false), Found([], false), Found([], false), Found([], false), Found([], false)],
              [(name, Found([], false))], [])
  }

  predicate EmptyFiles(inputs: Inputs) {
    && |inputs.binaries| == 3 && (forall i | 0 <= i < 3 :: inputs.binaries[i] == Found([], true))
    && |inputs.documents| == 5 && (forall i | 0 <= i < 5 :: inputs.documents[i] == Found([], false))
    && |inputs.operations| == 1 && inputs.operations[0].1 == Found([], false) && inputs.services == []
  }

  lemma EmptyFilesAreSmall(inputs: Inputs, bound: nat)
    requires EmptyFiles(inputs) && |inputs.release| <= bound <= MAX_MEMBER_BYTES
    ensures |Files(inputs)| == 10
    ensures forall f <- Files(inputs) :: Usable(f) && |f.source.data| <= bound
  {
  }

  lemma EmptyFilesAreBuildable(inputs: Inputs)
    requires WellListed(inputs) && TokensOk(inputs) && EmptyFiles(inputs) && |inputs.release| <= 400
    ensures Buildable(inputs)
  {
    EmptyFilesAreSmall(inputs, 400);
    RootIsClean(inputs);
    BuilderFilesOk(inputs);
    SmallArchivesFit(Root(inputs), Files(inputs), EntriesOf(Root(inputs), Files(inputs)), 400);
  }

  lemma ExampleTextIsShort(name: string)
    ensures |ReleaseText(Example(name))| == TextLength(Example(name)) <= 400
  {
    ReleaseTextLength(Example(name));
    assert |IntText(0)| == 1;
    assert |"1"| == 1 && |"linux"| == 5 && |"x86_64"| == 6;
  }

  lemma ExampleTokensAreChecked()
    ensures CheckedToken("1") && CheckedToken("x86_64")
  {
  }

  lemma ExampleCanBeBuilt(name: string)
    requires Clean(name)
    ensures WellGiven(Example(name)) && CanBuild(Example(name))
  {
    ExampleTextIsShort(name);
    ExampleTokensAreChecked();
    EmptyFilesAreBuildable(InputsOf(Example(name)));
  }

  lemma ExampleIsAcceptedIfPlain(name: string)
    requires Clean(name)
    ensures WellGiven(Example(name)) && CanBuild(Example(name))
    ensures V.Acceptable(Built(Example(name)).members, Built(Example(name)).name, V.REQUIRED) <==> '\\' !in name
  {
    ExampleCanBeBuilt(name);
    ExampleTextIsShort(name);
    BuiltArchivesAreAccepted(Example(name));
    assert Example(name).operations[0].0 == name;
  }

  /** The builder emits an archive for these arguments, and the verifier accepts it. */
  ghost predicate BuiltAndAccepted(a: Arguments) {
    WellGiven(a) && CanBuild(a) && V.Acceptable(Built(a).members, Built(a).name, V.REQUIRED)
  }

  ghost predicate BuiltAndRefused(a: Arguments) {
    WellGiven(a) && CanBuild(a) && !V.Acceptable(Built(a).members, Built(a).name, V.REQUIRED)
  }

  // The condition is not idle: of these two archives, both of which the builder emits, the verifier
  // refuses the one with a backslash in a name.
  lemma BackslashIsRefused() returns (a: Arguments)
    ensures a == Example("a\\b.md") && BuiltAndRefused(a)
  {
    var name := "a\\b.md";
    assert name[1] == '\\';
    a := Example(name);
    ExampleIsAcceptedIfPlain(name);
  }

  lemma PlainName()
    ensures Clean("ab.md") && '\\' !in "ab.md"
  {
  }

  lemma PlainIsAccepted() returns (a: Arguments)
    ensures a == Example("ab.md") && BuiltAndAccepted(a)
  {
    PlainName();
    a := Example("ab.md");
    ExampleIsAcceptedIfPlain("ab.md");
  }
}
