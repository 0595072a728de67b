/** The release archive builder: which entries it emits, and that the verifier accepts them. */
module ArchiveBuilder {
  import opened ArchiveOrder
  import opened ArchivePaths
  import opened ReleaseLimits
  import opened Wrappers
  import V = ArchiveVerifier

  /** A file the builder reads: absent, or its bytes and executable bit. */
  datatype Source = Missing | Found(data: seq<byte>, executable: bool)

  /** Where a file lies in the archive. */
  datatype Place = Binary(index: nat) | Release | Document(index: nat) | Operation(name: string) | Service(name: string)

  datatype File = File(place: Place, source: Source)

  /** `release` is the encoded text of RELEASE.txt, which ReleaseArchive makes; the listings
      are directory contents in sorted order. */
  datatype Inputs = Inputs(version: string, targetOs: string, targetArch: string, release: seq<byte>,
                           binaries: seq<Source>, documents: seq<Source>,
                           operations: seq<(string, Source)>, services: seq<(string, Source)>)

  const BINARY_NAMES: seq<string> := ["wikisync", "wikisyncd", "wikisync-gui"]
  const DOCUMENTS: seq<seq<string>> :=
    [["LICENSE"], ["README.md"], ["packaging", "README.md"],
     ["docs", "security", "linux-package-repository-trust.md"], ["docs", "security", "macos-signing-notarization.md"]]

  // ---------------------------------------------------------------- Inputs

  predicate TokenChar(c: char) {
    '0' <= c <= '9' || 'A' <= c <= 'Z' || 'a' <= c <= 'z' || c in {'.', '+', '_', '-'}
  }

  predicate CheckedToken(s: string) {
    && s != "" && ('0' <= s[0] <= '9' || 'A' <= s[0] <= 'Z' || 'a' <= s[0] <= 'z')
    && forall i | 0 <= i < |s| :: TokenChar(s[i])
  }

  function Root(inputs: Inputs): string {
    "wikisync-" + inputs.version + "-" + inputs.targetOs + "-" + inputs.targetArch
  }

  /** Names of a directory listing: distinct, non-empty and free of slashes, as a file system gives them. */
  ghost predicate Listing(names: seq<(string, Source)>) {
    && (forall i | 0 <= i < |names| :: Clean(names[i].0))
    && (forall i, j | 0 <= i < j < |names| :: names[i].0 != names[j].0)
  }

  ghost predicate WellListed(inputs: Inputs) {
    && |inputs.binaries| == |BINARY_NAMES| && |inputs.documents| == |DOCUMENTS|
    && Listing(inputs.operations) && Listing(inputs.services)
    && inputs.targetOs in {"macos", "linux"}
  }

  /** The components of a place below the top-level directory. */
  function Components(p: Place): seq<string> {
    match p
    case Binary(i) => if i < |BINARY_NAMES| then ["bin", BINARY_NAMES[i]] else []
    case Release => ["RELEASE.txt"]
    case Document(i) => if i < |DOCUMENTS| then DOCUMENTS[i] else []
    case Operation(name) => ["docs", "operations", name]
    case Service(name) => ["service", name]
  }

  predicate PlaceOk(p: Place) {
    match p
    case Binary(i) => i < |BINARY_NAMES|
    case Release => true
    case Document(i) => i < |DOCUMENTS|
    case Operation(name) => Clean(name)
    case Service(name) => Clean(name)
  }

  function BinaryFiles(inputs: Inputs): (files: seq<File>)
    ensures |files| == |inputs.binaries|
    ensures forall i | 0 <= i < |files| :: files[i] == File(Binary(i), inputs.binaries[i])
  {
    seq(|inputs.binaries|, i requires 0 <= i < |inputs.binaries| => File(Binary(i), inputs.binaries[i]))
  }

  function DocumentFiles(inputs: Inputs): (files: seq<File>)
    ensures |files| == |inputs.documents|
    ensures forall i | 0 <= i < |files| :: files[i] == File(Document(i), inputs.documents[i])
  {
    seq(|inputs.documents|, i requires 0 <= i < |inputs.documents| => File(Document(i), inputs.documents[i]))
  }

  function OperationFiles(inputs: Inputs): (files: seq<File>)
    ensures |files| == |inputs.operations|
    ensures forall i | 0 <= i < |files| :: files[i] == File(Operation(inputs.operations[i].0), inputs.operations[i].1)
  {
    seq(|inputs.operations|, i requires 0 <= i < |inputs.operations| =>
      File(Operation(inputs.operations[i].0), inputs.operations[i].1))
  }

  function ServiceFiles(inputs: Inputs): (files: seq<File>)
    ensures |files| == |inputs.services|
    ensures forall i | 0 <= i < |files| :: files[i] == File(Service(inputs.services[i].0), inputs.services[i].1)
  {
    seq(|inputs.services|, i requires 0 <= i < |inputs.services| =>
      File(Service(inputs.services[i].0), inputs.services[i].1))
  }

  /** Every file of the archive in the order the builder reads them. */
  function Files(inputs: Inputs): seq<File> {
    BinaryFiles(inputs) + [File(Release, Found(inputs.release, false))] + DocumentFiles(inputs)
    + OperationFiles(inputs) + ServiceFiles(inputs)
  }

  // ---------------------------------------------------------------- Shape of the file list

  lemma FilesAreOk(inputs: Inputs)
    requires WellListed(inputs)
    ensures forall f <- Files(inputs) :: PlaceOk(f.place)
  {
  }

  ghost predicate Distinct(files: seq<File>) {
    forall i, j | 0 <= i < j < |files| :: files[i].place != files[j].place
  }

  lemma FilesAreDistinct(inputs: Inputs)
    requires WellListed(inputs)
    ensures Distinct(Files(inputs))
  {
  }

  lemma TopDocumentIsPath(i: nat)
    requires i < 3
    ensures AllClean(DOCUMENTS[i]) && DOCUMENTS[i] != [] && Shape(DOCUMENTS[i])
  {
    if i == 0 {
      assert Clean("LICENSE");
    } else if i == 1 {
      assert Clean("README.md");
    } else {
      assert Clean("packaging") && Clean("README.md");
    }
  }

  lemma SecurityDocumentIsPath(i: nat)
    requires 3 <= i < |DOCUMENTS|
    ensures AllClean(DOCUMENTS[i]) && DOCUMENTS[i] != [] && Shape(DOCUMENTS[i])
  {
    assert Clean("docs") && Clean("security");
    if i == 3 {
      assert Clean("linux-package-repository-trust.md");
    } else {
      assert Clean("macos-signing-notarization.md");
    }
  }

  lemma DocumentIsPath(i: nat)
    requires i < |DOCUMENTS|
    ensures AllClean(DOCUMENTS[i]) && DOCUMENTS[i] != [] && Shape(DOCUMENTS[i])
  {
    if i < 3 {
      TopDocumentIsPath(i);
    } else {
      SecurityDocumentIsPath(i);
    }
  }

  // Places are clean paths, and different places are different paths.
  lemma PlaceIsPath(p: Place)
    requires PlaceOk(p)
    ensures AllClean(Components(p)) && Components(p) != [] && Shape(Components(p))
    ensures p.Binary? <==> Components(p)[0] == "bin"
  {
    match p
    case Binary(i) => assert Clean("bin") && Clean(BINARY_NAMES[i]);
    case Release =>
    case Document(i) => DocumentIsPath(i);
    case Operation(_) => assert Clean("docs") && Clean("operations");
    case Service(_) => assert Clean("service");
  }

  lemma PlacesDiffer(p: Place, q: Place)
    requires PlaceOk(p) && PlaceOk(q) && Components(p) == Components(q)
    ensures p == q
  {
    PlaceIsPath(p);
    PlaceIsPath(q);
    assert p.Operation? ==> Components(p)[1] == "operations" && Components(p)[2] == p.name;
    assert q.Operation? ==> Components(q)[1] == "operations" && Components(q)[2] == q.name;
    assert p.Service? ==> Components(p)[0] == "service" && Components(p)[1] == p.name;
    assert q.Service? ==> Components(q)[0] == "service" && Components(q)[1] == q.name;
  }

  /** Where files may lie: three at the top, others one or two directories down. */
  predicate Shape(parts: seq<string>) {
    || (|parts| == 1 && parts[0] in {"RELEASE.txt", "LICENSE", "README.md"})
    || (|parts| == 2 && parts[0] in {"bin", "packaging", "service"})
    || (|parts| == 3 && parts[0] == "docs")
  }

  // No file lies where another needs a directory.
  lemma NoFileIsDirectory(p: Place, q: Place)
    requires PlaceOk(p) && PlaceOk(q)
    ensures !(Components(p) < Components(q))
  {
    PlaceIsPath(p);
    PlaceIsPath(q);
  }

  // ---------------------------------------------------------------- Entries

  lemma RootIsClean(inputs: Inputs)
    requires CheckedToken(inputs.version) && CheckedToken(inputs.targetArch) && inputs.targetOs in {"macos", "linux"}
    ensures Clean(Root(inputs)) && '\\' !in Root(inputs)
  {
    var root := Root(inputs);
    assert root[0] == 'w';
    assert forall i | 0 <= i < |root| :: TokenChar(root[i]);
  }

  /** The text of a path below the top-level directory; the empty path is that directory itself. */
  function Name(root: string, below: seq<string>): string { Join([root] + below) }

  lemma NameReads(root: string, below: seq<string>)
    requires Clean(root) && AllClean(below)
    ensures Parts(Name(root, below)) == [root] + below
    ensures Slashes(Name(root, below)) == |below|
    ensures SafeName(Name(root, below)) <==> '\\' !in root && forall c <- below :: '\\' !in c
  {
    PartsOfJoin([root] + below);
    SlashesOfJoin([root] + below);
    SafeJoin([root] + below);
    assert forall c :: c in [root] + below <==> c == root || c in below;
  }

  lemma NamesDiffer(root: string, a: seq<string>, b: seq<string>)
    requires Clean(root) && AllClean(a) && AllClean(b) && Name(root, a) == Name(root, b)
    ensures a == b
  {
    JoinIsInjective([root] + a, [root] + b);
    assert a == ([root] + a)[1..] && b == ([root] + b)[1..];
  }

  function DirectoryEntry(root: string, below: seq<string>): Entry {
    Entry(Name(root, below), None, V.EXECUTABLE_MODE)
  }

  function FileEntry(root: string, f: File): Entry {
    Entry(Name(root, Components(f.place)), Some(if f.source.Found? then f.source.data else []),
          if f.place.Binary? then V.EXECUTABLE_MODE else V.FILE_MODE)
  }

  /** A directory the archive needs: a proper prefix of some file's path. */
  ghost predicate IsDirectory(files: seq<File>, below: seq<string>) {
    exists f <- files :: below < Components(f.place)
  }

  /** Read files are bounded and binaries executable; the release text is generated, not read. */
  predicate Usable(f: File) {
    && f.source.Found? && (f.place.Binary? ==> f.source.executable)
    && (!f.place.Release? ==> |f.source.data| <= MAX_MEMBER_BYTES)
  }

  /** Exactly the files and the directories they need, once each, in archive order. */
  ghost predicate Complete(root: string, files: seq<File>, entries: seq<Entry>) {
    && (forall f <- files :: FileEntry(root, f) in entries)
    && (forall below | IsDirectory(files, below) :: DirectoryEntry(root, below) in entries)
    && (forall e <- entries :: (exists f <- files :: e == FileEntry(root, f))
                               || (exists below :: IsDirectory(files, below) && e == DirectoryEntry(root, below)))
    && NamesDistinct(entries)
    && Ordered(entries)
  }

  function TotalSize(entries: seq<Entry>): nat {
    if entries == [] then 0
    else
      var last := entries[|entries| - 1];
      TotalSize(entries[..|entries| - 1]) + if last.data.Some? then |last.data.value| else 0
  }

  // ---------------------------------------------------------------- The builder

  /** The strict ancestors of an entry name. */
  function Ancestors(name: string): set<string> {
    var parts := Parts(name);
    set k | 0 < k < |parts| :: Join(parts[..k])
  }

  lemma AncestorIn(root: string, below: seq<string>, up: seq<string>)
    requires Clean(root) && AllClean(below) && up < below
    ensures Name(root, up) in Ancestors(Name(root, below))
  {
    NameReads(root, below);
    var parts := [root] + below;
    assert up == below[..|up|] && parts[..|up| + 1] == [root] + up;
  }

  lemma AncestorIs(root: string, below: seq<string>, d: string) returns (up: seq<string>)
    requires Clean(root) && AllClean(below) && d in Ancestors(Name(root, below))
    ensures up < below && d == Name(root, up)
  {
    NameReads(root, below);
    var parts := [root] + below;
    var k :| 0 < k < |parts| && d == Join(parts[..k]);
    up := below[..k - 1];
    assert parts[..k] == [root] + up;
  }

  /** The entries before the missing directories are added: two directories and the files. */
  ghost predicate Started(root: string, files: seq<File>, entries: seq<Entry>, k: nat)
    requires k <= |files|
  {
    && |entries| == k + 2
    && entries[0] == DirectoryEntry(root, []) && entries[1] == DirectoryEntry(root, ["bin"])
    && forall i | 0 <= i < k :: entries[i + 2] == FileEntry(root, files[i])
  }

  /** A file list as the builder makes it. */
  ghost predicate FilesOk(files: seq<File>) {
    && Distinct(files) && (forall f <- files :: PlaceOk(f.place))
    && exists f <- files :: f.place.Binary?
  }

  lemma BuilderFilesOk(inputs: Inputs)
    requires WellListed(inputs)
    ensures FilesOk(Files(inputs))
  {
    FilesAreOk(inputs);
    FilesAreDistinct(inputs);
    assert Files(inputs)[0] in Files(inputs) && Files(inputs)[0].place.Binary?;
  }

  /** The components below the root of entry `i` of such a list. */
  function Below(files: seq<File>, i: nat): seq<string>
    requires i < |files| + 2
  {
    if i == 0 then [] else if i == 1 then ["bin"] else Components(files[i - 2].place)
  }

  lemma BelowIsClean(files: seq<File>, i: nat)
    requires FilesOk(files) && i < |files| + 2
    ensures AllClean(Below(files, i))
  {
    if i >= 2 {
      assert files[i - 2] in files;
      PlaceIsPath(files[i - 2].place);
    }
  }

  lemma StartedDistinct(root: string, files: seq<File>, entries: seq<Entry>)
    requires Clean(root) && FilesOk(files) && Started(root, files, entries, |files|)
    ensures NamesDistinct(entries)
  {
    forall i, j | 0 <= i < j < |entries|
      ensures entries[i].name != entries[j].name
    {
      BelowIsClean(files, i);
      BelowIsClean(files, j);
      if entries[i].name == entries[j].name {
        NamesDiffer(root, Below(files, i), Below(files, j));
        if j >= 2 {
          var q := files[j - 2];
          assert q in files;
          PlaceIsPath(q.place);
          if i >= 2 {
            assert files[i - 2] in files;
            PlacesDiffer(files[i - 2].place, q.place);
          }
        }
      }
    }
  }

  /** `directories` are the names of the directories the files need. */
  ghost predicate Needed(root: string, files: seq<File>, directories: set<string>) {
    forall d :: d in directories <==> exists below :: IsDirectory(files, below) && d == Name(root, below)
  }

  /** The top-level directory and the ancestors of the first `k` entries. */
  ghost predicate Climbed(root: string, entries: seq<Entry>, k: nat, directories: set<string>)
    requires k <= |entries|
  {
    forall d :: d in directories <==> d == Name(root, []) || exists i | 0 <= i < k :: d in Ancestors(entries[i].name)
  }

  lemma StartedName(root: string, files: seq<File>, entries: seq<Entry>, i: nat)
    requires Started(root, files, entries, |files|) && i < |entries|
    ensures entries[i].name == Name(root, Below(files, i))
    ensures i < 2 ==> entries[i] == DirectoryEntry(root, Below(files, i))
  {
  }

  lemma ClimbedIsNeeded(root: string, files: seq<File>, entries: seq<Entry>, i: nat, d: string)
    returns (below: seq<string>)
    requires Clean(root) && FilesOk(files) && Started(root, files, entries, |files|)
    requires i < |entries| && d in Ancestors(entries[i].name)
    ensures d == Name(root, below) && (below == [] || IsDirectory(files, below))
  {
    BelowIsClean(files, i);
    StartedName(root, files, entries, i);
    below := AncestorIs(root, Below(files, i), d);
    if i >= 2 {
      assert files[i - 2] in files;
    }
  }

  lemma NeededIsClimbed(root: string, files: seq<File>, entries: seq<Entry>, k: nat, below: seq<string>)
    requires Clean(root) && FilesOk(files) && Started(root, files, entries, |files|)
    requires k < |files| && below < Below(files, k + 2)
    ensures Name(root, below) in Ancestors(entries[k + 2].name)
  {
    BelowIsClean(files, k + 2);
    StartedName(root, files, entries, k + 2);
    AncestorIn(root, Below(files, k + 2), below);
  }

  lemma DirectoryOf(files: seq<File>, below: seq<string>) returns (k: nat)
    requires IsDirectory(files, below)
    ensures k < |files| && below < Below(files, k + 2)
  {
    var f :| f in files && below < Components(f.place);
    k :| 0 <= k < |files| && files[k] == f;
  }

  lemma TopIsNeeded(files: seq<File>)
    requires FilesOk(files)
    ensures IsDirectory(files, []) && IsDirectory(files, ["bin"])
  {
    var b :| b in files && b.place.Binary?;
    assert PlaceOk(b.place);
    assert [] < Components(b.place) && ["bin"] < Components(b.place);
  }

  lemma ClimbingFindsNeeded(root: string, files: seq<File>, entries: seq<Entry>, directories: set<string>)
    requires Clean(root) && FilesOk(files) && Started(root, files, entries, |files|)
    requires Climbed(root, entries, |entries|, directories)
    ensures Needed(root, files, directories)
  {
    TopIsNeeded(files);
    forall d | d in directories
      ensures exists below :: IsDirectory(files, below) && d == Name(root, below)
    {
      if d != Name(root, []) {
        var i :| 0 <= i < |entries| && d in Ancestors(entries[i].name);
        var below := ClimbedIsNeeded(root, files, entries, i, d);
      }
    }
    forall below | IsDirectory(files, below)
      ensures Name(root, below) in directories
    {
      var k := DirectoryOf(files, below);
      NeededIsClimbed(root, files, entries, k, below);
    }
  }

  lemma ClimbedOneMore(root: string, entries: seq<Entry>, k: nat, directories: set<string>)
    requires k < |entries| && Climbed(root, entries, k, directories)
    ensures Climbed(root, entries, k + 1, directories + Ancestors(entries[k].name))
  {
    forall d
      ensures d in directories + Ancestors(entries[k].name) <==>
              d == Name(root, []) || exists i | 0 <= i < k + 1 :: d in Ancestors(entries[i].name)
    {
      if i :| 0 <= i < k + 1 && d in Ancestors(entries[i].name) {
        assert i == k || i < k;
      }
    }
  }

  method ClimbAll(root: string, entries: seq<Entry>) returns (directories: set<string>)
    requires Clean(root)
    ensures Climbed(root, entries, |entries|, directories)
  {
    directories := {Name(root, [])};
    for k := 0 to |entries|
      invariant Climbed(root, entries, k, directories)
    {
      ClimbedOneMore(root, entries, k, directories);
      directories := directories + Ancestors(entries[k].name);
    }
  }

  function NamesOf(entries: seq<Entry>): set<string> { set e <- entries :: e.name }

  /** `entries` hold the started list and a directory entry for each name of `added`. */
  ghost predicate Extended(started: seq<Entry>, entries: seq<Entry>, added: set<string>) {
    && started <= entries && NamesDistinct(entries)
    && (forall d <- added :: Entry(d, None, V.EXECUTABLE_MODE) in entries[|started|..])
    && (forall e <- entries[|started|..] :: e.name in added && e == Entry(e.name, None, V.EXECUTABLE_MODE))
  }

  // The program adds them in sorted order. `CompleteIsUnique` shows that the order does not matter.
  method AddDirectories(started: seq<Entry>, missing: set<string>) returns (entries: seq<Entry>)
    requires NamesDistinct(started) && NamesOf(started) !! missing
    ensures Extended(started, entries, missing)
  {
    entries := started;
    var left := missing;
    while left != {}
      invariant left <= missing && Extended(started, entries, missing - left)
      decreases left
    {
      var d :| d in left;
      var e := Entry(d, None, V.EXECUTABLE_MODE);
      ExtendOne(started, entries, missing - left, d);
      entries := entries + [e];
      assert missing - (left - {d}) == missing - left + {d};
      left := left - {d};
    }
    assert missing - left == missing;
  }

  lemma ExtendOne(started: seq<Entry>, entries: seq<Entry>, added: set<string>, d: string)
    requires Extended(started, entries, added) && d !in added && d !in NamesOf(started)
    ensures Extended(started, entries + [Entry(d, None, V.EXECUTABLE_MODE)], added + {d})
  {
    var more := entries + [Entry(d, None, V.EXECUTABLE_MODE)];
    assert more[|started|..] == entries[|started|..] + [Entry(d, None, V.EXECUTABLE_MODE)];
    forall i | 0 <= i < |entries|
      ensures entries[i].name != d
    {
      if i < |started| {
        assert started[i] in started && started[i] == entries[i];
      } else {
        assert entries[i] == entries[|started|..][i - |started|];
      }
    }
  }

  lemma ExtendedIsComplete(root: string, files: seq<File>, started: seq<Entry>, entries: seq<Entry>,
                           directories: set<string>)
    requires Clean(root) && FilesOk(files) && Started(root, files, started, |files|)
    requires Needed(root, files, directories)
    requires Extended(started, entries, directories - NamesOf(started))
    ensures Complete(root, files, Sort(entries))
  {
    SortKeepsMembers(entries);
    SortKeepsDistinct(entries);
    SortOrders(entries);
    forall f <- files
      ensures FileEntry(root, f) in entries
    {
      var i :| 0 <= i < |files| && files[i] == f;
      assert entries[i + 2] == started[i + 2];
    }
    forall below | IsDirectory(files, below)
      ensures DirectoryEntry(root, below) in entries
    {
      DirectoryIsListed(root, files, started, entries, directories, below);
    }
    forall e <- entries
      ensures (exists f <- files :: e == FileEntry(root, f))
              || (exists below :: IsDirectory(files, below) && e == DirectoryEntry(root, below))
    {
      var i :| 0 <= i < |entries| && entries[i] == e;
      if i >= |started| {
        assert e in entries[|started|..] by { assert entries[|started|..][i - |started|] == e; }
        assert e.name in directories;
      } else if i >= 2 {
        assert e == started[i] == FileEntry(root, files[i - 2]) && files[i - 2] in files;
      } else {
        TopIsNeeded(files);
        assert e == started[i];
      }
    }
  }

  lemma DirectoryIsListed(root: string, files: seq<File>, started: seq<Entry>, entries: seq<Entry>,
                          directories: set<string>, below: seq<string>)
    requires Clean(root) && FilesOk(files) && Started(root, files, started, |files|)
    requires Needed(root, files, directories) && IsDirectory(files, below)
    requires Extended(started, entries, directories - NamesOf(started))
    ensures DirectoryEntry(root, below) in entries
  {
    var d := Name(root, below);
    assert d in directories;
    if d in NamesOf(started) {
      var i := StartedDirectory(root, files, started, below);
      assert entries[i] == started[i];
    } else {
      assert Entry(d, None, V.EXECUTABLE_MODE) in entries[|started|..];
    }
  }

  lemma StartedDirectory(root: string, files: seq<File>, started: seq<Entry>, below: seq<string>) returns (i: nat)
    requires Clean(root) && FilesOk(files) && Started(root, files, started, |files|)
    requires IsDirectory(files, below) && Name(root, below) in NamesOf(started)
    ensures i < |started| && started[i] == DirectoryEntry(root, below)
  {
    i :| 0 <= i < |started| && started[i].name == Name(root, below);
    var k := DirectoryOf(files, below);
    StartedNameIsDirectory(root, files, started, i, k, below);
  }

  lemma PrefixIsClean(parts: seq<string>, below: seq<string>)
    requires AllClean(parts) && below < parts
    ensures AllClean(below)
  {
  }

  lemma NamedLike(root: string, files: seq<File>, started: seq<Entry>, i: nat, k: nat, below: seq<string>)
    requires Clean(root) && FilesOk(files) && Started(root, files, started, |files|)
    requires i < |started| && started[i].name == Name(root, below)
    requires k < |files| && below < Below(files, k + 2)
    ensures below == Below(files, i)
    ensures i < 2 ==> started[i] == DirectoryEntry(root, below)
  {
    BelowIsClean(files, k + 2);
    PrefixIsClean(Below(files, k + 2), below);
    BelowIsClean(files, i);
    StartedName(root, files, started, i);
    NamesDiffer(root, below, Below(files, i));
  }

  lemma StartedNameIsDirectory(root: string, files: seq<File>, started: seq<Entry>, i: nat, k: nat, below: seq<string>)
    requires Clean(root) && FilesOk(files) && Started(root, files, started, |files|)
    requires i < |started| && started[i].name == Name(root, below)
    requires k < |files| && below < Below(files, k + 2)
    ensures started[i] == DirectoryEntry(root, below)
  {
    NamedLike(root, files, started, i, k, below);
    if i >= 2 {
      NotAFile(files, i - 2, k);
    }
  }

  lemma NotAFile(files: seq<File>, i: nat, k: nat)
    requires FilesOk(files) && i < |files| && k < |files|
    ensures !(Below(files, i + 2) < Below(files, k + 2))
  {
    assert files[i] in files && files[k] in files;
    NoFileIsDirectory(files[i].place, files[k].place);
  }

  /** The builder's own limits. */
  predicate WithinLimits(entries: seq<Entry>) {
    |entries| <= V.MAX_MEMBERS && TotalSize(entries) <= V.MAX_TOTAL_BYTES
  }

  predicate TokensOk(inputs: Inputs) { CheckedToken(inputs.version) && CheckedToken(inputs.targetArch) }

  lemma StartedOneMore(root: string, files: seq<File>, entries: seq<Entry>, k: nat)
    requires k < |files| && Started(root, files, entries, k)
    ensures Started(root, files, entries + [FileEntry(root, files[k])], k + 1)
  {
  }

  method StartEntries(root: string, files: seq<File>) returns (usable: bool, started: seq<Entry>)
    ensures usable ==> forall i | 0 <= i < |files| :: Usable(files[i])
    ensures !usable ==> exists i | 0 <= i < |files| :: !Usable(files[i])
    ensures usable ==> Started(root, files, started, |files|)
  {
    started := [DirectoryEntry(root, []), DirectoryEntry(root, ["bin"])];
    for i := 0 to |files|
      invariant Started(root, files, started, i)
      invariant forall k | 0 <= k < i :: Usable(files[k])
    {
      if !Usable(files[i]) {
        return false, started;
      }
      StartedOneMore(root, files, started, i);
      started := started + [FileEntry(root, files[i])];
    }
    return true, started;
  }

  // ---------------------------------------------------------------- One archive for each input

  lemma CompleteHasMembers(root: string, files: seq<File>, a: seq<Entry>, b: seq<Entry>)
    requires Complete(root, files, a) && Complete(root, files, b)
    ensures forall e <- a :: e in b
  {
  }

  // The files determine the list of entries, whatever order they are gathered in.
  lemma CompleteIsUnique(root: string, files: seq<File>, a: seq<Entry>, b: seq<Entry>)
    requires Complete(root, files, a) && Complete(root, files, b)
    ensures a == b
  {
    CompleteHasMembers(root, files, a, b);
    CompleteHasMembers(root, files, b, a);
    OrderedIsUnique(a, b);
  }

  function StartedList(root: string, files: seq<File>): (started: seq<Entry>)
    ensures Started(root, files, started, |files|)
  {
    [DirectoryEntry(root, []), DirectoryEntry(root, ["bin"])]
    + seq(|files|, i requires 0 <= i < |files| => FileEntry(root, files[i]))
  }

  lemma {:induction false} ExtensionExists(started: seq<Entry>, missing: set<string>) returns (entries: seq<Entry>)
    requires NamesDistinct(started) && NamesOf(started) !! missing
    ensures Extended(started, entries, missing)
    decreases missing
  {
    entries := started;
    if missing != {} {
      var d :| d in missing;
      var rest := missing - {d};
      entries := ExtensionExists(started, rest);
      ExtendOne(started, entries, rest, d);
      assert rest + {d} == missing;
      entries := entries + [Entry(d, None, V.EXECUTABLE_MODE)];
    }
  }

  lemma CompleteExists(root: string, files: seq<File>) returns (entries: seq<Entry>)
    requires Clean(root) && FilesOk(files)
    ensures Complete(root, files, entries)
  {
    var started := StartedList(root, files);
    var directories := {Name(root, [])} + set i, d | 0 <= i < |started| && d in Ancestors(started[i].name) :: d;
    assert Climbed(root, started, |started|, directories);
    ClimbingFindsNeeded(root, files, started, directories);
    StartedDistinct(root, files, started);
    entries := ExtensionExists(started, directories - NamesOf(started));
    ExtendedIsComplete(root, files, started, entries, directories);
    entries := Sort(entries);
  }

  /** The entries of an archive of these files. */
  ghost function EntriesOf(root: string, files: seq<File>): (entries: seq<Entry>)
    requires Clean(root) && FilesOk(files)
    ensures Complete(root, files, entries)
  {
    assert exists entries :: Complete(root, files, entries) by {
      var entries := CompleteExists(root, files);
    }
    var entries :| Complete(root, files, entries);
    entries
  }

  /** When the builder produces an archive. */
  ghost predicate Buildable(inputs: Inputs)
    requires WellListed(inputs)
  {
    && TokensOk(inputs) && (forall f <- Files(inputs) :: Usable(f))
    && (RootIsClean(inputs); BuilderFilesOk(inputs); WithinLimits(EntriesOf(Root(inputs), Files(inputs))))
  }

  /** The one list of entries of a buildable archive. */
  ghost function ArchiveOf(inputs: Inputs): seq<Entry>
    requires WellListed(inputs) && Buildable(inputs)
  {
    RootIsClean(inputs);
    BuilderFilesOk(inputs);
    EntriesOf(Root(inputs), Files(inputs))
  }

  // The builder refuses exactly what is not buildable, and its result is a function of its inputs.
  method BuildEntries(inputs: Inputs) returns (r: Option<seq<Entry>>)
    requires WellListed(inputs)
    ensures r == if Buildable(inputs) then Some(ArchiveOf(inputs)) else None
    ensures r.Some? ==> Complete(Root(inputs), Files(inputs), r.value) && WithinLimits(r.value)
  {
    if !TokensOk(inputs) {
      return None;
    }
    var root, files := Root(inputs), Files(inputs);
    RootIsClean(inputs);
    BuilderFilesOk(inputs);
    var entries := EntriesOfFiles(root, files);
    return if entries.Some? && WithinLimits(entries.value) then entries else None;
  }

  method EntriesOfFiles(root: string, files: seq<File>) returns (r: Option<seq<Entry>>)
    requires Clean(root) && FilesOk(files)
    ensures r == if forall f <- files :: Usable(f) then Some(EntriesOf(root, files)) else None
  {
    var usable, started := StartEntries(root, files);
    if !usable {
      var i :| 0 <= i < |files| && !Usable(files[i]);
      assert files[i] in files;
      return None;
    }
    var directories := ClimbAll(root, started);
    ClimbingFindsNeeded(root, files, started, directories);
    StartedDistinct(root, files, started);
    var entries := AddDirectories(started, directories - NamesOf(started));
    ExtendedIsComplete(root, files, started, entries, directories);
    entries := Sort(entries);
    CompleteIsUnique(root, files, entries, EntriesOf(root, files));
    return Some(entries);
  }
}
