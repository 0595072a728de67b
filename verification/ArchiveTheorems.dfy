/** What every archive the builder emits looks like, and when the verifier accepts it. */
module ArchiveTheorems {
  import opened ArchiveBuilder
  import opened ArchiveOrder
  import opened ArchivePaths
  import opened ReleaseLimits
  import opened Wrappers
  import V = ArchiveVerifier

  // ---------------------------------------------------------------- A tree in parent-first order

  /** The components below the root of an entry, and the file it stands for if any. */
  ghost predicate Describes(root: string, files: seq<File>, e: Entry, below: seq<string>) {
    || (exists f <- files :: e == FileEntry(root, f) && below == Components(f.place))
    || (IsDirectory(files, below) && e == DirectoryEntry(root, below))
  }

  lemma EntryIsDescribed(root: string, files: seq<File>, entries: seq<Entry>, e: Entry) returns (below: seq<string>)
    requires FilesOk(files) && Complete(root, files, entries) && e in entries
    ensures Describes(root, files, e, below) && AllClean(below) && e.name == Name(root, below)
  {
    if f :| f in files && e == FileEntry(root, f) {
      below := Components(f.place);
      PlaceIsPath(f.place);
    } else {
      below :| IsDirectory(files, below) && e == DirectoryEntry(root, below);
      DirectoryIsClean(files, below);
    }
  }

  lemma DirectoryIsClean(files: seq<File>, below: seq<string>)
    requires FilesOk(files) && IsDirectory(files, below)
    ensures AllClean(below)
  {
    var f :| f in files && below < Components(f.place);
    PlaceIsPath(f.place);
    PrefixIsClean(Components(f.place), below);
  }

  lemma ParentIsDirectory(root: string, files: seq<File>, e: Entry, below: seq<string>)
    requires Describes(root, files, e, below) && below != []
    ensures IsDirectory(files, below[..|below| - 1])
  {
    var up := below[..|below| - 1];
    if f :| f in files && e == FileEntry(root, f) && below == Components(f.place) {
      assert up < Components(f.place);
    } else {
      var f :| f in files && below < Components(f.place);
      assert up < Components(f.place);
    }
  }

  lemma FewerSlashesFirst(root: string, below: seq<string>)
    requires Clean(root) && AllClean(below) && below != []
    ensures Slashes(Name(root, below[..|below| - 1])) < Slashes(Name(root, below))
  {
    var up := below[..|below| - 1];
    NameReads(root, below);
    PrefixIsClean(below, up);
    NameReads(root, up);
  }

  // Every entry other than the top-level directory comes after the directory that contains it; no
  // name occurs twice.
  lemma ParentsComeFirst(root: string, files: seq<File>, entries: seq<Entry>, i: nat)
    returns (below: seq<string>, parent: nat)
    requires Clean(root) && FilesOk(files) && Complete(root, files, entries) && i < |entries|
    ensures entries[i].name == Name(root, below) && NamesDistinct(entries)
    ensures below != [] ==> parent < i && entries[parent] == DirectoryEntry(root, below[..|below| - 1])
  {
    below := EntryIsDescribed(root, files, entries, entries[i]);
    parent := 0;
    if below != [] {
      ParentIsDirectory(root, files, entries[i], below);
      parent := ListedAt(root, files, entries, below[..|below| - 1]);
      FewerSlashesFirst(root, below);
      OrderedBySlashes(entries, parent, i);
    }
  }

  lemma OrderedBySlashes(entries: seq<Entry>, i: nat, j: nat)
    requires Ordered(entries) && i < |entries| && j < |entries|
    requires Slashes(entries[i].name) < Slashes(entries[j].name)
    ensures i < j
  {
  }

  lemma ListedAt(root: string, files: seq<File>, entries: seq<Entry>, below: seq<string>) returns (i: nat)
    requires Complete(root, files, entries) && IsDirectory(files, below)
    ensures i < |entries| && entries[i] == DirectoryEntry(root, below)
  {
    assert DirectoryEntry(root, below) in entries;
    i :| 0 <= i < |entries| && entries[i] == DirectoryEntry(root, below);
  }

  // ---------------------------------------------------------------- The verifier's view

  function Member(e: Entry, epoch: nat): V.Member {
    V.Member(e.name, if e.data.None? then V.Directory else V.Regular, if e.data.None? then 0 else |e.data.value|,
             e.mode, epoch, 0, 0)
  }

  /** The members of the tar file the builder writes. */
  function Members(entries: seq<Entry>, epoch: nat): (ms: seq<V.Member>)
    ensures |ms| == |entries| && forall i | 0 <= i < |entries| :: ms[i] == Member(entries[i], epoch)
  {
    seq(|entries|, i requires 0 <= i < |entries| => Member(entries[i], epoch))
  }

  predicate Plain(below: seq<string>) { forall i | 0 <= i < |below| :: '\\' !in below[i] }

  /** Directories and binaries are executable, other files are not. */
  predicate ModeFits(e: Entry, below: seq<string>) {
    e.mode == if e.data.None? || (|below| == 2 && below[0] == "bin") then V.EXECUTABLE_MODE else V.FILE_MODE
  }

  lemma ReadsAs(root: string, below: seq<string>, e: Entry, epoch: nat)
    requires Clean(root) && '\\' !in root && AllClean(below) && e.name == Name(root, below)
    ensures var r := V.Read(Member(e, epoch));
            && r.name == e.name && r.root == root && r.mtime == epoch
            && r.size == (if e.data.Some? then |e.data.value| else 0)
            && r.binary == (if |below| == 2 && below[0] == "bin" then Some(below[1]) else None)
            && (r.ok <==> (Plain(below) && r.size <= MAX_MEMBER_BYTES && ModeFits(e, below)))
  {
    NameReads(root, below);
    var parts := [root] + below;
    assert |parts| == 3 ==> parts[1] == below[0] && parts[2] == below[1];
    assert Plain(below) <==> forall c <- below :: '\\' !in c;
  }

  lemma FileReads(root: string, f: File, epoch: nat)
    requires Clean(root) && '\\' !in root && PlaceOk(f.place) && Usable(f)
    ensures var r := V.Read(Member(FileEntry(root, f), epoch));
            && (r.ok <==> Plain(Components(f.place)) && |f.source.data| <= MAX_MEMBER_BYTES)
            && r.binary == (if f.place.Binary? then Some(BINARY_NAMES[f.place.index]) else None)
  {
    var below := Components(f.place);
    PlaceIsPath(f.place);
    ReadsAs(root, below, FileEntry(root, f), epoch);
    assert |below| == 2 && below[0] == "bin" <==> f.place.Binary?;
  }

  lemma DirectoryReads(root: string, files: seq<File>, below: seq<string>, epoch: nat)
    requires Clean(root) && '\\' !in root && FilesOk(files) && IsDirectory(files, below)
    ensures var r := V.Read(Member(DirectoryEntry(root, below), epoch));
            && r.binary == None && ((forall f <- files :: Plain(Components(f.place))) ==> r.ok)
  {
    DirectoryIsClean(files, below);
    ReadsAs(root, below, DirectoryEntry(root, below), epoch);
    var f :| f in files && below < Components(f.place);
    PlaceIsPath(f.place);
    assert !(|below| == 2 && below[0] == "bin") by {
      assert |below| == 2 ==> below[0] == Components(f.place)[0] && |Components(f.place)| == 3;
    }
  }

  lemma {:induction false} SameTotals(entries: seq<Entry>, epoch: nat, k: nat)
    requires k <= |entries|
    ensures V.TotalSize(V.ReadAll(Members(entries, epoch)), k) == TotalSize(entries[..k])
  {
    if k > 0 {
      SameTotals(entries, epoch, k - 1);
      assert entries[..k][..k - 1] == entries[..k - 1];
    }
  }

  /** Every file's name is free of backslashes and its content within the member bound. */
  predicate Portable(f: File) {
    Plain(Components(f.place)) && f.source.Found? && |f.source.data| <= MAX_MEMBER_BYTES
  }

  /** What the verifier reads off an entry. */
  function Seen(e: Entry, epoch: nat): V.Reading { V.Read(Member(e, epoch)) }

  lemma SeenAt(entries: seq<Entry>, epoch: nat)
    ensures var rs := V.ReadAll(Members(entries, epoch));
            |rs| == |entries| && forall i | 0 <= i < |rs| :: rs[i] == Seen(entries[i], epoch)
  {
  }

  lemma OkEntryIsPortable(root: string, f: File, epoch: nat)
    requires Clean(root) && '\\' !in root && PlaceOk(f.place) && Usable(f)
    ensures Seen(FileEntry(root, f), epoch).ok <==> Portable(f)
  {
    FileReads(root, f, epoch);
  }

  lemma PortableEntryIsOk(root: string, files: seq<File>, entries: seq<Entry>, e: Entry, epoch: nat)
    requires Clean(root) && '\\' !in root && FilesOk(files) && Complete(root, files, entries) && e in entries
    requires forall f <- files :: Usable(f) && Portable(f)
    ensures Seen(e, epoch).ok
  {
    if f :| f in files && e == FileEntry(root, f) {
      OkEntryIsPortable(root, f, epoch);
    } else {
      var below :| IsDirectory(files, below) && e == DirectoryEntry(root, below);
      DirectoryReads(root, files, below, epoch);
    }
  }

  lemma MembersAreOk(root: string, files: seq<File>, entries: seq<Entry>, epoch: nat)
    requires Clean(root) && '\\' !in root && FilesOk(files) && Complete(root, files, entries)
    requires forall f <- files :: Usable(f)
    ensures (forall e <- entries :: Seen(e, epoch).ok) <==> forall f <- files :: Portable(f)
  {
    if forall e <- entries :: Seen(e, epoch).ok {
      forall f <- files
        ensures Portable(f)
      {
        OkEntryIsPortable(root, f, epoch);
      }
    }
    if forall f <- files :: Portable(f) {
      forall e <- entries
        ensures Seen(e, epoch).ok
      {
        PortableEntryIsOk(root, files, entries, e, epoch);
      }
    }
  }

  lemma BinaryEntry(root: string, files: seq<File>, entries: seq<Entry>, e: Entry, epoch: nat)
    requires Clean(root) && '\\' !in root && FilesOk(files) && Complete(root, files, entries) && e in entries
    requires forall f <- files :: Usable(f)
    ensures Seen(e, epoch).binary.Some? ==> Seen(e, epoch).binary.value in V.BINARIES
  {
    if f :| f in files && e == FileEntry(root, f) {
      FileReads(root, f, epoch);
    } else {
      var below :| IsDirectory(files, below) && e == DirectoryEntry(root, below);
      DirectoryReads(root, files, below, epoch);
    }
  }

  lemma BinaryIsPresent(root: string, files: seq<File>, entries: seq<Entry>, f: File, epoch: nat)
    requires Clean(root) && '\\' !in root && FilesOk(files) && Complete(root, files, entries)
    requires f in files && Usable(f) && f.place.Binary?
    ensures V.HasBinary(V.ReadAll(Members(entries, epoch)), BINARY_NAMES[f.place.index])
  {
    var i :| 0 <= i < |entries| && entries[i] == FileEntry(root, f);
    FileReads(root, f, epoch);
    assert V.ReadAll(Members(entries, epoch))[i].binary == Some(BINARY_NAMES[f.place.index]);
  }

  lemma NoOtherBinaries(root: string, files: seq<File>, entries: seq<Entry>, epoch: nat, b: string)
    requires Clean(root) && '\\' !in root && FilesOk(files) && Complete(root, files, entries)
    requires forall f <- files :: Usable(f)
    requires V.HasBinary(V.ReadAll(Members(entries, epoch)), b)
    ensures b in V.BINARIES
  {
    var rs := V.ReadAll(Members(entries, epoch));
    var i :| 0 <= i < |rs| && rs[i].binary == Some(b);
    BinaryEntry(root, files, entries, entries[i], epoch);
  }

  lemma BinaryNames(b: string)
    ensures b in V.BINARIES <==> exists k | 0 <= k < |BINARY_NAMES| :: BINARY_NAMES[k] == b
  {
    assert BINARY_NAMES[0] == "wikisync" && BINARY_NAMES[1] == "wikisyncd" && BINARY_NAMES[2] == "wikisync-gui";
  }

  lemma BinariesAreExact(root: string, files: seq<File>, entries: seq<Entry>, epoch: nat)
    requires Clean(root) && '\\' !in root && FilesOk(files) && Complete(root, files, entries)
    requires forall f <- files :: Usable(f)
    requires |files| >= 3 && forall k | 0 <= k < 3 :: files[k].place == Binary(k)
    ensures forall b :: V.HasBinary(V.ReadAll(Members(entries, epoch)), b) <==> b in V.BINARIES
  {
    forall b
      ensures V.HasBinary(V.ReadAll(Members(entries, epoch)), b) <==> b in V.BINARIES
    {
      if V.HasBinary(V.ReadAll(Members(entries, epoch)), b) {
        NoOtherBinaries(root, files, entries, epoch, b);
      }
      BinaryNames(b);
      if b in V.BINARIES {
        var k :| 0 <= k < |BINARY_NAMES| && BINARY_NAMES[k] == b;
        BinaryIsPresent(root, files, entries, files[k], epoch);
      }
    }
  }

  lemma ShareRootAndTime(root: string, files: seq<File>, entries: seq<Entry>, epoch: nat)
    requires Clean(root) && '\\' !in root && FilesOk(files) && Complete(root, files, entries)
    ensures var rs := V.ReadAll(Members(entries, epoch));
            V.RootedAt(rs, root) && forall i | 0 <= i < |rs| :: rs[i].mtime == epoch && rs[i].name == entries[i].name
  {
    var rs := V.ReadAll(Members(entries, epoch));
    forall i | 0 <= i < |rs|
      ensures rs[i].root == root && rs[i].mtime == epoch && rs[i].name == entries[i].name
    {
      var below := EntryIsDescribed(root, files, entries, entries[i]);
      ReadsAs(root, below, entries[i], epoch);
    }
    var f :| f in files && f.place.Binary?;
    assert FileEntry(root, f) in entries;
  }

  lemma FileIsNamed(root: string, files: seq<File>, entries: seq<Entry>, f: File, epoch: nat)
    requires Complete(root, files, entries) && f in files
    ensures V.HasName(V.ReadAll(Members(entries, epoch)), Name(root, Components(f.place)))
  {
    var i :| 0 <= i < |entries| && entries[i] == FileEntry(root, f);
    assert V.ReadAll(Members(entries, epoch))[i].name == Name(root, Components(f.place));
  }

  // The required names, spelled with slashes, are the names of five of the builder's files.
  lemma RequiredPath(root: string, path: string) returns (p: Place)
    requires path in V.REQUIRED
    ensures p == Release || (p.Document? && p.index < |DOCUMENTS|)
    ensures root + "/" + path == Name(root, Components(p))
  {
    if path == "RELEASE.txt" {
      p := Release;
      OnePart(root, path);
    } else if path == "LICENSE" {
      p := Document(0);
      OnePart(root, path);
    } else if path == "README.md" {
      p := Document(1);
      OnePart(root, path);
    } else if path == V.SECURITY_DOCUMENTS + "linux-package-repository-trust.md" {
      p := Document(3);
      SecurityPath(root, "linux-package-repository-trust.md");
    } else {
      p := Document(4);
      SecurityPath(root, "macos-signing-notarization.md");
    }
  }

  lemma SecurityPath(root: string, name: string)
    ensures root + "/" + (V.SECURITY_DOCUMENTS + name) == Name(root, ["docs", "security", name])
  {
    ThreeParts(root, "docs", "security", name);
    assert "docs" + "/" == "docs/" && "security" + "/" == "security/";
  }

  lemma OnePart(root: string, part: string)
    ensures Name(root, [part]) == root + "/" + part
  {
    var all := [root] + [part];
    assert all[1..] == [part];
    assert Join(all) == root + "/" + Join([part]);
  }

  lemma ThreeParts(root: string, a: string, b: string, c: string)
    ensures Name(root, [a, b, c]) == root + "/" + ((a + "/") + (b + "/") + c)
  {
    var all := [root] + [a, b, c];
    assert all[1..] == [a, b, c] && [a, b, c][1..] == [b, c] && [b, c][1..] == [c];
    assert Join([b, c]) == b + "/" + c;
    assert Join([a, b, c]) == a + "/" + Join([b, c]);
    assert Join(all) == root + "/" + Join([a, b, c]);
  }

  /** Where in the file list each kind of file stands. */
  ghost predicate Arranged(inputs: Inputs, files: seq<File>) {
    && |files| == 9 + |inputs.operations| + |inputs.services|
    && (forall i | 0 <= i < 3 :: files[i].place == Binary(i))
    && files[3] == File(Release, Found(inputs.release, false))
    && (forall i | 0 <= i < 5 :: files[4 + i].place == Document(i))
    && (forall i | 0 <= i < |inputs.operations| :: files[9 + i].place == Operation(inputs.operations[i].0))
    && (forall i | 0 <= i < |inputs.services| ::
          files[9 + |inputs.operations| + i].place == Service(inputs.services[i].0))
  }

  lemma FilesAreArranged(inputs: Inputs)
    requires WellListed(inputs)
    ensures Arranged(inputs, Files(inputs))
  {
  }

  lemma RequiredArePresent(inputs: Inputs, root: string, files: seq<File>, entries: seq<Entry>, epoch: nat)
    requires Arranged(inputs, files) && Complete(root, files, entries)
    ensures forall path <- V.REQUIRED :: V.HasName(V.ReadAll(Members(entries, epoch)), root + "/" + path)
  {
    forall path <- V.REQUIRED
      ensures V.HasName(V.ReadAll(Members(entries, epoch)), root + "/" + path)
    {
      var p := RequiredPath(root, path);
      var at := if p == Release then 3 else 4 + p.index;
      assert files[at].place == p && files[at] in files;
      FileIsNamed(root, files, entries, files[at], epoch);
    }
  }

  predicate PortableInputs(inputs: Inputs) {
    && |inputs.release| <= MAX_MEMBER_BYTES
    && (forall i | 0 <= i < |inputs.operations| :: '\\' !in inputs.operations[i].0)
    && (forall i | 0 <= i < |inputs.services| :: '\\' !in inputs.services[i].0)
  }

  // Whatever the builder emits, the verifier accepts it exactly when no listed file name contains a
  // backslash and the generated release text stays within the member bound: the two checks of the
  // verifier that the builder does not make itself.
  lemma BuiltEntriesAreAccepted(inputs: Inputs, epoch: nat)
    requires WellListed(inputs) && Buildable(inputs)
    ensures V.Acceptable(Members(ArchiveOf(inputs), epoch), Root(inputs) + ".tar.gz", V.REQUIRED) <==>
            PortableInputs(inputs)
  {
    RootIsClean(inputs);
    BuilderFilesOk(inputs);
    FilesAreArranged(inputs);
    ArrangedArchivesAreAccepted(inputs, Root(inputs), Files(inputs), ArchiveOf(inputs), epoch);
  }

  lemma ArrangedArchivesAreAccepted(inputs: Inputs, root: string, files: seq<File>, entries: seq<Entry>, epoch: nat)
    requires Clean(root) && '\\' !in root && FilesOk(files) && Arranged(inputs, files)
    requires forall f <- files :: Usable(f)
    requires Complete(root, files, entries) && WithinLimits(entries)
    ensures V.Acceptable(Members(entries, epoch), root + ".tar.gz", V.REQUIRED) <==> PortableInputs(inputs)
  {
    MembersAreOk(root, files, entries, epoch);
    BinariesAreExact(root, files, entries, epoch);
    ShareRootAndTime(root, files, entries, epoch);
    RequiredArePresent(inputs, root, files, entries, epoch);
    PortableFiles(inputs, files);
    LayoutOfEntries(root, entries, epoch);
  }

  lemma LayoutOfEntries(root: string, entries: seq<Entry>, epoch: nat)
    requires NamesDistinct(entries) && WithinLimits(entries)
    requires var rs := V.ReadAll(Members(entries, epoch));
             && (forall b :: V.HasBinary(rs, b) <==> b in V.BINARIES)
             && V.RootedAt(rs, root)
             && (forall i | 0 <= i < |rs| :: rs[i].mtime == epoch && rs[i].name == entries[i].name)
             && (forall path <- V.REQUIRED :: V.HasName(rs, root + "/" + path))
    ensures V.Acceptable(Members(entries, epoch), root + ".tar.gz", V.REQUIRED)
            <==> forall e <- entries :: Seen(e, epoch).ok
  {
    var rs := V.ReadAll(Members(entries, epoch));
    ScansIfOk(entries, epoch);
    LayoutWhen(rs, root, epoch, V.REQUIRED);
  }

  lemma LayoutWhen(rs: seq<V.Reading>, root: string, epoch: nat, required: set<string>)
    requires V.RootedAt(rs, root) && (forall b :: V.HasBinary(rs, b) <==> b in V.BINARIES)
    requires forall i | 0 <= i < |rs| :: rs[i].mtime == epoch
    requires forall path <- required :: V.HasName(rs, root + "/" + path)
    ensures V.Layout(rs, root + ".tar.gz", required) <==> V.Scans(rs, |rs|)
  {
    SameAnyRoot(rs, root);
  }

  lemma AllSeen(entries: seq<Entry>, rs: seq<V.Reading>, epoch: nat)
    requires |rs| == |entries| && forall i | 0 <= i < |rs| :: rs[i] == Seen(entries[i], epoch)
    ensures (forall i | 0 <= i < |rs| :: rs[i].ok) <==> forall e <- entries :: Seen(e, epoch).ok
  {
    if forall e <- entries :: Seen(e, epoch).ok {
      forall i | 0 <= i < |rs|
        ensures rs[i].ok
      {
        assert entries[i] in entries;
      }
    }
  }

  lemma ScansWhenOk(entries: seq<Entry>, rs: seq<V.Reading>)
    requires NamesDistinct(entries) && |entries| <= V.MAX_MEMBERS
    requires |rs| == |entries| && V.TotalSize(rs, |rs|) <= V.MAX_TOTAL_BYTES
    requires forall i | 0 <= i < |rs| :: rs[i].name == entries[i].name
    ensures V.Scans(rs, |rs|) <==> forall i | 0 <= i < |rs| :: rs[i].ok
  {
  }

  lemma ScansIfOk(entries: seq<Entry>, epoch: nat)
    requires NamesDistinct(entries) && WithinLimits(entries)
    requires var rs := V.ReadAll(Members(entries, epoch));
             forall i | 0 <= i < |rs| :: rs[i].name == entries[i].name
    ensures var rs := V.ReadAll(Members(entries, epoch));
            V.Scans(rs, |rs|) <==> forall e <- entries :: Seen(e, epoch).ok
  {
    var rs := V.ReadAll(Members(entries, epoch));
    SameTotals(entries, epoch, |entries|);
    assert entries[..|entries|] == entries;
    SeenAt(entries, epoch);
    AllSeen(entries, rs, epoch);
    ScansWhenOk(entries, rs);
  }

  lemma SameAnyRoot(rs: seq<V.Reading>, root: string)
    requires V.RootedAt(rs, root)
    ensures forall other :: V.RootedAt(rs, other) ==> other == root
  {
    assert rs[0].root == root;
  }

  lemma DocumentIsPlain(i: nat)
    requires i < |DOCUMENTS|
    ensures Plain(DOCUMENTS[i])
  {
    if i == 0 {
    } else if i == 1 {
    } else if i == 2 {
    } else if i == 3 {
    } else {
    }
  }

  lemma PlaceIsPlain(p: Place)
    requires PlaceOk(p)
    ensures Plain(Components(p)) <==>
            (p.Operation? ==> '\\' !in p.name) && (p.Service? ==> '\\' !in p.name)
  {
    match p
    case Operation(name) => assert Components(p)[2] == name;
    case Service(name) => assert Components(p)[1] == name;
    case Document(i) => DocumentIsPlain(i);
    case _ =>
  }

  lemma PortableFile(f: File)
    requires PlaceOk(f.place) && Usable(f)
    ensures Portable(f) <==>
            && |f.source.data| <= MAX_MEMBER_BYTES
            && (f.place.Operation? ==> '\\' !in f.place.name) && (f.place.Service? ==> '\\' !in f.place.name)
  {
    PlaceIsPlain(f.place);
  }

  lemma PortableFiles(inputs: Inputs, files: seq<File>)
    requires Arranged(inputs, files) && FilesOk(files) && forall f <- files :: Usable(f)
    ensures (forall f <- files :: Portable(f)) <==> PortableInputs(inputs)
  {
    forall i | 0 <= i < |files|
      ensures Portable(files[i]) <==>
              && (i == 3 ==> |inputs.release| <= MAX_MEMBER_BYTES)
              && (9 <= i < 9 + |inputs.operations| ==> '\\' !in inputs.operations[i - 9].0)
              && (9 + |inputs.operations| <= i ==> '\\' !in inputs.services[i - 9 - |inputs.operations|].0)
    {
      assert files[i] in files;
      PortableFile(files[i]);
      PlaceAt(inputs, files, i);
    }
    EachAndAll(inputs, files);
  }

  lemma PlaceAt(inputs: Inputs, files: seq<File>, i: nat)
    requires Arranged(inputs, files) && i < |files|
    ensures files[i].place ==
            if i < 3 then Binary(i) else if i == 3 then Release else if i < 9 then Document(i - 4)
            else if i < 9 + |inputs.operations| then Operation(inputs.operations[i - 9].0)
            else Service(inputs.services[i - 9 - |inputs.operations|].0)
  {
    if 4 <= i < 9 {
      assert files[4 + (i - 4)].place == Document(i - 4);
    } else if 9 <= i < 9 + |inputs.operations| {
      assert files[9 + (i - 9)].place == Operation(inputs.operations[i - 9].0);
    } else if i >= 9 {
      var k := i - 9 - |inputs.operations|;
      assert files[9 + |inputs.operations| + k].place == Service(inputs.services[k].0);
    }
  }

  lemma EachAndAll(inputs: Inputs, files: seq<File>)
    requires |files| == 9 + |inputs.operations| + |inputs.services|
    requires forall i | 0 <= i < |files| ::
               Portable(files[i]) <==>
               && (i == 3 ==> |inputs.release| <= MAX_MEMBER_BYTES)
               && (9 <= i < 9 + |inputs.operations| ==> '\\' !in inputs.operations[i - 9].0)
               && (9 + |inputs.operations| <= i ==> '\\' !in inputs.services[i - 9 - |inputs.operations|].0)
    ensures (forall f <- files :: Portable(f)) <==> PortableInputs(inputs)
  {
    if forall f <- files :: Portable(f) {
      assert Portable(files[3]);
      forall i | 0 <= i < |inputs.operations|
        ensures '\\' !in inputs.operations[i].0
      {
        assert Portable(files[9 + i]);
      }
      forall i | 0 <= i < |inputs.services|
        ensures '\\' !in inputs.services[i].0
      {
        assert Portable(files[9 + |inputs.operations| + i]);
      }
    }
  }
}
