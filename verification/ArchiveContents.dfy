/** What a built archive holds: every file under the path the program gives it, with its bytes and its mode. */
module ArchiveContents {
  import opened ArchiveBuilder
  import opened ArchiveOrder
  import opened ArchivePaths
  import opened Wrappers

  function DataOf(source: Source): Option<seq<byte>> { Some(if source.Found? then source.data else []) }

  /** The path of a file below the top-level directory. */
  function PlaceText(p: Place): string
    requires PlaceOk(p)
  {
    match p
    case Binary(i) => "bin/" + if i == 0 then "wikisync" else if i == 1 then "wikisyncd" else "wikisync-gui"
    case Release => "RELEASE.txt"
    case Document(i) =>
      if i == 0 then "LICENSE" else if i == 1 then "README.md" else if i == 2 then "packaging/" + "README.md"
      else "docs/" + "security/" + if i == 3 then "linux-package-repository-trust.md"
                                   else "macos-signing-notarization.md"
    case Operation(name) => "docs/" + "operations/" + name
    case Service(name) => "service/" + name
  }

  lemma JoinTwo(a: string, b: string)
    ensures Join([a, b]) == a + "/" + b
  {
    assert [a, b][1..] == [b];
  }

  lemma JoinThree(a: string, b: string, c: string)
    ensures Join([a, b, c]) == a + "/" + (b + "/" + c)
  {
    assert [a, b, c][1..] == [b, c];
    JoinTwo(b, c);
  }

  lemma JoinFour(a: string, b: string, c: string, d: string)
    ensures Join([a, b, c, d]) == a + "/" + (b + "/" + (c + "/" + d))
  {
    assert [a, b, c, d][1..] == [b, c, d];
    JoinThree(b, c, d);
  }

  lemma NameOfPlace(root: string, p: Place)
    requires PlaceOk(p)
    ensures Name(root, Components(p)) == root + "/" + PlaceText(p)
  {
    var parts := Components(p);
    if |parts| == 1 {
      assert [root] + parts == [root, parts[0]];
      JoinTwo(root, parts[0]);
    } else if |parts| == 2 {
      assert [root] + parts == [root, parts[0], parts[1]];
      JoinThree(root, parts[0], parts[1]);
      TwoParts(p);
    } else {
      ThreeComponents(p);
      assert [root] + parts == [root, parts[0], parts[1], parts[2]];
      JoinFour(root, parts[0], parts[1], parts[2]);
      ThreeParts(p);
    }
  }

  lemma ThreeComponents(p: Place)
    requires PlaceOk(p) && |Components(p)| != 1 && |Components(p)| != 2
    ensures |Components(p)| == 3
  {
  }

  lemma TwoParts(p: Place)
    requires PlaceOk(p) && |Components(p)| == 2
    ensures PlaceText(p) == Components(p)[0] + "/" + Components(p)[1]
  {
    match p
    case Binary(i) => assert "bin/" == "bin" + "/";
    case Document(i) => assert "packaging/" == "packaging" + "/";
    case Service(name) => assert "service/" == "service" + "/";
  }

  lemma Nested(a: string, b: string, c: string, ab: string, bc: string)
    requires ab == a + "/" && bc == b + "/"
    ensures ab + bc + c == a + "/" + (b + "/" + c)
  {
  }

  lemma SlashLiterals()
    ensures "docs/" == "docs" + "/" && "security/" == "security" + "/" && "operations/" == "operations" + "/"
  {
  }

  lemma ThreeParts(p: Place)
    requires PlaceOk(p) && |Components(p)| == 3
    ensures PlaceText(p) == Components(p)[0] + "/" + (Components(p)[1] + "/" + Components(p)[2])
  {
    var parts := Components(p);
    SlashLiterals();
    Nested("docs", parts[1], parts[2], "docs/", parts[1] + "/");
  }

  /** An entry for the source at this path. */
  predicate EntryAt(e: Entry, root: string, path: string, source: Source, mode: nat) {
    e.name == root + "/" + path && e.data == DataOf(source) && e.mode == mode
  }

  lemma FileEntryAt(root: string, f: File, e: Entry)
    requires PlaceOk(f.place)
    ensures e == FileEntry(root, f) <==>
            EntryAt(e, root, PlaceText(f.place), f.source, if f.place.Binary? then 493 else 420)
  {
    NameOfPlace(root, f.place);
  }

  /** The nine files that every archive has. */
  function FixedPath(k: nat): string
    requires k < 9
  {
    if k == 0 then "bin/" + "wikisync" else if k == 1 then "bin/" + "wikisyncd"
    else if k == 2 then "bin/" + "wikisync-gui"
    else if k == 3 then "RELEASE.txt" else if k == 4 then "LICENSE" else if k == 5 then "README.md"
    else if k == 6 then "packaging/" + "README.md"
    else if k == 7 then "docs/" + "security/" + "linux-package-repository-trust.md"
    else "docs/" + "security/" + "macos-signing-notarization.md"
  }

  function FixedSource(inputs: Inputs, k: nat): Source
    requires |inputs.binaries| == 3 && |inputs.documents| == 5 && k < 9
  {
    if k < 3 then inputs.binaries[k] else if k == 3 then Found(inputs.release, false) else inputs.documents[k - 4]
  }

  ghost predicate IsFixed(inputs: Inputs, root: string, e: Entry)
    requires |inputs.binaries| == 3 && |inputs.documents| == 5
  {
    exists k | 0 <= k < 9 :: EntryAt(e, root, FixedPath(k), FixedSource(inputs, k), if k < 3 then 493 else 420)
  }

  ghost predicate IsListed(listing: seq<(string, Source)>, directory: string, root: string, e: Entry) {
    exists i | 0 <= i < |listing| :: EntryAt(e, root, directory + listing[i].0, listing[i].1, 420)
  }

  /** The entry is one of the fixed files, an operation guide or a service file. */
  ghost predicate IsContent(inputs: Inputs, root: string, e: Entry)
    requires |inputs.binaries| == 3 && |inputs.documents| == 5
  {
    || IsFixed(inputs, root, e) || IsListed(inputs.operations, "docs/" + "operations/", root, e)
    || IsListed(inputs.services, "service/", root, e)
  }

  ghost predicate FromFile(root: string, files: seq<File>, e: Entry) {
    exists k | 0 <= k < |files| :: e == FileEntry(root, files[k])
  }

  lemma FixedFile(inputs: Inputs, k: nat)
    requires WellListed(inputs) && k < 9
    ensures |Files(inputs)| == 9 + |inputs.operations| + |inputs.services|
    ensures var f := Files(inputs)[k];
            && PlaceOk(f.place) && PlaceText(f.place) == FixedPath(k) && f.source == FixedSource(inputs, k)
            && (f.place.Binary? <==> k < 3)
  {
    assert k < 3 ==> Files(inputs)[k] == BinaryFiles(inputs)[k];
    assert 4 <= k ==> Files(inputs)[k] == DocumentFiles(inputs)[k - 4];
  }

  lemma GuideFile(inputs: Inputs, i: nat)
    requires WellListed(inputs) && i < |inputs.operations|
    ensures |Files(inputs)| == 9 + |inputs.operations| + |inputs.services|
    ensures Files(inputs)[9 + i] == File(Operation(inputs.operations[i].0), inputs.operations[i].1)
  {
    assert Files(inputs)[9 + i] == OperationFiles(inputs)[i];
  }

  lemma ServiceFile(inputs: Inputs, i: nat)
    requires WellListed(inputs) && i < |inputs.services|
    ensures |Files(inputs)| == 9 + |inputs.operations| + |inputs.services|
    ensures Files(inputs)[9 + |inputs.operations| + i] == File(Service(inputs.services[i].0), inputs.services[i].1)
  {
    assert Files(inputs)[9 + |inputs.operations| + i] == ServiceFiles(inputs)[i];
  }

  lemma FixedIsFile(inputs: Inputs, root: string, e: Entry, k: nat)
    requires WellListed(inputs) && k < 9
    ensures |Files(inputs)| == 9 + |inputs.operations| + |inputs.services|
    ensures e == FileEntry(root, Files(inputs)[k]) <==>
            EntryAt(e, root, FixedPath(k), FixedSource(inputs, k), if k < 3 then 493 else 420)
  {
    FixedFile(inputs, k);
    FileEntryAt(root, Files(inputs)[k], e);
  }

  lemma GuideIsFile(inputs: Inputs, root: string, e: Entry, i: nat)
    requires WellListed(inputs) && i < |inputs.operations|
    ensures |Files(inputs)| == 9 + |inputs.operations| + |inputs.services|
    ensures e == FileEntry(root, Files(inputs)[9 + i]) <==>
            EntryAt(e, root, "docs/" + "operations/" + inputs.operations[i].0, inputs.operations[i].1, 420)
  {
    GuideFile(inputs, i);
    FileEntryAt(root, Files(inputs)[9 + i], e);
  }

  lemma ServiceIsFile(inputs: Inputs, root: string, e: Entry, i: nat)
    requires WellListed(inputs) && i < |inputs.services|
    ensures |Files(inputs)| == 9 + |inputs.operations| + |inputs.services|
    ensures e == FileEntry(root, Files(inputs)[9 + |inputs.operations| + i]) <==>
            EntryAt(e, root, "service/" + inputs.services[i].0, inputs.services[i].1, 420)
  {
    ServiceFile(inputs, i);
    FileEntryAt(root, Files(inputs)[9 + |inputs.operations| + i], e);
  }

  lemma FileIsContent(inputs: Inputs, root: string, e: Entry, k: nat)
    requires WellListed(inputs) && k < |Files(inputs)| && e == FileEntry(root, Files(inputs)[k])
    ensures IsContent(inputs, root, e)
  {
    FixedFile(inputs, 0);
    var a := |inputs.operations|;
    if k < 9 {
      FixedIsFile(inputs, root, e, k);
    } else if k < 9 + a {
      GuideIsFile(inputs, root, e, k - 9);
    } else {
      ServiceIsFile(inputs, root, e, k - 9 - a);
    }
  }

  lemma ContentIsFile(inputs: Inputs, root: string, e: Entry)
    requires WellListed(inputs) && IsContent(inputs, root, e)
    ensures FromFile(root, Files(inputs), e)
  {
    if IsFixed(inputs, root, e) {
      var k :| 0 <= k < 9 && EntryAt(e, root, FixedPath(k), FixedSource(inputs, k), if k < 3 then 493 else 420);
      FixedIsFile(inputs, root, e, k);
    } else if IsListed(inputs.operations, "docs/" + "operations/", root, e) {
      var i :| 0 <= i < |inputs.operations|
               && EntryAt(e, root, "docs/" + "operations/" + inputs.operations[i].0, inputs.operations[i].1, 420);
      GuideIsFile(inputs, root, e, i);
    } else {
      var i :| 0 <= i < |inputs.services|
               && EntryAt(e, root, "service/" + inputs.services[i].0, inputs.services[i].1, 420);
      ServiceIsFile(inputs, root, e, i);
    }
  }

  lemma EntriesWithData(root: string, files: seq<File>, entries: seq<Entry>, e: Entry)
    requires Complete(root, files, entries) && e.data.Some?
    ensures e in entries <==> FromFile(root, files, e)
  {
    if e in entries {
      var f :| f in files && e == FileEntry(root, f);
      var k :| 0 <= k < |files| && files[k] == f;
    }
    if FromFile(root, files, e) {
      var k :| 0 <= k < |files| && e == FileEntry(root, files[k]);
      assert files[k] in files;
    }
  }

  // The files in a built archive are exactly these: each source's bytes under its path, programs executable.
  lemma ContentsExactly(inputs: Inputs, e: Entry)
    requires WellListed(inputs) && Buildable(inputs) && e.data.Some?
    ensures e in ArchiveOf(inputs) <==> IsContent(inputs, Root(inputs), e)
  {
    var root, files := Root(inputs), Files(inputs);
    RootIsClean(inputs);
    BuilderFilesOk(inputs);
    EntriesWithData(root, files, ArchiveOf(inputs), e);
    if FromFile(root, files, e) {
      var k :| 0 <= k < |files| && e == FileEntry(root, files[k]);
      FileIsContent(inputs, root, e, k);
    }
    if IsContent(inputs, root, e) {
      ContentIsFile(inputs, root, e);
    }
  }
}
