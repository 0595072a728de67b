/**
 The layout of a release archive, said of the characters of its members' names. The verifier accepts exactly
 the archives of this layout.
 */
module ArchiveLayout {
  import opened ArchivePaths
  import opened ReleaseLimits
  import opened Wrappers
  import V = ArchiveVerifier

  // ---------------------------------------------------------------- Pieces of a name

  /** `piece` stands in the name between two slashes, or between a slash and an end, or alone. */
  ghost predicate HasPiece(name: string, piece: string) {
    || name == piece
    || (exists rest: string :: name == piece + "/" + rest)
    || (exists front: string :: name == front + "/" + piece)
    || (exists front: string, rest: string :: name == front + "/" + piece + "/" + rest)
  }

  /** No piece of the name is empty, `.` or `..`, and the name holds no backslash. */
  ghost predicate Safe(name: string) {
    !HasPiece(name, "") && !HasPiece(name, ".") && !HasPiece(name, "..") && '\\' !in name
  }

  lemma {:induction false} JoinOfSplit(s: string)
    ensures Join(Split(s)) == s
  {
    if s != "" {
      JoinOfSplit(s[1..]);
      var rest := Split(s[1..]);
      if s[0] == SLASH {
        assert ([""] + rest)[1..] == rest;
      } else {
        var pieces := [[s[0]] + rest[0]] + rest[1..];
        assert pieces[1..] == rest[1..];
        assert Join(pieces) == [s[0]] + Join(rest);
      }
      assert s == [s[0]] + s[1..];
    }
  }

  lemma {:induction false} SplitAtSlash(front: string, rest: string)
    ensures Split(front + "/" + rest) == Split(front) + Split(rest)
  {
    var s := front + "/" + rest;
    if front == "" {
      assert s[1..] == rest;
    } else {
      assert s[1..] == front[1..] + "/" + rest;
      SplitAtSlash(front[1..], rest);
    }
  }

  lemma {:induction false} PiecesHaveNoSlash(s: string, i: nat)
    requires i < |Split(s)|
    ensures SLASH !in Split(s)[i]
  {
    if s != "" {
      var rest := Split(s[1..]);
      if s[0] == SLASH {
        if i > 0 {
          PiecesHaveNoSlash(s[1..], i - 1);
        }
      } else {
        PiecesHaveNoSlash(s[1..], i);
      }
    }
  }

  lemma {:induction false} JoinOfTwo(a: seq<string>, b: seq<string>)
    requires a != [] && b != []
    ensures Join(a + b) == Join(a) + "/" + Join(b)
  {
    if |a| == 1 {
      assert (a + b)[1..] == b;
    } else {
      assert (a + b)[1..] == a[1..] + b;
      JoinOfTwo(a[1..], b);
    }
  }

  lemma PieceInSplit(name: string, piece: string)
    requires HasPiece(name, piece) && SLASH !in piece
    ensures piece in Split(name)
  {
    SplitComponent(piece);
    if rest: string :| name == piece + "/" + rest {
      SplitAtSlash(piece, rest);
    } else if front: string :| name == front + "/" + piece {
      SplitAtSlash(front, piece);
    } else if front: string, rest: string :| name == front + "/" + piece + "/" + rest {
      SplitAtSlash(front + "/" + piece, rest);
      SplitAtSlash(front, piece);
    }
  }

  lemma SplitHasPiece(name: string, i: nat)
    requires i < |Split(name)|
    ensures HasPiece(name, Split(name)[i])
  {
    var pieces := Split(name);
    var piece, before, after := pieces[i], pieces[..i], pieces[i + 1..];
    JoinOfSplit(name);
    assert pieces == before + [piece] + after;
    if before != [] && after != [] {
      JoinOfTwo(before + [piece], after);
      JoinOfTwo(before, [piece]);
    } else if before != [] {
      assert pieces == before + [piece];
      JoinOfTwo(before, [piece]);
    } else if after != [] {
      assert pieces == [piece] + after;
      JoinOfTwo([piece], after);
    } else {
      assert pieces == [piece];
    }
  }

  lemma PieceIffSplit(name: string, piece: string)
    requires SLASH !in piece
    ensures HasPiece(name, piece) <==> piece in Split(name)
  {
    if piece in Split(name) {
      var i :| 0 <= i < |Split(name)| && Split(name)[i] == piece;
      SplitHasPiece(name, i);
    }
    if HasPiece(name, piece) {
      PieceInSplit(name, piece);
    }
  }

  // Leaving out pieces makes a path shorter, unless nothing is left out.
  lemma {:induction false} MeaningfulIsShorter(pieces: seq<string>)
    ensures |Meaningful(pieces)| <= |pieces|
    ensures Meaningful(pieces) != [] ==> |Join(Meaningful(pieces))| <= |Join(pieces)|
    ensures Meaningful(pieces) != [] && |Join(Meaningful(pieces))| == |Join(pieces)| ==> Meaningful(pieces) == pieces
  {
    if pieces != [] {
      MeaningfulIsShorter(pieces[1..]);
      var first, rest := pieces[0], Meaningful(pieces[1..]);
      assert pieces == [first] + pieces[1..];
      JoinOfMore(first, pieces[1..]);
      JoinOfMore(first, rest);
      if first == "" || first == "." {
        assert Meaningful(pieces) == rest;
      } else {
        assert Meaningful(pieces) == [first] + rest;
      }
    }
  }

  lemma JoinOfMore(first: string, rest: seq<string>)
    ensures |Join([first] + rest)| == |first| + if rest == [] then 0 else 1 + |Join(rest)|
  {
    assert ([first] + rest)[1..] == rest;
  }

  lemma SafeNamesHaveCleanPieces(name: string)
    ensures SafeName(name) <==> AllClean(Split(name)) && '\\' !in name
  {
    var pieces := Split(name);
    JoinOfSplit(name);
    if SafeName(name) {
      MeaningfulIsShorter(pieces);
      assert Parts(name) == pieces;
      MeaningfulOmits(pieces);
      forall i | 0 <= i < |pieces|
        ensures Clean(pieces[i])
      {
        PiecesHaveNoSlash(name, i);
        assert pieces[i] in pieces;
      }
    } else if AllClean(pieces) {
      CleanIsMeaningful(pieces);
      assert Clean(pieces[0]);
      assert ".." !in Parts(name);
    }
  }

  lemma {:induction false} MeaningfulOmits(pieces: seq<string>)
    ensures "" !in Meaningful(pieces) && "." !in Meaningful(pieces)
  {
    if pieces != [] {
      MeaningfulOmits(pieces[1..]);
    }
  }

  lemma SafeOnCharacters(name: string)
    ensures SafeName(name) <==> Safe(name)
  {
    SafeNamesHaveCleanPieces(name);
    PieceIffSplit(name, "");
    PieceIffSplit(name, ".");
    PieceIffSplit(name, "..");
    forall i | 0 <= i < |Split(name)|
      ensures SLASH !in Split(name)[i]
    {
      PiecesHaveNoSlash(name, i);
    }
  }

  // ---------------------------------------------------------------- Members

  /** The name is the top-level directory or lies below it. */
  ghost predicate Under(name: string, root: string) {
    SLASH !in root && (name == root || exists rest: string :: name == root + "/" + rest)
  }

  /** The name of a file `x` directly in the directory of the binaries. */
  predicate IsBinary(name: string, root: string, x: string) {
    SLASH !in x && name == root + "/bin/" + x
  }

  ghost predicate InBinaries(name: string, root: string) {
    exists x: string :: IsBinary(name, root, x)
  }

  /** A member of a release: a plainly owned directory or regular file of bounded size below the top-level directory,
      executable if it is a directory or a binary. */
  ghost predicate Fits(m: V.Member, root: string) {
    && Safe(m.name) && Under(m.name, root)
    && (m.kind == V.Directory || m.kind == V.Regular) && m.size <= MAX_MEMBER_BYTES && m.uid == 0 && m.gid == 0
    && m.mode == if m.kind == V.Directory || InBinaries(m.name, root) then 493 else 420
  }

  lemma SafeParts(name: string)
    requires SafeName(name)
    ensures Parts(name) == Split(name) && AllClean(Split(name))
  {
    SafeNamesHaveCleanPieces(name);
    CleanIsMeaningful(Split(name));
  }

  lemma RootOnCharacters(name: string, root: string)
    requires SafeName(name)
    ensures Parts(name)[0] == root <==> Under(name, root)
  {
    SafeParts(name);
    JoinOfSplit(name);
    if Parts(name)[0] == root {
      PiecesHaveNoSlash(name, 0);
      if |Split(name)| > 1 {
        assert name == root + "/" + Join(Split(name)[1..]);
      }
    } else if SLASH !in root {
      SplitComponent(root);
      if rest: string :| name == root + "/" + rest {
        SplitAtSlash(root, rest);
      }
    }
  }

  lemma BinaryText(root: string, x: string)
    ensures root + "/bin/" + x == root + "/" + ("bin" + "/" + x)
    ensures Join([root, "bin", x]) == root + "/bin/" + x
  {
    var two := ["bin", x];
    assert [root, "bin", x][1..] == two && two[1..] == [x];
    assert Join(two) == "bin" + "/" + x;
  }

  lemma SplitBinary(root: string, x: string)
    requires SLASH !in root && SLASH !in x
    ensures Split(root + "/bin/" + x) == [root, "bin", x]
  {
    BinaryText(root, x);
    SplitAtSlash(root, "bin" + "/" + x);
    SplitAtSlash("bin", x);
    SplitComponent(root);
    SplitComponent("bin");
    SplitComponent(x);
  }

  lemma BinaryOnCharacters(name: string, root: string, x: string)
    requires SafeName(name) && Parts(name)[0] == root
    ensures V.InBin(Parts(name)) && Parts(name)[2] == x <==> IsBinary(name, root, x)
  {
    SafeParts(name);
    PiecesHaveNoSlash(name, 0);
    if V.InBin(Parts(name)) && Parts(name)[2] == x {
      JoinOfSplit(name);
      PiecesHaveNoSlash(name, 2);
      assert Split(name) == [root, "bin", x];
      BinaryText(root, x);
    }
    if IsBinary(name, root, x) {
      SplitBinary(root, x);
    }
  }

  lemma MemberOnCharacters(m: V.Member, root: string)
    ensures V.MemberOk(m) && V.Read(m).root == root <==> Fits(m, root)
  {
    SafeOnCharacters(m.name);
    if SafeName(m.name) {
      SafeParts(m.name);
      RootOnCharacters(m.name, root);
      if Parts(m.name)[0] == root {
        BinOnCharacters(m.name, root);
      }
    }
  }

  lemma BinOnCharacters(name: string, root: string)
    requires SafeName(name) && Parts(name)[0] == root
    ensures V.InBin(Parts(name)) <==> InBinaries(name, root)
  {
    if V.InBin(Parts(name)) {
      BinaryOnCharacters(name, root, Parts(name)[2]);
    }
    if x: string :| IsBinary(name, root, x) {
      BinaryOnCharacters(name, root, x);
    }
  }

  // ---------------------------------------------------------------- Archives

  function SizeOf(members: seq<V.Member>): nat {
    if members == [] then 0 else SizeOf(members[..|members| - 1]) + members[|members| - 1].size
  }

  ghost predicate Has(members: seq<V.Member>, name: string) {
    exists i | 0 <= i < |members| :: members[i].name == name
  }

  ghost predicate NoOthers(members: seq<V.Member>, root: string) {
    forall i, x: string | 0 <= i < |members| && IsBinary(members[i].name, root, x) ::
      x in {"wikisync", "wikisyncd", "wikisync-gui"}
  }

  /** The directory of the binaries holds exactly the three programs. */
  ghost predicate ThreePrograms(members: seq<V.Member>, root: string) {
    && Has(members, root + "/bin/" + "wikisync") && Has(members, root + "/bin/" + "wikisyncd")
    && Has(members, root + "/bin/" + "wikisync-gui") && NoOthers(members, root)
  }

  ghost predicate AllFit(members: seq<V.Member>, root: string) {
    members == [] || (AllFit(members[..|members| - 1], root) && Fits(members[|members| - 1], root))
  }

  /** At most 128 distinct members, together at most four gibibytes and all of one time, that fit below `root`; the
      three programs and nothing else where binaries go; every required file; and the archive is named after `root`. */
  ghost predicate LaidOut(members: seq<V.Member>, root: string, archiveName: string, required: set<string>) {
    && archiveName == root + ".tar.gz" && AllFit(members, root)
    && 1 <= |members| <= 128 && SizeOf(members) <= 4_294_967_296
    && (forall i, j | 0 <= i < j < |members| :: members[i].name != members[j].name)
    && (forall i, j | 0 <= i < j < |members| :: members[i].mtime == members[j].mtime)
    && ThreePrograms(members, root)
    && (forall path <- required :: Has(members, root + "/" + path))
  }

  /** Every member passes its own checks and lies below `root`. */
  ghost predicate Rooted(members: seq<V.Member>, root: string) {
    forall i | 0 <= i < |members| :: V.MemberOk(members[i]) && V.Read(members[i]).root == root
  }

  lemma {:induction false} FitIsRooted(members: seq<V.Member>, root: string)
    ensures AllFit(members, root) <==> Rooted(members, root)
  {
    if members != [] {
      var last := |members| - 1;
      FitIsRooted(members[..last], root);
      MemberOnCharacters(members[last], root);
      assert forall i | 0 <= i < last :: members[i] == members[..last][i];
    }
  }

  lemma {:induction false} FitsAt(members: seq<V.Member>, root: string, i: nat)
    requires AllFit(members, root) && i < |members|
    ensures Fits(members[i], root)
  {
    if i < |members| - 1 {
      FitsAt(members[..|members| - 1], root, i);
    }
  }

  lemma {:induction false} SameSizes(members: seq<V.Member>, k: nat)
    requires k <= |members|
    ensures V.TotalSize(V.ReadAll(members), k) == SizeOf(members[..k])
  {
    if k > 0 {
      SameSizes(members, k - 1);
      assert members[..k][..k - 1] == members[..k - 1];
    }
  }

  lemma SameNames(members: seq<V.Member>, name: string)
    ensures V.HasName(V.ReadAll(members), name) <==> Has(members, name)
  {
    var rs := V.ReadAll(members);
    if i :| 0 <= i < |rs| && rs[i].name == name {
      assert members[i].name == name;
    }
    if i :| 0 <= i < |members| && members[i].name == name {
      assert rs[i].name == name;
    }
  }

  lemma SameBinaries(members: seq<V.Member>, root: string, x: string)
    requires SLASH !in x
    requires Rooted(members, root)
    ensures V.HasBinary(V.ReadAll(members), x) <==> Has(members, root + "/bin/" + x)
  {
    var rs := V.ReadAll(members);
    if i :| 0 <= i < |rs| && rs[i].binary == Some(x) {
      BinaryOnCharacters(members[i].name, root, x);
      assert members[i].name == root + "/bin/" + x;
    }
    if i :| 0 <= i < |members| && members[i].name == root + "/bin/" + x {
      BinaryOnCharacters(members[i].name, root, x);
      assert rs[i].binary == Some(x);
    }
  }

  lemma BinaryMember(members: seq<V.Member>, root: string, x: string) returns (i: nat)
    requires Rooted(members, root) && V.HasBinary(V.ReadAll(members), x)
    ensures i < |members| && IsBinary(members[i].name, root, x)
  {
    var rs := V.ReadAll(members);
    i :| 0 <= i < |rs| && rs[i].binary == Some(x);
    BinaryOnCharacters(members[i].name, root, x);
  }

  lemma ProgramsAreBinaries(members: seq<V.Member>, root: string)
    requires Rooted(members, root)
    ensures (forall b :: V.HasBinary(V.ReadAll(members), b) <==> b in V.BINARIES) <==> ThreePrograms(members, root)
  {
    SameBinaries(members, root, "wikisync");
    SameBinaries(members, root, "wikisyncd");
    SameBinaries(members, root, "wikisync-gui");
    OnlyPrograms(members, root);
  }

  lemma OnlyPrograms(members: seq<V.Member>, root: string)
    requires Rooted(members, root)
    ensures (forall b :: V.HasBinary(V.ReadAll(members), b) ==> b in V.BINARIES) <==> NoOthers(members, root)
  {
    if forall b :: V.HasBinary(V.ReadAll(members), b) ==> b in V.BINARIES {
      forall i, x: string | 0 <= i < |members| && IsBinary(members[i].name, root, x)
        ensures x in {"wikisync", "wikisyncd", "wikisync-gui"}
      {
        BinaryOnCharacters(members[i].name, root, x);
        assert V.ReadAll(members)[i].binary == Some(x);
        assert V.HasBinary(V.ReadAll(members), x);
      }
      assert NoOthers(members, root);
    }
    if NoOthers(members, root) {
      forall x | V.HasBinary(V.ReadAll(members), x)
        ensures x in V.BINARIES
      {
        var i := BinaryMember(members, root, x);
      }
    }
  }

  lemma ScansOnMembers(members: seq<V.Member>, root: string)
    requires Rooted(members, root)
    ensures V.Scans(V.ReadAll(members), |members|) <==>
            && |members| <= 128 && SizeOf(members) <= 4_294_967_296
            && forall i, j | 0 <= i < j < |members| :: members[i].name != members[j].name
  {
    var rs := V.ReadAll(members);
    SameSizes(members, |members|);
    assert members[..|members|] == members;
    forall i | 0 <= i < |members|
      ensures rs[i].ok && rs[i].name == members[i].name
    {
      assert V.MemberOk(members[i]);
    }
  }

  lemma SameTimes(members: seq<V.Member>)
    ensures (forall i, j | 0 <= i < j < |members| :: members[i].mtime == members[j].mtime) <==>
            var rs := V.ReadAll(members); forall i, j | 0 <= i < j < |rs| :: rs[i].mtime == rs[j].mtime
  {
    var rs := V.ReadAll(members);
    assert forall i | 0 <= i < |members| :: rs[i].mtime == members[i].mtime;
  }

  lemma SameRequired(members: seq<V.Member>, root: string, required: set<string>)
    ensures (forall path <- required :: V.HasName(V.ReadAll(members), root + "/" + path)) <==>
            (forall path <- required :: Has(members, root + "/" + path))
  {
    forall path <- required
      ensures V.HasName(V.ReadAll(members), root + "/" + path) <==> Has(members, root + "/" + path)
    {
      SameNames(members, root + "/" + path);
    }
  }

  lemma RootedReadings(members: seq<V.Member>, root: string)
    requires Rooted(members, root) && members != []
    ensures V.RootedAt(V.ReadAll(members), root)
    ensures forall other :: V.RootedAt(V.ReadAll(members), other) ==> other == root
  {
    var rs := V.ReadAll(members);
    forall i | 0 <= i < |rs|
      ensures rs[i].root == root
    {
      assert V.Read(members[i]).root == root;
    }
    forall other | V.RootedAt(rs, other)
      ensures other == root
    {
      assert rs[0].root == other;
    }
  }

  lemma LayoutUnderRoot(members: seq<V.Member>, root: string, archiveName: string, required: set<string>)
    requires Rooted(members, root) && members != [] && archiveName == root + ".tar.gz"
    ensures LaidOut(members, root, archiveName, required) <==> V.Layout(V.ReadAll(members), archiveName, required)
  {
    FitIsRooted(members, root);
    ScansOnMembers(members, root);
    ProgramsAreBinaries(members, root);
    SameTimes(members);
    SameRequired(members, root, required);
    RootedReadings(members, root);
  }

  lemma LayoutIsRooted(members: seq<V.Member>, archiveName: string, required: set<string>) returns (root: string)
    requires V.Layout(V.ReadAll(members), archiveName, required)
    ensures members != [] && archiveName == root + ".tar.gz" && Rooted(members, root)
  {
    var rs := V.ReadAll(members);
    root :| V.RootedAt(rs, root) && archiveName == root + ".tar.gz"
            && forall path <- required :: V.HasName(rs, root + "/" + path);
    forall i | 0 <= i < |members|
      ensures V.MemberOk(members[i]) && V.Read(members[i]).root == root
    {
      assert rs[i].ok && rs[i].root == root;
    }
  }

  // The verifier accepts an archive if and only if it is laid out as a release, to the characters of its names.
  lemma AcceptsExactlyReleases(members: seq<V.Member>, archiveName: string, required: set<string>)
    ensures V.Acceptable(members, archiveName, required) <==>
            exists root: string :: LaidOut(members, root, archiveName, required)
  {
    if V.Acceptable(members, archiveName, required) {
      var root := LayoutIsRooted(members, archiveName, required);
      LayoutUnderRoot(members, root, archiveName, required);
    }
    if root: string :| LaidOut(members, root, archiveName, required) {
      FitIsRooted(members, root);
      LayoutUnderRoot(members, root, archiveName, required);
    }
  }

  lemma SafeMeans(name: string, a: string, b: string)
    requires Safe(name)
    ensures name != a + "/../" + b && name != a + "/.." && name != "../" + a && name != ".."
    ensures name != a + "/./" + b && name != a + "//" + b && name != "/" + a && '\\' !in name
  {
    assert a + "/../" + b == a + "/" + ".." + "/" + b && a + "/.." == a + "/" + ".." && "../" + a == ".." + "/" + a;
    assert a + "/./" + b == a + "/" + "." + "/" + b;
    assert a + "//" + b == a + "/" + "" + "/" + b && "/" + a == "" + "/" + a;
  }

  // No accepted member can leave the top-level directory, whatever text `a` and `b` surround the dots.
  lemma NothingEscapes(members: seq<V.Member>, archiveName: string, required: set<string>, i: nat, a: string, b: string)
    returns (root: string)
    requires V.Acceptable(members, archiveName, required) && i < |members|
    ensures archiveName == root + ".tar.gz" && Under(members[i].name, root)
    ensures var name := members[i].name;
            && name != a + "/../" + b && name != a + "/.." && name != "../" + a && name != ".."
            && name != a + "/./" + b && name != a + "//" + b && name != "/" + a && '\\' !in name
  {
    root := LayoutIsRooted(members, archiveName, required);
    FitIsRooted(members, root);
    FitsAt(members, root, i);
    SafeMeans(members[i].name, a, b);
  }
}
