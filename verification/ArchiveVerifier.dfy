/** The layout check of a release archive, over the member list of its tar file. */
module ArchiveVerifier {
  import opened ArchivePaths
  import opened ReleaseLimits
  import opened Wrappers

  const BINARIES: set<string> := {"wikisync", "wikisyncd", "wikisync-gui"}
  const MAX_MEMBERS := 128
  const MAX_TOTAL_BYTES := 4 * 1024 * 1024 * 1024
  const EXECUTABLE_MODE := 493   // 0o755
  const FILE_MODE := 420         // 0o644
  const SECURITY_DOCUMENTS := "docs/" + "security/"
  const REQUIRED: set<string> :=
    {"RELEASE.txt", "LICENSE", "README.md", SECURITY_DOCUMENTS + "linux-package-repository-trust.md",
     SECURITY_DOCUMENTS + "macos-signing-notarization.md"}

  datatype Kind = Directory | Regular | Other

  datatype Member = Member(name: string, kind: Kind, size: nat, mode: nat, mtime: nat, uid: nat, gid: nat)

  predicate InBin(parts: seq<string>) { |parts| == 3 && parts[1] == "bin" }

  /** The checks on a member that look at nothing else. */
  predicate MemberOk(m: Member) {
    && SafeName(m.name) && m.kind != Other && m.size <= MAX_MEMBER_BYTES
    && m.mode == (if m.kind == Directory || InBin(Parts(m.name)) then EXECUTABLE_MODE else FILE_MODE)
    && m.uid == 0 && m.gid == 0
  }

  /** What the check reads off a member: its own verdict, top-level directory and binary name. */
  datatype Reading = Reading(name: string, ok: bool, root: string, binary: Option<string>, size: nat, mtime: nat)

  function Read(m: Member): Reading {
    var parts := Parts(m.name);
    Reading(m.name, MemberOk(m), if parts == [] then "" else parts[0],
            if InBin(parts) then Some(parts[2]) else None, m.size, m.mtime)
  }

  function ReadAll(members: seq<Member>): (rs: seq<Reading>)
    ensures |rs| == |members| && forall i | 0 <= i < |members| :: rs[i] == Read(members[i])
  {
    seq(|members|, i requires 0 <= i < |members| => Read(members[i]))
  }

  /** Size of the first `k` members together. */
  function TotalSize(rs: seq<Reading>, k: nat): nat
    requires k <= |rs|
  {
    if k == 0 then 0 else TotalSize(rs, k - 1) + rs[k - 1].size
  }

  /** Every check of the scan passes on the first `k` members. */
  ghost predicate Scans(rs: seq<Reading>, k: nat)
    requires k <= |rs|
  {
    && k <= MAX_MEMBERS && TotalSize(rs, k) <= MAX_TOTAL_BYTES
    && (forall i | 0 <= i < k :: rs[i].ok)
    && (forall i, j | 0 <= i < j < k :: rs[i].name != rs[j].name)
  }

  ghost predicate HasName(rs: seq<Reading>, name: string) {
    exists i | 0 <= i < |rs| :: rs[i].name == name
  }

  ghost predicate HasBinary(rs: seq<Reading>, binary: string) {
    exists i | 0 <= i < |rs| :: rs[i].binary == Some(binary)
  }

  ghost predicate RootedAt(rs: seq<Reading>, root: string) {
    rs != [] && forall i | 0 <= i < |rs| :: rs[i].root == root
  }

  /** The layout of a release archive of this name: at most 128 safe, distinct members of bounded size
      under one top-level directory that names the archive, exactly the three binaries, one timestamp,
      and every required file. */
  ghost predicate Layout(rs: seq<Reading>, archiveName: string, required: set<string>) {
    && Scans(rs, |rs|)
    && (forall b :: HasBinary(rs, b) <==> b in BINARIES)
    && (forall i, j | 0 <= i < j < |rs| :: rs[i].mtime == rs[j].mtime)
    && exists root :: RootedAt(rs, root) && archiveName == root + ".tar.gz"
                      && forall path <- required :: HasName(rs, root + "/" + path)
  }

  ghost predicate Acceptable(members: seq<Member>, archiveName: string, required: set<string>) {
    Layout(ReadAll(members), archiveName, required)
  }

  // ---------------------------------------------------------------- The sets the scan gathers

  function Names(rs: seq<Reading>, k: nat): set<string>
    requires k <= |rs|
  {
    if k == 0 then {} else Names(rs, k - 1) + {rs[k - 1].name}
  }

  function Roots(rs: seq<Reading>, k: nat): set<string>
    requires k <= |rs|
  {
    if k == 0 then {} else Roots(rs, k - 1) + {rs[k - 1].root}
  }

  function Times(rs: seq<Reading>, k: nat): set<nat>
    requires k <= |rs|
  {
    if k == 0 then {} else Times(rs, k - 1) + {rs[k - 1].mtime}
  }

  function Binaries(rs: seq<Reading>, k: nat): set<string>
    requires k <= |rs|
  {
    if k == 0 then {}
    else if rs[k - 1].binary.Some? then Binaries(rs, k - 1) + {rs[k - 1].binary.value}
    else Binaries(rs, k - 1)
  }

  lemma {:induction false} NamesMembers(rs: seq<Reading>, k: nat)
    requires k <= |rs|
    ensures forall x :: x in Names(rs, k) <==> exists i | 0 <= i < k :: rs[i].name == x
  {
    if k > 0 {
      NamesMembers(rs, k - 1);
    }
  }

  lemma {:induction false} RootsMembers(rs: seq<Reading>, k: nat)
    requires k <= |rs|
    ensures forall x :: x in Roots(rs, k) <==> exists i | 0 <= i < k :: rs[i].root == x
  {
    if k > 0 {
      RootsMembers(rs, k - 1);
    }
  }

  lemma {:induction false} TimesMembers(rs: seq<Reading>, k: nat)
    requires k <= |rs|
    ensures forall x :: x in Times(rs, k) <==> exists i | 0 <= i < k :: rs[i].mtime == x
  {
    if k > 0 {
      TimesMembers(rs, k - 1);
    }
  }

  lemma {:induction false} BinariesMembers(rs: seq<Reading>, k: nat)
    requires k <= |rs|
    ensures forall x :: x in Binaries(rs, k) <==> exists i | 0 <= i < k :: rs[i].binary == Some(x)
  {
    if k > 0 {
      BinariesMembers(rs, k - 1);
    }
  }

  lemma {:induction false} TotalGrows(rs: seq<Reading>, k: nat, n: nat)
    requires k <= n <= |rs|
    ensures TotalSize(rs, k) <= TotalSize(rs, n)
    decreases n
  {
    if k < n {
      TotalGrows(rs, k, n - 1);
    }
  }

  lemma Rejected(rs: seq<Reading>, k: nat)
    requires k < |rs|
    requires k + 1 > MAX_MEMBERS || !rs[k].ok || rs[k].name in Names(rs, k)
             || TotalSize(rs, k) + rs[k].size > MAX_TOTAL_BYTES
    ensures !Scans(rs, |rs|)
  {
    NamesMembers(rs, k);
    TotalGrows(rs, k + 1, |rs|);
  }

  lemma Admitted(rs: seq<Reading>, k: nat)
    requires k < |rs| && Scans(rs, k) && k + 1 <= MAX_MEMBERS && rs[k].ok && rs[k].name !in Names(rs, k)
    requires TotalSize(rs, k) + rs[k].size <= MAX_TOTAL_BYTES
    ensures Scans(rs, k + 1)
  {
    NamesMembers(rs, k);
  }

  method ScanMembers(rs: seq<Reading>)
    returns (ok: bool, seen: set<string>, roots: set<string>, binaries: set<string>, mtimes: set<nat>)
    ensures ok <==> Scans(rs, |rs|)
    ensures ok ==> && seen == Names(rs, |rs|) && roots == Roots(rs, |rs|)
                   && binaries == Binaries(rs, |rs|) && mtimes == Times(rs, |rs|)
  {
    seen, roots, binaries, mtimes := {}, {}, {}, {};
    var total: nat := 0;
    for k := 0 to |rs|
      invariant Scans(rs, k) && total == TotalSize(rs, k)
      invariant seen == Names(rs, k) && roots == Roots(rs, k)
      invariant binaries == Binaries(rs, k) && mtimes == Times(rs, k)
    {
      var m := rs[k];
      if k + 1 > MAX_MEMBERS || !m.ok || m.name in seen || total + m.size > MAX_TOTAL_BYTES {
        Rejected(rs, k);
        return false, seen, roots, binaries, mtimes;
      }
      Admitted(rs, k);
      seen, roots, mtimes, total := seen + {m.name}, roots + {m.root}, mtimes + {m.mtime}, total + m.size;
      if m.binary.Some? {
        binaries := binaries + {m.binary.value};
      }
    }
    return true, seen, roots, binaries, mtimes;
  }

  lemma SingletonSet<T>(s: set<T>)
    ensures |s| == 1 <==> s != {} && forall x, y | x in s && y in s :: x == y
  {
    if s != {} {
      var x :| x in s;
      assert s == {x} + (s - {x});
      if forall y <- s :: x == y {
        assert s == {x};
      }
      if |s| == 1 {
        assert s - {x} == {};
      }
    }
  }

  lemma OneRoot(rs: seq<Reading>)
    ensures |Roots(rs, |rs|)| == 1 ==> forall root <- Roots(rs, |rs|) :: RootedAt(rs, root)
    ensures forall root :: RootedAt(rs, root) ==> |Roots(rs, |rs|)| == 1
  {
    RootsMembers(rs, |rs|);
    SingletonSet(Roots(rs, |rs|));
    assert forall i | 0 <= i < |rs| :: rs[i].root in Roots(rs, |rs|);
  }

  lemma OneTime(rs: seq<Reading>)
    requires rs != []
    ensures |Times(rs, |rs|)| == 1 <==> forall i, j | 0 <= i < j < |rs| :: rs[i].mtime == rs[j].mtime
  {
    TimesMembers(rs, |rs|);
    SingletonSet(Times(rs, |rs|));
    assert forall i | 0 <= i < |rs| :: rs[i].mtime in Times(rs, |rs|);
  }

  lemma SameBinaries(rs: seq<Reading>)
    ensures Binaries(rs, |rs|) == BINARIES <==> forall b :: HasBinary(rs, b) <==> b in BINARIES
  {
    BinariesMembers(rs, |rs|);
    assert forall b :: HasBinary(rs, b) <==> b in Binaries(rs, |rs|);
  }

  lemma SameFiles(rs: seq<Reading>, root: string, required: set<string>)
    ensures (forall path <- required :: HasName(rs, root + "/" + path))
            <==> (forall path <- required :: root + "/" + path in Names(rs, |rs|))
  {
    NamesMembers(rs, |rs|);
    assert forall name :: HasName(rs, name) <==> name in Names(rs, |rs|);
  }

  // The verifier accepts exactly the archives of the stated layout.
  method VerifyArchive(members: seq<Member>, archiveName: string, required: set<string>) returns (ok: bool)
    ensures ok <==> Acceptable(members, archiveName, required)
  {
    var rs := ReadAll(members);
    var scanned, seen, roots, binaries, mtimes := ScanMembers(rs);
    if !scanned {
      return false;
    }
    OneRoot(rs);
    if |roots| != 1 {
      return false;
    }
    var root :| root in roots;
    LayoutUnder(rs, root, archiveName, required);
    return binaries == BINARIES && |mtimes| == 1 && archiveName == root + ".tar.gz"
           && forall path <- required :: root + "/" + path in seen;
  }

  lemma LayoutUnder(rs: seq<Reading>, root: string, archiveName: string, required: set<string>)
    requires Scans(rs, |rs|) && RootedAt(rs, root)
    ensures Layout(rs, archiveName, required) <==>
            && Binaries(rs, |rs|) == BINARIES && |Times(rs, |rs|)| == 1 && archiveName == root + ".tar.gz"
            && forall path <- required :: root + "/" + path in Names(rs, |rs|)
  {
    OneTime(rs);
    SameBinaries(rs);
    SameFiles(rs, root, required);
    forall other | RootedAt(rs, other)
      ensures other == root
    {
      assert rs[0].root == root;
    }
  }
}
