/** Relative POSIX paths as the release tool reads them: `/`-joined text and its components. */
module ArchivePaths {

  const SLASH := '/'

  /** The pieces between slashes, empty ones included. */
  function Split(s: string): (pieces: seq<string>)
    ensures pieces != []
  {
    if s == "" then [""]
    else
      var rest := Split(s[1..]);
      if s[0] == SLASH then [""] + rest else [[s[0]] + rest[0]] + rest[1..]
  }

  function Meaningful(pieces: seq<string>): seq<string> {
    if pieces == [] then []
    else (if pieces[0] == "" || pieces[0] == "." then [] else [pieces[0]]) + Meaningful(pieces[1..])
  }

  /** The components of a path: empty and `.` pieces do not count. */
  function Parts(name: string): seq<string> { Meaningful(Split(name)) }

  function Join(parts: seq<string>): string {
    if parts == [] then "" else if |parts| == 1 then parts[0] else parts[0] + [SLASH] + Join(parts[1..])
  }

  /** A component that a path text shows as itself. */
  predicate Clean(c: string) { c != "" && c != "." && c != ".." && SLASH !in c }

  predicate AllClean(parts: seq<string>) { forall i | 0 <= i < |parts| :: Clean(parts[i]) }

  lemma {:induction false} SplitComponent(c: string)
    requires SLASH !in c
    ensures Split(c) == [c]
  {
    if c != "" {
      SplitComponent(c[1..]);
      assert c == [c[0]] + c[1..];
    }
  }

  lemma {:induction false} SplitFirst(c: string, rest: string)
    requires SLASH !in c
    ensures Split(c + [SLASH] + rest) == [c] + Split(rest)
  {
    var s := c + [SLASH] + rest;
    if c == "" {
      assert s[1..] == rest;
    } else {
      assert s[1..] == c[1..] + [SLASH] + rest;
      SplitFirst(c[1..], rest);
      assert c == [c[0]] + c[1..];
    }
  }

  lemma {:induction false} SplitOfJoin(parts: seq<string>)
    requires AllClean(parts) && parts != []
    ensures Split(Join(parts)) == parts
  {
    if |parts| == 1 {
      SplitComponent(parts[0]);
    } else {
      SplitFirst(parts[0], Join(parts[1..]));
      SplitOfJoin(parts[1..]);
    }
  }

  lemma {:induction false} CleanIsMeaningful(parts: seq<string>)
    requires AllClean(parts)
    ensures Meaningful(parts) == parts
  {
    if parts != [] {
      CleanIsMeaningful(parts[1..]);
    }
  }

  // Joining clean components and reading the text back gives the same components.
  lemma PartsOfJoin(parts: seq<string>)
    requires AllClean(parts) && parts != []
    ensures Parts(Join(parts)) == parts
    ensures Join(parts) != "" && Join(parts)[0] != SLASH
  {
    SplitOfJoin(parts);
    CleanIsMeaningful(parts);
    assert Clean(parts[0]) && Join(parts)[0] == parts[0][0];
  }

  lemma JoinIsInjective(a: seq<string>, b: seq<string>)
    requires AllClean(a) && AllClean(b) && a != [] && b != [] && Join(a) == Join(b)
    ensures a == b
  {
    PartsOfJoin(a);
    PartsOfJoin(b);
  }

  function Slashes(s: string): nat {
    if s == "" then 0 else (if s[0] == SLASH then 1 else 0) + Slashes(s[1..])
  }

  lemma {:induction false} SlashesOfConcat(a: string, b: string)
    ensures Slashes(a + b) == Slashes(a) + Slashes(b)
  {
    if a == "" {
      assert a + b == b;
    } else {
      assert (a + b)[1..] == a[1..] + b;
      SlashesOfConcat(a[1..], b);
    }
  }

  lemma {:induction false} NoSlashes(c: string)
    requires SLASH !in c
    ensures Slashes(c) == 0
  {
    if c != "" {
      NoSlashes(c[1..]);
    }
  }

  lemma {:induction false} SlashesOfJoin(parts: seq<string>)
    requires AllClean(parts) && parts != []
    ensures Slashes(Join(parts)) == |parts| - 1
  {
    NoSlashes(parts[0]);
    if |parts| > 1 {
      SlashesOfConcat(parts[0] + [SLASH], Join(parts[1..]));
      SlashesOfConcat(parts[0], [SLASH]);
      SlashesOfJoin(parts[1..]);
    }
  }

  lemma {:induction false} CharsOfJoin(parts: seq<string>, c: char)
    requires c != SLASH
    ensures c in Join(parts) <==> exists part <- parts :: c in part
  {
    if |parts| == 1 {
      assert parts[0] in parts;
    } else if |parts| > 1 {
      CharsOfJoin(parts[1..], c);
      assert forall part :: part in parts <==> part == parts[0] || part in parts[1..];
    }
  }

  // ---------------------------------------------------------------- What the verifier asks of a name

  /** Relative, spelled the way its components are, without `..` and without a backslash. */
  predicate SafeName(name: string) {
    && (name == "" || name[0] != SLASH)
    && Parts(name) != [] && ".." !in Parts(name)
    && Join(Parts(name)) == name && '\\' !in name
  }

  lemma SafeJoin(parts: seq<string>)
    requires AllClean(parts) && parts != []
    ensures SafeName(Join(parts)) <==> forall c <- parts :: '\\' !in c
  {
    PartsOfJoin(parts);
    CharsOfJoin(parts, '\\');
  }
}
