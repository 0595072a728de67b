/** The order of archive entries: fewer slashes first, then by name. */
module ArchiveOrder {
  import opened ArchivePaths
  import opened Wrappers

  datatype Entry = Entry(name: string, data: Option<seq<byte>>, mode: nat)

  predicate TextAtMost(a: string, b: string) {
    a == "" || (b != "" && (a[0] < b[0] || (a[0] == b[0] && TextAtMost(a[1..], b[1..]))))
  }

  lemma {:induction false} TextIsTotal(a: string, b: string)
    ensures TextAtMost(a, b) || TextAtMost(b, a)
  {
    if a != "" && b != "" && a[0] == b[0] {
      TextIsTotal(a[1..], b[1..]);
    }
  }

  lemma {:induction false} TextIsTransitive(a: string, b: string, c: string)
    requires TextAtMost(a, b) && TextAtMost(b, c)
    ensures TextAtMost(a, c)
  {
    if a != "" && a[0] == b[0] == c[0] {
      TextIsTransitive(a[1..], b[1..], c[1..]);
    }
  }

  predicate AtMost(a: Entry, b: Entry) {
    Slashes(a.name) < Slashes(b.name) || (Slashes(a.name) == Slashes(b.name) && TextAtMost(a.name, b.name))
  }

  lemma AtMostIsTotal(a: Entry, b: Entry)
    ensures AtMost(a, b) || AtMost(b, a)
  {
    TextIsTotal(a.name, b.name);
  }

  lemma AtMostIsTransitive(a: Entry, b: Entry, c: Entry)
    requires AtMost(a, b) && AtMost(b, c)
    ensures AtMost(a, c)
  {
    if Slashes(a.name) == Slashes(b.name) == Slashes(c.name) {
      TextIsTransitive(a.name, b.name, c.name);
    }
  }

  ghost predicate Ordered(s: seq<Entry>) {
    forall i, j | 0 <= i < j < |s| :: AtMost(s[i], s[j])
  }

  function Insert(e: Entry, s: seq<Entry>): (r: seq<Entry>)
    ensures multiset(r) == multiset(s) + multiset{e} && |r| == |s| + 1
  {
    if s == [] || AtMost(e, s[0]) then [e] + s
    else
      assert s == [s[0]] + s[1..];
      [s[0]] + Insert(e, s[1..])
  }

  function Sort(s: seq<Entry>): (r: seq<Entry>)
    ensures multiset(r) == multiset(s) && |r| == |s|
  {
    if s == [] then []
    else
      assert s == [s[0]] + s[1..];
      Insert(s[0], Sort(s[1..]))
  }

  lemma {:induction false} InsertKeepsOrder(e: Entry, s: seq<Entry>)
    requires Ordered(s)
    ensures Ordered(Insert(e, s))
  {
    if s == [] {
    } else if AtMost(e, s[0]) {
      forall j | 0 <= j < |s|
        ensures AtMost(e, s[j])
      {
        if j > 0 {
          AtMostIsTransitive(e, s[0], s[j]);
        }
      }
    } else {
      AtMostIsTotal(e, s[0]);
      var rest := Insert(e, s[1..]);
      InsertKeepsOrder(e, s[1..]);
      forall j | 0 <= j < |rest|
        ensures AtMost(s[0], rest[j])
      {
        assert rest[j] in multiset(rest);
        if rest[j] != e {
          assert rest[j] in s[1..];
        }
      }
    }
  }

  lemma {:induction false} SortOrders(s: seq<Entry>)
    ensures Ordered(Sort(s))
  {
    if s != [] {
      SortOrders(s[1..]);
      InsertKeepsOrder(s[0], Sort(s[1..]));
    }
  }

  ghost predicate NamesDistinct(s: seq<Entry>) {
    forall i, j | 0 <= i < j < |s| :: s[i].name != s[j].name
  }

  lemma SortKeepsMembers(s: seq<Entry>)
    ensures forall e :: e in Sort(s) <==> e in s
  {
    forall e
      ensures e in Sort(s) <==> e in s
    {
      assert e in multiset(Sort(s)) <==> e in multiset(s);
    }
  }

  lemma {:induction false} InsertKeepsDistinct(e: Entry, s: seq<Entry>)
    requires NamesDistinct(s) && forall x <- s :: x.name != e.name
    ensures NamesDistinct(Insert(e, s))
  {
    if s != [] && !AtMost(e, s[0]) {
      var rest := Insert(e, s[1..]);
      InsertKeepsDistinct(e, s[1..]);
      forall j | 0 <= j < |rest|
        ensures rest[j].name != s[0].name
      {
        assert rest[j] in multiset(rest);
        if rest[j] != e {
          var k :| 0 <= k < |s[1..]| && s[1..][k] == rest[j];
          assert s[k + 1] == rest[j];
        }
      }
    }
  }

  lemma {:induction false} SortKeepsDistinct(s: seq<Entry>)
    requires NamesDistinct(s)
    ensures NamesDistinct(Sort(s))
  {
    if s != [] {
      SortKeepsDistinct(s[1..]);
      SortKeepsMembers(s[1..]);
      forall x <- Sort(s[1..])
        ensures x.name != s[0].name
      {
        var k :| 0 <= k < |s[1..]| && s[1..][k] == x;
        assert s[k + 1] == x;
      }
      InsertKeepsDistinct(s[0], Sort(s[1..]));
    }
  }

  // ---------------------------------------------------------------- One order for each set of entries

  lemma {:induction false} TextIsAntisymmetric(a: string, b: string)
    requires TextAtMost(a, b) && TextAtMost(b, a)
    ensures a == b
  {
    if a != "" {
      TextIsAntisymmetric(a[1..], b[1..]);
      assert a == [a[0]] + a[1..] && b == [b[0]] + b[1..];
    }
  }

  ghost predicate SameMembers(a: seq<Entry>, b: seq<Entry>) {
    (forall e <- a :: e in b) && (forall e <- b :: e in a)
  }

  lemma FirstIsLeast(s: seq<Entry>, e: Entry)
    requires Ordered(s) && e in s
    ensures e == s[0] || AtMost(s[0], e)
  {
  }

  lemma FirstIsSame(a: seq<Entry>, b: seq<Entry>)
    requires a != [] && b != [] && Ordered(a) && Ordered(b) && NamesDistinct(a) && SameMembers(a, b)
    ensures a[0] == b[0]
  {
    assert b[0] in b && a[0] in a;
    FirstIsLeast(a, b[0]);
    FirstIsLeast(b, a[0]);
    if a[0] != b[0] {
      TextIsAntisymmetric(a[0].name, b[0].name);
    }
  }

  lemma RestIsSame(a: seq<Entry>, b: seq<Entry>)
    requires a != [] && b != [] && NamesDistinct(a) && SameMembers(a, b) && a[0] == b[0]
    ensures forall e <- a[1..] :: e in b[1..]
  {
    forall e <- a[1..]
      ensures e in b[1..]
    {
      var i :| 0 <= i < |a[1..]| && a[1..][i] == e;
      assert a[i + 1] == e && e in a;
      var j :| 0 <= j < |b| && b[j] == e;
      assert j > 0;
      assert b[1..][j - 1] == e;
    }
  }

  lemma EmptyTogether(a: seq<Entry>, b: seq<Entry>)
    requires SameMembers(a, b)
    ensures a == [] <==> b == []
  {
    if a != [] {
      assert a[0] in a && a[0] in b;
    }
    if b != [] {
      assert b[0] in b && b[0] in a;
    }
  }

  // Ordered lists of distinct names with the same members are the same list.
  lemma {:induction false} OrderedIsUnique(a: seq<Entry>, b: seq<Entry>)
    requires Ordered(a) && Ordered(b) && NamesDistinct(a) && NamesDistinct(b) && SameMembers(a, b)
    ensures a == b
    decreases |a|
  {
    EmptyTogether(a, b);
    if a != [] {
      FirstIsSame(a, b);
      RestIsSame(a, b);
      RestIsSame(b, a);
      OrderedIsUnique(a[1..], b[1..]);
      assert a == [a[0]] + a[1..] && b == [b[0]] + b[1..];
    }
  }
}
