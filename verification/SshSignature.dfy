/**
 The detached-signature reader of the release tool, after its armour has been removed: length-prefixed
 strings of section 5 of RFC 4251 inside an SSHSIG blob. The reader and its printer undo each other.
 */
module SshSignature {
  import opened Integers
  import opened Wrappers

  const MAGIC: seq<byte> := [83, 83, 72, 83, 73, 71]                                     // "SSHSIG"
  const NAMESPACE: seq<byte> :=
    [119, 105, 107, 105, 115, 121, 110, 99, 45, 114, 101, 108, 101, 97, 115, 101]         // "wikisync-release"
  const ED25519: seq<byte> := [115, 115, 104, 45, 101, 100, 50, 53, 53, 49, 57]           // "ssh-ed25519"
  const VERSION := 1

  /** A length-prefixed string at `offset`, and the offset behind it. */
  function SshString(payload: seq<byte>, offset: nat): Option<(seq<byte>, nat)> {
    if offset + 4 > |payload| then None
    else
      var size := U32(payload, offset, Big);
      var start := offset + 4;
      if size > |payload| - start then None else Some((payload[start..start + size], start + size))
  }

  function ReadStrings(payload: seq<byte>, offset: nat, count: nat): Option<(seq<seq<byte>>, nat)>
    decreases count
  {
    if count == 0 then Some(([], offset))
    else
      match SshString(payload, offset)
      case None => None
      case Some((first, next)) =>
        match ReadStrings(payload, next, count - 1)
        case None => None
        case Some((rest, end)) => Some(([first] + rest, end))
  }

  /** The five fields of a version 1 blob that ends with its last field. */
  function ReadFields(blob: seq<byte>): Option<seq<seq<byte>>> {
    if |blob| < 10 || blob[..6] != MAGIC || U32(blob, 6, Big) != VERSION then None
    else
      match ReadStrings(blob, 10, 5)
      case None => None
      case Some((fields, end)) => if end == |blob| then Some(fields) else None
  }

  function Algorithm(field: seq<byte>): Option<seq<byte>> {
    match SshString(field, 0)
    case None => None
    case Some((name, _)) => Some(name)
  }

  /** The whole check of a decoded signature document. */
  predicate AcceptsEd25519(blob: seq<byte>) {
    match ReadFields(blob)
    case None => false
    case Some(fields) =>
      |fields| == 5 && Algorithm(fields[0]) == Some(ED25519) && Algorithm(fields[4]) == Some(ED25519)
      && fields[1] == NAMESPACE
  }

  // ---------------------------------------------------------------- The printer

  predicate Printable(s: seq<byte>) { |s| < 0x1_0000_0000 }

  function PrintString(s: seq<byte>): seq<byte>
    requires Printable(s)
  {
    BigEndian(|s|) + s
  }

  function PrintStrings(strings: seq<seq<byte>>): seq<byte>
    requires forall s <- strings :: Printable(s)
  {
    if strings == [] then [] else PrintString(strings[0]) + PrintStrings(strings[1..])
  }

  function PrintBlob(fields: seq<seq<byte>>): seq<byte>
    requires forall s <- fields :: Printable(s)
  {
    MAGIC + BigEndian(VERSION) + PrintStrings(fields)
  }

  lemma U32OfSlice(payload: seq<byte>, offset: nat)
    requires offset + 4 <= |payload|
    ensures U32(payload, offset, Big) == U32(payload[offset..offset + 4], 0, Big)
  {
  }

  lemma StringReads(payload: seq<byte>, offset: nat, s: seq<byte>, after: seq<byte>)
    requires Printable(s) && offset <= |payload| && payload[offset..] == PrintString(s) + after
    ensures SshString(payload, offset) == Some((s, offset + |PrintString(s)|))
    ensures payload[offset + |PrintString(s)|..] == after
  {
    var rest, start := payload[offset..], offset + 4;
    assert payload[offset..start] == rest[..4] == BigEndian(|s|);
    U32OfSlice(payload, offset);
    BigEndianReads(|s|);
    assert payload[start..start + |s|] == rest[4..4 + |s|] == s;
    assert payload[start + |s|..] == rest[4 + |s|..] == after;
  }

  lemma StringPrints(payload: seq<byte>, offset: nat)
    requires SshString(payload, offset).Some?
    ensures var (s, next) := SshString(payload, offset).value;
            offset <= next <= |payload| && Printable(s) && payload[offset..next] == PrintString(s)
  {
    var (s, next) := SshString(payload, offset).value;
    U32OfSlice(payload, offset);
    U32Prints(payload[offset..offset + 4]);
    assert payload[offset..next] == payload[offset..offset + 4] + payload[offset + 4..next];
  }

  lemma {:induction false} StringsRead(payload: seq<byte>, offset: nat, strings: seq<seq<byte>>)
    requires forall s <- strings :: Printable(s)
    requires offset <= |payload| && payload[offset..] == PrintStrings(strings)
    ensures ReadStrings(payload, offset, |strings|) == Some((strings, |payload|))
    decreases |strings|
  {
    if strings != [] {
      var rest, next := strings[1..], offset + |PrintString(strings[0])|;
      StringReads(payload, offset, strings[0], PrintStrings(rest));
      StringsRead(payload, next, rest);
      ReadsOneMore(payload, offset, strings[0], next, rest, |payload|);
      assert strings == [strings[0]] + rest;
    }
  }

  lemma ReadsOneMore(payload: seq<byte>, offset: nat, first: seq<byte>, next: nat, rest: seq<seq<byte>>, end: nat)
    requires SshString(payload, offset) == Some((first, next))
    requires ReadStrings(payload, next, |rest|) == Some((rest, end))
    ensures ReadStrings(payload, offset, |rest| + 1) == Some(([first] + rest, end))
  {
  }

  lemma {:induction false} StringsPrint(payload: seq<byte>, offset: nat, count: nat)
    requires offset <= |payload| && ReadStrings(payload, offset, count).Some?
    ensures var (strings, end) := ReadStrings(payload, offset, count).value;
            && offset <= end <= |payload| && |strings| == count && (forall s <- strings :: Printable(s))
            && payload[offset..end] == PrintStrings(strings)
    decreases count
  {
    if count > 0 {
      var (first, next) := SshString(payload, offset).value;
      var (rest, end) := ReadStrings(payload, next, count - 1).value;
      StringPrints(payload, offset);
      StringsPrint(payload, next, count - 1);
      assert ([first] + rest)[1..] == rest;
      SliceJoins(payload, offset, next, end);
    }
  }

  lemma SliceJoins(payload: seq<byte>, from: nat, middle: nat, end: nat)
    requires from <= middle <= end <= |payload|
    ensures payload[from..end] == payload[from..middle] + payload[middle..end]
  {
  }

  lemma HeaderPrints(blob: seq<byte>)
    requires |blob| >= 10 && blob[..6] == MAGIC && U32(blob, 6, Big) == VERSION
    ensures blob[..10] == MAGIC + BigEndian(VERSION)
  {
    U32OfSlice(blob, 6);
    U32Prints(blob[6..10]);
    assert blob[..10] == blob[..6] + blob[6..10];
  }

  lemma BlobPrints(blob: seq<byte>, fields: seq<seq<byte>>)
    requires |blob| >= 10 && blob[..10] == MAGIC + BigEndian(VERSION)
    requires (forall s <- fields :: Printable(s)) && blob[10..] == PrintStrings(fields)
    ensures PrintBlob(fields) == blob
  {
    assert blob == blob[..10] + blob[10..];
  }

  // What the reader accepts is byte for byte the printed form of the fields it returns.
  lemma ReadThenPrint(blob: seq<byte>)
    requires ReadFields(blob).Some?
    ensures var fields := ReadFields(blob).value;
            |fields| == 5 && (forall s <- fields :: Printable(s)) && PrintBlob(fields) == blob
  {
    StringsPrint(blob, 10, 5);
    assert blob[10..|blob|] == blob[10..];
    HeaderPrints(blob);
    BlobPrints(blob, ReadFields(blob).value);
  }

  // Every printed blob is read back as exactly its fields.
  lemma PrintThenRead(fields: seq<seq<byte>>)
    requires |fields| == 5 && forall s <- fields :: Printable(s)
    ensures ReadFields(PrintBlob(fields)) == Some(fields)
  {
    var blob := PrintBlob(fields);
    assert blob[10..] == PrintStrings(fields);
    StringsRead(blob, 10, fields);
    assert blob[..6] == MAGIC && blob[6..10] == BigEndian(VERSION);
    U32OfSlice(blob, 6);
    BigEndianReads(VERSION);
  }

  /** The field is an SSH blob that begins with the algorithm name. */
  ghost predicate BeginsWithEd25519(field: seq<byte>) {
    PrintString(ED25519) <= field
  }

  lemma AlgorithmIsPrefix(field: seq<byte>)
    ensures Algorithm(field) == Some(ED25519) <==> BeginsWithEd25519(field)
  {
    var printed := PrintString(ED25519);
    if printed <= field {
      assert field[0..] == printed + field[|printed|..];
      StringReads(field, 0, ED25519, field[|printed|..]);
    }
    if Algorithm(field) == Some(ED25519) {
      StringPrints(field, 0);
      assert field[0..SshString(field, 0).value.1] == printed;
    }
  }

  // The check accepts exactly the printed blobs with the required namespace and algorithms.
  lemma AcceptsExactlyPrintedBlobs(blob: seq<byte>)
    ensures AcceptsEd25519(blob) <==>
            exists fields: seq<seq<byte>> ::
              && |fields| == 5 && (forall s <- fields :: Printable(s)) && PrintBlob(fields) == blob
              && fields[1] == NAMESPACE && BeginsWithEd25519(fields[0]) && BeginsWithEd25519(fields[4])
  {
    if ReadFields(blob).Some? {
      var fields := ReadFields(blob).value;
      ReadThenPrint(blob);
      AlgorithmIsPrefix(fields[0]);
      AlgorithmIsPrefix(fields[4]);
    }
    forall fields: seq<seq<byte>> |
      && |fields| == 5 && (forall s <- fields :: Printable(s)) && PrintBlob(fields) == blob
      && fields[1] == NAMESPACE && BeginsWithEd25519(fields[0]) && BeginsWithEd25519(fields[4])
      ensures AcceptsEd25519(blob)
    {
      PrintThenRead(fields);
      AlgorithmIsPrefix(fields[0]);
      AlgorithmIsPrefix(fields[4]);
    }
  }
}
