/**
 The validator of macOS release binaries. A file is accepted exactly when it is well formed: the
 load commands of every image tile their declared region, and the images of a universal file are
 disjoint, aligned, inside the file and of distinct architectures.
 */
module MachO {
  import opened Integers
  import opened ReleaseLimits
  import opened Wrappers

  const MAX_ARCHITECTURES := 32
  const MAX_LOAD_COMMANDS := 4096
  const MAX_ALIGNMENT_EXPONENT := 30
  const EXECUTE := 2

  datatype Architecture = X86_64 | Aarch64

  function ArchitectureOf(cpuType: nat): Option<Architecture> {
    if cpuType == 0x01000007 then Some(X86_64) else if cpuType == 0x0100000C then Some(Aarch64) else None
  }

  // ---------------------------------------------------------------- Load commands

  function Sum(sizes: seq<nat>): nat {
    if sizes == [] then 0 else sizes[0] + Sum(sizes[1..])
  }

  /** Load commands of these sizes exactly partition `region` bytes from `start`: each begins where the
      previous one ends, spells its size in its header, and is a multiple of eight bytes. */
  ghost predicate Partition(file: seq<byte>, start: nat, region: nat, sizes: seq<nat>, endian: Endian) {
    && Sum(sizes) == region
    && forall k | 0 <= k < |sizes| ::
         && 8 <= sizes[k] && sizes[k] % 8 == 0
         && InFile(file, start + Sum(sizes[..k]), 8)
         && U32(file, start + Sum(sizes[..k]) + 4, endian) == sizes[k]
  }

  /** The walk from one command to the next: `count` more commands use up `remaining` bytes. */
  predicate Walk(file: seq<byte>, offset: nat, remaining: nat, count: nat, endian: Endian)
    decreases count
  {
    if count == 0 then remaining == 0
    else
      && 8 <= remaining && InFile(file, offset, 8)
      && var size := U32(file, offset + 4, endian);
      && 8 <= size <= remaining && size % 8 == 0
      && Walk(file, offset + size, remaining - size, count - 1, endian)
  }

  lemma SumOfTail(sizes: seq<nat>, k: nat)
    requires 0 < k <= |sizes|
    ensures Sum(sizes[..k]) == sizes[0] + Sum(sizes[1..][..k - 1])
  {
    assert sizes[..k][1..] == sizes[1..][..k - 1];
  }

  lemma {:induction false} WalkPartitions(file: seq<byte>, start: nat, region: nat, count: nat, endian: Endian)
    returns (sizes: seq<nat>)
    requires Walk(file, start, region, count, endian)
    ensures |sizes| == count && Partition(file, start, region, sizes, endian)
    decreases count
  {
    sizes := [];
    if count > 0 {
      var size := U32(file, start + 4, endian);
      var rest := WalkPartitions(file, start + size, region - size, count - 1, endian);
      PartitionCons(file, start, region, size, rest, endian);
      sizes := [size] + rest;
    }
  }

  lemma PartitionCons(file: seq<byte>, start: nat, region: nat, size: nat, rest: seq<nat>, endian: Endian)
    requires 8 <= size <= region && size % 8 == 0 && InFile(file, start, 8) && U32(file, start + 4, endian) == size
    requires Partition(file, start + size, region - size, rest, endian)
    ensures Partition(file, start, region, [size] + rest, endian)
  {
    var sizes := [size] + rest;
    assert sizes[1..] == rest;
    forall k | 0 <= k < |sizes|
      ensures 8 <= sizes[k] && sizes[k] % 8 == 0
      ensures InFile(file, start + Sum(sizes[..k]), 8)
      ensures U32(file, start + Sum(sizes[..k]) + 4, endian) == sizes[k]
    {
      if k > 0 {
        SumOfTail(sizes, k);
        assert sizes[k] == rest[k - 1];
        assert start + Sum(sizes[..k]) == start + size + Sum(rest[..k - 1]);
      }
    }
  }

  lemma CommandOfTail(file: seq<byte>, start: nat, region: nat, sizes: seq<nat>, endian: Endian, k: nat)
    requires Partition(file, start, region, sizes, endian) && k + 1 < |sizes|
    ensures var at := start + sizes[0] + Sum(sizes[1..][..k]);
            && 8 <= sizes[k + 1] && sizes[k + 1] % 8 == 0
            && InFile(file, at, 8) && U32(file, at + 4, endian) == sizes[k + 1]
  {
    SumOfTail(sizes, k + 1);
    assert start + Sum(sizes[..k + 1]) == start + sizes[0] + Sum(sizes[1..][..k]);
  }

  lemma FirstCommand(file: seq<byte>, start: nat, region: nat, sizes: seq<nat>, endian: Endian)
    requires Partition(file, start, region, sizes, endian) && sizes != []
    ensures 8 <= sizes[0] <= region && sizes[0] % 8 == 0
    ensures InFile(file, start, 8) && U32(file, start + 4, endian) == sizes[0]
  {
    assert sizes[..0] == [] && Sum(sizes[..0]) == 0;
    assert U32(file, start + Sum(sizes[..0]) + 4, endian) == sizes[0];
  }

  lemma PartitionTail(file: seq<byte>, start: nat, region: nat, sizes: seq<nat>, endian: Endian)
    requires Partition(file, start, region, sizes, endian) && sizes != []
    ensures 8 <= sizes[0] <= region && sizes[0] % 8 == 0
    ensures InFile(file, start, 8) && U32(file, start + 4, endian) == sizes[0]
    ensures Partition(file, start + sizes[0], region - sizes[0], sizes[1..], endian)
  {
    FirstCommand(file, start, region, sizes, endian);
    forall k | 0 <= k < |sizes[1..]|
      ensures 8 <= sizes[1..][k] && sizes[1..][k] % 8 == 0
      ensures InFile(file, start + sizes[0] + Sum(sizes[1..][..k]), 8)
      ensures U32(file, start + sizes[0] + Sum(sizes[1..][..k]) + 4, endian) == sizes[1..][k]
    {
      CommandOfTail(file, start, region, sizes, endian, k);
    }
  }

  lemma {:induction false} PartitionWalks(file: seq<byte>, start: nat, region: nat, sizes: seq<nat>, endian: Endian)
    requires Partition(file, start, region, sizes, endian)
    ensures Walk(file, start, region, |sizes|, endian)
    decreases |sizes|
  {
    if sizes != [] {
      PartitionTail(file, start, region, sizes, endian);
      PartitionWalks(file, start + sizes[0], region - sizes[0], sizes[1..], endian);
    }
  }

  lemma {:induction false} PrefixSum(sizes: seq<nat>, k: nat)
    requires k < |sizes|
    ensures Sum(sizes[..k]) + sizes[k] <= Sum(sizes)
  {
    if k > 0 {
      SumOfTail(sizes, k);
      PrefixSum(sizes[1..], k - 1);
    }
  }

  // Every command of a partition lies inside the region, and inside any slice that holds the region.
  lemma CommandsStayInside(file: seq<byte>, start: nat, region: nat, sizes: seq<nat>, endian: Endian, k: nat)
    requires Partition(file, start, region, sizes, endian) && k < |sizes|
    ensures start + Sum(sizes[..k]) + sizes[k] <= start + region
  {
    PrefixSum(sizes, k);
  }

  // ---------------------------------------------------------------- One image

  datatype ThinFormat = ThinFormat(endian: Endian, is64: bool)

  function ThinFormatOf(magic: seq<byte>): Option<ThinFormat> {
    if magic == [0xCE, 0xFA, 0xED, 0xFE] then Some(ThinFormat(Little, false))
    else if magic == [0xCF, 0xFA, 0xED, 0xFE] then Some(ThinFormat(Little, true))
    else if magic == [0xFE, 0xED, 0xFA, 0xCE] then Some(ThinFormat(Big, false))
    else if magic == [0xFE, 0xED, 0xFA, 0xCF] then Some(ThinFormat(Big, true))
    else None
  }

  /** A well-formed 64-bit executable image of `size` bytes at `offset`, of the given architecture. */
  ghost predicate Image(file: seq<byte>, offset: nat, size: nat, architecture: Architecture) {
    && InFile(file, offset, 32) && 32 <= size
    && ThinFormatOf(file[offset..offset + 4]).Some?
    && var format := ThinFormatOf(file[offset..offset + 4]).value;
    && format.is64
    && ArchitectureOf(U32(file, offset + 4, format.endian)) == Some(architecture)
    && U32(file, offset + 12, format.endian) == EXECUTE
    && U32(file, offset + 16, format.endian) <= MAX_LOAD_COMMANDS
    && U32(file, offset + 20, format.endian) <= size - 32
    && Walk(file, offset + 32, U32(file, offset + 20, format.endian), U32(file, offset + 16, format.endian),
            format.endian)
  }

  // The load commands of an image exactly partition their declared region, inside the image.
  lemma ImageIsPartitioned(file: seq<byte>, offset: nat, size: nat, architecture: Architecture)
    returns (endian: Endian, sizes: seq<nat>)
    requires Image(file, offset, size, architecture)
    ensures Some(ThinFormat(endian, true)) == ThinFormatOf(file[offset..offset + 4])
    ensures |sizes| == U32(file, offset + 16, endian)
    ensures Partition(file, offset + 32, U32(file, offset + 20, endian), sizes, endian)
    ensures forall k | 0 <= k < |sizes| :: offset + 32 + Sum(sizes[..k]) + sizes[k] <= offset + size
  {
    endian := ThinFormatOf(file[offset..offset + 4]).value.endian;
    var region := U32(file, offset + 20, endian);
    sizes := WalkPartitions(file, offset + 32, region, U32(file, offset + 16, endian), endian);
    forall k: nat | k < |sizes|
      ensures offset + 32 + Sum(sizes[..k]) + sizes[k] <= offset + size
    {
      CommandsStayInside(file, offset + 32, region, sizes, endian, k);
    }
  }

  // The walk succeeds exactly where the region is partitioned into that many commands.
  lemma WalkIsPartition(file: seq<byte>, start: nat, region: nat, count: nat, endian: Endian)
    ensures Walk(file, start, region, count, endian) <==>
            exists sizes: seq<nat> :: |sizes| == count && Partition(file, start, region, sizes, endian)
  {
    if Walk(file, start, region, count, endian) {
      var sizes := WalkPartitions(file, start, region, count, endian);
    }
    if sizes: seq<nat> :| |sizes| == count && Partition(file, start, region, sizes, endian) {
      PartitionWalks(file, start, region, sizes, endian);
    }
  }

  method WalkCommands(file: seq<byte>, start: nat, region: nat, count: nat, endian: Endian) returns (tiled: bool)
    ensures tiled <==> Walk(file, start, region, count, endian)
  {
    var offset, remaining := start, region;
    for walked := 0 to count
      invariant Walk(file, start, region, count, endian) <==> Walk(file, offset, remaining, count - walked, endian)
    {
      if remaining < 8 || !InFile(file, offset, 8) {
        return false;
      }
      var size := U32(file, offset + 4, endian);
      if size < 8 || size % 8 != 0 || size > remaining {
        return false;
      }
      offset, remaining := offset + size, remaining - size;
    }
    return remaining == 0;
  }

  method ThinMachoArchitecture(file: seq<byte>, offset: nat, size: nat) returns (r: Option<Architecture>)
    ensures r.Some? ==> Image(file, offset, size, r.value)
    ensures r.None? ==> forall a :: !Image(file, offset, size, a)
  {
    if !InFile(file, offset, 4) {
      return None;
    }
    var format := ThinFormatOf(file[offset..offset + 4]);
    if format == None {
      return None;
    }
    var endian, headerSize := format.value.endian, if format.value.is64 then 32 else 28;
    if size < headerSize || !InFile(file, offset, headerSize) {
      return None;
    }
    var architecture := ArchitectureOf(U32(file, offset + 4, endian));
    if architecture == None || !format.value.is64 || U32(file, offset + 12, endian) != EXECUTE {
      return None;
    }
    var count, region := U32(file, offset + 16, endian), U32(file, offset + 20, endian);
    if count > MAX_LOAD_COMMANDS || region > size - headerSize {
      return None;
    }
    var tiled := WalkCommands(file, offset + headerSize, region, count, endian);
    return if tiled then architecture else None;
  }

  // ---------------------------------------------------------------- Universal files

  datatype FatFormat = FatFormat(endian: Endian, wide: bool)

  function FatFormatOf(magic: seq<byte>): Option<FatFormat> {
    if magic == [0xCA, 0xFE, 0xBA, 0xBE] then Some(FatFormat(Big, false))
    else if magic == [0xBE, 0xBA, 0xFE, 0xCA] then Some(FatFormat(Little, false))
    else if magic == [0xCA, 0xFE, 0xBA, 0xBF] then Some(FatFormat(Big, true))
    else if magic == [0xBF, 0xBA, 0xFE, 0xCA] then Some(FatFormat(Little, true))
    else None
  }

  function RecordSize(format: FatFormat): nat { if format.wide then 32 else 20 }

  datatype Record = Record(cpuType: nat, offset: nat, size: nat, alignment: nat, reserved: nat)

  function TableEnd(format: FatFormat, count: nat): nat { 8 + count * RecordSize(format) }

  function RecordAt(file: seq<byte>, format: FatFormat, index: nat): Record
    requires TableEnd(format, index + 1) <= |file|
  {
    var at := TableEnd(format, index);
    assert at + RecordSize(format) == TableEnd(format, index + 1);
    if format.wide then
      Record(U32(file, at, format.endian), U64(file, at + 8, format.endian), U64(file, at + 16, format.endian),
             U32(file, at + 24, format.endian), U32(file, at + 28, format.endian))
    else
      Record(U32(file, at, format.endian), U32(file, at + 8, format.endian), U32(file, at + 12, format.endian),
             U32(file, at + 16, format.endian), 0)
  }

  /** The architecture table that follows the eight-byte header. */
  function Table(file: seq<byte>, format: FatFormat, count: nat): (records: seq<Record>)
    requires TableEnd(format, count) <= |file|
    ensures |records| == count
    ensures forall i | 0 <= i < count :: records[i] == RecordAt(file, format, i)
  {
    if count == 0 then []
    else
      assert TableEnd(format, count - 1) + RecordSize(format) == TableEnd(format, count);
      Table(file, format, count - 1) + [RecordAt(file, format, count - 1)]
  }

  function Pow2(n: nat): (p: nat)
    ensures p > 0
  {
    if n == 0 then 1 else 2 * Pow2(n - 1)
  }

  /** A slice: after the table, non-empty, aligned, inside the file, and an image of what its record says. */
  ghost predicate Slice(file: seq<byte>, tableEnd: nat, r: Record) {
    && r.reserved == 0 && ArchitectureOf(r.cpuType).Some?
    && r.alignment <= MAX_ALIGNMENT_EXPONENT && r.offset % Pow2(r.alignment) == 0
    && tableEnd <= r.offset && r.size > 0 && r.offset + r.size <= |file|
    && Image(file, r.offset, r.size, ArchitectureOf(r.cpuType).value)
  }

  predicate Disjoint(a: Record, b: Record) {
    a.offset + a.size <= b.offset || b.offset + b.size <= a.offset
  }

  predicate Compatible(a: Record, b: Record) {
    ArchitectureOf(a.cpuType) != ArchitectureOf(b.cpuType) && Disjoint(a, b)
  }

  /** The first `k` records describe slices, pairwise disjoint and of distinct architectures. */
  ghost predicate Slices(file: seq<byte>, tableEnd: nat, records: seq<Record>, k: nat)
    requires k <= |records|
  {
    && (forall i | 0 <= i < k :: Slice(file, tableEnd, records[i]))
    && (forall i, j | 0 <= i < j < k :: Compatible(records[i], records[j]))
  }

  function TableOf(file: seq<byte>): Option<(nat, seq<Record>)> {
    if |file| < 8 || FatFormatOf(file[..4]).None? then None
    else
      var format := FatFormatOf(file[..4]).value;
      var count := U32(file, 4, format.endian);
      if count == 0 || count > MAX_ARCHITECTURES || TableEnd(format, count) > |file| then None
      else Some((TableEnd(format, count), Table(file, format, count)))
  }

  ghost predicate Universal(file: seq<byte>) {
    && TableOf(file).Some?
    && Slices(file, TableOf(file).value.0, TableOf(file).value.1, |TableOf(file).value.1|)
  }

  /** `names` are the architectures of the first |names| records, and `slices` their bounds. */
  predicate Recorded(records: seq<Record>, names: seq<Architecture>, slices: seq<(nat, nat)>) {
    && |names| == |slices| <= |records|
    && (forall i | 0 <= i < |names| :: ArchitectureOf(records[i].cpuType) == Some(names[i]))
    && (forall i | 0 <= i < |slices| :: slices[i] == (records[i].offset, records[i].offset + records[i].size))
  }

  // The checks on one more record of the table.
  method NextSlice(file: seq<byte>, tableEnd: nat, ghost records: seq<Record>, record: Record,
                   names: seq<Architecture>, slices: seq<(nat, nat)>)
    returns (r: Option<Architecture>)
    requires Recorded(records, names, slices)
    ensures r.Some? <==> Slice(file, tableEnd, record) && forall i | 0 <= i < |names| :: Compatible(records[i], record)
    ensures r.Some? ==> ArchitectureOf(record.cpuType) == r
  {
    if record.reserved != 0 {
      return None;
    }
    var architecture := ArchitectureOf(record.cpuType);
    if architecture == None {
      return None;
    }
    if architecture.value in names {
      var i :| 0 <= i < |names| && names[i] == architecture.value;
      assert !Compatible(records[i], record);
      return None;
    }
    if record.alignment > MAX_ALIGNMENT_EXPONENT || record.offset % Pow2(record.alignment) != 0 {
      return None;
    }
    var sliceEnd := record.offset + record.size;
    if record.offset < tableEnd || record.size == 0 || sliceEnd > |file| {
      return None;
    }
    if exists i | 0 <= i < |slices| :: record.offset < slices[i].1 && slices[i].0 < sliceEnd {
      var i :| 0 <= i < |slices| && record.offset < slices[i].1 && slices[i].0 < sliceEnd;
      assert !Compatible(records[i], record);
      return None;
    }
    var actual := ThinMachoArchitecture(file, record.offset, record.size);
    return if actual == architecture then architecture else None;
  }

  predicate Sorted(s: seq<Architecture>) {
    forall i, j | 0 <= i < j < |s| :: s[i] == Aarch64 && s[j] == X86_64
  }

  // The sorted names of distinct architectures: "aarch64" comes before "x86_64".
  function SortedNames(architectures: seq<Architecture>): (s: seq<Architecture>)
    ensures Sorted(s)
    ensures Aarch64 in s <==> Aarch64 in architectures
    ensures X86_64 in s <==> X86_64 in architectures
  {
    if Aarch64 in architectures && X86_64 in architectures then [Aarch64, X86_64]
    else if Aarch64 in architectures then [Aarch64]
    else if X86_64 in architectures then [X86_64]
    else []
  }

  lemma SlicesOneMore(file: seq<byte>, tableEnd: nat, table: seq<Record>, k: nat)
    requires k < |table|
    ensures Slices(file, tableEnd, table, k + 1) <==>
            && Slices(file, tableEnd, table, k) && Slice(file, tableEnd, table[k])
            && forall i | 0 <= i < k :: Compatible(table[i], table[k])
  {
  }

  lemma AllSlicesAreSlices(file: seq<byte>, tableEnd: nat, table: seq<Record>, k: nat)
    requires k <= |table|
    ensures Slices(file, tableEnd, table, |table|) ==> Slices(file, tableEnd, table, k)
  {
  }

  lemma RecordedOneMore(table: seq<Record>, names: seq<Architecture>, slices: seq<(nat, nat)>, next: Architecture)
    requires Recorded(table, names, slices) && |names| < |table|
    requires ArchitectureOf(table[|names|].cpuType) == Some(next)
    ensures var r := table[|names|]; Recorded(table, names + [next], slices + [(r.offset, r.offset + r.size)])
  {
  }

  // Collects the slices of the table one record after another.
  method CheckTable(file: seq<byte>, tableEnd: nat, table: seq<Record>) returns (r: Option<seq<Architecture>>)
    ensures r.Some? <==> Slices(file, tableEnd, table, |table|)
    ensures r.Some? ==> Named(table, r.value)
  {
    var names: seq<Architecture>, slices: seq<(nat, nat)> := [], [];
    for index := 0 to |table|
      invariant |names| == index && Recorded(table, names, slices) && Slices(file, tableEnd, table, index)
    {
      var next := NextSlice(file, tableEnd, table, table[index], names, slices);
      SlicesOneMore(file, tableEnd, table, index);
      AllSlicesAreSlices(file, tableEnd, table, index + 1);
      if next == None {
        return None;
      }
      RecordedOneMore(table, names, slices, next.value);
      slices := slices + [(table[index].offset, table[index].offset + table[index].size)];
      names := names + [next.value];
    }
    assert Named(table, names);
    return Some(names);
  }

  predicate Named(table: seq<Record>, names: seq<Architecture>) {
    |names| == |table| && forall i | 0 <= i < |table| :: ArchitectureOf(table[i].cpuType) == Some(names[i])
  }

  method FatArchitectures(file: seq<byte>) returns (r: Option<seq<Architecture>>)
    ensures r.Some? <==> Universal(file)
    ensures r.Some? ==> Named(TableOf(file).value.1, r.value)
  {
    var parsed := TableOf(file);
    if parsed == None {
      return None;
    }
    r := CheckTable(file, parsed.value.0, parsed.value.1);
  }

  predicate IsThin(file: seq<byte>) { |file| >= 4 && ThinFormatOf(file[..4]).Some? }

  /** A release binary the validator accepts. */
  ghost predicate WellFormed(file: seq<byte>, executable: bool) {
    && executable && 8 <= |file| <= MAX_MEMBER_BYTES
    && if IsThin(file) then exists a :: Image(file, 0, |file|, a) else Universal(file)
  }

  // The validator accepts exactly the well-formed files, and returns their architectures in order.
  method MachoArchitectures(file: seq<byte>, executable: bool) returns (r: Option<seq<Architecture>>)
    ensures r.Some? <==> WellFormed(file, executable)
    ensures r.Some? ==> Sorted(r.value)
    ensures r.Some? && IsThin(file) ==> |r.value| == 1 && Image(file, 0, |file|, r.value[0])
    ensures r.Some? && !IsThin(file) ==>
              forall a :: a in r.value <==>
                          exists record <- TableOf(file).value.1 :: ArchitectureOf(record.cpuType) == Some(a)
  {
    if |file| > MAX_MEMBER_BYTES || !executable || |file| < 8 {
      return None;
    }
    if ThinFormatOf(file[..4]).Some? {
      var thin := ThinMachoArchitecture(file, 0, |file|);
      return if thin == None then None else Some(SortedNames([thin.value]));
    }
    var fat := FatArchitectures(file);
    if fat == None {
      return None;
    }
    r := Some(SortedNames(fat.value));
    NamesOfTable(TableOf(file).value.1, fat.value, r.value);
  }

  lemma NamesOfTable(table: seq<Record>, names: seq<Architecture>, sorted: seq<Architecture>)
    requires Named(table, names)
    requires sorted == SortedNames(names)
    ensures forall a :: a in sorted <==> exists record <- table :: ArchitectureOf(record.cpuType) == Some(a)
  {
    forall a
      ensures a in sorted <==> exists record <- table :: ArchitectureOf(record.cpuType) == Some(a)
    {
      assert a == Aarch64 || a == X86_64;
      assert a in sorted <==> a in names;
      if a in names {
        var i :| 0 <= i < |names| && names[i] == a;
        assert table[i] in table;
      }
    }
  }

  // ---------------------------------------------------------------- Consequences

  // An accepted universal file holds at most one image per supported architecture, and its disjoint
  // slices together fit between the table and the end of the file.
  lemma UniversalFits(file: seq<byte>)
    requires Universal(file)
    ensures var (tableEnd, table) := TableOf(file).value;
            && 1 <= |table| <= 2
            && tableEnd + table[0].size + (if |table| == 2 then table[1].size else 0) <= |file|
  {
    var (tableEnd, table) := TableOf(file).value;
    assert Slice(file, tableEnd, table[0]);
    if |table| >= 2 {
      assert Slice(file, tableEnd, table[1]) && Compatible(table[0], table[1]);
    }
  }

  // No byte of the file belongs to two slices.
  lemma SlicesShareNoByte(file: seq<byte>, i: nat, j: nat, at: nat)
    requires Universal(file) && i < j < |TableOf(file).value.1|
    ensures var table := TableOf(file).value.1;
            !(table[i].offset <= at < table[i].offset + table[i].size
              && table[j].offset <= at < table[j].offset + table[j].size)
  {
    var table := TableOf(file).value.1;
    assert Compatible(table[i], table[j]);
  }
}
