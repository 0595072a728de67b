/**
 macOS binaries as they are written, byte for byte: the header and load commands of an image, and the table of
 a universal file. The validator accepts exactly the files that are written so.
 */
module MachOText {
  import opened Integers
  import opened MachO
  import opened ReleaseLimits
  import opened Wrappers

  const WORD := 0x1_0000_0000

  // ---------------------------------------------------------------- Text in a file

  /** The file holds the text at the offset. */
  predicate TextAt(file: seq<byte>, at: nat, text: seq<byte>) {
    at + |text| <= |file| && forall i | 0 <= i < |text| :: file[at + i] == text[i]
  }

  lemma TextsAt(file: seq<byte>, at: nat, a: seq<byte>, b: seq<byte>)
    ensures TextAt(file, at, a + b) <==> TextAt(file, at, a) && TextAt(file, at + |a|, b)
  {
    var text := a + b;
    if TextAt(file, at, text) {
      assert forall i | 0 <= i < |a| :: a[i] == text[i];
      assert forall i | 0 <= i < |b| :: b[i] == text[|a| + i] && file[at + (|a| + i)] == text[|a| + i];
    }
    if TextAt(file, at, a) && TextAt(file, at + |a|, b) {
      forall i | 0 <= i < |text|
        ensures file[at + i] == text[i]
      {
        if i >= |a| {
          assert file[at + |a| + (i - |a|)] == b[i - |a|];
        }
      }
    }
  }

  /** The four bytes of a 32-bit number. */
  function Word(n: nat, endian: Endian): (w: seq<byte>)
    requires n < WORD
    ensures |w| == 4
  {
    match endian
    case Little => [n % 0x100, n / 0x100 % 0x100, n / 0x1_0000 % 0x100, n / 0x100_0000]
    case Big => [n / 0x100_0000, n / 0x1_0000 % 0x100, n / 0x100 % 0x100, n % 0x100]
  }

  lemma WordReads(file: seq<byte>, at: nat, n: nat, endian: Endian)
    requires n < WORD && TextAt(file, at, Word(n, endian))
    ensures U32(file, at, endian) == n
  {
    var w := Word(n, endian);
    assert file[at + 0] == w[0] && file[at + 1] == w[1] && file[at + 2] == w[2] && file[at + 3] == w[3];
    BigEndianReads(n);
  }

  lemma WordIsRead(file: seq<byte>, at: nat, endian: Endian)
    requires at + 4 <= |file|
    ensures U32(file, at, endian) < WORD && TextAt(file, at, Word(U32(file, at, endian), endian))
  {
    var b0: byte, b1: byte, b2: byte, b3: byte := file[at], file[at + 1], file[at + 2], file[at + 3];
    if endian.Big? {
      BytesOf(b0, b1, b2, b3);
    } else {
      BytesOf(b3, b2, b1, b0);
    }
  }

  lemma U32Fits(file: seq<byte>, at: nat, endian: Endian)
    requires at + 4 <= |file|
    ensures U32(file, at, endian) < WORD
  {
  }

  predicate Fit(words: seq<nat>) { forall i | 0 <= i < |words| :: words[i] < WORD }

  function Words(words: seq<nat>, endian: Endian): (text: seq<byte>)
    requires Fit(words)
    ensures |text| == 4 * |words|
  {
    if words == [] then [] else Word(words[0], endian) + Words(words[1..], endian)
  }

  /** The numbers read one after the other are these. */
  predicate ReadAs(file: seq<byte>, at: nat, words: seq<nat>, endian: Endian) {
    at + 4 * |words| <= |file| && forall k | 0 <= k < |words| :: U32(file, at + 4 * k, endian) == words[k]
  }

  lemma ReadAsTail(file: seq<byte>, at: nat, words: seq<nat>, endian: Endian)
    requires words != [] && at + 4 <= |file|
    ensures ReadAs(file, at, words, endian) <==>
            U32(file, at, endian) == words[0] && ReadAs(file, at + 4, words[1..], endian)
  {
    if U32(file, at, endian) == words[0] && ReadAs(file, at + 4, words[1..], endian) {
      forall k | 0 <= k < |words|
        ensures U32(file, at + 4 * k, endian) == words[k]
      {
        if k > 0 {
          assert U32(file, at + 4 + 4 * (k - 1), endian) == words[1..][k - 1];
        }
      }
    }
    if ReadAs(file, at, words, endian) {
      assert U32(file, at + 4 * 0, endian) == words[0];
      forall k | 0 <= k < |words[1..]|
        ensures U32(file, at + 4 + 4 * k, endian) == words[1..][k]
      {
        assert U32(file, at + 4 * (k + 1), endian) == words[k + 1];
      }
    }
  }

  lemma WordIff(file: seq<byte>, at: nat, n: nat, endian: Endian)
    requires n < WORD && at + 4 <= |file|
    ensures TextAt(file, at, Word(n, endian)) <==> U32(file, at, endian) == n
  {
    WordIsRead(file, at, endian);
    if TextAt(file, at, Word(n, endian)) {
      WordReads(file, at, n, endian);
    }
  }

  // Numbers are written where they are read.
  lemma {:induction false} WordsIff(file: seq<byte>, at: nat, words: seq<nat>, endian: Endian)
    requires Fit(words) && at + 4 * |words| <= |file|
    ensures TextAt(file, at, Words(words, endian)) <==> ReadAs(file, at, words, endian)
    decreases |words|
  {
    if words != [] {
      TextsAt(file, at, Word(words[0], endian), Words(words[1..], endian));
      WordIff(file, at, words[0], endian);
      WordsIff(file, at + 4, words[1..], endian);
      ReadAsTail(file, at, words, endian);
    }
  }

  // ---------------------------------------------------------------- Load commands

  /** A load command: its kind, and what follows the two words of its header. */
  datatype Command = Command(kind: nat, body: seq<byte>)

  predicate Sound(c: Command) { c.kind < WORD && |c.body| % 8 == 0 && 8 + |c.body| < WORD }

  predicate AllSound(commands: seq<Command>) { forall i | 0 <= i < |commands| :: Sound(commands[i]) }

  function CommandText(c: Command, endian: Endian): (text: seq<byte>)
    requires Sound(c)
    ensures |text| == 8 + |c.body|
  {
    Words([c.kind, 8 + |c.body|], endian) + c.body
  }

  function CommandsText(commands: seq<Command>, endian: Endian): seq<byte>
    requires AllSound(commands)
  {
    if commands == [] then [] else CommandText(commands[0], endian) + CommandsText(commands[1..], endian)
  }

  lemma TwoWords(file: seq<byte>, at: nat, a: nat, b: nat, endian: Endian)
    requires at + 8 <= |file|
    ensures ReadAs(file, at, [a, b], endian) <==> U32(file, at, endian) == a && U32(file, at + 4, endian) == b
  {
    ReadAsTail(file, at, [a, b], endian);
    ReadAsTail(file, at + 4, [b], endian);
    assert [a, b][1..] == [b] && [b][1..] == [];
  }

  lemma CommandReads(file: seq<byte>, at: nat, c: Command, endian: Endian)
    requires Sound(c) && TextAt(file, at, CommandText(c, endian))
    ensures at + 8 <= |file| && U32(file, at + 4, endian) == 8 + |c.body|
  {
    TextsAt(file, at, Words([c.kind, 8 + |c.body|], endian), c.body);
    WordsIff(file, at, [c.kind, 8 + |c.body|], endian);
    TwoWords(file, at, c.kind, 8 + |c.body|, endian);
  }

  lemma {:induction false} CommandsWalk(file: seq<byte>, at: nat, commands: seq<Command>, endian: Endian)
    requires AllSound(commands) && TextAt(file, at, CommandsText(commands, endian))
    ensures Walk(file, at, |CommandsText(commands, endian)|, |commands|, endian)
    decreases |commands|
  {
    if commands != [] {
      TextsAt(file, at, CommandText(commands[0], endian), CommandsText(commands[1..], endian));
      CommandReads(file, at, commands[0], endian);
      CommandsWalk(file, at + 8 + |commands[0].body|, commands[1..], endian);
      PlusEight(|commands[0].body|);
      WalkOneMore(file, at, 8 + |commands[0].body|, |CommandsText(commands[1..], endian)|, |commands| - 1, endian);
    }
  }

  lemma PlusEight(n: nat)
    requires n % 8 == 0
    ensures (8 + n) % 8 == 0
  {
  }

  lemma WalkOneMore(file: seq<byte>, at: nat, size: nat, rest: nat, count: nat, endian: Endian)
    requires at + 8 <= |file| && U32(file, at + 4, endian) == size && 8 <= size && size % 8 == 0
    requires Walk(file, at + size, rest, count, endian)
    ensures Walk(file, at, size + rest, count + 1, endian)
  {
  }

  lemma CommandAt(file: seq<byte>, at: nat, endian: Endian) returns (c: Command)
    requires at + 8 <= |file| && 8 <= U32(file, at + 4, endian) <= |file| - at && U32(file, at + 4, endian) % 8 == 0
    ensures Sound(c) && 8 + |c.body| == U32(file, at + 4, endian) && TextAt(file, at, CommandText(c, endian))
  {
    var kind, size := U32(file, at, endian), U32(file, at + 4, endian);
    WordIsRead(file, at, endian);
    WordIsRead(file, at + 4, endian);
    HeaderOfCommand(file, at, kind, size, endian);
    c := CommandOf(file, at, kind, size, endian);
  }

  lemma CommandOf(file: seq<byte>, at: nat, kind: nat, size: nat, endian: Endian) returns (c: Command)
    requires kind < WORD && 8 <= size < WORD && at + size <= |file|
    requires size % 8 == 0 && TextAt(file, at, Words([kind, size], endian))
    ensures Sound(c) && 8 + |c.body| == size && TextAt(file, at, CommandText(c, endian))
  {
    c := Command(kind, file[at + 8..at + size]);
    LessEight(size);
    SliceAt(file, at + 8, at + size);
    TextsAt(file, at, Words([kind, size], endian), c.body);
  }

  lemma LessEight(size: nat)
    requires 8 <= size && size % 8 == 0
    ensures (size - 8) % 8 == 0
  {
  }

  lemma HeaderOfCommand(file: seq<byte>, at: nat, kind: nat, size: nat, endian: Endian)
    requires at + 8 <= |file| && kind == U32(file, at, endian) < WORD && size == U32(file, at + 4, endian) < WORD
    ensures TextAt(file, at, Words([kind, size], endian))
  {
    TwoWords(file, at, kind, size, endian);
    WordsIff(file, at, [kind, size], endian);
  }

  lemma SliceAt(file: seq<byte>, at: nat, end: nat)
    requires at <= end <= |file|
    ensures TextAt(file, at, file[at..end])
  {
  }

  lemma {:induction false} WalkReadsCommands(file: seq<byte>, at: nat, region: nat, count: nat, endian: Endian)
    returns (commands: seq<Command>)
    requires Walk(file, at, region, count, endian) && at + region <= |file|
    ensures |commands| == count && AllSound(commands) && |CommandsText(commands, endian)| == region
    ensures TextAt(file, at, CommandsText(commands, endian))
    decreases count
  {
    commands := [];
    if count > 0 {
      var size := U32(file, at + 4, endian);
      var c := CommandAt(file, at, endian);
      var rest := WalkReadsCommands(file, at + size, region - size, count - 1, endian);
      commands := [c] + rest;
      assert commands[1..] == rest;
      TextsAt(file, at, CommandText(c, endian), CommandsText(rest, endian));
    }
  }

  // ---------------------------------------------------------------- One image

  /** A 64-bit executable image as a linker writes it. */
  datatype Executable = Executable(endian: Endian, architecture: Architecture, subtype: nat, flags: nat, reserved: nat,
                                   commands: seq<Command>)

  predicate SoundExecutable(x: Executable) {
    && x.subtype < WORD && x.flags < WORD && x.reserved < WORD
    && |x.commands| <= 4096 && AllSound(x.commands) && |CommandsText(x.commands, x.endian)| < WORD
  }

  function Magic(endian: Endian): seq<byte> {
    if endian.Little? then [0xCF, 0xFA, 0xED, 0xFE] else [0xFE, 0xED, 0xFA, 0xCF]
  }

  function CpuType(architecture: Architecture): nat {
    if architecture.X86_64? then 0x0100_0007 else 0x0100_000C
  }

  function HeaderWords(x: Executable): (words: seq<nat>)
    requires SoundExecutable(x)
    ensures Fit(words) && |words| == 7
  {
    [CpuType(x.architecture), x.subtype, 2, |x.commands|, |CommandsText(x.commands, x.endian)|, x.flags, x.reserved]
  }

  function ImageText(x: Executable): seq<byte>
    requires SoundExecutable(x)
  {
    Magic(x.endian) + Words(HeaderWords(x), x.endian) + CommandsText(x.commands, x.endian)
  }

  /** At `offset` the file holds this image, within `size` bytes. */
  ghost predicate Holds(file: seq<byte>, offset: nat, size: nat, x: Executable) {
    SoundExecutable(x) && |ImageText(x)| <= size && TextAt(file, offset, ImageText(x))
  }

  lemma ThreeTexts(file: seq<byte>, at: nat, a: seq<byte>, b: seq<byte>, c: seq<byte>)
    ensures TextAt(file, at, a + b + c) <==>
            TextAt(file, at, a) && TextAt(file, at + |a|, b) && TextAt(file, at + |a| + |b|, c)
  {
    TextsAt(file, at, a + b, c);
    TextsAt(file, at, a, b);
  }

  lemma HoldsParts(file: seq<byte>, offset: nat, x: Executable)
    requires SoundExecutable(x) && offset + 32 <= |file|
    ensures TextAt(file, offset, ImageText(x)) <==>
            && TextAt(file, offset, Magic(x.endian)) && ReadAs(file, offset + 4, HeaderWords(x), x.endian)
            && TextAt(file, offset + 32, CommandsText(x.commands, x.endian))
  {
    ThreeTexts(file, offset, Magic(x.endian), Words(HeaderWords(x), x.endian), CommandsText(x.commands, x.endian));
    WordsIff(file, offset + 4, HeaderWords(x), x.endian);
  }

  lemma MagicIsFormat(file: seq<byte>, offset: nat, endian: Endian)
    requires offset + 4 <= |file|
    ensures TextAt(file, offset, Magic(endian)) <==>
            ThinFormatOf(file[offset..offset + 4]) == Some(ThinFormat(endian, true))
  {
    var four := file[offset..offset + 4];
    assert TextAt(file, offset, Magic(endian)) <==> four == Magic(endian) by {
      if TextAt(file, offset, Magic(endian)) {
        assert four == Magic(endian);
      }
      if four == Magic(endian) {
        assert forall i | 0 <= i < 4 :: file[offset + i] == four[i];
      }
    }
  }

  lemma SevenWords(file: seq<byte>, at: nat, w: seq<nat>, endian: Endian)
    requires |w| == 7 && at + 28 <= |file|
    ensures ReadAs(file, at, w, endian) <==>
            && U32(file, at, endian) == w[0] && U32(file, at + 4, endian) == w[1] && U32(file, at + 8, endian) == w[2]
            && U32(file, at + 12, endian) == w[3] && U32(file, at + 16, endian) == w[4]
            && U32(file, at + 20, endian) == w[5] && U32(file, at + 24, endian) == w[6]
  {
    if ReadAs(file, at, w, endian) {
      assert U32(file, at + 4 * 0, endian) == w[0] && U32(file, at + 4 * 1, endian) == w[1];
      assert U32(file, at + 4 * 2, endian) == w[2] && U32(file, at + 4 * 3, endian) == w[3];
      assert U32(file, at + 4 * 4, endian) == w[4] && U32(file, at + 4 * 5, endian) == w[5];
      assert U32(file, at + 4 * 6, endian) == w[6];
    }
  }

  lemma ImageOfParts(file: seq<byte>, offset: nat, size: nat, x: Executable, region: nat)
    requires SoundExecutable(x) && offset + 32 <= |file| && region == |CommandsText(x.commands, x.endian)| <= size - 32
    requires ThinFormatOf(file[offset..offset + 4]) == Some(ThinFormat(x.endian, true))
    requires U32(file, offset + 4, x.endian) == CpuType(x.architecture) && U32(file, offset + 12, x.endian) == 2
    requires U32(file, offset + 16, x.endian) == |x.commands| && U32(file, offset + 20, x.endian) == region
    requires Walk(file, offset + 32, region, |x.commands|, x.endian)
    ensures Image(file, offset, size, x.architecture)
  {
  }

  lemma WrittenIsImage(file: seq<byte>, offset: nat, size: nat, x: Executable)
    requires Holds(file, offset, size, x)
    ensures Image(file, offset, size, x.architecture)
  {
    HoldsParts(file, offset, x);
    MagicIsFormat(file, offset, x.endian);
    SevenWords(file, offset + 4, HeaderWords(x), x.endian);
    CommandsWalk(file, offset + 32, x.commands, x.endian);
    ImageOfParts(file, offset, size, x, |CommandsText(x.commands, x.endian)|);
  }

  lemma HeaderOf(file: seq<byte>, offset: nat, endian: Endian, architecture: Architecture, commands: seq<Command>)
    returns (x: Executable)
    requires offset + 32 <= |file| && |commands| <= 4096 && AllSound(commands)
    requires U32(file, offset + 4, endian) == CpuType(architecture) && U32(file, offset + 12, endian) == 2
    requires U32(file, offset + 16, endian) == |commands|
    requires U32(file, offset + 20, endian) == |CommandsText(commands, endian)|
    ensures SoundExecutable(x) && x.endian == endian && x.architecture == architecture && x.commands == commands
    ensures ReadAs(file, offset + 4, HeaderWords(x), endian)
  {
    x := Executable(endian, architecture, U32(file, offset + 8, endian), U32(file, offset + 24, endian),
                    U32(file, offset + 28, endian), commands);
    U32Fits(file, offset + 8, endian);
    U32Fits(file, offset + 20, endian);
    U32Fits(file, offset + 24, endian);
    U32Fits(file, offset + 28, endian);
    SevenWords(file, offset + 4, HeaderWords(x), endian);
  }

  lemma ImageIsWritten(file: seq<byte>, offset: nat, size: nat, architecture: Architecture) returns (x: Executable)
    requires Image(file, offset, size, architecture) && offset + size <= |file|
    ensures Holds(file, offset, size, x) && x.architecture == architecture
  {
    var endian := ThinFormatOf(file[offset..offset + 4]).value.endian;
    var region := U32(file, offset + 20, endian);
    var commands := WalkReadsCommands(file, offset + 32, region, U32(file, offset + 16, endian), endian);
    x := HeaderOf(file, offset, endian, architecture, commands);
    MagicIsFormat(file, offset, endian);
    HoldsParts(file, offset, x);
  }

  // A slice of a file is an image of an architecture if and only if it starts with one as it is written.
  lemma ImagesAreWritten(file: seq<byte>, offset: nat, size: nat, architecture: Architecture)
    requires offset + size <= |file|
    ensures Image(file, offset, size, architecture) <==>
            exists x :: Holds(file, offset, size, x) && x.architecture == architecture
  {
    if Image(file, offset, size, architecture) {
      var x := ImageIsWritten(file, offset, size, architecture);
    }
    forall x | Holds(file, offset, size, x) && x.architecture == architecture
      ensures Image(file, offset, size, architecture)
    {
      WrittenIsImage(file, offset, size, x);
    }
  }

  // ---------------------------------------------------------------- The table of a universal file

  function FatMagic(format: FatFormat): seq<byte> {
    match (format.endian, format.wide)
    case (Big, false) => [0xCA, 0xFE, 0xBA, 0xBE]
    case (Little, false) => [0xBE, 0xBA, 0xFE, 0xCA]
    case (Big, true) => [0xCA, 0xFE, 0xBA, 0xBF]
    case (Little, true) => [0xBF, 0xBA, 0xFE, 0xCA]
  }

  /** A 64-bit number as two words. */
  function Quad(n: nat, endian: Endian): (words: seq<nat>)
    requires n < WORD * WORD
    ensures Fit(words) && |words| == 2
  {
    HalvesFit(n);
    if endian.Little? then [n % WORD, n / WORD] else [n / WORD, n % WORD]
  }

  lemma HalvesFit(n: nat)
    requires n < WORD * WORD
    ensures n / WORD < WORD
  {
  }

  /** The numbers of a record are as wide as its format. */
  predicate RecordFits(format: FatFormat, r: Record, subtype: nat) {
    && r.cpuType < WORD && subtype < WORD && r.alignment < WORD && r.reserved < WORD
    && if format.wide then r.offset < WORD * WORD && r.size < WORD * WORD
       else r.offset < WORD && r.size < WORD && r.reserved == 0
  }

  function RecordWords(format: FatFormat, r: Record, subtype: nat): (words: seq<nat>)
    requires RecordFits(format, r, subtype)
    ensures Fit(words) && 4 * |words| == if format.wide then 32 else 20
  {
    if format.wide then
      [r.cpuType, subtype] + Quad(r.offset, format.endian) + Quad(r.size, format.endian) + [r.alignment, r.reserved]
    else [r.cpuType, subtype, r.offset, r.size, r.alignment]
  }

  lemma QuadReads(file: seq<byte>, at: nat, n: nat, endian: Endian)
    requires at + 8 <= |file| && n < WORD * WORD
    ensures U64(file, at, endian) == n <==>
            U32(file, at, endian) == Quad(n, endian)[0] && U32(file, at + 4, endian) == Quad(n, endian)[1]
  {
    U32Fits(file, at, endian);
    U32Fits(file, at + 4, endian);
    var low, high := if endian.Little? then U32(file, at, endian) else U32(file, at + 4, endian),
                     if endian.Little? then U32(file, at + 4, endian) else U32(file, at, endian);
    Halves(n, low, high);
  }

  lemma Halves(n: nat, low: nat, high: nat)
    requires low < WORD
    ensures n == low + WORD * high <==> low == n % WORD && high == n / WORD
  {
  }

  lemma FiveWords(file: seq<byte>, at: nat, w: seq<nat>, endian: Endian)
    requires |w| == 5 && at + 20 <= |file|
    ensures ReadAs(file, at, w, endian) <==>
            && U32(file, at, endian) == w[0] && U32(file, at + 4, endian) == w[1] && U32(file, at + 8, endian) == w[2]
            && U32(file, at + 12, endian) == w[3] && U32(file, at + 16, endian) == w[4]
  {
    if ReadAs(file, at, w, endian) {
      assert U32(file, at + 4 * 0, endian) == w[0] && U32(file, at + 4 * 1, endian) == w[1];
      assert U32(file, at + 4 * 2, endian) == w[2] && U32(file, at + 4 * 3, endian) == w[3];
      assert U32(file, at + 4 * 4, endian) == w[4];
    }
  }

  lemma EightWords(file: seq<byte>, at: nat, w: seq<nat>, endian: Endian)
    requires |w| == 8 && at + 32 <= |file|
    ensures ReadAs(file, at, w, endian) <==>
            && U32(file, at, endian) == w[0] && U32(file, at + 4, endian) == w[1] && U32(file, at + 8, endian) == w[2]
            && U32(file, at + 12, endian) == w[3] && U32(file, at + 16, endian) == w[4]
            && U32(file, at + 20, endian) == w[5] && U32(file, at + 24, endian) == w[6]
            && U32(file, at + 28, endian) == w[7]
  {
    ReadAsTail(file, at, w, endian);
    SevenWords(file, at + 4, w[1..], endian);
  }

  lemma RecordReads(file: seq<byte>, format: FatFormat, index: nat, r: Record, subtype: nat)
    requires RecordFits(format, r, subtype) && TableEnd(format, index + 1) <= |file|
    ensures TableEnd(format, index) + RecordSize(format) <= |file|
    ensures TextAt(file, TableEnd(format, index), Words(RecordWords(format, r, subtype), format.endian)) <==>
            RecordAt(file, format, index) == r && U32(file, TableEnd(format, index) + 4, format.endian) == subtype
  {
    var at, words := TableEnd(format, index), RecordWords(format, r, subtype);
    assert at + RecordSize(format) == TableEnd(format, index + 1);
    WordsIff(file, at, words, format.endian);
    if format.wide {
      EightWords(file, at, words, format.endian);
      QuadReads(file, at + 8, r.offset, format.endian);
      QuadReads(file, at + 16, r.size, format.endian);
    } else {
      FiveWords(file, at, words, format.endian);
    }
  }

  lemma RecordFitsWhereRead(file: seq<byte>, format: FatFormat, index: nat)
    requires TableEnd(format, index + 1) <= |file|
    ensures TableEnd(format, index) + RecordSize(format) <= |file|
    ensures RecordFits(format, RecordAt(file, format, index), U32(file, TableEnd(format, index) + 4, format.endian))
  {
    var at := TableEnd(format, index);
    assert at + RecordSize(format) == TableEnd(format, index + 1);
    U32Fits(file, at, format.endian);
    U32Fits(file, at + 4, format.endian);
    U32Fits(file, at + 8, format.endian);
    U32Fits(file, at + 12, format.endian);
    U32Fits(file, at + 16, format.endian);
    if format.wide {
      U32Fits(file, at + 20, format.endian);
      U32Fits(file, at + 24, format.endian);
      U32Fits(file, at + 28, format.endian);
    }
  }

  /** Record `i` is written in its place. */
  ghost predicate RecordWritten(file: seq<byte>, format: FatFormat, records: seq<Record>, subtypes: seq<nat>, i: nat)
    requires i < |records| == |subtypes|
  {
    RecordFits(format, records[i], subtypes[i])
    && TextAt(file, TableEnd(format, i), Words(RecordWords(format, records[i], subtypes[i]), format.endian))
  }

  /** The file starts with a table of these records. */
  ghost predicate StartsWithTable(file: seq<byte>, format: FatFormat, records: seq<Record>, subtypes: seq<nat>) {
    && 1 <= |records| <= 32 && |subtypes| == |records| && TableEnd(format, |records|) <= |file|
    && TextAt(file, 0, FatMagic(format)) && TextAt(file, 4, Word(|records|, format.endian))
    && forall i | 0 <= i < |records| :: RecordWritten(file, format, records, subtypes, i)
  }

  lemma FatMagicIsFormat(file: seq<byte>, format: FatFormat)
    requires |file| >= 4
    ensures TextAt(file, 0, FatMagic(format)) <==> FatFormatOf(file[..4]) == Some(format)
  {
    var magic := FatMagic(format);
    if TextAt(file, 0, magic) {
      assert forall i | 0 <= i < 4 :: file[0 + i] == magic[i];
      assert file[..4] == magic;
    }
    if file[..4] == magic {
      assert forall i | 0 <= i < 4 :: file[0 + i] == file[..4][i];
    }
  }

  lemma WithinTable(format: FatFormat, i: nat, count: nat)
    requires i < count
    ensures TableEnd(format, i + 1) <= TableEnd(format, count)
  {
  }

  lemma TableReads(file: seq<byte>, format: FatFormat, records: seq<Record>, subtypes: seq<nat>)
    requires StartsWithTable(file, format, records, subtypes)
    ensures TableOf(file) == Some((TableEnd(format, |records|), records))
  {
    FatMagicIsFormat(file, format);
    WordReads(file, 4, |records|, format.endian);
    var table := Table(file, format, |records|);
    forall i | 0 <= i < |records|
      ensures table[i] == records[i]
    {
      assert RecordWritten(file, format, records, subtypes, i);
      WithinTable(format, i, |records|);
      RecordReads(file, format, i, records[i], subtypes[i]);
    }
    assert table == records;
  }

  /** The subtypes that a table spells, which the validator does not look at. */
  function SubtypesOf(file: seq<byte>, format: FatFormat, count: nat): (subtypes: seq<nat>)
    requires TableEnd(format, count) <= |file|
    ensures |subtypes| == count
    ensures forall i | 0 <= i < count :: TableEnd(format, i) + 8 <= |file|
    ensures forall i | 0 <= i < count :: subtypes[i] == U32(file, TableEnd(format, i) + 4, format.endian)
  {
    if count == 0 then []
    else
      WithinTable(format, count - 1, count);
      SubtypesOf(file, format, count - 1) + [U32(file, TableEnd(format, count - 1) + 4, format.endian)]
  }

  lemma RecordIsWritten(file: seq<byte>, format: FatFormat, records: seq<Record>, subtypes: seq<nat>, i: nat)
    requires i < |records| == |subtypes| && TableEnd(format, i + 1) <= |file|
    requires records[i] == RecordAt(file, format, i) && TableEnd(format, i) + 8 <= |file|
    requires subtypes[i] == U32(file, TableEnd(format, i) + 4, format.endian)
    ensures RecordWritten(file, format, records, subtypes, i)
  {
    RecordFitsWhereRead(file, format, i);
    RecordReads(file, format, i, records[i], subtypes[i]);
  }

  lemma TableIsWritten(file: seq<byte>) returns (format: FatFormat, subtypes: seq<nat>)
    requires TableOf(file).Some?
    ensures StartsWithTable(file, format, TableOf(file).value.1, subtypes)
  {
    format := FatFormatOf(file[..4]).value;
    var records := TableOf(file).value.1;
    subtypes := SubtypesOf(file, format, |records|);
    FatMagicIsFormat(file, format);
    WordIsRead(file, 4, format.endian);
    forall i | 0 <= i < |records|
      ensures RecordWritten(file, format, records, subtypes, i)
    {
      WithinTable(format, i, |records|);
      RecordIsWritten(file, format, records, subtypes, i);
    }
  }

  // ---------------------------------------------------------------- Whole files

  /** The record describes an image behind the table, aligned and inside the file, of its own processor. */
  ghost predicate Describes(file: seq<byte>, tableEnd: nat, r: Record) {
    && r.reserved == 0 && r.alignment <= 30 && r.offset % Pow2(r.alignment) == 0
    && tableEnd <= r.offset && r.size > 0 && r.offset + r.size <= |file|
    && exists x :: Holds(file, r.offset, r.size, x) && CpuType(x.architecture) == r.cpuType
  }

  lemma SliceDescribes(file: seq<byte>, tableEnd: nat, r: Record)
    ensures Slice(file, tableEnd, r) <==> Describes(file, tableEnd, r)
  {
    if r.offset + r.size <= |file| {
      if ArchitectureOf(r.cpuType).Some? {
        ImagesAreWritten(file, r.offset, r.size, ArchitectureOf(r.cpuType).value);
      }
      forall x | Holds(file, r.offset, r.size, x) && CpuType(x.architecture) == r.cpuType
        ensures ArchitectureOf(r.cpuType) == Some(x.architecture)
      {
      }
    }
  }

  /** Different processors, and no byte in common. */
  predicate Apart(a: Record, b: Record) {
    a.cpuType != b.cpuType && (a.offset + a.size <= b.offset || b.offset + b.size <= a.offset)
  }

  lemma CompatibleIsApart(a: Record, b: Record)
    requires ArchitectureOf(a.cpuType).Some? && ArchitectureOf(b.cpuType).Some?
    ensures Compatible(a, b) <==> Apart(a, b)
  {
  }

  /** A universal file: a table of images that are pairwise apart. */
  ghost predicate UniversalText(file: seq<byte>, format: FatFormat, records: seq<Record>, subtypes: seq<nat>) {
    && StartsWithTable(file, format, records, subtypes)
    && (forall i | 0 <= i < |records| :: Describes(file, TableEnd(format, |records|), records[i]))
    && (forall i, j | 0 <= i < j < |records| :: Apart(records[i], records[j]))
  }

  lemma SlicesAreDescribed(file: seq<byte>, tableEnd: nat, records: seq<Record>)
    ensures Slices(file, tableEnd, records, |records|) <==>
            && (forall i | 0 <= i < |records| :: Describes(file, tableEnd, records[i]))
            && (forall i, j | 0 <= i < j < |records| :: Apart(records[i], records[j]))
  {
    forall i | 0 <= i < |records|
      ensures Slice(file, tableEnd, records[i]) <==> Describes(file, tableEnd, records[i])
    {
      SliceDescribes(file, tableEnd, records[i]);
    }
    if forall i | 0 <= i < |records| :: Slice(file, tableEnd, records[i]) {
      forall i, j | 0 <= i < j < |records|
        ensures Compatible(records[i], records[j]) <==> Apart(records[i], records[j])
      {
        assert Slice(file, tableEnd, records[i]) && Slice(file, tableEnd, records[j]);
        CompatibleIsApart(records[i], records[j]);
      }
    }
  }

  lemma UniversalIsWritten(file: seq<byte>)
    ensures Universal(file) <==> exists format, records, subtypes :: UniversalText(file, format, records, subtypes)
  {
    if Universal(file) {
      var (tableEnd, records) := TableOf(file).value;
      var format, subtypes := TableIsWritten(file);
      SlicesAreDescribed(file, tableEnd, records);
      TableReads(file, format, records, subtypes);
      assert UniversalText(file, format, records, subtypes);
    }
    if format, records, subtypes :| UniversalText(file, format, records, subtypes) {
      TableReads(file, format, records, subtypes);
      SlicesAreDescribed(file, TableEnd(format, |records|), records);
    }
  }

  ghost predicate StartsWithImage(file: seq<byte>) { exists x :: Holds(file, 0, |file|, x) }

  ghost predicate IsUniversalText(file: seq<byte>) {
    exists format, records, subtypes :: UniversalText(file, format, records, subtypes)
  }

  lemma ThinIsWritten(file: seq<byte>)
    requires |file| >= 8
    ensures StartsWithImage(file) <==> IsThin(file) && exists a :: Image(file, 0, |file|, a)
  {
    if x :| Holds(file, 0, |file|, x) {
      ThinMagic(file, x);
      WrittenIsImage(file, 0, |file|, x);
    }
    if a :| Image(file, 0, |file|, a) {
      var x := ImageIsWritten(file, 0, |file|, a);
    }
  }

  lemma ThinMagic(file: seq<byte>, x: Executable)
    requires Holds(file, 0, |file|, x)
    ensures IsThin(file)
  {
    HoldsParts(file, 0, x);
    MagicIsFormat(file, 0, x.endian);
  }

  lemma UniversalIsNotThin(file: seq<byte>)
    requires Universal(file)
    ensures !IsThin(file)
  {
  }

  // The validator accepts an executable file of permitted size if and only if it starts with an image as it is
  // written, or with a table of images that lie apart in it.
  lemma AcceptedAsWritten(file: seq<byte>, executable: bool)
    ensures WellFormed(file, executable) <==>
            executable && 8 <= |file| <= MAX_MEMBER_BYTES && (StartsWithImage(file) || IsUniversalText(file))
  {
    if |file| >= 8 {
      ThinIsWritten(file);
      UniversalIsWritten(file);
      if Universal(file) {
        UniversalIsNotThin(file);
      }
    }
  }
}
