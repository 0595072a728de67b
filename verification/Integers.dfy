/** Fixed-width integers in byte sequences. */
module Integers {
  import opened Wrappers

  datatype Endian = Little | Big

  predicate InFile(file: seq<byte>, offset: nat, size: nat) { offset + size <= |file| }

  function U32(file: seq<byte>, offset: nat, endian: Endian): nat
    requires InFile(file, offset, 4)
  {
    var b0: nat, b1: nat, b2: nat, b3: nat := file[offset], file[offset + 1], file[offset + 2], file[offset + 3];
    match endian
    case Little => b0 + 0x100 * b1 + 0x1_0000 * b2 + 0x100_0000 * b3
    case Big => b3 + 0x100 * b2 + 0x1_0000 * b1 + 0x100_0000 * b0
  }

  function U64(file: seq<byte>, offset: nat, endian: Endian): nat
    requires InFile(file, offset, 8)
  {
    match endian
    case Little => U32(file, offset, Little) + 0x1_0000_0000 * U32(file, offset + 4, Little)
    case Big => U32(file, offset + 4, Big) + 0x1_0000_0000 * U32(file, offset, Big)
  }

  /** The four bytes of a 32-bit integer, most significant first. */
  function BigEndian(n: nat): (bytes: seq<byte>)
    requires n < 0x1_0000_0000
    ensures |bytes| == 4
  {
    [n / 0x100_0000, n / 0x1_0000 % 0x100, n / 0x100 % 0x100, n % 0x100]
  }

  lemma DivideByteTwice(n: nat)
    ensures n / 0x1_0000 == n / 0x100 / 0x100
  {
    var q := n / 0x100;
    assert n == 0x1_0000 * (q / 0x100) + (0x100 * (q % 0x100) + n % 0x100);
  }

  lemma DivideByteThrice(n: nat)
    ensures n / 0x100_0000 == n / 0x1_0000 / 0x100
  {
    var q := n / 0x1_0000;
    assert n == 0x100_0000 * (q / 0x100) + (0x1_0000 * (q % 0x100) + n % 0x1_0000);
  }

  lemma LastByte(q: nat, b: nat)
    requires b < 0x100
    ensures (0x100 * q + b) / 0x100 == q && (0x100 * q + b) % 0x100 == b
  {
  }

  lemma BigEndianReads(n: nat)
    requires n < 0x1_0000_0000
    ensures U32(BigEndian(n), 0, Big) == n
  {
    DivideByteTwice(n);
    DivideByteThrice(n);
    var a, b := n / 0x1_0000, n / 0x100;
    assert n == 0x100 * b + n % 0x100 && b == 0x100 * a + b % 0x100 && a == 0x100 * (a / 0x100) + a % 0x100;
  }

  lemma U32Prints(bytes: seq<byte>)
    requires |bytes| == 4
    ensures U32(bytes, 0, Big) < 0x1_0000_0000
    ensures BigEndian(U32(bytes, 0, Big)) == bytes
  {
    BytesOf(bytes[0], bytes[1], bytes[2], bytes[3]);
  }

  lemma BytesOf(b0: byte, b1: byte, b2: byte, b3: byte)
    ensures var n := b3 + 0x100 * b2 + 0x1_0000 * b1 + 0x100_0000 * b0;
            n / 0x100_0000 == b0 && n / 0x1_0000 % 0x100 == b1 && n / 0x100 % 0x100 == b2 && n % 0x100 == b3
  {
    var n := b3 + 0x100 * b2 + 0x1_0000 * b1 + 0x100_0000 * b0;
    var high, upper := b1 + 0x100 * b0, b2 + 0x100 * (b1 + 0x100 * b0);
    assert n == 0x100 * upper + b3;
    LastByte(upper, b3);
    LastByte(high, b2);
    LastByte(b0, b1);
    DivideByteTwice(n);
    DivideByteThrice(n);
  }
}
