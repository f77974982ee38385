/** Little-endian access of 1, 2 and 4 bytes to the mapped 16 KiB window
    (pawn/physical_memory.cc). */
module Memory {

  type byte = x: nat | x < 0x100
  type word16 = x: nat | x < 0x1_0000
  type word32 = x: nat | x < 0x1_0000_0000

  /** The root complex register block is four pages (pawn/chipset.cc:82-86). */
  const WINDOW_SIZE: nat := 0x4000

  function Load8(m: seq<byte>, at: nat): byte
    requires at < |m|
  {
    m[at]
  }

  function Load16(m: seq<byte>, at: nat): word16
    requires at + 2 <= |m|
  {
    m[at] as int + 0x100 * (m[at + 1] as int)
  }

  function Load32(m: seq<byte>, at: nat): word32
    requires at + 4 <= |m|
  {
    m[at] as int + 0x100 * (m[at + 1] as int)
    + 0x1_0000 * (m[at + 2] as int) + 0x100_0000 * (m[at + 3] as int)
  }

  function Store8(m: seq<byte>, at: nat, v: byte): (r: seq<byte>)
    requires at < |m|
    ensures |r| == |m|
  {
    m[at := v]
  }

  function Store16(m: seq<byte>, at: nat, v: word16): (r: seq<byte>)
    requires at + 2 <= |m|
    ensures |r| == |m|
  {
    m[at := v % 0x100][at + 1 := v / 0x100]
  }

  function Store32(m: seq<byte>, at: nat, v: word32): (r: seq<byte>)
    requires at + 4 <= |m|
    ensures |r| == |m|
  {
    m[at := v % 0x100][at + 1 := v / 0x100 % 0x100]
     [at + 2 := v / 0x1_0000 % 0x100][at + 3 := v / 0x100_0000]
  }

  /** The object representation of a 32-bit word: how `block_read` sees `buf`. */
  function Bytes32(v: word32): (r: seq<byte>)
    ensures |r| == 4
  {
    [v % 0x100, v / 0x100 % 0x100, v / 0x1_0000 % 0x100, v / 0x100_0000]
  }

  function Bytes(words: seq<word32>): (r: seq<byte>)
    ensures |r| == 4 * |words|
  {
    if words == [] then [] else Bytes(words[..|words| - 1]) + Bytes32(words[|words| - 1])
  }

  lemma LoadAfterStore16(m: seq<byte>, at: nat, v: word16)
    requires at + 2 <= |m|
    ensures Load16(Store16(m, at, v), at) == v
  {
  }

  lemma LoadAfterStore32(m: seq<byte>, at: nat, v: word32)
    requires at + 4 <= |m|
    ensures Load32(Store32(m, at, v), at) == v
  {
    assert v / 0x1_0000 == v / 0x100 / 0x100;
    assert v / 0x100_0000 == v / 0x100 / 0x100 / 0x100;
  }

  /** Writing a word and looking at its bytes gives the bytes in memory. */
  lemma Bytes32OfLoad(m: seq<byte>, at: nat)
    requires at + 4 <= |m|
    ensures Bytes32(Load32(m, at)) == m[at..at + 4]
  {
    Digits(m[at], m[at + 1], m[at + 2], m[at + 3]);
  }

  lemma Digits(b0: byte, b1: byte, b2: byte, b3: byte)
    ensures var v := b0 + 0x100 * b1 + 0x1_0000 * b2 + 0x100_0000 * b3;
            v % 0x100 == b0 && v / 0x100 % 0x100 == b1 && v / 0x1_0000 % 0x100 == b2 && v / 0x100_0000 == b3
  {
    var v := b0 + 0x100 * b1 + 0x1_0000 * b2 + 0x100_0000 * b3;
    assert v / 0x100 == b1 + 0x100 * b2 + 0x1_0000 * b3;
    assert v / 0x1_0000 == b2 + 0x100 * b3;
  }
}
