/** Table-based CRC-32 (IEEE 802.3, reflected), computed whole or in slices. */
module Crc {
  import opened Bytes

  const POLY: bv32 := 0xEDB8_8320
  const ONES: bv32 := 0xFFFF_FFFF

  /** `k` rounds of the polynomial division on one table index. */
  function Rounds(c: bv32, k: nat): bv32
  {
    if k == 0 then c
    else
      var d := Rounds(c, k - 1);
      if d & 1 != 0 then POLY ^ (d >> 1) else d >> 1
  }

  function TableEntry(n: bv32): bv32
  {
    Rounds(n, 8)
  }

  /** One byte of input. */
  function Step(c: bv32, b: byte): bv32
  {
    TableEntry((c ^ (b as bv32)) & 0xFF) ^ (c >> 8)
  }

  function Roll(c: bv32, buf: Bytes): bv32
  {
    if buf == [] then c else Step(Roll(c, buf[..|buf| - 1]), buf[|buf| - 1])
  }

  /** The CRC of `buf`, continuing from the CRC of what came before. */
  function Crc32(buf: Bytes, prev: bv32): bv32
  {
    Roll(prev ^ ONES, buf) ^ ONES
  }

  /** The checksum as the unsigned number that is stored. */
  function Sum(b: Bytes): (n: nat)
    ensures n < 0x1_0000_0000
  {
    Crc32(b, 0) as int
  }

  lemma {:induction false} RollAppend(c: bv32, a: Bytes, b: Bytes)
    ensures Roll(c, a + b) == Roll(Roll(c, a), b)
  {
    if b == [] {
      assert a + b == a;
    } else {
      var init := b[..|b| - 1];
      assert (a + b)[..|a + b| - 1] == a + init;
      RollAppend(c, a, init);
    }
  }

  lemma Involution(c: bv32)
    ensures c ^ ONES ^ ONES == c
  {
  }

  /** The streaming law: slices may be fed one after the other. */
  lemma Streaming(a: Bytes, b: Bytes, prev: bv32)
    ensures Crc32(a + b, prev) == Crc32(b, Crc32(a, prev))
  {
    var mid := Roll(prev ^ ONES, a);
    RollAppend(prev ^ ONES, a, b);
    Involution(mid);
    assert Crc32(a, prev) == mid ^ ONES;
    assert Crc32(a, prev) ^ ONES == mid;
  }

  lemma NothingFed(prev: bv32)
    ensures Crc32([], prev) == prev
  {
    Involution(prev);
  }

  /** The checksum loop. */
  method Checksum(buf: Bytes, prev: bv32) returns (crc: bv32)
    ensures crc == Crc32(buf, prev)
  {
    var c := prev ^ ONES;
    for i := 0 to |buf|
      invariant c == Roll(prev ^ ONES, buf[..i])
    {
      assert buf[..i + 1][..i] == buf[..i];
      c := Step(c, buf[i]);
    }
    assert buf[..|buf|] == buf;
    crc := c ^ ONES;
  }

  /** The checksum of a byte range, read in slices of at most `chunk` bytes. */
  method ChunkedChecksum(file: Bytes, from: nat, to: nat, chunk: nat) returns (crc: bv32)
    requires from <= to <= |file| && chunk > 0
    ensures crc == Crc32(file[from..to], 0)
  {
    crc := 0;
    NothingFed(0);
    var at := from;
    while at < to
      invariant from <= at <= to && crc == Crc32(file[from..at], 0)
    {
      var len := if to - at < chunk then to - at else chunk;
      Streaming(file[from..at], file[at..at + len], 0);
      assert file[from..at] + file[at..at + len] == file[from..at + len];
      crc := Checksum(file[at..at + len], crc);
      at := at + len;
    }
  }
}
