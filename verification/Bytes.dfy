/** Bytes and little-endian integers of a fixed width. */
module Bytes {

  type byte = b: int | 0 <= b < 256

  type Bytes = seq<byte>

  /** 256 to the power `width`. */
  function Pow256(width: nat): (p: nat)
    ensures p > 0
  {
    if width == 0 then 1 else 256 * Pow256(width - 1)
  }

  lemma Powers()
    ensures Pow256(1) == 0x100 && Pow256(2) == 0x1_0000 && Pow256(4) == 0x1_0000_0000
    ensures Pow256(8) == 0x1_0000_0000_0000_0000
  {
    assert Pow256(2) == 256 * Pow256(1);
    assert Pow256(3) == 256 * Pow256(2);
    assert Pow256(4) == 256 * Pow256(3);
    assert Pow256(5) == 256 * Pow256(4);
    assert Pow256(6) == 256 * Pow256(5);
    assert Pow256(7) == 256 * Pow256(6);
    assert Pow256(8) == 256 * Pow256(7);
  }

  /** The little-endian bytes of an unsigned integer. */
  function LE(n: nat, width: nat): (b: Bytes)
    ensures |b| == width
  {
    if width == 0 then [] else [n % 256] + LE(n / 256, width - 1)
  }

  function Unsigned(b: Bytes): nat
  {
    if b == [] then 0 else b[0] + 256 * Unsigned(b[1..])
  }

  lemma {:induction false} UnsignedBound(b: Bytes)
    ensures Unsigned(b) < Pow256(|b|)
  {
    if b != [] {
      UnsignedBound(b[1..]);
    }
  }

  lemma DivideByte(n: nat, p: nat)
    requires n < 256 * p
    ensures n / 256 < p && n == n % 256 + 256 * (n / 256)
  {
  }

  /** Reading back what was written, for every value the width can hold. */
  lemma {:induction false} UnsignedLE(n: nat, width: nat)
    requires n < Pow256(width)
    ensures Unsigned(LE(n, width)) == n
  {
    if width > 0 {
      DivideByte(n, Pow256(width - 1));
      UnsignedLE(n / 256, width - 1);
      assert LE(n, width)[1..] == LE(n / 256, width - 1);
    }
  }

  /** Writing back what was read. */
  lemma {:induction false} LEUnsigned(b: Bytes)
    ensures LE(Unsigned(b), |b|) == b
  {
    if b != [] {
      LEUnsigned(b[1..]);
      var n := Unsigned(b);
      assert n % 256 == b[0] && n / 256 == Unsigned(b[1..]);
    }
  }

  const INT64_HALF: int := 0x8000_0000_0000_0000
  const INT64_FULL: int := 0x1_0000_0000_0000_0000

  predicate IsInt64(n: int)
  {
    -INT64_HALF <= n < INT64_HALF
  }

  /** Two's complement in eight bytes. */
  function LE64(n: int): (b: Bytes)
    requires IsInt64(n)
    ensures |b| == 8
  {
    LE(if n < 0 then n + INT64_FULL else n, 8)
  }

  function Signed64(b: Bytes): (n: int)
    requires |b| == 8
  {
    var u := Unsigned(b);
    if u >= INT64_HALF then u - INT64_FULL else u
  }

  lemma Signed64LE(n: int)
    requires IsInt64(n)
    ensures Signed64(LE64(n)) == n
  {
    Powers();
    UnsignedLE(if n < 0 then n + INT64_FULL else n, 8);
  }

  lemma LE64Signed(b: Bytes)
    requires |b| == 8
    ensures IsInt64(Signed64(b)) && LE64(Signed64(b)) == b
  {
    Powers();
    UnsignedBound(b);
    LEUnsigned(b);
  }
}
