/** Unsigned LEB128 (section 7.6 of DWARF Version 4) on 32-bit integers, with the shifts of JavaScript's
    32-bit operators. */
module Varint {
  import opened Basics
  import opened Bytes

  const UINT32: nat := 0x1_0000_0000

  datatype VarintError = Truncated | TooLong

  /** One number and the bytes it takes. */
  datatype Read = Read(value: nat, len: nat)

  /** The encoding of a number below 2^32. */
  function Encode(n: nat): (b: Bytes)
    ensures b != []
  {
    if n >= 0x80 then [n % 0x80 + 0x80] + Encode(n / 0x80) else [n]
  }

  /** Bitwise or. */
  function Or(a: nat, b: nat): nat
  {
    if a == 0 then b
    else if b == 0 then a
    else (if a % 2 == 1 || b % 2 == 1 then 1 else 0) + 2 * Or(a / 2, b / 2)
  }

  /** What a left shift multiplies by; shift counts are taken modulo 32. */
  function Weight(shift: nat): (w: nat)
    requires shift <= 35 && shift % 7 == 0
  {
    if shift == 0 then 1
    else if shift == 7 then 0x80
    else if shift == 14 then 0x4000
    else if shift == 21 then 0x20_0000
    else if shift == 28 then 0x1000_0000
    else 8
  }

  /** Continue reading with `r` read so far. */
  function DecodeFrom(b: Bytes, r: nat, shift: nat, len: nat): (res: Result<Read, VarintError>)
    requires shift <= 35 && shift % 7 == 0
    ensures res.Ok? ==> len < res.value.len <= len + |b|
    decreases |b|
  {
    if b == [] then Err(Truncated)
    else
      var now := Or(r, b[0] % 0x80 * Weight(shift) % UINT32);
      if b[0] < 0x80 then Ok(Read(now, len + 1))
      else if shift + 7 > 35 then Err(TooLong)
      else DecodeFrom(b[1..], now, shift + 7, len + 1)
  }

  function Decode(b: Bytes): (res: Result<Read, VarintError>)
    ensures res.Ok? ==> 0 < res.value.len <= |b|
  {
    DecodeFrom(b, 0, 0, 0)
  }

  function Pow2(k: nat): (p: nat)
    ensures p > 0
  {
    if k == 0 then 1 else 2 * Pow2(k - 1)
  }

  /** Bits that do not overlap add up. */
  lemma {:induction false} OrDisjoint(a: nat, x: nat, k: nat)
    requires a < Pow2(k)
    ensures Or(a, x * Pow2(k)) == a + x * Pow2(k)
  {
    if k > 0 && a > 0 && x > 0 {
      var p := Pow2(k - 1);
      assert x * Pow2(k) == 2 * (x * p);
      OrDisjoint(a / 2, x, k - 1);
    }
  }

  lemma WeightIsPower(shift: nat)
    requires shift <= 28 && shift % 7 == 0
    ensures Weight(shift) == Pow2(shift)
  {
    assert Pow2(7) == 0x80 by {
      assert Pow2(3) == 8;
      assert Pow2(5) == 4 * Pow2(3);
      assert Pow2(7) == 4 * Pow2(5);
    }
    PowSeven(7);
    PowSeven(14);
    PowSeven(21);
  }

  lemma Fits(y: nat)
    requires y < UINT32
    ensures y % UINT32 == y
  {
  }

  lemma Shifted(a: nat, x: nat, shift: nat)
    requires shift <= 28 && shift % 7 == 0 && a < Weight(shift) && x * Weight(shift) < UINT32
    ensures Or(a, x * Weight(shift) % UINT32) == a + x * Weight(shift)
  {
    WeightIsPower(shift);
    OrDisjoint(a, x, shift);
    Fits(x * Weight(shift));
  }

  lemma PowSeven(k: nat)
    ensures Pow2(k + 7) == 0x80 * Pow2(k)
  {
    assert Pow2(k + 2) == 4 * Pow2(k);
    assert Pow2(k + 4) == 4 * Pow2(k + 2);
    assert Pow2(k + 6) == 4 * Pow2(k + 4);
  }

  lemma LastByte(n: nat, rest: Bytes, r: nat, shift: nat, len: nat, part: nat)
    requires n < 0x80 && shift <= 28 && shift % 7 == 0 && r < Weight(shift) && n * Weight(shift) == part < UINT32
    ensures DecodeFrom([n] + rest, r, shift, len) == Ok(Read(r + part, len + 1))
  {
    Shifted(r, n, shift);
  }

  lemma MoreBytes(low: nat, tail: Bytes, r: nat, shift: nat, len: nat, part: nat)
    requires low < 0x80 && shift <= 21 && shift % 7 == 0 && r < Weight(shift) && low * Weight(shift) == part < UINT32
    ensures DecodeFrom([low + 0x80] + tail, r, shift, len) == DecodeFrom(tail, r + part, shift + 7, len + 1)
  {
    Shifted(r, low, shift);
    assert ([low + 0x80] + tail)[1..] == tail;
    assert (low + 0x80) % 0x80 == low;
  }

  lemma {:induction false} DecodeEncoded(n: nat, rest: Bytes, r: nat, shift: nat, len: nat, part: nat)
    requires shift <= 28 && shift % 7 == 0 && r < Weight(shift) && n * Weight(shift) == part < UINT32
    ensures DecodeFrom(Encode(n) + rest, r, shift, len) == Ok(Read(r + part, len + |Encode(n)|))
    ensures shift + 7 * |Encode(n)| <= 35
    decreases n
  {
    if n < 0x80 {
      LastByte(n, rest, r, shift, len, part);
    } else {
      var low, high := n % 0x80, n / 0x80;
      var w, v := Steps(n, low, high, shift, part);
      MoreBytes(low, Encode(high) + rest, r, shift, len, w);
      assert Encode(n) + rest == [low + 0x80] + (Encode(high) + rest);
      DecodeEncoded(high, rest, r + w, shift + 7, len + 1, v);
    }
  }

  /** The parts of a number that its low byte and the rest of its bytes carry. */
  lemma Steps(n: nat, low: nat, high: nat, shift: nat, part: nat) returns (w: nat, v: nat)
    requires shift <= 28 && shift % 7 == 0 && n == low + 0x80 * high && low < 0x80 && high > 0
    requires n * Weight(shift) == part < UINT32
    ensures shift <= 21 && w == low * Weight(shift) && v == high * Weight(shift + 7)
    ensures w + Weight(shift) <= Weight(shift + 7) && w + v == part
  {
    w := low * Weight(shift);
    v := high * Weight(shift + 7);
  }

  /** Decoding undoes encoding on every 32-bit number, in at most five bytes. */
  lemma ReadsBack(n: nat, rest: Bytes)
    requires n < UINT32
    ensures Decode(Encode(n) + rest) == Ok(Read(n, |Encode(n)|))
    ensures |Encode(n)| <= 5
  {
    DecodeEncoded(n, rest, 0, 0, 0, n);
  }

  /** The encoding loop; numbers are taken modulo 2^32 first. */
  method EncodeInto(n: int, out: Bytes) returns (b: Bytes)
    ensures b == out + Encode(n % UINT32)
  {
    var m := n % UINT32;
    b := out;
    while m >= 0x80
      invariant 0 <= m && b + Encode(m) == out + Encode(n % UINT32)
    {
      b := b + [m % 0x80 + 0x80];
      m := m / 0x80;
    }
    b := b + [m];
  }

  /** The decoding loop, from position `i` on. */
  method DecodeAt(buf: Bytes, i: nat) returns (res: Result<Read, VarintError>)
    requires i <= |buf|
    ensures res == Decode(buf[i..])
  {
    var r, shift, at := 0, 0, i;
    while true
      invariant i <= at <= |buf| && shift <= 35 && shift % 7 == 0
      invariant Decode(buf[i..]) == DecodeFrom(buf[at..], r, shift, at - i)
      decreases |buf| - at
    {
      if at == |buf| {
        return Err(Truncated);
      }
      var b := buf[at];
      at := at + 1;
      assert buf[at - 1..][1..] == buf[at..];
      r := Or(r, b % 0x80 * Weight(shift) % UINT32);
      if b < 0x80 {
        return Ok(Read(r, at - i));
      }
      shift := shift + 7;
      if shift > 35 {
        return Err(TooLong);
      }
    }
  }
}
