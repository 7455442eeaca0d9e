/** The record frame of the log and the snapshot: encoding, validating, and parsing with resynchronisation. */
module Codec {
  import opened Basics
  import opened Bytes
  import opened Crc

  const MAGIC: Bytes := [0x4D, 0x44]
  const HEADER_SIZE: nat := 22
  const CRC_SIZE: nat := 4
  const MAX_KEY_LEN: nat := 0xFFFF
  const MAX_VAL_LEN: nat := 0xFFFF_FFFF

  const TYPE_SET: byte := 1
  const TYPE_DEL: byte := 2
  const TYPE_BATCH: byte := 3

  datatype Frame = Frame(kind: byte, key: Bytes, value: Bytes, meta: Option<Bytes>, expireAt: int)

  datatype FrameInput = FrameInput(kind: byte, key: Bytes, value: Option<Bytes>, meta: Option<Bytes>, expireAt: int)

  datatype CodecError = KeyTooLarge | ValueTooLarge | MetaTooLarge | ExpiryOutOfRange

  function OrEmpty(b: Option<Bytes>): Bytes
  {
    if b.Some? then b.value else []
  }

  /** An absent and an empty meta look the same on disk. */
  function MetaOf(meta: Bytes): Option<Bytes>
  {
    if meta == [] then None else Some(meta)
  }

  /** What a reader sees of an input. */
  function Seen(f: FrameInput): Frame
  {
    Frame(f.kind, f.key, OrEmpty(f.value), MetaOf(OrEmpty(f.meta)), f.expireAt)
  }

  predicate Fits(f: FrameInput)
  {
    && |f.key| <= MAX_KEY_LEN && |OrEmpty(f.value)| <= MAX_VAL_LEN && |OrEmpty(f.meta)| <= MAX_VAL_LEN
    && IsInt64(f.expireAt)
  }

  // ---- the format -------------------------------------------------------------------------------

  /** The header behind the magic. */
  function Fields(f: FrameInput): (b: Bytes)
    requires Fits(f)
    ensures |b| == HEADER_SIZE - 2
  {
    [f.kind, 0] + LE(|f.key|, 2) + LE(|OrEmpty(f.value)|, 4) + LE(|OrEmpty(f.meta)|, 4) + LE64(f.expireAt)
  }

  /** Everything the checksum covers. */
  function Covered(f: FrameInput): Bytes
    requires Fits(f)
  {
    Fields(f) + f.key + OrEmpty(f.value) + OrEmpty(f.meta)
  }

  function FrameBytes(f: FrameInput): Bytes
    requires Fits(f)
  {
    MAGIC + Covered(f) + LE(Sum(Covered(f)), 4)
  }

  datatype Parsed = Parsed(frame: Frame, len: nat)

  /** Where the parts behind the header end. */
  datatype Layout = Layout(keyEnd: nat, valueEnd: nat, metaEnd: nat)

  function LayoutOf(b: Bytes): (l: Layout)
    requires |b| >= HEADER_SIZE
    ensures HEADER_SIZE <= l.keyEnd <= l.valueEnd <= l.metaEnd
  {
    var keyEnd := HEADER_SIZE + Unsigned(b[4..6]);
    var valueEnd := keyEnd + Unsigned(b[6..10]);
    Layout(keyEnd, valueEnd, valueEnd + Unsigned(b[10..14]))
  }

  /** The frame at the front of `b`: none without magic, whole frame and matching checksum. */
  function Front(b: Bytes): (r: Option<Parsed>)
    ensures r.Some? ==> HEADER_SIZE + CRC_SIZE <= r.value.len <= |b| && b[0] == MAGIC[0] && b[1] == MAGIC[1]
  {
    if |b| < HEADER_SIZE || b[0] != MAGIC[0] || b[1] != MAGIC[1] then None
    else
      var l := LayoutOf(b);
      var len := l.metaEnd + CRC_SIZE;
      if |b| < len then None
      else if Unsigned(b[l.metaEnd..len]) != Sum(b[2..l.metaEnd]) then None
      else Some(Parsed(FrameOf(b, l), len))
  }

  function FrameOf(b: Bytes, l: Layout): Frame
    requires HEADER_SIZE <= l.keyEnd <= l.valueEnd <= l.metaEnd <= |b|
  {
    Frame(b[2], b[HEADER_SIZE..l.keyEnd], b[l.keyEnd..l.valueEnd], MetaOf(b[l.valueEnd..l.metaEnd]), Signed64(b[14..22]))
  }

  function FrameAt(buf: Bytes, pos: nat): (r: Option<Parsed>)
    requires pos <= |buf|
    ensures r.Some? ==> HEADER_SIZE + CRC_SIZE <= r.value.len <= |buf| - pos
    ensures r.Some? ==> buf[pos] == MAGIC[0] && buf[pos + 1] == MAGIC[1]
  {
    Front(buf[pos..])
  }

  // ---- round trip -------------------------------------------------------------------------------

  lemma FieldSlices(f: FrameInput, b: Bytes)
    requires Fits(f) && |b| >= HEADER_SIZE && b[..HEADER_SIZE] == MAGIC + Fields(f)
    ensures b[0] == MAGIC[0] && b[1] == MAGIC[1] && b[2] == f.kind
    ensures Unsigned(b[4..6]) == |f.key| && Unsigned(b[6..10]) == |OrEmpty(f.value)|
    ensures Unsigned(b[10..14]) == |OrEmpty(f.meta)| && Signed64(b[14..22]) == f.expireAt
  {
    var h := MAGIC + Fields(f);
    Powers();
    assert b[4..6] == h[4..6] == LE(|f.key|, 2);
    assert b[6..10] == h[6..10] == LE(|OrEmpty(f.value)|, 4);
    assert b[10..14] == h[10..14] == LE(|OrEmpty(f.meta)|, 4);
    assert b[14..22] == h[14..22] == LE64(f.expireAt);
    UnsignedLE(|f.key|, 2);
    UnsignedLE(|OrEmpty(f.value)|, 4);
    UnsignedLE(|OrEmpty(f.meta)|, 4);
    Signed64LE(f.expireAt);
    assert b[0] == h[0] && b[1] == h[1] && b[2] == h[2];
  }

  /** `b` starts with the bytes of the frame, part by part. */
  ghost predicate StartsWith(b: Bytes, f: FrameInput)
    requires Fits(f)
  {
    var keyEnd := HEADER_SIZE + |f.key|;
    var valueEnd := keyEnd + |OrEmpty(f.value)|;
    var metaEnd := valueEnd + |OrEmpty(f.meta)|;
    && |b| >= metaEnd + CRC_SIZE
    && b[..HEADER_SIZE] == MAGIC + Fields(f) && b[HEADER_SIZE..keyEnd] == f.key
    && b[keyEnd..valueEnd] == OrEmpty(f.value) && b[valueEnd..metaEnd] == OrEmpty(f.meta)
    && b[2..metaEnd] == Covered(f) && b[metaEnd..metaEnd + CRC_SIZE] == LE(Sum(Covered(f)), 4)
  }

  lemma FrameParts(f: FrameInput, rest: Bytes)
    requires Fits(f)
    ensures StartsWith(FrameBytes(f) + rest, f)
  {
    var b := FrameBytes(f) + rest;
    var value, meta, sum := OrEmpty(f.value), OrEmpty(f.meta), LE(Sum(Covered(f)), 4);
    var head := MAGIC + Fields(f);
    assert MAGIC + Covered(f) == head + f.key + value + meta;
    assert b == head + f.key + (value + meta + sum + rest);
    Middle(b, head, f.key, value + meta + sum + rest);
    assert b == (head + f.key) + value + (meta + sum + rest);
    Middle(b, head + f.key, value, meta + sum + rest);
    assert b == (head + f.key + value) + meta + (sum + rest);
    Middle(b, head + f.key + value, meta, sum + rest);
    assert b == MAGIC + Covered(f) + (sum + rest);
    Middle(b, MAGIC, Covered(f), sum + rest);
    Middle(b, MAGIC + Covered(f), sum, rest);
  }

  /** Where the parts of the frame end. */
  function Ends(f: FrameInput): Layout
  {
    var keyEnd := HEADER_SIZE + |f.key|;
    Layout(keyEnd, keyEnd + |OrEmpty(f.value)|, keyEnd + |OrEmpty(f.value)| + |OrEmpty(f.meta)|)
  }

  lemma FieldsThere(b: Bytes, f: FrameInput)
    requires Fits(f) && StartsWith(b, f)
    ensures b[0] == MAGIC[0] && b[1] == MAGIC[1] && LayoutOf(b) == Ends(f) && FrameOf(b, Ends(f)) == Seen(f)
  {
    FieldSlices(f, b);
  }

  lemma FrontOf(b: Bytes, f: FrameInput)
    requires Fits(f) && StartsWith(b, f)
    ensures Front(b) == Some(Parsed(Seen(f), HEADER_SIZE + |f.key| + |OrEmpty(f.value)| + |OrEmpty(f.meta)| + CRC_SIZE))
  {
    var end := Ends(f).metaEnd;
    FieldsThere(b, f);
    SumThere(b[end..end + CRC_SIZE], Covered(f));
  }

  lemma SumThere(b: Bytes, covered: Bytes)
    requires b == LE(Sum(covered), 4)
    ensures Unsigned(b) == Sum(covered)
  {
    Powers();
    UnsignedLE(Sum(covered), 4);
  }

  /** A frame reads back from its own bytes, whatever follows. */
  lemma FrontOfFrame(f: FrameInput, rest: Bytes)
    requires Fits(f)
    ensures Front(FrameBytes(f) + rest) == Some(Parsed(Seen(f), |FrameBytes(f)|))
  {
    FrameParts(f, rest);
    FrontOf(FrameBytes(f) + rest, f);
  }

  lemma FrameReadsBack(before: Bytes, f: FrameInput, rest: Bytes)
    requires Fits(f)
    ensures FrameAt(before + FrameBytes(f) + rest, |before|) == Some(Parsed(Seen(f), |FrameBytes(f)|))
  {
    var buf := before + FrameBytes(f) + rest;
    assert buf[|before|..] == FrameBytes(f) + rest;
    FrontOfFrame(f, rest);
  }

  lemma SameSlices(b: Bytes, c: Bytes, n: nat, from: nat, to: nat)
    requires from <= to <= n <= |b| && n <= |c| && b[..n] == c[..n]
    ensures b[from..to] == c[from..to]
  {
    assert b[from..to] == b[..n][from..to];
    assert c[from..to] == c[..n][from..to];
  }

  /** Only the bytes its header asks for decide about a frame. */
  lemma FrontLocal(b: Bytes, c: Bytes)
    requires |b| >= HEADER_SIZE
    requires var n := LayoutOf(b).metaEnd + CRC_SIZE; n <= |b| && n <= |c| && b[..n] == c[..n]
    ensures Front(b) == Front(c)
  {
    var l := LayoutOf(b);
    var n := l.metaEnd + CRC_SIZE;
    SameSlices(b, c, n, 4, 6);
    SameSlices(b, c, n, 6, 10);
    SameSlices(b, c, n, 10, 14);
    SameSlices(b, c, n, 14, 22);
    SameSlices(b, c, n, 2, l.metaEnd);
    SameSlices(b, c, n, HEADER_SIZE, l.keyEnd);
    SameSlices(b, c, n, l.keyEnd, l.valueEnd);
    SameSlices(b, c, n, l.valueEnd, l.metaEnd);
    SameSlices(b, c, n, l.metaEnd, n);
    assert b[0] == b[..n][0] && b[1] == b[..n][1] && b[2] == b[..n][2];
  }

  /** More bytes behind do not change a frame that is there. */
  lemma FrontExtends(b: Bytes, more: Bytes)
    requires Front(b).Some?
    ensures Front(b + more) == Front(b)
  {
    FrontLocal(b, b + more);
  }

  /** A cut keeps exactly the frames that end before it. */
  lemma FrontCut(b: Bytes, keep: nat)
    requires keep <= |b|
    ensures Front(b[..keep]) == if Front(b).Some? && Front(b).value.len <= keep then Front(b) else None
  {
    var c := b[..keep];
    assert c + b[keep..] == b;
    if Front(c).Some? {
      FrontExtends(c, b[keep..]);
    } else if Front(b).Some? && Front(b).value.len <= keep {
      CutKeeps(b, keep);
    }
  }

  lemma CutKeeps(b: Bytes, keep: nat)
    requires keep <= |b| && Front(b).Some? && Front(b).value.len <= keep
    ensures Front(b[..keep]) == Front(b)
  {
    var n := Front(b).value.len;
    assert b[..keep][..n] == b[..n];
    FrontLocal(b, b[..keep]);
  }

  lemma FrameExtends(buf: Bytes, pos: nat, more: Bytes)
    requires pos <= |buf| && FrameAt(buf, pos).Some?
    ensures FrameAt(buf + more, pos) == FrameAt(buf, pos)
  {
    FrontExtends(buf[pos..], more);
    assert (buf + more)[pos..] == buf[pos..] + more;
  }

  // ---- encoding ---------------------------------------------------------------------------------

  /** Write bytes at an offset. */
  method Put(a: array<byte>, o: nat, b: Bytes) returns (next: nat)
    requires o + |b| <= a.Length
    modifies a
    ensures next == o + |b| && a[..next] == old(a[..o]) + b
  {
    for i := 0 to |b|
      invariant a[..o] == old(a[..o]) && a[o..o + i] == b[..i]
    {
      a[o + i] := b[i];
      assert a[o..o + i + 1] == a[o..o + i] + [b[i]];
      assert b[..i + 1] == b[..i] + [b[i]];
    }
    next := o + |b|;
    assert a[..next] == a[..o] + a[o..next];
    assert b[..|b|] == b;
  }

  /** Encode one record, or say which limit it breaks. */
  method EncodeFrame(f: FrameInput) returns (r: Result<Bytes, CodecError>)
    ensures r.Ok? <==> Fits(f)
    ensures r.Ok? ==> r.value == FrameBytes(f)
    ensures |f.key| > MAX_KEY_LEN ==> r == Err(KeyTooLarge)
  {
    var value, meta := OrEmpty(f.value), OrEmpty(f.meta);
    if |f.key| > MAX_KEY_LEN {
      return Err(KeyTooLarge);
    }
    if |value| > MAX_VAL_LEN {
      return Err(ValueTooLarge);
    }
    if |meta| > MAX_VAL_LEN {
      return Err(MetaTooLarge);
    }
    if !IsInt64(f.expireAt) {
      return Err(ExpiryOutOfRange);
    }
    var frame := new byte[HEADER_SIZE + |f.key| + |value| + |meta| + CRC_SIZE];
    PutHeader(frame, f);
    var o := PutPayload(frame, f);
    var c := Checksum(frame[2..o], 0);
    assert frame[2..o] == frame[..o][2..] == Covered(f);
    o := Put(frame, o, LE(c as int, 4));
    r := Ok(frame[..]);
  }

  method PutHeader(frame: array<byte>, f: FrameInput)
    requires Fits(f) && frame.Length >= HEADER_SIZE
    modifies frame
    ensures frame[..HEADER_SIZE] == MAGIC + Fields(f)
  {
    var o := Put(frame, 0, MAGIC);
    o := Put(frame, o, [f.kind]);
    o := Put(frame, o, [0]);
    o := Put(frame, o, LE(|f.key|, 2));
    o := Put(frame, o, LE(|OrEmpty(f.value)|, 4));
    o := Put(frame, o, LE(|OrEmpty(f.meta)|, 4));
    o := Put(frame, o, LE64(f.expireAt));
  }

  method PutPayload(frame: array<byte>, f: FrameInput) returns (o: nat)
    requires Fits(f) && frame.Length >= HEADER_SIZE + |f.key| + |OrEmpty(f.value)| + |OrEmpty(f.meta)|
    requires frame[..HEADER_SIZE] == MAGIC + Fields(f)
    modifies frame
    ensures o == HEADER_SIZE + |f.key| + |OrEmpty(f.value)| + |OrEmpty(f.meta)| && frame[..o] == MAGIC + Covered(f)
  {
    o := Put(frame, HEADER_SIZE, f.key);
    o := Put(frame, o, OrEmpty(f.value));
    o := Put(frame, o, OrEmpty(f.meta));
    assert MAGIC + Covered(f) == MAGIC + Fields(f) + f.key + OrEmpty(f.value) + OrEmpty(f.meta);
  }

  // ---- reading from a file ----------------------------------------------------------------------

  /** A frame whose value stays on disk. */
  datatype FrameRef = FrameRef(kind: byte, key: Bytes, meta: Option<Bytes>, expireAt: int, frameOff: nat, valueOff: nat,
                               valLen: nat, frameLen: nat)

  /** The reference names the frame: same fields, and the value is the slice it points at. */
  ghost predicate Names(ref: FrameRef, file: Bytes, pos: nat, p: Parsed)
  {
    && ref.kind == p.frame.kind && ref.key == p.frame.key && ref.meta == p.frame.meta && ref.expireAt == p.frame.expireAt
    && ref.frameOff == pos && ref.frameLen == p.len
    && ref.valueOff + ref.valLen <= |file| && file[ref.valueOff..ref.valueOff + ref.valLen] == p.frame.value
  }

  /** Validate the frame at `pos` of a file without reading it whole: the checksum runs over slices of `chunk`
      bytes. It finds exactly the frames the in-memory reader finds. */
  method FrameRefAt(file: Bytes, pos: nat, chunk: nat) returns (r: Option<FrameRef>)
    requires pos <= |file| && chunk > 0
    ensures r.Some? <==> FrameAt(file, pos).Some?
    ensures r.Some? ==> Names(r.value, file, pos, FrameAt(file, pos).value)
  {
    if |file| - pos < HEADER_SIZE {
      return None;
    }
    var header := file[pos..pos + HEADER_SIZE];
    if header[0] != MAGIC[0] || header[1] != MAGIC[1] {
      return None;
    }
    var l := LayoutOf(header);
    var len := l.metaEnd + CRC_SIZE;
    SameLayout(file[pos..], header);
    if |file| - pos < len {
      return None;
    }
    r := FrameBehind(file, pos, chunk, header, l);
    FrameFromSlices(file, pos, header, l);
  }

  /** The file holds all the bytes that the header at `pos` asks for. */
  predicate HeaderAt(file: Bytes, pos: nat, header: Bytes, l: Layout)
  {
    && pos + HEADER_SIZE <= |file| && header == file[pos..pos + HEADER_SIZE]
    && header[0] == MAGIC[0] && header[1] == MAGIC[1] && l == LayoutOf(header)
    && pos + l.metaEnd + CRC_SIZE <= |file|
  }

  predicate SumMatches(file: Bytes, pos: nat, metaEnd: nat)
    requires 2 <= metaEnd && pos + metaEnd + CRC_SIZE <= |file|
  {
    Unsigned(file[pos + metaEnd..pos + metaEnd + CRC_SIZE]) == Sum(file[pos + 2..pos + metaEnd])
  }

  /** Check the sum of the frame behind a header, and read what is kept of it. */
  method FrameBehind(file: Bytes, pos: nat, chunk: nat, header: Bytes, l: Layout) returns (r: Option<FrameRef>)
    requires HeaderAt(file, pos, header, l) && chunk > 0
    ensures r == if !SumMatches(file, pos, l.metaEnd) then None
                 else Some(FrameRef(header[2], file[pos + HEADER_SIZE..pos + l.keyEnd],
                                    MetaOf(file[pos + l.valueEnd..pos + l.metaEnd]), Signed64(header[14..22]), pos,
                                    pos + l.keyEnd, l.valueEnd - l.keyEnd, l.metaEnd + CRC_SIZE))
  {
    var crc := ChunkedChecksum(file, pos + 2, pos + l.metaEnd, chunk);
    if Unsigned(file[pos + l.metaEnd..pos + l.metaEnd + CRC_SIZE]) != crc as int {
      return None;
    }
    var meta := MetaOf(file[pos + l.valueEnd..pos + l.metaEnd]);
    r := Some(FrameRef(header[2], file[pos + HEADER_SIZE..pos + l.keyEnd], meta, Signed64(header[14..22]), pos,
                       pos + l.keyEnd, l.valueEnd - l.keyEnd, l.metaEnd + CRC_SIZE));
  }

  /** The frame at `pos`, put together from slices of the file. */
  lemma FrameFromSlices(file: Bytes, pos: nat, header: Bytes, l: Layout)
    requires HeaderAt(file, pos, header, l)
    ensures FrameAt(file, pos)
            == if !SumMatches(file, pos, l.metaEnd) then None
               else Some(Parsed(Frame(header[2], file[pos + HEADER_SIZE..pos + l.keyEnd], file[pos + l.keyEnd..pos + l.valueEnd],
                                      MetaOf(file[pos + l.valueEnd..pos + l.metaEnd]), Signed64(header[14..22])),
                                l.metaEnd + CRC_SIZE))
  {
    SameLayout(file[pos..], header);
    SlicesShift(file, pos, l);
  }

  lemma SameLayout(b: Bytes, header: Bytes)
    requires |b| >= HEADER_SIZE && header == b[..HEADER_SIZE]
    ensures LayoutOf(b) == LayoutOf(header) && b[14..22] == header[14..22]
  {
    assert b[4..6] == header[4..6] && b[6..10] == header[6..10] && b[10..14] == header[10..14];
  }

  lemma SlicesShift(file: Bytes, pos: nat, l: Layout)
    requires HEADER_SIZE <= l.keyEnd <= l.valueEnd <= l.metaEnd && pos + l.metaEnd + CRC_SIZE <= |file|
    ensures var b := file[pos..];
      && b[2..l.metaEnd] == file[pos + 2..pos + l.metaEnd]
      && b[HEADER_SIZE..l.keyEnd] == file[pos + HEADER_SIZE..pos + l.keyEnd]
      && b[l.keyEnd..l.valueEnd] == file[pos + l.keyEnd..pos + l.valueEnd]
      && b[l.valueEnd..l.metaEnd] == file[pos + l.valueEnd..pos + l.metaEnd]
      && b[l.metaEnd..l.metaEnd + CRC_SIZE] == file[pos + l.metaEnd..pos + l.metaEnd + CRC_SIZE]
  {
  }
}
