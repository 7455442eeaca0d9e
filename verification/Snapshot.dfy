/** Writing a snapshot: frames in batches, short writes, and the locations of the values. */
module Snapshot {
  import opened Basics
  import opened Bytes
  import opened Codec
  import opened FrameScan
  import opened Recovery
  import B = BatchCodec

  /** One live record to write. */
  datatype Live = Live(key: Bytes, value: Bytes, meta: Option<Bytes>, expireAt: int)

  /** Where a value lies in the snapshot file. */
  datatype Loc = Loc(off: nat, len: nat)

  datatype SnapshotError = Unencodable | NoProgress

  datatype Summary = Written(count: nat, bytes: nat, locs: map<Bytes, Loc>)

  function InputOf(r: Live): FrameInput
  {
    FrameInput(TYPE_SET, r.key, Some(r.value), r.meta, r.expireAt)
  }

  ghost function Inputs(recs: seq<Live>): (fs: seq<FrameInput>)
    ensures |fs| == |recs| && forall i | 0 <= i < |recs| :: fs[i] == InputOf(recs[i])
  {
    seq(|recs|, i requires 0 <= i < |recs| => InputOf(recs[i]))
  }

  ghost predicate DistinctKeys(recs: seq<Live>)
  {
    forall i, j | 0 <= i < j < |recs| :: recs[i].key != recs[j].key
  }

  ghost predicate At(file: Bytes, loc: Loc, value: Bytes)
  {
    loc.off + loc.len <= |file| && file[loc.off..loc.off + loc.len] == value
  }

  ghost predicate HasKey(recs: seq<Live>, key: Bytes)
  {
    exists i :: 0 <= i < |recs| && recs[i].key == key
  }

  /** Every written key has a location, and the slice there is its value. */
  ghost predicate Located(file: Bytes, locs: map<Bytes, Loc>, recs: seq<Live>)
  {
    && (forall i | 0 <= i < |recs| :: recs[i].key in locs && At(file, locs[recs[i].key], recs[i].value))
    && (forall k <- locs :: HasKey(recs, k))
  }

  lemma AtStill(file: Bytes, more: Bytes, loc: Loc, value: Bytes)
    requires At(file, loc, value)
    ensures At(file + more, loc, value)
  {
    assert (file + more)[loc.off..loc.off + loc.len] == file[loc.off..loc.off + loc.len];
  }

  /** The value of a frame that starts at the end of `file`. */
  lemma ValueAt(file: Bytes, r: Live)
    requires Fits(InputOf(r))
    ensures At(file + FrameBytes(InputOf(r)), Loc(|file| + HEADER_SIZE + |r.key|, |r.value|), r.value)
  {
    var f := InputOf(r);
    var frame := FrameBytes(f);
    FrameParts(f, []);
    assert frame + [] == frame;
    var o := HEADER_SIZE + |r.key|;
    assert (file + frame)[|file| + o..|file| + o + |r.value|] == frame[o..o + |r.value|];
  }

  lemma LocatedMore(file: Bytes, locs: map<Bytes, Loc>, recs: seq<Live>, i: nat, frame: Bytes, loc: Loc)
    requires i < |recs| && DistinctKeys(recs) && Located(file, locs, recs[..i]) && At(file + frame, loc, recs[i].value)
    ensures Located(file + frame, locs[recs[i].key := loc], recs[..i + 1])
  {
    var all, now := recs[..i + 1], locs[recs[i].key := loc];
    forall j | 0 <= j < |all|
      ensures all[j].key in now && At(file + frame, now[all[j].key], all[j].value)
    {
      if j < i {
        assert all[j] == recs[..i][j];
        AtStill(file, frame, locs[all[j].key], all[j].value);
      }
    }
    forall k | k in now
      ensures HasKey(all, k)
    {
      if k == recs[i].key {
        assert all[i].key == k;
      } else {
        var j :| 0 <= j < i && recs[..i][j].key == k;
        assert all[j].key == k;
      }
    }
  }

  // ---- writing ----------------------------------------------------------------------------------

  /** What is left of the buffers when `off` bytes of the first one are gone. */
  ghost predicate Left(bufs: seq<Bytes>, off: nat, rest: Bytes)
  {
    off <= |Concat(bufs)| && (bufs == [] || off <= |bufs[0]|) && Concat(bufs)[off..] == rest
  }

  /** Write the batch out with vectored writes that may stop anywhere, dropping what is written from the front. */
  method FlushBatch(file0: Bytes, batch: seq<Bytes>) returns (ok: bool, file: Bytes)
    ensures ok ==> file == file0 + Concat(batch)
  {
    file := file0;
    var bufs: seq<Bytes>, off: nat := batch, 0;
    ghost var rest := Concat(batch);
    while |bufs| > 0
      invariant Left(bufs, off, rest) && file + rest == file0 + Concat(batch)
      decreases |rest|, |bufs|
    {
      var toWrite := Concat(bufs)[off..];
      var taken: nat :| taken <= |toWrite|;
      if taken == 0 {
        return false, file;
      }
      assert toWrite == toWrite[..taken] + toWrite[taken..];
      file := file + toWrite[..taken];
      rest := toWrite[taken..];
      bufs, off := Advance(bufs, off, taken);
    }
    ok := true;
  }

  /** Drop `taken` bytes from the front of the buffers, of the first of which `off` bytes are gone. */
  method Advance(bufs0: seq<Bytes>, off0: nat, taken: nat) returns (bufs: seq<Bytes>, off: nat)
    requires bufs0 != [] && off0 <= |bufs0[0]| && off0 + taken <= |Concat(bufs0)|
    ensures Left(bufs, off, Concat(bufs0)[off0 + taken..])
  {
    bufs, off := bufs0, off0;
    var rem: nat := taken;
    ghost var rest := Concat(bufs0)[off0 + taken..];
    while rem > 0 && |bufs| > 0
      invariant off + rem <= |Concat(bufs)| && (bufs == [] || off <= |bufs[0]|)
      invariant Concat(bufs)[off + rem..] == rest
      decreases |bufs|, rem
    {
      var left := |bufs[0]| - off;
      if rem < left {
        off := off + rem;
        rem := 0;
      } else {
        assert Concat(bufs) == bufs[0] + Concat(bufs[1..]);
        assert Concat(bufs)[off + rem..] == Concat(bufs[1..])[rem - left..];
        rem := rem - left;
        bufs := bufs[1..];
        off := 0;
      }
    }
  }

  /** How a record is encoded; none if a field does not fit. */
  type Encoder = Live -> Option<Bytes>

  function FrameOfRecord(r: Live): Option<Bytes>
  {
    if Fits(InputOf(r)) then Some(FrameBytes(InputOf(r))) else None
  }

  function PlaceOf(all: Bytes, r: Live): Loc
  {
    Loc(|all| + HEADER_SIZE + |r.key|, |r.value|)
  }

  ghost predicate Placed(encode: Encoder, all: Bytes, r: Live)
    requires encode(r).Some?
  {
    At(all + encode(r).value, PlaceOf(all, r), r.value)
  }

  /** The value of a record stands behind header and key. */
  ghost predicate Places(encode: Encoder)
  {
    forall all, r {:trigger Placed(encode, all, r)} | encode(r).Some? :: Placed(encode, all, r)
  }

  /** The chunks are the encodings of the records. */
  ghost predicate Encodes(encode: Encoder, chunks: seq<Bytes>, recs: seq<Live>)
  {
    |chunks| == |recs| && forall i | 0 <= i < |recs| :: encode(recs[i]) == Some(chunks[i])
  }

  lemma FrameQueued(file: Bytes, batch: seq<Bytes>, chunks: seq<Bytes>, frame: Bytes)
    requires file + Concat(batch) == Concat(chunks)
    ensures file + Concat(batch + [frame]) == Concat(chunks + [frame]) == Concat(chunks) + frame
    ensures |Concat(batch + [frame])| == |Concat(batch)| + |frame|
  {
    ConcatSnoc(chunks, frame);
    ConcatSnoc(batch, frame);
    Associate(file, Concat(batch), frame);
  }

  lemma Associate(a: Bytes, b: Bytes, c: Bytes)
    ensures a + b + c == a + (b + c)
  {
  }

  lemma RecordQueued(encode: Encoder, chunks: seq<Bytes>, recs: seq<Live>, i: nat, all: Bytes, frame: Bytes,
                     locs: map<Bytes, Loc>)
    requires DistinctKeys(recs) && i < |recs| && Places(encode) && encode(recs[i]) == Some(frame)
    requires Encodes(encode, chunks, recs[..i]) && Located(all, locs, recs[..i])
    ensures Encodes(encode, chunks + [frame], recs[..i + 1])
    ensures Located(all + frame, locs[recs[i].key := PlaceOf(all, recs[i])], recs[..i + 1])
  {
    assert Placed(encode, all, recs[i]);
    LocatedMore(all, locs, recs, i, frame, PlaceOf(all, recs[i]));
  }

  /** Write all records; the file is their encoding, whatever the batching, and every location is right. */
  method WriteRecords(encode: Encoder, recs: seq<Live>, flushBytes: nat)
    returns (r: Result<Summary, SnapshotError>, file: Bytes, ghost chunks: seq<Bytes>)
    requires DistinctKeys(recs) && Places(encode)
    ensures r.Ok? ==> Encodes(encode, chunks, recs) && file == Concat(chunks)
    ensures r.Ok? ==> Located(file, r.value.locs, recs) && r.value.count == |recs| && r.value.bytes == |file|
  {
    var bytes, count, batch, batchBytes := 0, 0, [], 0;
    var locs: map<Bytes, Loc> := map[];
    chunks := [];
    file := [];
    for i := 0 to |recs|
      invariant Encodes(encode, chunks, recs[..i]) && file + Concat(batch) == Concat(chunks)
      invariant count == i && bytes == |file| && batchBytes == |Concat(batch)|
      invariant Located(Concat(chunks), locs, recs[..i])
    {
      var rec := recs[i];
      var frame := encode(rec);
      if frame.None? {
        return Err(Unencodable), file, chunks;
      }
      FrameQueued(file, batch, chunks, frame.value);
      RecordQueued(encode, chunks, recs, i, Concat(chunks), frame.value, locs);
      var loc := Loc(bytes + batchBytes + HEADER_SIZE + |rec.key|, |rec.value|);
      assert loc == PlaceOf(Concat(chunks), rec);
      locs := locs[rec.key := loc];
      chunks := chunks + [frame.value];
      batch, batchBytes, count := batch + [frame.value], batchBytes + |frame.value|, count + 1;
      if batchBytes >= flushBytes {
        var ok;
        ok, file := FlushBatch(file, batch);
        if !ok {
          return Err(NoProgress), file, chunks;
        }
        bytes, batch, batchBytes := |file|, [], 0;
        assert file + Concat([]) == file;
      }
    }
    assert recs[..|recs|] == recs;
    var ok;
    ok, file := FlushBatch(file, batch);
    if !ok {
      return Err(NoProgress), file, chunks;
    }
    r := Ok(Written(count, |file|, locs));
  }

  method WriteSnapshot(recs: seq<Live>, flushBytes: nat) returns (r: Result<Summary, SnapshotError>, file: Bytes)
    requires DistinctKeys(recs)
    ensures r.Ok? ==> AllFit(Inputs(recs)) && file == Concat(Chunks(Inputs(recs)))
    ensures r.Ok? ==> Located(file, r.value.locs, recs) && r.value.count == |recs| && r.value.bytes == |file|
  {
    forall all, rec | FrameOfRecord(rec).Some?
      ensures Placed(FrameOfRecord, all, rec)
    {
      ValueAt(all, rec);
    }
    ghost var chunks: seq<Bytes>;
    r, file, chunks := WriteRecords(FrameOfRecord, recs, flushBytes);
    if r.Ok? {
      EncodesChunks(chunks, recs);
    }
  }

  lemma EncodesChunks(chunks: seq<Bytes>, recs: seq<Live>)
    requires Encodes(FrameOfRecord, chunks, recs)
    ensures AllFit(Inputs(recs)) && chunks == Chunks(Inputs(recs))
  {
    forall i | 0 <= i < |recs|
      ensures Fits(Inputs(recs)[i]) && chunks[i] == FrameBytes(Inputs(recs)[i])
    {
      assert FrameOfRecord(recs[i]) == Some(chunks[i]);
    }
  }

  // ---- reading it back --------------------------------------------------------------------------

  function RecOf(r: Live): Rec
  {
    Rec(r.value, MetaOf(OrEmpty(r.meta)), r.expireAt)
  }

  /** The written records as a store. */
  ghost function RecordsOf(recs: seq<Live>): Records
  {
    if recs == [] then map[] else RecordsOf(recs[..|recs| - 1])[recs[|recs| - 1].key := RecOf(recs[|recs| - 1])]
  }

  lemma {:induction false} SnapshotOps(decode: BodyReader, recs: seq<Live>)
    ensures var ops := AllRawOps(decode, SeenAll(Inputs(recs)));
      |ops| == |recs| && forall i | 0 <= i < |recs| :: ops[i] == Set(recs[i].key, RecOf(recs[i]))
  {
    if recs != [] {
      SnapshotOps(decode, recs[1..]);
      var fs := SeenAll(Inputs(recs));
      assert fs[1..] == SeenAll(Inputs(recs[1..]));
      assert forall i | 0 < i < |recs| :: recs[i] == recs[1..][i - 1];
    }
  }

  lemma {:induction false} FoldIsRecords(recs: seq<Live>, ops: seq<RawOp>)
    requires |ops| == |recs| && forall i | 0 <= i < |recs| :: ops[i] == Set(recs[i].key, RecOf(recs[i]))
    ensures Fold(map[], ops) == RecordsOf(recs)
  {
    if recs != [] {
      FoldIsRecords(recs[..|recs| - 1], ops[..|ops| - 1]);
    }
  }

  /** Parsing the snapshot file and replaying it gives exactly the records it was written from. */
  lemma SnapshotReadsBack(recs: seq<Live>)
    requires AllFit(Inputs(recs))
    ensures var file := Concat(Chunks(Inputs(recs)));
      && Fair(ReaderOf(file), |file|)
      && var y := YieldOf(|file|, Pieces(ReaderOf(file), |file|, 0));
         y.corrupt == [] && Fold(map[], AllRawOps(B.Decode, y.frames)) == RecordsOf(recs)
  {
    EncodedParsesBack(Inputs(recs));
    SnapshotOps(B.Decode, recs);
    FoldIsRecords(recs, AllRawOps(B.Decode, SeenAll(Inputs(recs))));
  }
}
