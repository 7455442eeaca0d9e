/** Compaction: a fuzzy snapshot plus the log behind the fence, copied while the log grows, swapped in by two
    renames, with the same recovered state at every crash point. */
module Compaction {
  import opened Basics
  import opened Bytes
  import opened Codec
  import opened FrameScan
  import opened Recovery
  import opened CatchUp
  import B = BatchCodec
  import S = Snapshot

  // ---- what the files mean ----------------------------------------------------------------------

  /** A new snapshot may hold anything for keys the tail touches; every other key is as at the fence, or was left
      out because it had expired. */
  ghost predicate Fuzzy(snap: Records, base: Records, tail: seq<RawOp>, since: int)
  {
    forall k | LastOn(tail, k).None? ::
      && (k in snap ==> k in base && snap[k] == base[k])
      && (k in base && k !in snap ==> Expired(base[k], since))
  }

  /** Each key captured at its own moment `moment(k)` of the writes behind the fence, unless expired by then. */
  ghost predicate Captured(snap: Records, base: Records, tail: seq<RawOp>, moment: Bytes -> nat, clock: Bytes -> int)
  {
    forall k ::
      && moment(k) <= |tail|
      && var s := Fold(base, tail[..moment(k)]);
         && (k in snap <==> k in s && !Expired(s[k], clock(k)))
         && (k in snap ==> snap[k] == s[k])
  }

  lemma {:induction false} LastOnPrefix(ops: seq<RawOp>, n: nat, k: Bytes)
    requires n <= |ops| && LastOn(ops, k).None?
    ensures LastOn(ops[..n], k).None?
    decreases |ops| - n
  {
    if n < |ops| {
      LastOnPrefix(ops, n + 1, k);
      assert ops[..n + 1][..n] == ops[..n];
    } else {
      assert ops[..n] == ops;
    }
  }

  /** However the moments are spread, such a snapshot is fuzzy in the sense above. */
  lemma CapturedIsFuzzy(snap: Records, base: Records, tail: seq<RawOp>, moment: Bytes -> nat, clock: Bytes -> int, since: int)
    requires Captured(snap, base, tail, moment, clock) && forall k :: clock(k) <= since
    ensures Fuzzy(snap, base, tail, since)
  {
    forall k | LastOn(tail, k).None?
      ensures k in snap ==> k in base && snap[k] == base[k]
      ensures k in base && k !in snap ==> Expired(base[k], since)
    {
      LastOnPrefix(tail, moment(k), k);
      FoldIsLast(base, tail[..moment(k)], k);
    }
  }

  /** Two stores hold the same for a key. */
  predicate Same(a: Records, b: Records, k: Bytes)
  {
    (k in a <==> k in b) && (k in a ==> a[k] == b[k])
  }

  lemma SameLive(a: Records, b: Records, t: int)
    requires forall k :: (k in a && !Expired(a[k], t) <==> k in b && !Expired(b[k], t))
    requires forall k | k in a && k in b && !Expired(a[k], t) && !Expired(b[k], t) :: a[k] == b[k]
    ensures Live(a, t) == Live(b, t)
  {
  }

  /** The repaired state: a fuzzy snapshot plus the tail is the fence state plus the tail. */
  lemma TailRepairs(snap: Records, base: Records, tail: seq<RawOp>, since: int, t: int)
    requires Fuzzy(snap, base, tail, since) && since <= t
    ensures Live(Fold(snap, tail), t) == Live(Fold(base, tail), t)
  {
    forall k
      ensures LastOn(tail, k).None? ==>
                (k in Fold(snap, tail) ==> k in Fold(base, tail) && Fold(snap, tail)[k] == Fold(base, tail)[k]) &&
                (k in Fold(base, tail) && k !in Fold(snap, tail) ==> Expired(Fold(base, tail)[k], since))
      ensures LastOn(tail, k).Some? ==>
                (k in Fold(snap, tail) <==> k in Fold(base, tail)) &&
                (k in Fold(base, tail) ==> Fold(snap, tail)[k] == Fold(base, tail)[k])
    {
      FoldIsLast(snap, tail, k);
      FoldIsLast(base, tail, k);
    }
    SameLive(Fold(snap, tail), Fold(base, tail), t);
  }

  /** A fuzzy snapshot under the whole old log is at least as good: operations before the fence change nothing. */
  lemma WholeLogRepairs(snap: Records, start: Records, pre: seq<RawOp>, tail: seq<RawOp>, since: int)
    requires Fuzzy(snap, Fold(start, pre), tail, since)
    ensures Fuzzy(Fold(snap, pre), Fold(start, pre), tail, since)
  {
    forall k | LastOn(tail, k).None?
      ensures k in Fold(snap, pre) ==> k in Fold(start, pre) && Fold(snap, pre)[k] == Fold(start, pre)[k]
      ensures k in Fold(start, pre) && k !in Fold(snap, pre) ==> Expired(Fold(start, pre)[k], since)
    {
      FoldIsLast(snap, pre, k);
      FoldIsLast(start, pre, k);
    }
  }

  /** Every crash point of a compaction recovers to the same state: old snapshot with the whole log, new
      snapshot with the whole log (between the renames), and new snapshot with the tail (after both). */
  lemma CrashPoints(start: Records, pre: seq<RawOp>, tail: seq<RawOp>, snap: Records, since: int, t: int)
    requires Fuzzy(snap, Fold(start, pre), tail, since) && since <= t
    ensures Live(Fold(snap, pre + tail), t) == Live(Fold(start, pre + tail), t)
    ensures Live(Fold(snap, tail), t) == Live(Fold(start, pre + tail), t)
  {
    FoldAppend(start, pre, tail);
    FoldAppend(snap, pre, tail);
    TailRepairs(snap, Fold(start, pre), tail, since, t);
    WholeLogRepairs(snap, start, pre, tail, since);
    TailRepairs(Fold(snap, pre), Fold(start, pre), tail, since, t);
  }

  /** The tail alone on the old state is right for a key it does not write exactly if the operations before the fence
      left that key as it was. */
  lemma TailAlone(start: Records, pre: seq<RawOp>, tail: seq<RawOp>, k: Bytes)
    requires LastOn(tail, k).None?
    ensures Same(Fold(start, tail), Fold(start, pre + tail), k) <==> Same(start, Fold(start, pre), k)
  {
    FoldAppend(start, pre, tail);
    FoldIsLast(start, tail, k);
    FoldIsLast(Fold(start, pre), tail, k);
  }

  // ---- from bytes to operations -----------------------------------------------------------------

  lemma {:induction false} RawOpsAppend(decode: BodyReader, a: seq<Frame>, b: seq<Frame>)
    ensures AllRawOps(decode, a + b) == AllRawOps(decode, a) + AllRawOps(decode, b)
  {
    if a == [] {
      assert a + b == b;
    } else {
      assert (a + b)[1..] == a[1..] + b;
      RawOpsAppend(decode, a[1..], b);
    }
  }

  ghost function OpsOf(front: FrontReader, decode: BodyReader, chunks: seq<Bytes>): seq<RawOp>
    requires IsLog(front, chunks)
  {
    AllRawOps(decode, Bodies(Parses(front, chunks)))
  }

  /** Cutting the log at a frame boundary cuts its operations in two, and the tail parses on its own. */
  lemma TailParses(front: FrontReader, decode: BodyReader, chunks: seq<Bytes>, k: nat)
    requires Framing(front) && IsLog(front, chunks) && k <= |chunks|
    requires var tail := Concat(chunks[k..]); Fair(ReaderBy(front, tail), |tail|)
    ensures Bound(chunks, k) <= |Concat(chunks)| && Concat(chunks)[Bound(chunks, k)..] == Concat(chunks[k..])
    ensures OpsOf(front, decode, chunks) == OpsOf(front, decode, chunks[..k]) + OpsOf(front, decode, chunks[k..])
    ensures var tail := Concat(chunks[k..]);
      Run(ReaderBy(front, tail), |tail|, 0) == Parses(front, chunks[k..])
  {
    BoundSplit(chunks, k, |chunks|);
    assert chunks[..|chunks|] == chunks && chunks[k..|chunks|] == chunks[k..];
    OpsSplit(front, decode, chunks, k);
    var tail := Concat(chunks[k..]);
    assert tail[0..] == tail + [];
    NothingBehind(front, chunks[k..], |chunks[k..]|, tail, |tail|, []);
    StrictBetween(front, tail, |tail|, 0, chunks[k..], []);
  }

  lemma OpsSplit(front: FrontReader, decode: BodyReader, chunks: seq<Bytes>, k: nat)
    requires IsLog(front, chunks) && k <= |chunks|
    ensures OpsOf(front, decode, chunks) == OpsOf(front, decode, chunks[..k]) + OpsOf(front, decode, chunks[k..])
  {
    assert Bodies(Parses(front, chunks)) == Bodies(Parses(front, chunks[..k])) + Bodies(Parses(front, chunks[k..]));
    RawOpsAppend(decode, Bodies(Parses(front, chunks[..k])), Bodies(Parses(front, chunks[k..])));
  }

  // ---- the files --------------------------------------------------------------------------------

  const SMALL_DELTA: nat := 65536
  const MAX_PRECOPY_PASSES: nat := 5

  /** The pair of files a recovery would find. */
  datatype Image = Image(snapshot: Bytes, wal: Bytes)

  class Files {
    var snapshot: Bytes
    var snapshotTmp: Bytes
    /** The log: what has reached the file, and what is still queued. */
    var wal: Bytes
    var queued: Bytes
    var sealed: bool
    var walTmp: Option<Bytes>
    /** The pairs on disk after each rename. */
    ghost var images: seq<Image>

    constructor (snapshot: Bytes, wal: Bytes)
      ensures this.snapshot == snapshot && this.wal == wal && queued == [] && !sealed && walTmp == None
      ensures images == [Image(snapshot, wal)]
    {
      this.snapshot, this.wal := snapshot, wal;
      snapshotTmp, queued, sealed, walTmp := [], [], false, None;
      images := [Image(snapshot, wal)];
    }

    function Logged(): Bytes
      reads this
    {
      wal + queued
    }

    /** Whatever writers do in between: append to the queue, and let some of the queue reach the file. Once the
        log is sealed, appends fail. */
    method Writers()
      modifies this`wal, this`queued
      ensures old(wal) <= wal && old(Logged()) <= Logged()
      ensures sealed ==> wal == old(wal) && queued == old(queued)
    {
      if !sealed {
        var more: Bytes := *;
        queued := queued + more;
        var n: nat :| n <= |queued|;
        assert queued == queued[..n] + queued[n..];
        wal, queued := wal + queued[..n], queued[n..];
      }
    }

    method Flush()
      modifies this`wal, this`queued
      ensures wal == old(Logged()) == Logged() && queued == [] && old(wal) <= wal
    {
      wal, queued := wal + queued, [];
      assert wal + [] == wal;
    }

    /** Copy a range of the growing log to the new log, in chunks that reads and writes may cut short. */
    method CopyFileRange(start: nat, end: nat, append: bool) returns (ok: bool)
      requires start <= end <= |wal| && (append ==> walTmp.Some?)
      modifies this`wal, this`queued, this`walTmp
      ensures old(wal) <= wal && old(Logged()) <= Logged()
      ensures sealed ==> wal == old(wal) && queued == old(queued)
      ensures ok ==> walTmp == Some((if append then old(walTmp.value) else []) + wal[start..end])
    {
      ghost var was := if append then walTmp.value else [];
      var out := if append then walTmp.value else [];
      var pos := start;
      while pos < end
        invariant start <= pos <= end <= |wal| && old(wal) <= wal && old(Logged()) <= Logged()
        invariant sealed ==> wal == old(wal) && queued == old(queued)
        invariant out == was + wal[start..pos]
      {
        var taken: nat :| taken <= end - pos;
        if taken == 0 {
          walTmp := Some(out);
          return false;
        }
        assert wal[start..pos] + wal[pos..pos + taken] == wal[start..pos + taken];
        out := out + wal[pos..pos + taken];
        pos := pos + taken;
        ghost var before := wal;
        Writers();
        assert wal[start..pos] == before[start..pos];
      }
      walTmp := Some(out);
      ok := true;
    }

    /** What has been copied so far: the log from the fence to `copied`. */
    ghost predicate Copied(base: nat, copied: nat, appended: bool)
      reads this
    {
      && base <= copied <= |wal|
      && (if appended then walTmp == Some(wal[base..copied]) else copied == base)
    }

    lemma SliceStill(before: Bytes, now: Bytes, from: nat, to: nat)
      requires before <= now && from <= to <= |before|
      ensures before[from..to] == now[from..to]
    {
      assert now[..|before|] == before;
    }

    /** One pass: flush, then copy what landed since the last one. */
    method CopyPass(base: nat, copied: nat, head: nat, appended: bool) returns (ok: bool)
      requires Copied(base, copied, appended) && copied <= head <= |wal|
      modifies this`wal, this`queued, this`walTmp
      ensures old(wal) <= wal && old(Logged()) <= Logged()
      ensures sealed ==> wal == old(wal) && queued == old(queued)
      ensures ok ==> Copied(base, head, true)
    {
      ghost var before := wal;
      ok := CopyFileRange(copied, head, appended);
      SliceStill(before, wal, base, copied);
      assert wal[base..copied] + wal[copied..head] == wal[base..head];
    }

    /** Flush, and keep what is copied in view. */
    method FlushAt(base: nat, copied: nat, appended: bool)
      requires Copied(base, copied, appended)
      modifies this`wal, this`queued
      ensures wal == old(Logged()) == Logged() && queued == [] && old(wal) <= wal
      ensures Copied(base, copied, appended)
    {
      ghost var before := wal;
      Flush();
      SliceStill(before, wal, base, copied);
    }

    /** Copy the tail while the log grows, as long as the gap shrinks fast enough, in at most five passes. */
    method PreCopy(base: nat) returns (ok: bool, copied: nat, appended: bool, passes: nat)
      requires base <= |wal| && !sealed
      modifies this`wal, this`queued, this`walTmp
      ensures passes <= MAX_PRECOPY_PASSES && old(Logged()) <= Logged() && old(wal) <= wal
      ensures ok ==> Copied(base, copied, appended)
    {
      copied, appended, passes := base, false, 0;
      var prevGap: nat := 0;
      while passes < MAX_PRECOPY_PASSES
        invariant passes <= MAX_PRECOPY_PASSES && old(Logged()) <= Logged() && old(wal) <= wal
        invariant Copied(base, copied, appended)
      {
        FlushAt(base, copied, appended);
        var head := |wal|;
        var gap := head - copied;
        if gap <= SMALL_DELTA {
          break;
        }
        if passes > 0 && 10 * gap > 7 * prevGap {
          break;
        }
        ok := CopyPass(base, copied, head, appended);
        if !ok {
          return;
        }
        appended, copied, prevGap, passes := true, head, gap, passes + 1;
      }
      ok := true;
    }

    /** Seal the log and copy what is left; with the log sealed its head stands still, so this ends. */
    method Drain(base: nat, copied0: nat, appended0: bool) returns (ok: bool)
      requires Copied(base, copied0, appended0)
      modifies this`wal, this`queued, this`walTmp, this`sealed
      ensures sealed && wal == old(Logged()) && queued == []
      ensures ok ==> base <= |wal| && walTmp == Some(wal[base..])
    {
      sealed := true;
      var copied: nat, appended := copied0, appended0;
      ghost var log := Logged();
      while true
        invariant sealed && Logged() == log && Copied(base, copied, appended)
        decreases if appended && copied == |log| then 0 else 1
      {
        FlushAt(base, copied, appended);
        var end := |wal|;
        if end == copied && appended {
          break;
        }
        ok := CopyPass(base, copied, end, appended);
        if !ok {
          return;
        }
        appended, copied := true, end;
      }
      ok := true;
    }

    /** Both renames are done: the log behind the fence stands beside the new snapshot. */
    twostate predicate Rotated(newSnapshot: Bytes, log: Bytes, base: nat)
      requires base <= |log|
      reads this
    {
      && snapshot == newSnapshot && wal == log[base..] && queued == []
      && images == old(images) + [Image(newSnapshot, log), Image(newSnapshot, log[base..])]
    }

    /** The whole compaction. `images` records the file pair after each rename: at first the old pair, then the
        new snapshot with the whole sealed log, at last the new snapshot with the log behind the fence. A failure
        leaves any of the three. */
    method RunCompaction(newSnapshot: Bytes) returns (ok: bool, base: nat, ghost log: Bytes)
      requires !sealed
      modifies this
      ensures !sealed && base == |old(Logged())| && old(Logged()) <= log
      ensures ok ==> Rotated(newSnapshot, log, base)
      ensures !ok ==>
                || (snapshot == old(snapshot) && Logged() == log && images == old(images))
                || (snapshot == newSnapshot && wal == log && queued == [] && images == old(images) + [Image(newSnapshot, log)])
                || Rotated(newSnapshot, log, base)
    {
      Flush();
      base := |wal|;
      snapshotTmp := newSnapshot;
      Writers();
      var copied, appended, passes;
      ok, copied, appended, passes := PreCopy(base);
      if !ok {
        log := Logged();
        return;
      }
      ok := Drain(base, copied, appended);
      log := Logged();
      if !ok {
        sealed := false;
        return;
      }
      assert wal + [] == wal;
      snapshot := snapshotTmp;
      images := images + [Image(snapshot, wal)];
      var renamed: bool := *;
      if !renamed {
        ok, sealed := false, false;
        return;
      }
      wal := walTmp.value;
      images := images + [Image(snapshot, wal)];
      sealed, walTmp := false, None;
      assert images == old(images) + [Image(newSnapshot, log), Image(newSnapshot, log[base..])];
      // the directory may fail to reach the disk, and the new log to open
      ok := *;
    }
  }

  // ---- disk pointers ----------------------------------------------------------------------------

  datatype ValueLoc = InSnapshot(off: nat, len: nat) | InWal(off: nat, len: nat)

  ghost predicate Reads(files: Image, loc: ValueLoc, value: Bytes)
  {
    match loc
    case InSnapshot(off, len) => off + len <= |files.snapshot| && files.snapshot[off..off + len] == value
    case InWal(off, len) => off + len <= |files.wal| && files.wal[off..off + len] == value
  }

  /** Log values behind the fence move with the tail; all others now lie in the new snapshot, if it has them. */
  function Remap(key: Bytes, loc: ValueLoc, base: nat, locs: map<Bytes, S.Loc>): ValueLoc
  {
    if loc.InWal? && loc.off >= base then InWal(loc.off - base, loc.len)
    else if key in locs then InSnapshot(locs[key].off, locs[key].len)
    else loc
  }

  lemma RemapReadsSame(was: Image, now: Image, base: nat, locs: map<Bytes, S.Loc>, recs: seq<S.Live>, key: Bytes,
                       loc: ValueLoc, value: Bytes)
    requires base <= |was.wal| && now.wal == was.wal[base..] && S.Located(now.snapshot, locs, recs)
    requires Reads(was, loc, value)
    requires !(loc.InWal? && loc.off >= base) ==> exists i :: 0 <= i < |recs| && recs[i].key == key && recs[i].value == value
    ensures Reads(now, Remap(key, loc, base, locs), value)
  {
    if loc.InWal? && loc.off >= base {
      assert now.wal[loc.off - base..loc.off - base + loc.len] == was.wal[loc.off..loc.off + loc.len];
    } else {
      var i :| 0 <= i < |recs| && recs[i].key == key && recs[i].value == value;
      assert recs[i].key in locs && S.At(now.snapshot, locs[key], value);
    }
  }

  /** Every pointer reads the value its key has in the store; a value written behind the fence lies in the log behind
      the fence. */
  ghost predicate Points(files: Image, ptr: map<Bytes, ValueLoc>, store: Records, tail: seq<RawOp>, base: nat)
  {
    && (forall k <- ptr :: k in store && Reads(files, ptr[k], store[k].value))
    && (forall k <- ptr :: LastOn(tail, k).Some? ==> ptr[k].InWal? && ptr[k].off >= base)
  }

  lemma {:induction false} RecordOf(recs: seq<S.Live>, key: Bytes) returns (i: nat)
    requires key in S.RecordsOf(recs)
    ensures i < |recs| && recs[i].key == key && S.RecOf(recs[i]) == S.RecordsOf(recs)[key]
  {
    var last := |recs| - 1;
    if recs[last].key == key {
      i := last;
    } else {
      i := RecordOf(recs[..last], key);
    }
  }

  /** After the rotation every pointer of a live record reads the bytes it read before: the store is the fence state
      with the writes behind the fence, and each record of the new snapshot was captured at a moment of its own. */
  lemma RotationReadsSame(was: Image, now: Image, at: nat, locs: map<Bytes, S.Loc>, recs: seq<S.Live>,
                          base: Records, tail: seq<RawOp>, moment: Bytes -> nat, clock: Bytes -> int, since: int,
                          ptr: map<Bytes, ValueLoc>, key: Bytes)
    requires at <= |was.wal| && now.wal == was.wal[at..] && S.Located(now.snapshot, locs, recs)
    requires Captured(S.RecordsOf(recs), base, tail, moment, clock) && forall k :: clock(k) <= since
    requires Points(was, ptr, Fold(base, tail), tail, at)
    requires key in ptr && !Expired(Fold(base, tail)[key], since)
    ensures Reads(now, Remap(key, ptr[key], at, locs), Fold(base, tail)[key].value)
  {
    FoldIsLast(base, tail, key);
    if LastOn(tail, key).None? {
      CapturedIsFuzzy(S.RecordsOf(recs), base, tail, moment, clock, since);
      var i := RecordOf(recs, key);
      assert recs[i].value == base[key].value;
    }
    RemapReadsSame(was, now, at, locs, recs, key, ptr[key], Fold(base, tail)[key].value);
  }

  /** Why the rotation remembers that it has remapped: remapping twice is harmless for every pointer exactly if the
      fence was at the start of the log. Otherwise a pointer that still lies behind the fence's offset moves again,
      and one whose key the snapshot holds moves into the snapshot. */
  lemma RemapTwice(key: Bytes, base: nat, locs: map<Bytes, S.Loc>)
    ensures (forall loc :: Remap(key, Remap(key, loc, base, locs), base, locs) == Remap(key, loc, base, locs)) <==> base == 0
    ensures forall loc: ValueLoc | base > 0 && loc.InWal? && loc.off >= base ::
              var once := Remap(key, loc, base, locs);
              Remap(key, once, base, locs) == once <==> once.off < base && key !in locs
  {
    if base > 0 {
      var loc := InWal(2 * base, 0);
      assert Remap(key, Remap(key, loc, base, locs), base, locs) != Remap(key, loc, base, locs);
    }
  }
}
