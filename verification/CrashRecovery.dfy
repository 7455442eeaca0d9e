/** From files to answers: recovery from a snapshot and a log on disk, the tail it cuts off, and what it makes of
    the file pairs a compaction leaves behind. */
module CrashRecovery {
  import opened Basics
  import opened Bytes
  import opened Codec
  import opened FrameScan
  import opened WindowScan
  import opened WindowReader
  import opened Recovery
  import opened CatchUp
  import opened Compaction
  import B = BatchCodec
  import S = Snapshot

  datatype Mode = Resync | Strict

  /** How files are scanned: the mode, the capacity of the window, and the budget of candidates. */
  datatype Scanner = Scanner(mode: Mode, cap: nat, budget: nat)

  /** What the scanner yields for a file. */
  ghost function ScanYield(c: Scanner, b: Bytes): Yield
    requires HEADER_SIZE <= c.cap
  {
    ReaderFair(b);
    match c.mode
    case Resync => WindowYield(b, c.cap, c.budget)
    case Strict => StrictYield(ReaderOf(b), |b|)
  }

  ghost function StrictYield(at: Reader, size: nat): Yield
    requires Fair(at, size)
  {
    var end := RunEnd(at, size, 0);
    Yield(Bodies(Run(at, size, 0)), if end < size then [(end, size)] else [], end)
  }

  ghost function FileOps(c: Scanner, b: Bytes): seq<RawOp>
    requires HEADER_SIZE <= c.cap
  {
    AllRawOps(B.Decode, ScanYield(c, b).frames)
  }

  /** The last writer of every key over both files. */
  ghost function Recovered(c: Scanner, img: Image): Records
    requires HEADER_SIZE <= c.cap
  {
    Fold(Fold(map[], FileOps(c, img.snapshot)), FileOps(c, img.wal))
  }

  // ---- recovery of one file pair ----------------------------------------------------------------

  method ScanFile(c: Scanner, file: Bytes) returns (frames: seq<Frame>, corrupt: seq<(nat, nat)>, eof: nat)
    requires HEADER_SIZE <= c.cap
    ensures Yield(frames, corrupt, eof) == ScanYield(c, file) && EndsAt(corrupt, eof, |file|)
  {
    ReaderFair(file);
    if c.mode.Resync? {
      frames, corrupt, eof := ScanWindowed(file, c.cap, c.budget);
    } else {
      frames, corrupt, eof := ScanStrict(ReaderOf(file), |file|, 0);
    }
  }

  /** Recover from both files; a corrupt tail of the log is cut off. Readers see the last live writer of every key
      over the frames the scanner yields, whatever the clock did meanwhile. */
  method Recover(c: Scanner, img: Image, store: Store, start: int, truncate: bool) returns (now: int, left: Image)
    requires store.records == map[] && HEADER_SIZE <= c.cap
    modifies store
    ensures now >= start && forall t | t >= now :: Live(store.records, t) == Live(Recovered(c, img), t)
    ensures ScanYield(c, img.wal).eof <= |img.wal|
    ensures left == Image(img.snapshot, if truncate then img.wal[..ScanYield(c, img.wal).eof] else img.wal)
  {
    var inSnapshot, _, _ := ScanFile(c, img.snapshot);
    var inWal, corrupt, eof := ScanFile(c, img.wal);
    EofInside(c, img.wal);
    var at, _ := RecoverPass(inSnapshot, inWal, store, start);
    now := at;
    FoldAppend(map[], FileOps(c, img.snapshot), FileOps(c, img.wal));
    left := img;
    if truncate && |corrupt| > 0 && corrupt[|corrupt| - 1].1 == |img.wal| {
      left := Image(img.snapshot, img.wal[..corrupt[|corrupt| - 1].0]);
    }
    assert img.wal[..|img.wal|] == img.wal;
  }

  // ---- what truncation keeps --------------------------------------------------------------------

  lemma EofInside(c: Scanner, b: Bytes)
    requires HEADER_SIZE <= c.cap
    ensures ScanYield(c, b).eof <= |b|
  {
    if c.mode.Resync? {
      SourceSane(b, c.cap, c.budget);
      ScanEnds(SourceOf(b, c.cap, c.budget), Window(0, 0), 0, 0);
    }
  }

  /** What trying every position yields. */
  ghost function YieldIn(b: Bytes): Yield
  {
    ReaderFair(b);
    YieldOf(|b|, Pieces(ReaderOf(b), |b|, 0))
  }

  /** Every resynchronisation in the file tries the next valid frame. */
  ghost predicate NothingMissed(c: Scanner, b: Bytes)
    requires HEADER_SIZE <= c.cap
  {
    SourceSane(b, c.cap, c.budget);
    Unmissed(SourceOf(b, c.cap, c.budget), Window(0, 0), 0, 0)
  }

  /** Nothing is missed in a file without a valid frame behind its first corruption, as an interrupted write leaves
      it. */
  lemma TornTailExact(c: Scanner, b: Bytes)
    requires HEADER_SIZE <= c.cap && Fair(ReaderOf(b), |b|)
    requires NextFrame(ReaderOf(b), |b|, RunEnd(ReaderOf(b), |b|, 0)) == |b|
    ensures NothingMissed(c, b)
  {
    SourceSane(b, c.cap, c.budget);
    TailOnly(SourceOf(b, c.cap, c.budget), Window(0, 0), 0, 0);
  }

  /** Nor in a file that fits the window and holds no more magic than the budget allows. */
  lemma SmallFileExact(c: Scanner, b: Bytes)
    requires HEADER_SIZE <= c.cap && 0 < |b| <= c.cap
    requires Magics(SourceOf(b, c.cap, c.budget), 1, |b|) <= c.budget
    ensures NothingMissed(c, b)
  {
    SourceSane(b, c.cap, c.budget);
    WideFile(SourceOf(b, c.cap, c.budget));
  }

  lemma MissedNothing(c: Scanner, b: Bytes)
    requires HEADER_SIZE <= c.cap && c.mode.Resync? && NothingMissed(c, b)
    ensures ScanYield(c, b) == YieldIn(b)
  {
    SourceSane(b, c.cap, c.budget);
    ScanExact(SourceOf(b, c.cap, c.budget), Window(0, 0), 0, 0);
  }

  lemma {:induction false} LastPiece(ps: seq<Piece>)
    requires ps != [] && ps[|ps| - 1].Bad?
    ensures Frames(ps) == Frames(ps[..|ps| - 1])
  {
    if |ps| > 1 {
      LastPiece(ps[1..]);
      assert ps[1..][..|ps| - 2] == ps[..|ps| - 1][1..];
    } else {
      assert ps[1..] == [] && ps[..0] == [];
    }
  }

  /** Cutting a file where its valid data ends keeps its frames and leaves no corrupt tail. */
  lemma CutAtEof(b: Bytes)
    ensures var cut := YieldIn(b).eof;
      cut <= |b| && YieldIn(b[..cut]).frames == YieldIn(b).frames && YieldIn(b[..cut]).eof == cut
  {
    var at, size := ReaderOf(b), |b|;
    ReaderFair(b);
    var ps := Pieces(at, size, 0);
    PiecesTile(at, size, 0);
    if ps == [] || ps[|ps| - 1].Good? {
      assert b[..|b|] == b;
    } else {
      var cut := ps[|ps| - 1].start;
      assert Sound(at, size, ps[|ps| - 1]);
      LastPiece(ps);
      CutBuffer(b, cut);
      ReaderFair(b[..cut]);
      TruncationLosesNothing(at, size, ReaderOf(b[..cut]), cut);
      assert |ps| > 1 ==> ps[|ps| - 2].Good?;
    }
  }

  lemma {:induction false} CutRun(at: Reader, size: nat, short: Reader, cut: nat, pos: nat)
    requires Fair(at, size) && Fair(short, cut) && CutReader(at, short, cut)
    requires pos <= size && pos <= cut == RunEnd(at, size, pos)
    ensures Run(short, cut, pos) == Run(at, size, pos) && RunEnd(short, cut, pos) == cut
    decreases size - pos
  {
    if at(pos).Some? {
      CutRun(at, size, short, cut, pos + at(pos).value.len);
    }
  }

  /** What truncation leaves: in strict mode the same run of frames; with resynchronisation, if nothing was missed,
      exactly the valid frames of the file. */
  lemma TruncationSafe(c: Scanner, b: Bytes)
    requires HEADER_SIZE <= c.cap && (c.mode.Resync? ==> NothingMissed(c, b))
    ensures ScanYield(c, b).eof <= |b|
    ensures var left := b[..ScanYield(c, b).eof];
      if c.mode.Strict? then ScanYield(c, left) == Yield(ScanYield(c, b).frames, [], |left|)
      else YieldIn(left).frames == YieldIn(b).frames == ScanYield(c, b).frames && YieldIn(left).eof == |left|
  {
    ReaderFair(b);
    if c.mode.Resync? {
      MissedNothing(c, b);
      CutAtEof(b);
    } else {
      var cut := ScanYield(c, b).eof;
      CutBuffer(b, cut);
      ReaderFair(b[..cut]);
      CutRun(ReaderOf(b), |b|, ReaderOf(b[..cut]), cut, 0);
    }
  }

  /** The failing input, for every window and budget: a log whose only frame straddles the end of the first window
      recovers to nothing, and truncation cuts the frame off. */
  lemma EdgeFrameDestroyed(c: Scanner, junk: Bytes, f: FrameInput)
    requires AtEdge(junk, f, c.cap) && c.mode.Resync? && f.kind == TYPE_SET
    ensures var wal := junk + FrameBytes(f);
      && AllRawOps(B.Decode, YieldIn(wal).frames) == [Set(f.key, Rec(OrEmpty(f.value), MetaOf(OrEmpty(f.meta)), f.expireAt))]
      && FileOps(c, wal) == [] && ScanYield(c, wal).eof == 0
  {
    EdgeFrameLost(junk, f, c.cap, c.budget);
    assert [Seen(f)][1..] == [];
    assert RawOps(B.Decode, Seen(f)) + [] == RawOps(B.Decode, Seen(f));
  }

  // ---- logs of encoded frames -------------------------------------------------------------------

  ghost function LogOps(fs: seq<FrameInput>): seq<RawOp>
  {
    AllRawOps(B.Decode, SeenAll(fs))
  }

  lemma LogOpsAppend(fs: seq<FrameInput>, k: nat)
    requires k <= |fs|
    ensures LogOps(fs) == LogOps(fs[..k]) + LogOps(fs[k..])
  {
    assert SeenAll(fs) == SeenAll(fs[..k]) + SeenAll(fs[k..]);
    RawOpsAppend(B.Decode, SeenAll(fs[..k]), SeenAll(fs[k..]));
  }

  /** A file of encoded frames is scanned right in every mode and through every window. */
  lemma LogFile(c: Scanner, fs: seq<FrameInput>)
    requires AllFit(fs) && HEADER_SIZE <= c.cap
    ensures ScanYield(c, Concat(Chunks(fs))) == Yield(SeenAll(fs), [], |Concat(Chunks(fs))|)
    ensures FileOps(c, Concat(Chunks(fs))) == LogOps(fs)
  {
    var b := Concat(Chunks(fs));
    EncodedParsesBack(fs);
    ChunksAreFrames(fs);
    WholeRun(fs);
    if c.mode.Resync? {
      TornTailExact(c, b);
      MissedNothing(c, b);
    }
  }

  lemma WholeRun(fs: seq<FrameInput>)
    requires AllFit(fs)
    ensures var b := Concat(Chunks(fs));
      && Fair(ReaderOf(b), |b|) && RunEnd(ReaderOf(b), |b|, 0) == |b|
      && Bodies(Run(ReaderOf(b), |b|, 0)) == SeenAll(fs)
  {
    var b := Concat(Chunks(fs));
    ReaderFair(b);
    FrontFraming();
    ChunksAreFrames(fs);
    assert b[0..] == Concat(Chunks(fs)) + [];
    ChunksLay(Front, b, 0, Chunks(fs), []);
    RunExactly(ReaderOf(b), |b|, 0, Parses(Front, Chunks(fs)), |b|);
  }

  /** Behind a frame boundary lie the encodings of the later frames. */
  lemma LogTail(fs: seq<FrameInput>, k: nat)
    requires AllFit(fs) && k <= |fs|
    ensures var log, base := Concat(Chunks(fs)), |Concat(Chunks(fs[..k]))|;
      base <= |log| && log[base..] == Concat(Chunks(fs[k..]))
  {
    assert Chunks(fs) == Chunks(fs[..k]) + Chunks(fs[k..]);
    ConcatAppend(Chunks(fs[..k]), Chunks(fs[k..]));
  }

  /** What the old snapshot and the first `k` frames of the log recover to. */
  ghost function AtFence(c: Scanner, oldSnapshot: Bytes, fs: seq<FrameInput>, k: nat): Records
    requires k <= |fs| && HEADER_SIZE <= c.cap
  {
    Fold(Fold(map[], FileOps(c, oldSnapshot)), LogOps(fs[..k]))
  }

  /** A snapshot whose every record was captured at some moment behind the fence, by its own clock reading. */
  ghost predicate CapturedBehind(c: Scanner, recs: seq<S.Live>, oldSnapshot: Bytes, fs: seq<FrameInput>, k: nat,
                                 moment: Bytes -> nat, clock: Bytes -> int)
    requires k <= |fs| && HEADER_SIZE <= c.cap
  {
    Captured(S.RecordsOf(recs), AtFence(c, oldSnapshot, fs, k), LogOps(fs[k..]), moment, clock)
  }

  /** Crash safety of a compaction, on the bytes: `fs` are the frames of the sealed log, `k` of them before the
      fence. The pair between the renames and the pair after both recover to what the old pair recovers to, in
      every mode and through every window. */
  lemma EveryImageRecovers(c: Scanner, oldSnapshot: Bytes, fs: seq<FrameInput>, k: nat, recs: seq<S.Live>,
                           moment: Bytes -> nat, clock: Bytes -> int, since: int, t: int)
    requires HEADER_SIZE <= c.cap && AllFit(fs) && k <= |fs| && AllFit(S.Inputs(recs))
    requires CapturedBehind(c, recs, oldSnapshot, fs, k, moment, clock)
    requires (forall key :: clock(key) <= since) && since <= t
    ensures var log, base := Concat(Chunks(fs)), |Concat(Chunks(fs[..k]))|;
      var newSnapshot := Concat(Chunks(S.Inputs(recs)));
      var want := Live(Recovered(c, Image(oldSnapshot, log)), t);
      && base <= |log|
      && Live(Recovered(c, Image(newSnapshot, log)), t) == want
      && Live(Recovered(c, Image(newSnapshot, log[base..])), t) == want
  {
    var start := Fold(map[], FileOps(c, oldSnapshot));
    var pre, tail := LogOps(fs[..k]), LogOps(fs[k..]);
    LogOpsAppend(fs, k);
    LogFile(c, fs);
    LogFile(c, fs[k..]);
    LogTail(fs, k);
    NewSnapshot(c, recs);
    CapturedIsFuzzy(S.RecordsOf(recs), Fold(start, pre), tail, moment, clock, since);
    CrashPoints(start, pre, tail, S.RecordsOf(recs), since, t);
  }

  lemma NewSnapshot(c: Scanner, recs: seq<S.Live>)
    requires HEADER_SIZE <= c.cap && AllFit(S.Inputs(recs))
    ensures Fold(map[], FileOps(c, Concat(Chunks(S.Inputs(recs))))) == S.RecordsOf(recs)
  {
    LogFile(c, S.Inputs(recs));
    EncodedParsesBack(S.Inputs(recs));
    S.SnapshotReadsBack(recs);
  }

  /** The writers have appended whole frames, and every record of the new snapshot was captured behind the fence. */
  ghost predicate Orderly(c: Scanner, recs: seq<S.Live>, oldSnapshot: Bytes, log: Bytes, base: nat, since: int)
    requires HEADER_SIZE <= c.cap
  {
    exists fs: seq<FrameInput>, k: nat, moment: Bytes -> nat, clock: Bytes -> int ::
      && AllFit(fs) && k <= |fs| && log == Concat(Chunks(fs)) && base == |Concat(Chunks(fs[..k]))|
      && CapturedBehind(c, recs, oldSnapshot, fs, k, moment, clock) && forall key :: clock(key) <= since
  }

  /** Readers see the same after a recovery from either pair, from `since` on. */
  ghost predicate Alike(c: Scanner, a: Image, b: Image, since: int)
    requires HEADER_SIZE <= c.cap
  {
    forall t | t >= since :: Live(Recovered(c, a), t) == Live(Recovered(c, b), t)
  }

  lemma ImagesAlike(c: Scanner, recs: seq<S.Live>, oldSnapshot: Bytes, log: Bytes, base: nat, since: int)
    requires HEADER_SIZE <= c.cap && AllFit(S.Inputs(recs)) && Orderly(c, recs, oldSnapshot, log, base, since)
    ensures base <= |log|
    ensures var newSnapshot := Concat(Chunks(S.Inputs(recs)));
      && Alike(c, Image(newSnapshot, log), Image(oldSnapshot, log), since)
      && Alike(c, Image(newSnapshot, log[base..]), Image(oldSnapshot, log), since)
  {
    var fs: seq<FrameInput>, k: nat, moment: Bytes -> nat, clock: Bytes -> int :|
      && AllFit(fs) && k <= |fs| && log == Concat(Chunks(fs)) && base == |Concat(Chunks(fs[..k]))|
      && CapturedBehind(c, recs, oldSnapshot, fs, k, moment, clock) && forall key :: clock(key) <= since;
    LogTail(fs, k);
    forall t | t >= since
      ensures var newSnapshot := Concat(Chunks(S.Inputs(recs)));
        && Live(Recovered(c, Image(newSnapshot, log)), t) == Live(Recovered(c, Image(oldSnapshot, log)), t)
        && Live(Recovered(c, Image(newSnapshot, log[base..])), t) == Live(Recovered(c, Image(oldSnapshot, log)), t)
    {
      EveryImageRecovers(c, oldSnapshot, fs, k, recs, moment, clock, since, t);
    }
  }

  /** Write the new snapshot and rotate. Whether it succeeds or fails, and wherever: every pair of files that was on
      disk on the way recovers to what the old snapshot and the whole log recover to. */
  method Compact(c: Scanner, files: Files, recs: seq<S.Live>, flushBytes: nat) returns (ok: bool, ghost base: nat, ghost log: Bytes)
    requires HEADER_SIZE <= c.cap && S.DistinctKeys(recs) && !files.sealed
    modifies files
    ensures old(files.images) <= files.images && !files.sealed && old(files.Logged()) <= log
    ensures ok ==> files.images != old(files.images)
    ensures forall since | Orderly(c, recs, old(files.snapshot), log, base, since) ::
              forall img <- files.images[|old(files.images)|..] :: Alike(c, img, Image(old(files.snapshot), log), since)
  {
    var r, file := S.WriteSnapshot(recs, flushBytes);
    if r.Err? {
      return false, 0, files.Logged();
    }
    ghost var oldSnapshot, n := files.snapshot, |files.images|;
    ok, base, log := files.RunCompaction(file);
    forall since | Orderly(c, recs, oldSnapshot, log, base, since)
      ensures forall img <- files.images[n..] :: Alike(c, img, Image(oldSnapshot, log), since)
    {
      ImagesAlike(c, recs, oldSnapshot, log, base, since);
    }
  }

  /** Were the log renamed first, a crash in between would leave the old snapshot with the tail: wrong for a key that
      the tail does not write exactly if the log before the fence had changed it. */
  lemma LogFirstLoses(c: Scanner, oldSnapshot: Bytes, fs: seq<FrameInput>, k: nat, key: Bytes)
    requires HEADER_SIZE <= c.cap && AllFit(fs) && k <= |fs| && LastOn(LogOps(fs[k..]), key).None?
    ensures var log, base := Concat(Chunks(fs)), |Concat(Chunks(fs[..k]))|;
      && base <= |log|
      && (Same(Recovered(c, Image(oldSnapshot, log[base..])), Recovered(c, Image(oldSnapshot, log)), key)
          <==> Same(Fold(map[], FileOps(c, oldSnapshot)), AtFence(c, oldSnapshot, fs, k), key))
  {
    LogOpsAppend(fs, k);
    LogFile(c, fs);
    LogFile(c, fs[k..]);
    LogTail(fs, k);
    TailAlone(Fold(map[], FileOps(c, oldSnapshot)), LogOps(fs[..k]), LogOps(fs[k..]), key);
  }

  // ---- following a log of encoded frames --------------------------------------------------------

  lemma FrontPrefix(f: FrameInput)
    requires Fits(f)
    ensures |FrameBytes(f)| >= 2 && FrameBytes(f)[..2] == MAGIC
  {
    FrontOfFrame(f, []);
    assert FrameBytes(f) + [] == FrameBytes(f);
  }

  /** The encodings are a log in the sense of the catch-up. */
  lemma IsWal(fs: seq<FrameInput>)
    requires AllFit(fs)
    ensures Framing(Front) && IsLog(Front, Chunks(fs))
    ensures forall i | 0 <= i < |fs| :: |Chunks(fs)[i]| >= 2 && Chunks(fs)[i][..2] == MAGIC
  {
    FrontFraming();
    ChunksAreFrames(fs);
    forall i | 0 <= i < |fs|
      ensures |Chunks(fs)[i]| >= 2 && Chunks(fs)[i][..2] == MAGIC
    {
      FrontPrefix(fs[i]);
    }
  }

  lemma FairPrefixes(file: Bytes)
    ensures forall n: nat | n <= |file| :: Fair(ReaderBy(Front, file[..n]), n)
  {
    forall n: nat | n <= |file|
      ensures Fair(ReaderBy(Front, file[..n]), n)
    {
      ReaderFair(file[..n]);
    }
  }

  /** One strict scan of the first `n` bytes delivers the whole frames there, and stops behind them. */
  lemma OneScan(front: FrontReader, chunks: seq<Bytes>, all: seq<Frame>, n: nat, log: Bytes)
    requires Framing(front) && IsLog(front, chunks) && all == Bodies(Parses(front, chunks))
    requires n <= |Concat(chunks)| && log == Concat(chunks)[..n] && Fair(ReaderBy(front, log), n)
    ensures var m, at := Whole(chunks, n), ReaderBy(front, log);
      && Bodies(Parses(front, chunks[..m])) == Bodies(Run(at, n, 0)) == all[..m]
      && RunEnd(at, n, 0) == Bound(chunks, m)
  {
    FollowIsOneScan(front, chunks, n, log);
    assert Bodies(Parses(front, chunks[..Whole(chunks, n)])) == all[..Whole(chunks, n)];
  }

  /** Catch up with a growing log of encoded frames at any sizes it is seen at, torn tails included: together the
      catch-ups deliver what one strict scan of the last size delivers, and end where it ends. */
  method FollowWal(ghost fs: seq<FrameInput>, file: Bytes, sizes: seq<nat>) returns (offset: nat, frames: seq<Frame>)
    requires AllFit(fs) && file == Concat(Chunks(fs))
    requires forall i | 0 <= i < |sizes| :: sizes[i] <= |file|
    requires forall i, j | 0 <= i < j < |sizes| :: sizes[i] <= sizes[j]
    ensures var log := file[..Last(sizes)];
      && Fair(ReaderOf(log), |log|)
      && frames == Bodies(Run(ReaderOf(log), |log|, 0)) == SeenAll(fs)[..Whole(Chunks(fs), |log|)]
      && offset == RunEnd(ReaderOf(log), |log|, 0)
  {
    IsWal(fs);
    FairPrefixes(file);
    offset, frames := Follow(Front, Chunks(fs), file, sizes);
    ChunksAreFrames(fs);
    ReaderFair(file[..Last(sizes)]);
    OneScan(Front, Chunks(fs), SeenAll(fs), Last(sizes), file[..Last(sizes)]);
  }
}
