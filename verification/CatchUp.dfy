/** Following a growing log from a watermark. */
module CatchUp {
  import opened Basics
  import opened Bytes
  import opened Codec
  import opened FrameScan

  // ---- a log that is being appended -------------------------------------------------------------

  /** The offset behind the first `k` frames. */
  ghost function Bound(chunks: seq<Bytes>, k: nat): nat
    requires k <= |chunks|
  {
    |Concat(chunks[..k])|
  }

  /** How many whole frames the first `n` bytes hold. */
  ghost function Whole(chunks: seq<Bytes>, n: nat): (m: nat)
    ensures m <= |chunks|
  {
    if chunks == [] || |chunks[0]| > n then 0 else 1 + Whole(chunks[1..], n - |chunks[0]|)
  }

  lemma {:induction false} WholeBound(chunks: seq<Bytes>, n: nat)
    ensures var m := Whole(chunks, n);
      Bound(chunks, m) <= n && (m < |chunks| ==> n < Bound(chunks, m) + |chunks[m]|)
  {
    if chunks != [] && |chunks[0]| <= n {
      var tail := chunks[1..];
      WholeBound(tail, n - |chunks[0]|);
      var m := Whole(tail, n - |chunks[0]|);
      assert chunks[..m + 1][1..] == tail[..m];
    }
  }

  lemma BoundSplit(chunks: seq<Bytes>, k: nat, m: nat)
    requires k <= m <= |chunks|
    ensures Concat(chunks[..m]) == Concat(chunks[..k]) + Concat(chunks[k..m])
  {
    ConcatAppend(chunks[..k], chunks[k..m]);
    assert chunks[..k] + chunks[k..m] == chunks[..m];
  }

  lemma {:induction false} ConcatSome(chunks: seq<Bytes>)
    requires chunks != [] && chunks[0] != []
    ensures |Concat(chunks)| >= |chunks[0]| && Concat(chunks)[..|chunks[0]|] == chunks[0]
  {
  }

  lemma WholeAtLeast(chunks: seq<Bytes>, k: nat, n: nat)
    requires k <= |chunks| && Bound(chunks, k) <= n && forall i | 0 <= i < |chunks| :: chunks[i] != []
    ensures k <= Whole(chunks, n)
  {
    var m := Whole(chunks, n);
    WholeBound(chunks, n);
    if m < k {
      BoundSplit(chunks, m, k);
      ConcatSome(chunks[m..k]);
    }
  }

  /** What stands behind the whole frames: a proper prefix of the next one. */
  ghost predicate TornTail(chunks: seq<Bytes>, m: nat, rest: Bytes)
  {
    m <= |chunks| &&
    if m < |chunks| then |rest| < |chunks[m]| && rest == chunks[m][..|rest|] else rest == []
  }

  /** The first `n` bytes of the log, seen from behind the first `k` frames. */
  lemma LogFrom(chunks: seq<Bytes>, k: nat, n: nat) returns (rest: Bytes)
    requires k <= Whole(chunks, n) && n <= |Concat(chunks)|
    ensures var m := Whole(chunks, n);
      && Bound(chunks, k) <= Bound(chunks, m) <= n && Bound(chunks, m) == Bound(chunks, k) + |Concat(chunks[k..m])|
      && Concat(chunks)[..n][Bound(chunks, k)..] == Concat(chunks[k..m]) + rest
      && TornTail(chunks, m, rest)
  {
    var m := Whole(chunks, n);
    WholeBound(chunks, n);
    BoundSplit(chunks, k, m);
    BoundSplit(chunks, m, |chunks|);
    assert chunks[..|chunks|] == chunks && chunks[m..|chunks|] == chunks[m..];
    rest := Concat(chunks[m..])[..n - Bound(chunks, m)];
    assert Concat(chunks)[..n] == Concat(chunks[..k]) + (Concat(chunks[k..m]) + rest);
    if m < |chunks| {
      assert Concat(chunks[m..]) == chunks[m] + Concat(chunks[m..][1..]);
    }
  }

  /** A strict scan of the first `n` bytes from a frame boundary finds exactly the whole frames behind it, and
      ends at a boundary again. */
  lemma StrictOnLog(front: FrontReader, chunks: seq<Bytes>, k: nat, n: nat, log: Bytes)
    requires Framing(front) && IsLog(front, chunks) && k <= Whole(chunks, n) && n <= |Concat(chunks)|
    requires log == Concat(chunks)[..n] && Fair(ReaderBy(front, log), n)
    ensures var m, at := Whole(chunks, n), ReaderBy(front, log);
      Bound(chunks, k) <= n && RunsTo(at, n, Bound(chunks, k), Parses(front, chunks[k..m]), Bound(chunks, m))
    ensures TornTail(chunks, Whole(chunks, n), log[Bound(chunks, Whole(chunks, n))..])
  {
    var m := Whole(chunks, n);
    var rest := LogFrom(chunks, k, n);
    var from, to := Bound(chunks, k), Bound(chunks, m);
    RestBehind(log, from, Concat(chunks[k..m]), rest);
    NothingBehind(front, chunks, m, log, to, rest);
    StrictBetween(front, log, n, from, chunks[k..m], rest);
  }

  lemma RestBehind(log: Bytes, from: nat, part: Bytes, rest: Bytes)
    requires from <= |log| && log[from..] == part + rest
    ensures from + |part| <= |log| && log[from + |part|..] == rest
  {
    assert log[from + |part|..] == log[from..][|part|..];
  }

  /** Behind the whole frames nothing validates. */
  lemma NothingBehind(front: FrontReader, chunks: seq<Bytes>, m: nat, log: Bytes, to: nat, rest: Bytes)
    requires Framing(front) && IsLog(front, chunks) && TornTail(chunks, m, rest)
    requires to <= |log| && log[to..] == rest && Fair(ReaderBy(front, log), |log|)
    ensures ReaderBy(front, log)(to).None?
  {
    if m < |chunks| {
      assert Torn(front, chunks[m], |rest|);
    }
  }

  lemma StrictBetween(front: FrontReader, log: Bytes, n: nat, from: nat, part: seq<Bytes>, rest: Bytes)
    requires Framing(front) && IsLog(front, part) && |log| == n && Fair(ReaderBy(front, log), n)
    requires from <= n && log[from..] == Concat(part) + rest && ReaderBy(front, log)(from + |Concat(part)|).None?
    ensures RunsTo(ReaderBy(front, log), n, from, Parses(front, part), from + |Concat(part)|)
  {
    ChunksLay(front, log, from, part, rest);
    RunExactly(ReaderBy(front, log), n, from, Parses(front, part), from + |Concat(part)|);
  }

  // ---- catch-up ---------------------------------------------------------------------------------

  /** The bytes at the offset could be the start of a frame. */
  predicate MagicAt(wal: Bytes, offset: nat)
    requires offset <= |wal|
  {
    var n := if |wal| - offset < 2 then |wal| - offset else 2;
    wal[offset..offset + n] == MAGIC[..n]
  }

  /** The frames behind a watermark and the next watermark; none if the offset is no boundary of this file. */
  method CatchUpWal(at: Reader, wal: Bytes, offset: int) returns (r: Option<(nat, seq<Frame>)>)
    requires Fair(at, |wal|)
    ensures !(0 <= offset <= |wal|) ==> r.None?
    ensures 0 <= offset <= |wal| ==>
              var run, end := Run(at, |wal|, offset), RunEnd(at, |wal|, offset);
              if run == [] && end < |wal| && !MagicAt(wal, offset) then r.None? else r == Some((end, Bodies(run)))
  {
    if offset < 0 || offset > |wal| {
      return None;
    }
    var frames, corrupt, eof := ScanStrict(at, |wal|, offset);
    EmptyRun(at, |wal|, offset);
    if |frames| == 0 && eof < |wal| {
      if !MagicAt(wal, offset) {
        return None;
      }
      return Some((offset, []));
    }
    r := Some((eof, frames));
  }

  lemma EmptyRun(at: Reader, size: nat, pos: nat)
    requires Fair(at, size) && pos <= size
    ensures Run(at, size, pos) == [] ==> RunEnd(at, size, pos) == pos
  {
  }

  /** At a boundary of the log a catch-up never fails: it delivers the whole frames behind it. */
  lemma CatchUpOnLog(front: FrontReader, chunks: seq<Bytes>, k: nat, n: nat, log: Bytes, r: Option<(nat, seq<Frame>)>)
    requires Framing(front) && IsLog(front, chunks) && forall i | 0 <= i < |chunks| :: |chunks[i]| >= 2 && chunks[i][..2] == MAGIC
    requires k <= Whole(chunks, n) && n <= |Concat(chunks)|
    requires log == Concat(chunks)[..n] && Fair(ReaderBy(front, log), n) && Bound(chunks, k) <= n
    requires var at := ReaderBy(front, log);
      var run, end := Run(at, n, Bound(chunks, k)), RunEnd(at, n, Bound(chunks, k));
      if run == [] && end < n && !MagicAt(log, Bound(chunks, k)) then r.None? else r == Some((end, Bodies(run)))
    ensures var m := Whole(chunks, n); r == Some((Bound(chunks, m), Bodies(Parses(front, chunks[k..m]))))
  {
    var m := Whole(chunks, n);
    StrictOnLog(front, chunks, k, n, log);
    var rest := log[Bound(chunks, m)..];
    if m == k && rest != [] {
      var p := if |rest| < 2 then |rest| else 2;
      assert rest[..p] == chunks[m][..p] == MAGIC[..p];
      assert rest[..p] == log[Bound(chunks, k)..Bound(chunks, k) + p];
    }
  }

  ghost function Last(sizes: seq<nat>): nat
  {
    if sizes == [] then 0 else sizes[|sizes| - 1]
  }

  lemma PartsJoin(front: FrontReader, chunks: seq<Bytes>, k: nat, m: nat)
    requires IsLog(front, chunks) && k <= m <= |chunks|
    ensures Bodies(Parses(front, chunks[..k])) + Bodies(Parses(front, chunks[k..m])) == Bodies(Parses(front, chunks[..m]))
  {
  }

  /** One catch-up on the first `n` bytes of the log, from behind the first `k` frames. */
  method Step(front: FrontReader, ghost chunks: seq<Bytes>, file: Bytes, ghost k: nat, n: nat, offset: nat)
    returns (next: nat, frames: seq<Frame>)
    requires Framing(front) && IsLog(front, chunks)
    requires forall i | 0 <= i < |chunks| :: |chunks[i]| >= 2 && chunks[i][..2] == MAGIC
    requires file == Concat(chunks) && n <= |file| && k <= Whole(chunks, n) && offset == Bound(chunks, k) <= n
    requires Fair(ReaderBy(front, file[..n]), n)
    ensures next == Bound(chunks, Whole(chunks, n)) && frames == Bodies(Parses(front, chunks[k..Whole(chunks, n)]))
  {
    var r := CatchUpWal(ReaderBy(front, file[..n]), file[..n], offset);
    CatchUpOnLog(front, chunks, k, n, file[..n], r);
    next, frames := r.value.0, r.value.1;
  }

  /** Follow a log through any sizes it is seen at, each time from the last watermark. No catch-up fails, every
      watermark is a frame boundary, and all of them together deliver each whole frame of the last size once and
      in order. */
  method Follow(front: FrontReader, ghost chunks: seq<Bytes>, file: Bytes, sizes: seq<nat>)
    returns (offset: nat, frames: seq<Frame>)
    requires Framing(front) && IsLog(front, chunks) && file == Concat(chunks)
    requires forall i | 0 <= i < |chunks| :: |chunks[i]| >= 2 && chunks[i][..2] == MAGIC
    requires forall n: nat | n <= |file| :: Fair(ReaderBy(front, file[..n]), n)
    requires forall i | 0 <= i < |sizes| :: sizes[i] <= |file|
    requires forall i, j | 0 <= i < j < |sizes| :: sizes[i] <= sizes[j]
    ensures var m := Whole(chunks, Last(sizes));
      offset == Bound(chunks, m) && frames == Bodies(Parses(front, chunks[..m]))
  {
    offset, frames := 0, [];
    ghost var k := 0;
    NoBytes(chunks);
    for i := 0 to |sizes|
      invariant k == Whole(chunks, Last(sizes[..i])) && offset == Bound(chunks, k)
      invariant frames == Bodies(Parses(front, chunks[..k]))
    {
      var n := sizes[i];
      WholeBound(chunks, Last(sizes[..i]));
      WholeAtLeast(chunks, k, n);
      var more;
      offset, more := Step(front, chunks, file, k, n, offset);
      ghost var m := Whole(chunks, n);
      PartsJoin(front, chunks, k, m);
      frames := frames + more;
      k := m;
    }
    assert sizes[..|sizes|] == sizes;
  }

  lemma NoBytes(chunks: seq<Bytes>)
    requires forall i | 0 <= i < |chunks| :: chunks[i] != []
    ensures Whole(chunks, 0) == 0 && Bound(chunks, 0) == 0
  {
  }

  /** That is what one strict scan of the file from the start delivers. */
  lemma FollowIsOneScan(front: FrontReader, chunks: seq<Bytes>, n: nat, log: Bytes)
    requires Framing(front) && IsLog(front, chunks) && n <= |Concat(chunks)|
    requires log == Concat(chunks)[..n] && Fair(ReaderBy(front, log), n)
    ensures var m, at := Whole(chunks, n), ReaderBy(front, log);
      Bodies(Run(at, n, 0)) == Bodies(Parses(front, chunks[..m])) && RunEnd(at, n, 0) == Bound(chunks, m)
  {
    StrictOnLog(front, chunks, 0, n, log);
    assert chunks[0..Whole(chunks, n)] == chunks[..Whole(chunks, n)];
    assert chunks[..0] == [];
  }

  // ---- cutting off a corrupt tail ---------------------------------------------------------------

  /** The reader of a file cut at `cut`: frames that end beyond it are gone. */
  ghost predicate CutReader(at: Reader, short: Reader, cut: nat)
  {
    forall p: nat :: short(p) == if at(p).Some? && p + at(p).value.len <= cut then at(p) else None
  }

  /** Cutting a file where its corrupt tail starts leaves a file with the same frames and the same other corrupt
      ranges, and no corrupt tail. */
  lemma TruncationLosesNothing(at: Reader, size: nat, short: Reader, cut: nat)
    requires Fair(at, size) && CutReader(at, short, cut) && Fair(short, cut)
    requires var ps := Pieces(at, size, 0); ps != [] && ps[|ps| - 1].Bad? && cut == ps[|ps| - 1].start
    ensures var ps := Pieces(at, size, 0); Pieces(short, cut, 0) == ps[..|ps| - 1]
  {
    var ps := Pieces(at, size, 0);
    PiecesTile(at, size, 0);
    var init := ps[..|ps| - 1];
    EndsAscend(at, size, ps);
    forall i | 0 <= i < |init|
      ensures Sound(short, cut, init[i])
    {
      assert Sound(at, size, ps[i]);
    }
    TilesUnique(short, cut, init, 0);
  }

  lemma {:induction false} EndsAscend(at: Reader, size: nat, ps: seq<Piece>)
    requires ps != [] && Tiles(at, size, ps, ps[0].start)
    ensures forall i | 0 <= i < |ps| - 1 :: ps[i].end <= ps[|ps| - 1].start
    decreases |ps|
  {
    if |ps| > 1 {
      var tail := ps[1..];
      assert forall i | 0 <= i < |tail| :: tail[i] == ps[i + 1];
      EndsAscend(at, size, tail);
      assert Sound(at, size, ps[1]);
      forall i | 0 <= i < |ps| - 1
        ensures ps[i].end <= ps[|ps| - 1].start
      {
        if i > 0 {
          assert tail[i - 1] == ps[i];
        } else if |ps| > 2 {
          assert tail[0].end <= tail[|tail| - 1].start;
        }
      }
    }
  }

  /** In memory, cutting the buffer is cutting the reader. */
  lemma CutBuffer(buf: Bytes, cut: nat)
    requires cut <= |buf|
    ensures CutReader(ReaderOf(buf), ReaderOf(buf[..cut]), cut)
  {
    forall p: nat
      ensures ReaderOf(buf[..cut])(p)
           == if ReaderOf(buf)(p).Some? && p + ReaderOf(buf)(p).value.len <= cut then ReaderOf(buf)(p) else None
    {
      if p <= cut {
        assert buf[..cut][p..] == buf[p..][..cut - p];
        FrontCut(buf[p..], cut - p);
      }
    }
  }
}
