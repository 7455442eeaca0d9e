/** Cutting a file into frames and corrupt ranges: strict, and with resynchronisation to the next valid frame. */
module FrameScan {
  import opened Basics
  import opened Bytes
  import opened Crc
  import opened Codec

  /** What validates at a position of the file; one scan algorithm serves the in-memory and the file readers. */
  type Reader = nat -> Option<Parsed>

  /** A reader only reports non-empty frames that lie inside the file. */
  ghost predicate Fair(at: Reader, size: nat)
  {
    forall p: nat :: at(p).Some? ==> 0 < at(p).value.len && p + at(p).value.len <= size
  }

  datatype Piece = Good(start: nat, end: nat, frame: Frame) | Bad(start: nat, end: nat)

  ghost predicate Sound(at: Reader, size: nat, piece: Piece)
  {
    && piece.start < piece.end <= size
    && match piece
       case Good(start, end, frame) => at(start) == Some(Parsed(frame, end - start))
       case Bad(start, end) => forall p | start <= p < end :: at(p).None?
  }

  /** The pieces cover the file from `pos` on without gap or overlap; each frame is valid where it stands, no
      position inside a corrupt range starts a valid frame, and no two corrupt ranges touch. */
  ghost predicate Tiles(at: Reader, size: nat, ps: seq<Piece>, pos: nat)
  {
    && (if ps == [] then pos == size else ps[0].start == pos && ps[|ps| - 1].end == size)
    && (forall i | 0 <= i < |ps| :: Sound(at, size, ps[i]))
    && (forall i | 0 < i < |ps| :: ps[i - 1].end == ps[i].start && (ps[i - 1].Good? || ps[i].Good?))
  }

  /** The first position from `from` on that starts a valid frame, or the end. */
  ghost function NextFrame(at: Reader, size: nat, from: nat): (r: nat)
    requires from <= size
    ensures from <= r <= size && (r < size ==> at(r).Some?)
    ensures forall p | from <= p < r :: at(p).None?
    decreases size - from
  {
    if from == size || at(from).Some? then from else NextFrame(at, size, from + 1)
  }

  ghost function Pieces(at: Reader, size: nat, pos: nat): seq<Piece>
    requires pos <= size && Fair(at, size)
    decreases size - pos
  {
    if pos == size then []
    else
      match at(pos)
      case Some(p) => [Good(pos, pos + p.len, p.frame)] + Pieces(at, size, pos + p.len)
      case None =>
        var next := NextFrame(at, size, pos);
        [Bad(pos, next)] + Pieces(at, size, next)
  }

  lemma TilesCons(at: Reader, size: nat, first: Piece, rest: seq<Piece>)
    requires Sound(at, size, first) && Tiles(at, size, rest, first.end)
    requires rest != [] ==> first.Good? || rest[0].Good?
    ensures Tiles(at, size, [first] + rest, first.start)
  {
    var ps := [first] + rest;
    assert forall i | 0 < i < |ps| :: ps[i] == rest[i - 1];
  }

  lemma {:induction false} PiecesTile(at: Reader, size: nat, pos: nat)
    requires pos <= size && Fair(at, size)
    ensures Tiles(at, size, Pieces(at, size, pos), pos)
    ensures pos < size ==> Pieces(at, size, pos) != [] && (at(pos).Some? <==> Pieces(at, size, pos)[0].Good?)
    decreases size - pos
  {
    if pos < size {
      var first := if at(pos).Some? then Good(pos, pos + at(pos).value.len, at(pos).value.frame) else Bad(pos, NextFrame(at, size, pos));
      var rest := Pieces(at, size, first.end);
      PiecesTile(at, size, first.end);
      TilesCons(at, size, first, rest);
    }
  }

  lemma TilesTail(at: Reader, size: nat, ps: seq<Piece>)
    requires ps != [] && Tiles(at, size, ps, ps[0].start)
    ensures Sound(at, size, ps[0]) && Tiles(at, size, ps[1..], ps[0].end)
  {
    var rest := ps[1..];
    assert forall i | 0 <= i < |rest| :: rest[i] == ps[i + 1];
  }

  /** The pieces are the only such tiling. */
  lemma {:induction false} TilesUnique(at: Reader, size: nat, ps: seq<Piece>, pos: nat)
    requires pos <= size && Fair(at, size) && Tiles(at, size, ps, pos)
    ensures ps == Pieces(at, size, pos)
    decreases |ps|
  {
    if ps != [] {
      TilesTail(at, size, ps);
      if ps[0].Bad? {
        BadEndsAtNext(at, size, ps);
      }
      TilesUnique(at, size, ps[1..], ps[0].end);
      assert ps == [ps[0]] + ps[1..];
    }
  }

  lemma BadEndsAtNext(at: Reader, size: nat, ps: seq<Piece>)
    requires ps != [] && Tiles(at, size, ps, ps[0].start) && ps[0].Bad?
    ensures ps[0].start < size && ps[0].end == NextFrame(at, size, ps[0].start)
  {
    assert Sound(at, size, ps[0]);
    assert |ps| > 1 ==> Sound(at, size, ps[1]);
    NextIs(at, size, ps[0].start, ps[0].end);
  }

  lemma NextIs(at: Reader, size: nat, from: nat, r: nat)
    requires from <= r <= size && (r < size ==> at(r).Some?)
    requires forall p | from <= p < r :: at(p).None?
    ensures NextFrame(at, size, from) == r
  {
  }

  // ---- what comes out ---------------------------------------------------------------------------

  ghost function Frames(ps: seq<Piece>): seq<Frame>
  {
    if ps == [] then [] else (if ps[0].Good? then [ps[0].frame] else []) + Frames(ps[1..])
  }

  ghost function CorruptRanges(ps: seq<Piece>): seq<(nat, nat)>
  {
    if ps == [] then [] else (if ps[0].Bad? then [(ps[0].start, ps[0].end)] else []) + CorruptRanges(ps[1..])
  }

  /** Where the valid data ends. */
  ghost function EofOffset(size: nat, ps: seq<Piece>): nat
  {
    if ps != [] && ps[|ps| - 1].Bad? then ps[|ps| - 1].start else size
  }

  /** What scanning from `pos` on still yields. */
  datatype Yield = Yield(frames: seq<Frame>, corrupt: seq<(nat, nat)>, eof: nat)

  ghost function YieldOf(size: nat, ps: seq<Piece>): Yield
  {
    Yield(Frames(ps), CorruptRanges(ps), EofOffset(size, ps))
  }

  ghost predicate Yields(at: Reader, size: nat, pos: nat, y: Yield)
  {
    Fair(at, size) && pos <= size && YieldOf(size, Pieces(at, size, pos)) == y
  }

  lemma YieldsEnd(at: Reader, size: nat, y: Yield)
    requires Yields(at, size, size, y)
    ensures y == Yield([], [], size)
  {
  }

  lemma YieldsGood(at: Reader, size: nat, pos: nat, y: Yield) returns (rest: Yield)
    requires Yields(at, size, pos, y) && pos < size && at(pos).Some?
    ensures pos < pos + at(pos).value.len <= size && Yields(at, size, pos + at(pos).value.len, rest)
    ensures y == Yield([at(pos).value.frame] + rest.frames, rest.corrupt, rest.eof)
  {
    var ps, more := Pieces(at, size, pos), Pieces(at, size, pos + at(pos).value.len);
    assert ps[1..] == more;
    rest := YieldOf(size, more);
  }

  lemma YieldsBad(at: Reader, size: nat, pos: nat, y: Yield) returns (rest: Yield)
    requires Yields(at, size, pos, y) && pos < size && at(pos).None?
    ensures pos < NextFrame(at, size, pos) <= size && Yields(at, size, NextFrame(at, size, pos), rest)
    ensures y.frames == rest.frames && y.corrupt == [(pos, NextFrame(at, size, pos))] + rest.corrupt
    ensures y.eof == if NextFrame(at, size, pos) == size then pos else rest.eof
  {
    var next := NextFrame(at, size, pos);
    var ps, more := Pieces(at, size, pos), Pieces(at, size, next);
    assert ps[1..] == more;
    assert more != [] ==> ps[|ps| - 1] == more[|more| - 1];
    rest := YieldOf(size, more);
  }

  // ---- scanning ---------------------------------------------------------------------------------

  /** Scan forward for the next position with magic that validates. */
  method Resync(at: Reader, magic: nat -> bool, size: nat, bad: nat) returns (resume: Option<nat>)
    requires bad < size && at(bad).None?
    requires forall p: nat :: at(p).Some? ==> magic(p) && p + 1 < size
    ensures (if resume.Some? then resume.value else size) == NextFrame(at, size, bad)
    ensures resume.Some? ==> resume.value < size
  {
    var scan := bad + 1;
    while scan + 1 < size
      invariant bad < scan <= size && forall p | bad <= p < scan :: at(p).None?
    {
      while scan + 1 < size && !magic(scan)
        invariant bad < scan <= size && forall p | bad <= p < scan :: at(p).None?
      {
        scan := scan + 1;
      }
      if scan + 1 >= size {
        break;
      }
      if at(scan).Some? {
        NextIs(at, size, bad, scan);
        return Some(scan);
      }
      scan := scan + 1;
    }
    NextIs(at, size, bad, size);
    return None;
  }

  /** One corrupt range, and whether it reaches the end of the file. */
  method SkipBad(at: Reader, magic: nat -> bool, size: nat, pos: nat, ghost y: Yield)
    returns (end: nat, ghost rest: Yield)
    requires Yields(at, size, pos, y) && pos < size && at(pos).None?
    requires forall p: nat :: at(p).Some? ==> magic(p) && p + 1 < size
    ensures pos < end <= size && Yields(at, size, end, rest)
    ensures y.frames == rest.frames && y.corrupt == [(pos, end)] + rest.corrupt
    ensures y.eof == if end == size then pos else rest.eof
  {
    var resume := Resync(at, magic, size, pos);
    rest := YieldsBad(at, size, pos, y);
    end := if resume.Some? then resume.value else size;
  }

  /** What `y` was before its first piece was taken off. */
  ghost function Before(size: nat, first: Piece, rest: Yield): Yield
  {
    match first
    case Good(_, _, frame) => Yield([frame] + rest.frames, rest.corrupt, rest.eof)
    case Bad(start, end) => Yield(rest.frames, [(start, end)] + rest.corrupt, if end == size then start else rest.eof)
  }

  /** The piece at `pos`: a frame, or a corrupt range up to the next one. */
  method NextPiece(at: Reader, magic: nat -> bool, size: nat, pos: nat, ghost y: Yield)
    returns (piece: Piece, ghost rest: Yield)
    requires Yields(at, size, pos, y) && pos < size
    requires forall p: nat :: at(p).Some? ==> magic(p) && p + 1 < size
    ensures pos == piece.start < piece.end <= size && Yields(at, size, piece.end, rest) && y == Before(size, piece, rest)
  {
    var r := at(pos);
    if r.Some? {
      rest := YieldsGood(at, size, pos, y);
      piece := Good(pos, pos + r.value.len, r.value.frame);
    } else {
      var end;
      end, rest := SkipBad(at, magic, size, pos, y);
      piece := Bad(pos, end);
    }
  }

  /** Scan the whole file, resynchronising behind corruption. */
  method Scan(at: Reader, magic: nat -> bool, size: nat)
    returns (frames: seq<Frame>, corrupt: seq<(nat, nat)>, eof: nat)
    requires Fair(at, size) && forall p: nat :: at(p).Some? ==> magic(p) && p + 1 < size
    ensures Yield(frames, corrupt, eof) == YieldOf(size, Pieces(at, size, 0))
  {
    frames, corrupt := [], [];
    var pos := 0;
    ghost var all := YieldOf(size, Pieces(at, size, 0));
    ghost var rest := all;
    while pos < size
      invariant pos <= size && Yields(at, size, pos, rest)
      invariant frames + rest.frames == all.frames && corrupt + rest.corrupt == all.corrupt && rest.eof == all.eof
    {
      var piece;
      piece, rest := NextPiece(at, magic, size, pos, rest);
      match piece
      case Good(_, end, frame) =>
        frames := frames + [frame];
        pos := end;
      case Bad(start, end) =>
        corrupt := corrupt + [(start, end)];
        if end == size {
          break;
        }
        pos := end;
    }
    YieldsEnd(at, size, rest);
    eof := pos;
  }

  /** The run of whole valid frames from `pos` on, and where it ends. */
  ghost function Run(at: Reader, size: nat, pos: nat): seq<Parsed>
    requires pos <= size && Fair(at, size)
    decreases size - pos
  {
    if at(pos).Some? then [at(pos).value] + Run(at, size, pos + at(pos).value.len) else []
  }

  ghost function RunEnd(at: Reader, size: nat, pos: nat): (end: nat)
    requires pos <= size && Fair(at, size)
    ensures pos <= end <= size && at(end).None?
    decreases size - pos
  {
    if at(pos).Some? then RunEnd(at, size, pos + at(pos).value.len) else pos
  }

  ghost function Bodies(run: seq<Parsed>): (fs: seq<Frame>)
    ensures |fs| == |run| && forall i | 0 <= i < |run| :: fs[i] == run[i].frame
  {
    seq(|run|, i requires 0 <= i < |run| => run[i].frame)
  }

  ghost predicate RunsTo(at: Reader, size: nat, pos: nat, run: seq<Parsed>, end: nat)
  {
    Fair(at, size) && pos <= size && Run(at, size, pos) == run && RunEnd(at, size, pos) == end
  }

  lemma RunsOn(at: Reader, size: nat, pos: nat, run: seq<Parsed>, end: nat)
    requires RunsTo(at, size, pos, run, end)
    ensures at(pos).None? ==> run == [] && end == pos
    ensures at(pos).Some? ==>
              && pos < size && run != [] && run[0] == at(pos).value
              && RunsTo(at, size, pos + at(pos).value.len, run[1..], end)
  {
  }

  /** Strict scan from a frame boundary: everything from the first bad frame on is lost. */
  method ScanStrict(at: Reader, size: nat, start: nat) returns (frames: seq<Frame>, corrupt: seq<(nat, nat)>, eof: nat)
    requires Fair(at, size) && start <= size
    ensures frames == Bodies(Run(at, size, start)) && eof == RunEnd(at, size, start)
    ensures corrupt == if eof < size then [(eof, size)] else []
  {
    frames, corrupt := [], [];
    var pos := start;
    ghost var all, end := Run(at, size, start), RunEnd(at, size, start);
    ghost var n := 0;
    while pos < size
      invariant pos <= size && n <= |all| && RunsTo(at, size, pos, all[n..], end)
      invariant frames == Bodies(all)[..n]
    {
      RunsOn(at, size, pos, all[n..], end);
      var r := at(pos);
      if r.None? {
        return frames, [(pos, size)], pos;
      }
      frames := frames + [r.value.frame];
      n := n + 1;
      pos := pos + r.value.len;
    }
    RunsOn(at, size, pos, all[n..], end);
    eof := pos;
  }

  // ---- files made of frames ---------------------------------------------------------------------

  /** The frames of `run` stand one after the other from `pos` on. */
  ghost predicate Lays(at: Reader, pos: nat, run: seq<Parsed>)
    decreases |run|
  {
    run == [] || (at(pos) == Some(run[0]) && Lays(at, pos + run[0].len, run[1..]))
  }

  ghost function Span(run: seq<Parsed>): nat
  {
    if run == [] then 0 else run[0].len + Span(run[1..])
  }

  /** Frames that stand in a row are all part of the strict run, which goes on behind them. */
  lemma {:induction false} RunThrough(at: Reader, size: nat, pos: nat, run: seq<Parsed>, all: seq<Parsed>, end: nat)
    requires RunsTo(at, size, pos, all, end) && Lays(at, pos, run)
    ensures run <= all && RunsTo(at, size, pos + Span(run), all[|run|..], end)
    decreases |run|
  {
    if run != [] {
      RunsOn(at, size, pos, all, end);
      RunThrough(at, size, pos + run[0].len, run[1..], all[1..], end);
      assert all[1..][|run| - 1..] == all[|run|..];
      assert run == [run[0]] + run[1..] && all == [all[0]] + all[1..];
    }
  }

  /** They are all found by the resynchronising scan, too, which goes on behind them. */
  lemma {:induction false} ScanThrough(at: Reader, size: nat, pos: nat, run: seq<Parsed>) returns (more: Yield)
    requires Fair(at, size) && pos <= size && Lays(at, pos, run)
    ensures pos + Span(run) <= size && Yields(at, size, pos + Span(run), more)
    ensures Yields(at, size, pos, Yield(Bodies(run) + more.frames, more.corrupt, more.eof))
    decreases |run|
  {
    if run == [] {
      more := YieldOf(size, Pieces(at, size, pos));
    } else {
      var rest := YieldsGood(at, size, pos, YieldOf(size, Pieces(at, size, pos)));
      more := ScanThrough(at, size, pos + run[0].len, run[1..]);
      assert Bodies(run) + more.frames == [run[0].frame] + (Bodies(run[1..]) + more.frames);
    }
  }

  /** Behind junk that starts no valid frame, resynchronisation finds the next frame and everything after it. */
  lemma ResyncRecovers(at: Reader, size: nat, bad: nat, good: nat, run: seq<Parsed>) returns (more: Yield)
    requires Fair(at, size) && bad < good <= size && run != [] && Lays(at, good, run)
    requires forall p | bad <= p < good :: at(p).None?
    ensures good + Span(run) <= size && Yields(at, size, good + Span(run), more)
    ensures Yields(at, size, bad, Yield(Bodies(run) + more.frames, [(bad, good)] + more.corrupt, more.eof))
  {
    more := ScanThrough(at, size, good, run);
    NextIs(at, size, bad, good);
    var rest := YieldsBad(at, size, bad, YieldOf(size, Pieces(at, size, bad)));
  }

  /** The reader of a buffer, given what validates at the front of its rest. */
  function ReaderBy(front: Bytes -> Option<Parsed>, buf: Bytes): Reader
  {
    (p: nat) => if p <= |buf| then front(buf[p..]) else None
  }

  /** The reader of a buffer in memory: `FrameAt` at every position. */
  function ReaderOf(buf: Bytes): (at: Reader)
    ensures forall p: nat | p <= |buf| :: at(p) == FrameAt(buf, p)
  {
    ReaderBy(Front, buf)
  }

  function MagicOf(buf: Bytes): nat -> bool
  {
    (p: nat) => p + 1 < |buf| && buf[p] == MAGIC[0] && buf[p + 1] == MAGIC[1]
  }

  lemma ReaderFair(buf: Bytes)
    ensures Fair(ReaderOf(buf), |buf|)
    ensures forall p: nat :: ReaderOf(buf)(p).Some? ==> MagicOf(buf)(p) && p + 1 < |buf|
  {
  }

  method ParseBuffer(buf: Bytes) returns (frames: seq<Frame>, corrupt: seq<(nat, nat)>, eof: nat)
    ensures Fair(ReaderOf(buf), |buf|)
    ensures Yield(frames, corrupt, eof) == YieldOf(|buf|, Pieces(ReaderOf(buf), |buf|, 0))
  {
    ReaderFair(buf);
    frames, corrupt, eof := Scan(ReaderOf(buf), MagicOf(buf), |buf|);
  }

  // ---- logs -------------------------------------------------------------------------------------

  /** What validates at the front of some bytes. */
  type FrontReader = Bytes -> Option<Parsed>

  /** The bytes of exactly one frame. */
  predicate OneFrame(front: FrontReader, b: Bytes)
  {
    b != [] && front(b).Some? && front(b).value.len == |b|
  }

  ghost predicate Stands(front: FrontReader, b: Bytes, more: Bytes)
  {
    front(b + more) == front(b)
  }

  ghost predicate Torn(front: FrontReader, b: Bytes, keep: nat)
    requires keep <= |b|
  {
    front(b[..keep]).None?
  }

  /** A frame is recognised whatever follows it, and not before all of it is there. */
  ghost predicate Framing(front: FrontReader)
  {
    && (forall b, more {:trigger Stands(front, b, more)} | OneFrame(front, b) :: Stands(front, b, more))
    && (forall b, keep: nat {:trigger Torn(front, b, keep)} | OneFrame(front, b) && keep < |b| :: Torn(front, b, keep))
  }

  lemma FrontFraming()
    ensures Framing(Front)
  {
    forall b, more | OneFrame(Front, b)
      ensures Stands(Front, b, more)
    {
      FrontExtends(b, more);
    }
    forall b, keep: nat | OneFrame(Front, b) && keep < |b|
      ensures Torn(Front, b, keep)
    {
      PrefixNoFrame(b, keep);
    }
  }

  /** A proper prefix of a frame is no frame: its header, once there, asks for all of it. */
  lemma PrefixNoFrame(b: Bytes, keep: nat)
    requires OneFrame(Front, b) && keep < |b|
    ensures Front(b[..keep]).None?
  {
    var c := b[..keep];
    if |c| >= HEADER_SIZE {
      assert c[4..6] == b[4..6] && c[6..10] == b[6..10] && c[10..14] == b[10..14];
      assert LayoutOf(c) == LayoutOf(b);
    }
  }

  /** A log: encoded frames one after the other. */
  ghost predicate IsLog(front: FrontReader, chunks: seq<Bytes>)
  {
    forall i | 0 <= i < |chunks| :: OneFrame(front, chunks[i])
  }

  ghost function Parses(front: FrontReader, chunks: seq<Bytes>): (run: seq<Parsed>)
    requires IsLog(front, chunks)
    ensures |run| == |chunks| && forall i | 0 <= i < |chunks| :: Some(run[i]) == front(chunks[i])
  {
    seq(|chunks|, i requires 0 <= i < |chunks| => front(chunks[i]).value)
  }

  lemma LaysCons(at: Reader, pos: nat, run: seq<Parsed>, rest: seq<Parsed>)
    requires run != [] && at(pos) == Some(run[0]) && Lays(at, pos + run[0].len, rest) && |run| == |rest| + 1
    requires forall i | 0 <= i < |rest| :: run[i + 1] == rest[i]
    ensures Lays(at, pos, run) && Span(run) == run[0].len + Span(rest)
  {
    assert run[1..] == rest;
  }

  /** Frames that stand in a buffer one after the other. */
  lemma {:induction false} ChunksLay(front: FrontReader, buf: Bytes, pos: nat, chunks: seq<Bytes>, rest: Bytes)
    requires Framing(front) && IsLog(front, chunks) && pos <= |buf| && buf[pos..] == Concat(chunks) + rest
    ensures Lays(ReaderBy(front, buf), pos, Parses(front, chunks)) && Span(Parses(front, chunks)) == |Concat(chunks)|
    decreases |chunks|
  {
    if chunks != [] {
      var tail := Concat(chunks[1..]) + rest;
      assert buf[pos..] == chunks[0] + tail;
      assert Stands(front, chunks[0], tail);
      assert buf[pos + |chunks[0]|..] == buf[pos..][|chunks[0]|..] == tail;
      ChunksLay(front, buf, pos + |chunks[0]|, chunks[1..], rest);
      LaysCons(ReaderBy(front, buf), pos, Parses(front, chunks), Parses(front, chunks[1..]));
    }
  }

  /** Frames in a row with nothing valid behind them are the whole strict run. */
  lemma RunExactly(at: Reader, size: nat, from: nat, run: seq<Parsed>, to: nat)
    requires Fair(at, size) && from <= size && Lays(at, from, run) && to == from + Span(run) && at(to).None?
    ensures RunsTo(at, size, from, run, to)
  {
    var all, end := Run(at, size, from), RunEnd(at, size, from);
    RunThrough(at, size, from, run, all, end);
    RunsOn(at, size, to, all[|run|..], end);
    assert all == run + all[|run|..];
  }

  // ---- round trip of whole files ----------------------------------------------------------------

  ghost predicate AllFit(fs: seq<FrameInput>)
  {
    forall i | 0 <= i < |fs| :: Fits(fs[i])
  }

  /** The frames' encodings. */
  ghost function Chunks(fs: seq<FrameInput>): (c: seq<Bytes>)
    requires AllFit(fs)
    ensures |c| == |fs| && forall i | 0 <= i < |fs| :: c[i] == FrameBytes(fs[i])
  {
    seq(|fs|, i requires 0 <= i < |fs| => FrameBytes(fs[i]))
  }

  ghost function SeenAll(fs: seq<FrameInput>): (r: seq<Frame>)
    ensures |r| == |fs| && forall i | 0 <= i < |fs| :: r[i] == Seen(fs[i])
  {
    seq(|fs|, i requires 0 <= i < |fs| => Seen(fs[i]))
  }

  lemma ChunksAreFrames(fs: seq<FrameInput>)
    requires AllFit(fs)
    ensures IsLog(Front, Chunks(fs)) && Bodies(Parses(Front, Chunks(fs))) == SeenAll(fs)
  {
    forall i | 0 <= i < |fs|
      ensures OneFrame(Front, Chunks(fs)[i]) && Front(Chunks(fs)[i]).value.frame == Seen(fs[i])
    {
      OneFrameBytes(fs[i]);
    }
  }

  lemma OneFrameBytes(f: FrameInput)
    requires Fits(f)
    ensures OneFrame(Front, FrameBytes(f)) && Front(FrameBytes(f)).value.frame == Seen(f)
  {
    FrontOfFrame(f, []);
    assert FrameBytes(f) + [] == FrameBytes(f);
  }

  /** The concatenation of encoded frames parses back to exactly those frames, with nothing corrupt. */
  lemma EncodedParsesBack(fs: seq<FrameInput>)
    requires AllFit(fs)
    ensures var buf := Concat(Chunks(fs));
      && Fair(ReaderOf(buf), |buf|)
      && YieldOf(|buf|, Pieces(ReaderOf(buf), |buf|, 0)) == Yield(SeenAll(fs), [], |buf|)
  {
    var buf := Concat(Chunks(fs));
    ReaderFair(buf);
    FrontFraming();
    ChunksAreFrames(fs);
    assert buf[0..] == Concat(Chunks(fs)) + [];
    ChunksLay(Front, buf, 0, Chunks(fs), []);
    ScanAll(ReaderOf(buf), |buf|, Parses(Front, Chunks(fs)));
  }

  lemma ScanAll(at: Reader, size: nat, run: seq<Parsed>)
    requires Fair(at, size) && Lays(at, 0, run) && Span(run) == size
    ensures YieldOf(size, Pieces(at, size, 0)) == Yield(Bodies(run), [], size)
  {
    var more := ScanThrough(at, size, 0, run);
    YieldsEnd(at, size, more);
  }
}
