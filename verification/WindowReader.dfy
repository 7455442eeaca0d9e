/** The windowed scanner on the bytes: parsing inside the window, searching it for magic, and the two scans. */
module WindowReader {
  import opened Basics
  import opened Bytes
  import opened Codec
  import opened FrameScan
  import opened WindowScan

  const ASYNC_SCAN_WINDOW: nat := 0x40_0000
  const DEFAULT_RESYNC_CANDIDATE_BUDGET: nat := 65536

  /** What must be in the window to decide about position `p`: a header, and the whole frame if the header announces
      one that fits the file. */
  function NeedAt(b: Bytes, p: nat): (n: nat)
    ensures n >= HEADER_SIZE
  {
    if p + HEADER_SIZE > |b| || !MagicOf(b)(p) then HEADER_SIZE
    else
      var len := LayoutOf(b[p..]).metaEnd + CRC_SIZE;
      if p + len > |b| then HEADER_SIZE else len
  }

  /** The first magic from `from` on that lies before `end` with both bytes, or `end`. */
  function NextMagic(magic: nat -> bool, from: nat, end: nat): (m: nat)
    ensures from <= end ==> from <= m <= end && (m < end ==> magic(m) && m + 1 < end)
    ensures (forall p: nat | from <= p < m && p + 1 < end :: !magic(p))
    decreases end - from
  {
    if from + 1 >= end then end else if magic(from) then from else NextMagic(magic, from + 1, end)
  }

  function SourceOf(b: Bytes, cap: nat, budget: nat): Source
  {
    Source(ReaderOf(b), MagicOf(b), (from: nat, end: nat) => NextMagic(MagicOf(b), from, end), (p: nat) => NeedAt(b, p), |b|, cap, budget)
  }

  lemma SourceSane(b: Bytes, cap: nat, budget: nat)
    requires cap > 0
    ensures Sane(SourceOf(b, cap, budget))
  {
    ReaderFair(b);
    var s := SourceOf(b, cap, budget);
    forall from: nat, end: nat | from <= end
      ensures Searches(s, from, end)
    {
      var m := NextMagic(MagicOf(b), from, end);
      assert s.search(from, end) == m;
      forall p: nat | from <= p < m && p + 1 < end
        ensures s.at(p).None?
      {
        assert !MagicOf(b)(p);
      }
    }
  }

  /** The search of the window for the two bytes. */
  method FindMagic(file: Bytes, from: nat, end: nat) returns (m: nat)
    requires from <= end <= |file|
    ensures m == NextMagic(MagicOf(file), from, end)
  {
    m := from;
    while m + 1 < end
      invariant from <= m <= end && NextMagic(MagicOf(file), m, end) == NextMagic(MagicOf(file), from, end)
    {
      if file[m] == MAGIC[0] && file[m + 1] == MAGIC[1] {
        return;
      }
      m := m + 1;
    }
    m := end;
  }

  // ---- one frame --------------------------------------------------------------------------------

  /** The verdict on a position, or that the frame reaches beyond the window. */
  datatype Attempt = Done(frame: Option<Parsed>) | Beyond

  /** Parse with what the window holds from the position on. */
  method ParseInWindow(rest: Bytes, left: nat, ghost b: Bytes) returns (r: Attempt)
    requires |rest| <= left == |b| && rest == b[..|rest|] && (|rest| < HEADER_SIZE ==> left < HEADER_SIZE)
    ensures r.Beyond? <==> |rest| >= HEADER_SIZE && NeedAt(b, 0) > |rest|
    ensures r.Done? ==> r.frame == Front(b)
  {
    if |rest| < HEADER_SIZE {
      return Done(None);
    }
    assert b[0..] == b && rest[0] == b[0] && rest[1] == b[1];
    if rest[0] != MAGIC[0] || rest[1] != MAGIC[1] {
      return Done(None);
    }
    HeaderThere(b, rest);
    var len := LayoutOf(rest).metaEnd + CRC_SIZE;
    if left < len {
      return Done(None);
    }
    if |rest| < len {
      return Beyond;
    }
    FrontCut(b, |rest|);
    FrontLen(b);
    r := Done(Front(rest));
  }

  lemma HeaderThere(b: Bytes, rest: Bytes)
    requires HEADER_SIZE <= |rest| <= |b| && rest == b[..|rest|]
    ensures LayoutOf(rest) == LayoutOf(b)
  {
    assert rest[4..6] == b[4..6] && rest[6..10] == b[6..10] && rest[10..14] == b[10..14];
  }

  lemma FrontLen(b: Bytes)
    ensures Front(b).Some? ==> Front(b).value.len == LayoutOf(b).metaEnd + CRC_SIZE
  {
  }

  lemma NeedShift(b: Bytes, p: nat)
    requires p <= |b|
    ensures NeedAt(b, p) == NeedAt(b[p..], 0)
  {
    assert b[p..][0..] == b[p..];
  }

  /** The window starts empty, and from then on holds as much as it can. */
  predicate Filled(s: Source, w: Window)
  {
    w.start <= w.end <= s.size && (w.start == w.end || w == Fill(s, w.start))
  }

  /** Try one position: in the window, in a window refilled from there, or by reading just this frame. */
  method TryFrame(file: Bytes, ghost s: Source, w: Window, cap: nat, pos: nat) returns (r: Option<Parsed>, v: Window)
    requires HEADER_SIZE <= cap && s == SourceOf(file, cap, s.budget) && pos <= |file| && Filled(s, w)
    ensures r == FrameAt(file, pos) && v == AfterTry(s, w, pos) && Filled(s, v)
  {
    v := w;
    NeedShift(file, pos);
    if pos < v.start || pos + HEADER_SIZE > v.end {
      v := Window(pos, if pos + cap < |file| then pos + cap else |file|);
    }
    assert file[pos..v.end] == file[pos..][..v.end - pos];
    var a := ParseInWindow(file[pos..v.end], |file| - pos, file[pos..]);
    if a.Beyond? && pos > v.start {
      v := Window(pos, if pos + cap < |file| then pos + cap else |file|);
      assert file[pos..v.end] == file[pos..][..v.end - pos];
      a := ParseInWindow(file[pos..v.end], |file| - pos, file[pos..]);
    }
    r := if a.Done? then a.frame else FrameAt(file, pos);
  }

  // ---- the scans of a file ----------------------------------------------------------------------

  ghost function WindowYield(b: Bytes, cap: nat, budget: nat): Yield
    requires cap > 0
  {
    SourceSane(b, cap, budget);
    YieldOf(|b|, WindowPieces(SourceOf(b, cap, budget), Window(0, 0), 0, 0))
  }

  method ScanWindowed(file: Bytes, cap: nat, budget: nat) returns (frames: seq<Frame>, corrupt: seq<(nat, nat)>, eof: nat)
    requires HEADER_SIZE <= cap
    ensures Yield(frames, corrupt, eof) == WindowYield(file, cap, budget) && EndsAt(corrupt, eof, |file|)
  {
    SourceSane(file, cap, budget);
    ScanEnds(SourceOf(file, cap, budget), Window(0, 0), 0, 0);
    frames, corrupt, eof := ScanThroughWindow(SourceOf(file, cap, budget));
  }

  // ---- the frame at the edge --------------------------------------------------------------------

  /** A frame right behind `cap - 1` bytes that hold nothing like a magic, and no frame inside the frame. */
  ghost predicate AtEdge(junk: Bytes, f: FrameInput, cap: nat)
  {
    && |junk| == cap - 1 && HEADER_SIZE <= cap && Fits(f)
    && (forall i | 0 <= i < |junk| :: junk[i] != MAGIC[0])
    && forall i | 0 < i < |FrameBytes(f)| :: Front(FrameBytes(f)[i..]).None?
  }

  lemma EdgeReads(junk: Bytes, f: FrameInput, cap: nat)
    requires AtEdge(junk, f, cap)
    ensures var at := ReaderOf(junk + FrameBytes(f));
      && at(cap - 1) == Some(Parsed(Seen(f), |FrameBytes(f)|))
      && forall p: nat | p != cap - 1 :: at(p).None?
  {
    var b := junk + FrameBytes(f);
    OneFrameBytes(f);
    assert b[cap - 1..] == FrameBytes(f);
    forall p: nat | p != cap - 1
      ensures ReaderOf(b)(p).None?
    {
      if p < cap - 1 {
        assert b[p] == junk[p];
      } else if p < |b| {
        assert b[p..] == FrameBytes(f)[p - (cap - 1)..];
      }
    }
  }

  lemma EdgeSource(junk: Bytes, f: FrameInput, cap: nat, budget: nat)
    requires AtEdge(junk, f, cap)
    ensures var s := SourceOf(junk + FrameBytes(f), cap, budget);
      && s.size > cap && s.need(0) == HEADER_SIZE && s.search(1, cap) == cap && s.search(cap - 1, cap) == cap
  {
    var b := junk + FrameBytes(f);
    OneFrameBytes(f);
    assert |b| >= cap - 1 + HEADER_SIZE + CRC_SIZE;
    assert b[0] == junk[0] != MAGIC[0] && !MagicOf(b)(0);
    forall p: nat | p + 1 < cap
      ensures !MagicOf(b)(p)
    {
      assert b[p] == junk[p];
    }
  }

  /** The failing input: scanning every position finds the frame, the windowed scan declares the whole file corrupt,
      whatever the window and the budget. */
  lemma EdgeFrameLost(junk: Bytes, f: FrameInput, cap: nat, budget: nat)
    requires AtEdge(junk, f, cap)
    ensures var b := junk + FrameBytes(f);
      && Fair(ReaderOf(b), |b|)
      && YieldOf(|b|, Pieces(ReaderOf(b), |b|, 0)).frames == [Seen(f)]
      && WindowYield(b, cap, budget) == Yield([], [(0, |b|)], 0)
  {
    var b := junk + FrameBytes(f);
    SourceSane(b, cap, budget);
    EdgeReads(junk, f, cap);
    EdgeSource(junk, f, cap, budget);
    EdgeLost(SourceOf(b, cap, budget));
  }

  /** The same for any reader of such a file. */
  lemma EdgeLost(s: Source)
    requires Sane(s) && 4 <= s.cap < s.size && 0 < s.need(0) <= s.cap
    requires s.search(1, s.cap) == s.cap && s.search(s.cap - 1, s.cap) == s.cap
    requires var n := s.cap - 1;
      s.at(n).Some? && n + s.at(n).value.len == s.size && forall p: nat | p != n :: s.at(p).None?
    ensures Frames(Pieces(s.at, s.size, 0)) == [s.at(s.cap - 1).value.frame]
    ensures YieldOf(s.size, WindowPieces(s, Window(0, 0), 0, 0)) == Yield([], [(0, s.size)], 0)
  {
    NextIs(s.at, s.size, s.cap, s.size);
    EdgeMissed(s);
    EdgePieces(s.at, s.size, s.cap - 1);
    YieldCons(s.size, Bad(0, s.size), []);
    assert [Bad(0, s.size)] + [] == [Bad(0, s.size)];
  }

  lemma EdgePieces(at: Reader, size: nat, n: nat)
    requires Fair(at, size) && 0 < n < size && at(n).Some? && n + at(n).value.len == size
    requires forall p: nat | p != n :: at(p).None?
    ensures Frames(Pieces(at, size, 0)) == [at(n).value.frame]
  {
    NextIs(at, size, 0, n);
    var good := Good(n, size, at(n).value.frame);
    assert Pieces(at, size, n) == [good] + [];
    assert Pieces(at, size, 0) == [Bad(0, n)] + Pieces(at, size, n) == [Bad(0, n), good];
    assert [Bad(0, n), good][1..] == [good] && [good][1..] == [];
    assert Frames([good]) == [good.frame];
  }

  /** There are such inputs for every window: an empty record behind zeroes. */
  lemma EdgeExists(cap: nat) returns (junk: Bytes, f: FrameInput)
    requires HEADER_SIZE <= cap
    ensures AtEdge(junk, f, cap) && f.kind == TYPE_SET
  {
    junk := seq(cap - 1, _ => 0);
    f := FrameInput(TYPE_SET, [], Some([]), None, 0);
    assert |FrameBytes(f)| == HEADER_SIZE + CRC_SIZE;
    forall i | 0 < i < |FrameBytes(f)|
      ensures Front(FrameBytes(f)[i..]).None?
    {
      assert |FrameBytes(f)[i..]| < HEADER_SIZE + CRC_SIZE;
    }
  }
}
