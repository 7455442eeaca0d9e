/** The sequential scanner that recovery uses: a bounded read window that moves forward, a budget of candidates, and
    exactly when it finds what scanning every position would find. */
module WindowScan {
  import opened Basics
  import opened Bytes
  import opened Codec
  import opened FrameScan

  /** A file as the scanner sees it: what validates at a position, where magic stands, where a stretch has its first
      one, how many bytes from a position on must be in the window to parse there, the window's capacity and the
      candidate budget. */
  datatype Source = Source(at: Reader, magic: nat -> bool, search: (nat, nat) -> nat, need: nat -> nat, size: nat,
                           cap: nat, budget: nat)

  datatype Window = Window(start: nat, end: nat)

  /** A search answers with a position that has both bytes of its magic before `end`, or with `end`, and passes over
      no frame that has both bytes of its magic before `end`. */
  ghost predicate Searches(s: Source, from: nat, end: nat)
  {
    var m := s.search(from, end);
    && from <= m <= end && (m < end ==> m + 1 < end && s.magic(m))
    && forall p: nat | from <= p < m && p + 1 < end :: s.at(p).None?
  }

  ghost predicate Sane(s: Source)
  {
    && Fair(s.at, s.size) && s.cap > 0 && (forall p: nat :: s.at(p).Some? ==> s.magic(p) && p + 1 < s.size)
    && forall from: nat, end: nat {:trigger s.search(from, end)} | from <= end :: Searches(s, from, end)
  }

  /** The window filled from `p` on. */
  function Fill(s: Source, p: nat): Window
    requires p <= s.size
  {
    Window(p, if p + s.cap < s.size then p + s.cap else s.size)
  }

  /** The window once a frame has been tried at `p`. */
  function AfterTry(s: Source, w: Window, p: nat): (v: Window)
    requires p <= s.size && w.end <= s.size
    ensures v.end <= s.size
  {
    if p < w.start || p + s.need(p) > w.end then Fill(s, p) else w
  }

  /** The window the search for magic at `p` looks through. */
  function Covering(s: Source, w: Window, p: nat): (v: Window)
    requires p < s.size && s.cap > 0 && w.end <= s.size
    ensures v.start <= p < v.end <= s.size
  {
    if p < w.start || p >= w.end then Fill(s, p) else w
  }

  /** Where a search without a hit in the window goes on: on the window's last byte, if it is not there yet. */
  function Hop(v: Window, scan: nat): (next: nat)
    requires scan < v.end
    ensures scan < next <= v.end
  {
    if v.end - 1 > scan + 1 then v.end - 1 else scan + 1
  }

  // ---- one resynchronisation --------------------------------------------------------------------

  /** How a resynchronisation ends: the frame found, the window and the candidates tried so far. */
  datatype Hunted = Hunted(resume: Option<nat>, w: Window, tried: nat)

  ghost function Hunt(s: Source, w: Window, tried: nat, scan: nat): (h: Hunted)
    requires Sane(s) && scan <= s.size && w.end <= s.size
    ensures h.resume.Some? ==> scan <= h.resume.value && h.resume.value + 1 < s.size && s.at(h.resume.value).Some?
    ensures h.w.end <= s.size
    decreases s.size - scan
  {
    if scan + 1 >= s.size then Hunted(None, w, tried)
    else
      var v := Covering(s, w, scan);
      var m := s.search(scan, v.end);
      if m == v.end then
        if v.end == s.size then Hunted(None, v, tried) else Hunt(s, v, tried, Hop(v, scan))
      else if tried >= s.budget then Hunted(None, v, tried + 1)
      else
        var u := AfterTry(s, v, m);
        if s.at(m).Some? then Hunted(Some(m), u, tried + 1) else Hunt(s, u, tried + 1, m + 1)
  }

  /** The window and the candidate count with which a hunt from `scan` reaches position `n`, if nothing in between
      validates. */
  ghost function Trail(s: Source, w: Window, tried: nat, scan: nat, n: nat): (r: (Window, nat))
    requires Sane(s) && scan <= n < s.size && w.end <= s.size
    ensures r.0.end <= s.size && r.0.start <= n < r.0.end
    decreases n - scan
  {
    var v := Covering(s, w, scan);
    if scan == n then (v, tried)
    else
      var m := s.search(scan, v.end);
      if m == v.end then
        if Hop(v, scan) <= n then Trail(s, v, tried, Hop(v, scan), n) else (Covering(s, v, n), tried)
      else if m >= n then (Covering(s, v, n), tried)
      else if tried >= s.budget then (Covering(s, v, n), tried)
      else Trail(s, AfterTry(s, v, m), tried + 1, m + 1, n)
  }

  /** The hunt tries position `n`: candidates are left, and the window does not end between the two bytes of its
      magic. */
  predicate Tries(s: Source, r: (Window, nat), n: nat)
  {
    r.1 < s.budget && r.0.end != n + 1
  }

  /** A hunt resumes at the next valid frame `n` exactly if it tries that position; otherwise it resumes further on
      or not at all. */
  predicate Resumes(s: Source, h: Hunted, r: (Window, nat), n: nat)
    requires n < s.size && r.0.end <= s.size
  {
    if Tries(s, r, n) then h == Hunted(Some(n), AfterTry(s, r.0, n), r.1 + 1) else h.resume != Some(n)
  }

  /** From `scan` on, `n` is the first position where a frame validates. */
  ghost predicate NextValid(s: Source, scan: nat, n: nat)
  {
    scan <= n < s.size && s.at(n).Some? && forall p | scan <= p < n :: s.at(p).None?
  }

  lemma {:induction false} HuntExact(s: Source, w: Window, tried: nat, scan: nat, n: nat) returns (h: Hunted, r: (Window, nat))
    requires Sane(s) && scan <= s.size && w.end <= s.size && NextValid(s, scan, n)
    ensures h == Hunt(s, w, tried, scan) && r == Trail(s, w, tried, scan, n) && Resumes(s, h, r, n)
    decreases s.size - scan
  {
    h, r := Hunt(s, w, tried, scan), Trail(s, w, tried, scan, n);
    if Stops(s, w, tried, scan) {
      StopsRight(s, w, tried, scan, n);
    } else {
      var v := Covering(s, w, scan);
      var m := s.search(scan, v.end);
      if m == v.end {
        HopsOn(s, w, tried, scan, n);
        if n >= Hop(v, scan) {
          h, r := HuntExact(s, v, tried, Hop(v, scan), n);
        }
      } else {
        GoesOn(s, w, tried, scan, n);
        h, r := HuntExact(s, AfterTry(s, v, m), tried + 1, m + 1, n);
      }
    }
  }

  /** This round of the hunt is its last. */
  ghost predicate Stops(s: Source, w: Window, tried: nat, scan: nat)
    requires Sane(s) && scan <= s.size && w.end <= s.size
  {
    scan + 1 >= s.size ||
    var v := Covering(s, w, scan);
    var m := s.search(scan, v.end);
    if m == v.end then v.end == s.size else tried >= s.budget || s.at(m).Some?
  }

  lemma StopsRight(s: Source, w: Window, tried: nat, scan: nat, n: nat)
    requires Sane(s) && w.end <= s.size && NextValid(s, scan, n) && Stops(s, w, tried, scan)
    ensures Resumes(s, Hunt(s, w, tried, scan), Trail(s, w, tried, scan, n), n)
  {
  }

  /** Hopping on to the last byte of the window or into the next one passes over a frame only if its magic straddles
      the window's end. */
  lemma HopsOn(s: Source, w: Window, tried: nat, scan: nat, n: nat)
    requires Sane(s) && w.end <= s.size && NextValid(s, scan, n) && !Stops(s, w, tried, scan)
    requires var v := Covering(s, w, scan); s.search(scan, v.end) == v.end
    ensures var v := Covering(s, w, scan);
      var next := Hop(v, scan);
      && Hunt(s, w, tried, scan) == Hunt(s, v, tried, next)
      && (n >= next ==> Trail(s, w, tried, scan, n) == Trail(s, v, tried, next, n))
      && (n < next ==> Trail(s, w, tried, scan, n) == (v, tried) && v.end == n + 1)
  {
  }

  /** A candidate that does not validate lies before the next frame, and the hunt goes on behind it. */
  lemma GoesOn(s: Source, w: Window, tried: nat, scan: nat, n: nat)
    requires Sane(s) && w.end <= s.size && NextValid(s, scan, n) && !Stops(s, w, tried, scan)
    requires var v := Covering(s, w, scan); s.search(scan, v.end) < v.end
    ensures var v := Covering(s, w, scan);
      var m := s.search(scan, v.end);
      && m < n && Hunt(s, w, tried, scan) == Hunt(s, AfterTry(s, v, m), tried + 1, m + 1)
      && Trail(s, w, tried, scan, n) == Trail(s, AfterTry(s, v, m), tried + 1, m + 1, n)
  {
  }

  // ---- the whole scan ---------------------------------------------------------------------------

  /** The scan with resynchronisation from `pos` on. */
  ghost function WindowPieces(s: Source, w: Window, tried: nat, pos: nat): (ps: seq<Piece>)
    requires Sane(s) && pos <= s.size && w.end <= s.size
    ensures ps != [] ==> ps[0].start == pos
    decreases s.size - pos
  {
    if pos == s.size then []
    else
      var u := AfterTry(s, w, pos);
      match s.at(pos)
      case Some(p) => [Good(pos, pos + p.len, p.frame)] + WindowPieces(s, u, tried, pos + p.len)
      case None =>
        var h := Hunt(s, u, tried, pos + 1);
        if h.resume.None? then [Bad(pos, s.size)]
        else [Bad(pos, h.resume.value)] + WindowPieces(s, h.w, h.tried, h.resume.value)
  }

  /** Every resynchronisation of the scan tries the next valid frame, if there is one. */
  ghost predicate Unmissed(s: Source, w: Window, tried: nat, pos: nat)
    requires Sane(s) && pos <= s.size && w.end <= s.size
    decreases s.size - pos
  {
    if pos == s.size then true
    else
      var u := AfterTry(s, w, pos);
      match s.at(pos)
      case Some(p) => Unmissed(s, u, tried, pos + p.len)
      case None =>
        var n := NextFrame(s.at, s.size, pos + 1);
        if n == s.size then true
        else
          var r := Trail(s, u, tried, pos + 1, n);
          Tries(s, r, n) && Unmissed(s, AfterTry(s, r.0, n), r.1 + 1, n)
  }

  ghost predicate Exact(s: Source, w: Window, tried: nat, pos: nat)
    requires Sane(s) && pos <= s.size && w.end <= s.size
  {
    WindowPieces(s, w, tried, pos) == Pieces(s.at, s.size, pos) <==> Unmissed(s, w, tried, pos)
  }

  /** The exact condition: the windowed scan cuts the file as scanning every position would, if and only if every
      resynchronisation tries the next valid frame. */
  lemma {:induction false} ScanExact(s: Source, w: Window, tried: nat, pos: nat)
    requires Sane(s) && pos <= s.size && w.end <= s.size
    ensures Exact(s, w, tried, pos)
    decreases s.size - pos
  {
    if pos < s.size && s.at(pos).Some? {
      ScanExact(s, AfterTry(s, w, pos), tried, pos + s.at(pos).value.len);
      FrameExact(s, w, tried, pos);
    } else if pos < s.size {
      var h := Hunt(s, AfterTry(s, w, pos), tried, pos + 1);
      if h.resume.Some? {
        ScanExact(s, h.w, h.tried, h.resume.value);
      }
      SkipExact(s, w, tried, pos, h);
    }
  }

  lemma FrameExact(s: Source, w: Window, tried: nat, pos: nat)
    requires Sane(s) && pos < s.size && w.end <= s.size && s.at(pos).Some?
    requires Exact(s, AfterTry(s, w, pos), tried, pos + s.at(pos).value.len)
    ensures Exact(s, w, tried, pos)
  {
    var p := s.at(pos).value;
    Peel(Good(pos, pos + p.len, p.frame), WindowPieces(s, AfterTry(s, w, pos), tried, pos + p.len),
         Pieces(s.at, s.size, pos + p.len));
  }

  /** One corrupt range: right exactly if the hunt resumes where it should, and everything behind is right. */
  lemma SkipExact(s: Source, w: Window, tried: nat, pos: nat, h: Hunted)
    requires Sane(s) && pos < s.size && w.end <= s.size && s.at(pos).None?
    requires h == Hunt(s, AfterTry(s, w, pos), tried, pos + 1)
    requires h.resume.Some? ==> Exact(s, h.w, h.tried, h.resume.value)
    ensures Exact(s, w, tried, pos)
  {
    var n := NextFrame(s.at, s.size, pos + 1);
    NextIs(s.at, s.size, pos, n);
    if n == s.size {
      SkipRest(s, w, tried, pos);
    } else {
      var g, r := HuntExact(s, AfterTry(s, w, pos), tried, pos + 1, n);
      SkipOn(s, w, tried, pos, n, h, r);
    }
  }

  lemma SkipRest(s: Source, w: Window, tried: nat, pos: nat)
    requires Sane(s) && pos < s.size && w.end <= s.size
    requires NextFrame(s.at, s.size, pos) == NextFrame(s.at, s.size, pos + 1) == s.size && s.at(pos).None?
    ensures Exact(s, w, tried, pos)
  {
    assert [Bad(pos, s.size)] + [] == [Bad(pos, s.size)];
  }

  lemma SkipOn(s: Source, w: Window, tried: nat, pos: nat, n: nat, h: Hunted, r: (Window, nat))
    requires Sane(s) && pos < n < s.size && w.end <= s.size && s.at(pos).None?
    requires n == NextFrame(s.at, s.size, pos) == NextFrame(s.at, s.size, pos + 1)
    requires h == Hunt(s, AfterTry(s, w, pos), tried, pos + 1) && r == Trail(s, AfterTry(s, w, pos), tried, pos + 1, n)
    requires Resumes(s, h, r, n) && (h.resume == Some(n) ==> Exact(s, h.w, h.tried, n))
    ensures Exact(s, w, tried, pos)
  {
    assert Pieces(s.at, s.size, pos) == [Bad(pos, n)] + Pieces(s.at, s.size, n);
    if h.resume == Some(n) {
      Peel(Bad(pos, n), WindowPieces(s, h.w, h.tried, n), Pieces(s.at, s.size, n));
    } else {
      assert WindowPieces(s, w, tried, pos)[0] != Bad(pos, n);
    }
  }

  lemma Peel<T>(x: T, a: seq<T>, b: seq<T>)
    ensures [x] + a == [x] + b <==> a == b
  {
    assert ([x] + a)[1..] == a && ([x] + b)[1..] == b;
  }

  // ---- when nothing is missed -------------------------------------------------------------------

  /** A file whose frames stand in a row, with nothing valid behind the first corruption, is scanned right through
      any window. */
  lemma {:induction false} TailOnly(s: Source, w: Window, tried: nat, pos: nat)
    requires Sane(s) && pos <= s.size && w.end <= s.size
    requires NextFrame(s.at, s.size, RunEnd(s.at, s.size, pos)) == s.size
    ensures Unmissed(s, w, tried, pos)
    decreases s.size - pos
  {
    if pos < s.size && s.at(pos).Some? {
      TailOnly(s, AfterTry(s, w, pos), tried, pos + s.at(pos).value.len);
    } else if pos < s.size {
      NextIs(s.at, s.size, pos + 1, s.size);
    }
  }

  /** How often magic occurs. */
  ghost function Magics(s: Source, from: nat, end: nat): nat
    requires from <= end
    decreases end - from
  {
    if from == end then 0 else (if s.magic(from) then 1 else 0) + Magics(s, from + 1, end)
  }

  lemma {:induction false} MagicsSplit(s: Source, a: nat, b: nat, c: nat)
    requires a <= b <= c
    ensures Magics(s, a, c) == Magics(s, a, b) + Magics(s, b, c)
    decreases b - a
  {
    if a < b {
      MagicsSplit(s, a + 1, b, c);
    }
  }

  /** In a window that holds the rest of the file a hunt spends one candidate per magic at most, and meets no edge. */
  lemma {:induction false} WideTrail(s: Source, w: Window, tried: nat, scan: nat, n: nat)
    requires Sane(s) && scan <= n < s.size <= s.cap && w.end == s.size && NextValid(s, scan, n)
    ensures var r := Trail(s, w, tried, scan, n); r.0.end == s.size && r.1 <= tried + Magics(s, scan, n)
    decreases n - scan
  {
    var v := Covering(s, w, scan);
    var m := s.search(scan, v.end);
    if scan < n && m < n && tried < s.budget {
      WideTrail(s, AfterTry(s, v, m), tried + 1, m + 1, n);
      MagicsSplit(s, scan, m, n);
    }
  }

  lemma WideHunt(s: Source, u: Window, tried: nat, scan: nat, n: nat) returns (r: (Window, nat))
    requires Sane(s) && scan <= n < s.size <= s.cap && u.end == s.size && NextValid(s, scan, n)
    requires tried + Magics(s, scan, s.size) <= s.budget
    ensures r == Trail(s, u, tried, scan, n) && Tries(s, r, n) && AfterTry(s, r.0, n).end == s.size
    ensures r.1 + 1 + Magics(s, n + 1, s.size) <= s.budget
  {
    r := Trail(s, u, tried, scan, n);
    WideTrail(s, u, tried, scan, n);
    MagicsSplit(s, scan, n, s.size);
  }

  /** A file that fits the window and has no more magic than the budget allows candidates is scanned right. */
  lemma {:induction false} WideEnough(s: Source, w: Window, tried: nat, pos: nat)
    requires Sane(s) && pos < s.size <= s.cap && w.end <= s.size && AfterTry(s, w, pos).end == s.size
    requires tried + Magics(s, pos + 1, s.size) <= s.budget
    ensures Unmissed(s, w, tried, pos)
    decreases s.size - pos
  {
    var u := AfterTry(s, w, pos);
    if s.at(pos).Some? {
      var next := pos + s.at(pos).value.len;
      if next < s.size {
        MagicsSplit(s, pos + 1, next + 1, s.size);
        WideEnough(s, u, tried, next);
      }
    } else {
      var n := NextFrame(s.at, s.size, pos + 1);
      if n < s.size {
        var r := WideHunt(s, u, tried, pos + 1, n);
        WideEnough(s, AfterTry(s, r.0, n), r.1 + 1, n);
      }
    }
  }

  lemma WideFile(s: Source)
    requires Sane(s) && 0 < s.size <= s.cap && s.need(0) > 0 && Magics(s, 1, s.size) <= s.budget
    ensures Unmissed(s, Window(0, 0), 0, 0)
  {
    WideEnough(s, Window(0, 0), 0, 0);
  }

  /** A frame whose magic straddles the end of the first window is stepped over if nothing before it looks like a
      frame: the scan delivers a corrupt range that hides it. */
  lemma EdgeMissed(s: Source)
    requires Sane(s) && 4 <= s.cap < s.size && s.need(0) <= s.cap && s.at(s.cap - 1).Some?
    requires s.need(0) > 0 && s.search(1, s.cap) == s.cap && s.search(s.cap - 1, s.cap) == s.cap
    requires forall p | 0 <= p < s.cap - 1 :: s.at(p).None?
    ensures !Unmissed(s, Window(0, 0), 0, 0)
    ensures WindowPieces(s, Window(0, 0), 0, 0) != Pieces(s.at, s.size, 0)
    ensures NextFrame(s.at, s.size, s.cap) == s.size ==> WindowPieces(s, Window(0, 0), 0, 0) == [Bad(0, s.size)]
  {
    var n := s.cap - 1;
    var u := AfterTry(s, Window(0, 0), 0);
    NextIs(s.at, s.size, 1, n);
    assert Trail(s, u, 0, 1, n) == Trail(s, u, 0, n, n) == (u, 0);
    var h, r := HuntExact(s, u, 0, 1, n);
    ScanExact(s, Window(0, 0), 0, 0);
    assert h.resume.Some? ==> h.resume.value >= s.cap;
  }

  // ---- the loops --------------------------------------------------------------------------------

  /** Where one round of the search leads: to its end, or on. */
  datatype Round = Ended(resume: Option<nat>) | On(scan: nat)

  /** What the hunt comes to after this round. */
  ghost function Left(s: Source, r: Round, w: Window, tried: nat): Hunted
    requires Sane(s) && w.end <= s.size && (r.On? ==> r.scan <= s.size)
  {
    match r
    case Ended(resume) => Hunted(resume, w, tried)
    case On(scan) => Hunt(s, w, tried, scan)
  }

  /** What becomes of a hunt at a candidate. */
  ghost function AtCandidate(s: Source, v: Window, tried: nat, m: nat): Hunted
    requires Sane(s) && m < v.end <= s.size
  {
    if tried >= s.budget then Hunted(None, v, tried + 1)
    else if s.at(m).Some? then Hunted(Some(m), AfterTry(s, v, m), tried + 1)
    else Hunt(s, AfterTry(s, v, m), tried + 1, m + 1)
  }

  /** Spend a candidate on a position with magic. */
  method Candidate(s: Source, v: Window, tried0: nat, m: nat) returns (r: Round, w: Window, tried: nat)
    requires Sane(s) && m < v.end <= s.size
    ensures w.end <= s.size && (r.On? ==> r.scan == m + 1) && Left(s, r, w, tried) == AtCandidate(s, v, tried0, m)
  {
    w, tried := v, tried0 + 1;
    if tried > s.budget {
      return Ended(None), w, tried;
    }
    w := AfterTry(s, w, m);
    r := if s.at(m).Some? then Ended(Some(m)) else On(m + 1);
  }

  /** One round of the search: look for magic in the window and try the frame there; without magic, hop on. */
  method HuntRound(s: Source, w0: Window, tried0: nat, scan: nat) returns (r: Round, w: Window, tried: nat)
    requires Sane(s) && scan + 1 < s.size && w0.end <= s.size
    ensures w.end <= s.size && (r.On? ==> scan < r.scan <= s.size)
    ensures Left(s, r, w, tried) == Hunt(s, w0, tried0, scan)
  {
    w, tried := w0, tried0;
    if scan < w.start || scan >= w.end {
      w := Fill(s, scan);
    }
    var m := s.search(scan, w.end);
    if m == w.end {
      r := if w.end >= s.size then Ended(None) else On(if w.end - 1 > scan + 1 then w.end - 1 else scan + 1);
    } else {
      HuntAt(s, w0, tried0, scan, w, m);
      r, w, tried := Candidate(s, w, tried, m);
    }
  }

  lemma HuntAt(s: Source, w: Window, tried: nat, scan: nat, v: Window, m: nat)
    requires Sane(s) && scan + 1 < s.size && w.end <= s.size
    requires v == Covering(s, w, scan) && m == s.search(scan, v.end) < v.end
    ensures Hunt(s, w, tried, scan) == AtCandidate(s, v, tried, m)
  {
  }

  /** The resynchronisation loop. */
  method HuntOn(s: Source, w0: Window, tried0: nat, start: nat) returns (h: Hunted)
    requires Sane(s) && start <= s.size && w0.end <= s.size
    ensures h == Hunt(s, w0, tried0, start)
  {
    ghost var goal := Hunt(s, w0, tried0, start);
    var w, tried: nat, scan: nat := w0, tried0, start;
    while scan + 1 < s.size
      invariant scan <= s.size && w.end <= s.size && Left(s, On(scan), w, tried) == goal
    {
      var r;
      r, w, tried := HuntRound(s, w, tried, scan);
      if r.Ended? {
        return Hunted(r.resume, w, tried);
      }
      scan := r.scan;
    }
    h := Hunted(None, w, tried);
  }

  lemma YieldCons(size: nat, first: Piece, more: seq<Piece>)
    requires first.end <= size && (more == [] <==> first.end == size)
    ensures YieldOf(size, [first] + more) == Before(size, first, YieldOf(size, more))
  {
    assert ([first] + more)[1..] == more;
  }

  /** The valid data ends at the last corrupt range if that reaches the end of the file, and else at the end of the
      file. */
  predicate EndsAt(corrupt: seq<(nat, nat)>, eof: nat, size: nat)
  {
    eof <= size && eof == if corrupt != [] && corrupt[|corrupt| - 1].1 == size then corrupt[|corrupt| - 1].0 else size
  }

  lemma EndsBefore(size: nat, first: Piece, rest: Yield)
    requires EndsAt(rest.corrupt, rest.eof, size) && first.start <= size
    requires first.end == size ==> rest == Yield([], [], size)
    ensures var y := Before(size, first, rest); EndsAt(y.corrupt, y.eof, size)
  {
    if first.Bad? {
      var range := (first.start, first.end);
      assert rest.corrupt != [] ==> ([range] + rest.corrupt)[|rest.corrupt|] == rest.corrupt[|rest.corrupt| - 1];
    }
  }

  lemma PieceEnds(size: nat, first: Piece, more: seq<Piece>)
    requires first.start < first.end <= size && (more == [] <==> first.end == size)
    requires Ends(size, more)
    ensures Ends(size, [first] + more)
  {
    YieldCons(size, first, more);
    EndsBefore(size, first, YieldOf(size, more));
  }

  ghost predicate Ends(size: nat, ps: seq<Piece>)
  {
    EndsAt(CorruptRanges(ps), EofOffset(size, ps), size)
  }

  lemma {:induction false} ScanEnds(s: Source, w: Window, tried: nat, pos: nat)
    requires Sane(s) && pos <= s.size && w.end <= s.size
    ensures Ends(s.size, WindowPieces(s, w, tried, pos))
    decreases s.size - pos
  {
    if pos < s.size && s.at(pos).Some? {
      var p := s.at(pos).value;
      ScanEnds(s, AfterTry(s, w, pos), tried, pos + p.len);
      PieceEnds(s.size, Good(pos, pos + p.len, p.frame), WindowPieces(s, AfterTry(s, w, pos), tried, pos + p.len));
    } else if pos < s.size {
      var h := Hunt(s, AfterTry(s, w, pos), tried, pos + 1);
      if h.resume.Some? {
        ScanEnds(s, h.w, h.tried, h.resume.value);
        PieceEnds(s.size, Bad(pos, h.resume.value), WindowPieces(s, h.w, h.tried, h.resume.value));
      } else {
        PieceEnds(s.size, Bad(pos, s.size), []);
        assert [Bad(pos, s.size)] + [] == [Bad(pos, s.size)];
      }
    }
  }

  /** What has been delivered and what a scan from here on delivers. */
  function Joined(frames: seq<Frame>, corrupt: seq<(nat, nat)>, rest: Yield): Yield
  {
    Yield(frames + rest.frames, corrupt + rest.corrupt, rest.eof)
  }

  ghost function Total(s: Source, w: Window, tried: nat, pos: nat, frames: seq<Frame>, corrupt: seq<(nat, nat)>): Yield
    requires Sane(s) && pos <= s.size && w.end <= s.size
  {
    Joined(frames, corrupt, YieldOf(s.size, WindowPieces(s, w, tried, pos)))
  }

  lemma JoinPiece(frames: seq<Frame>, corrupt: seq<(nat, nat)>, first: Piece, size: nat, rest: Yield)
    ensures first.Good? ==>
              Joined(frames, corrupt, Before(size, first, rest)) == Joined(frames + [first.frame], corrupt, rest)
    ensures first.Bad? && first.end != size ==>
              Joined(frames, corrupt, Before(size, first, rest)) == Joined(frames, corrupt + [(first.start, first.end)], rest)
    ensures first.Bad? && first.end == size && rest == Yield([], [], size) ==>
              Joined(frames, corrupt, Before(size, first, rest)) == Yield(frames, corrupt + [(first.start, size)], first.start)
  {
    if first.Good? {
      assert frames + ([first.frame] + rest.frames) == frames + [first.frame] + rest.frames;
    } else {
      var range := (first.start, first.end);
      assert corrupt + ([range] + rest.corrupt) == corrupt + [range] + rest.corrupt;
      assert frames + [] == frames && corrupt + [range] + [] == corrupt + [range];
    }
  }

  /** A frame is delivered. */
  lemma DeliverFrame(s: Source, w: Window, tried: nat, pos: nat, frames: seq<Frame>, corrupt: seq<(nat, nat)>)
    requires Sane(s) && pos < s.size && w.end <= s.size && s.at(pos).Some?
    ensures var p := s.at(pos).value;
      Total(s, w, tried, pos, frames, corrupt) == Total(s, AfterTry(s, w, pos), tried, pos + p.len, frames + [p.frame], corrupt)
  {
    var p := s.at(pos).value;
    var more := WindowPieces(s, AfterTry(s, w, pos), tried, pos + p.len);
    var first := Good(pos, pos + p.len, p.frame);
    YieldCons(s.size, first, more);
    JoinPiece(frames, corrupt, first, s.size, YieldOf(s.size, more));
  }

  /** A corrupt range is delivered; without a frame behind it, the scan is over. */
  lemma DeliverRange(s: Source, w: Window, tried: nat, pos: nat, frames: seq<Frame>, corrupt: seq<(nat, nat)>, h: Hunted)
    requires Sane(s) && pos < s.size && w.end <= s.size && s.at(pos).None?
    requires h == Hunt(s, AfterTry(s, w, pos), tried, pos + 1)
    ensures h.resume.None? ==> Total(s, w, tried, pos, frames, corrupt) == Yield(frames, corrupt + [(pos, s.size)], pos)
    ensures h.resume.Some? ==>
              Total(s, w, tried, pos, frames, corrupt)
              == Total(s, h.w, h.tried, h.resume.value, frames, corrupt + [(pos, h.resume.value)])
  {
    var end := if h.resume.Some? then h.resume.value else s.size;
    var more := if h.resume.Some? then WindowPieces(s, h.w, h.tried, end) else [];
    assert WindowPieces(s, w, tried, pos) == [Bad(pos, end)] + more;
    YieldCons(s.size, Bad(pos, end), more);
    JoinPiece(frames, corrupt, Bad(pos, end), s.size, YieldOf(s.size, more));
  }

  lemma Nothing(y: Yield)
    ensures Joined([], [], y) == y
  {
  }

  lemma AllDelivered(s: Source, w: Window, tried: nat, frames: seq<Frame>, corrupt: seq<(nat, nat)>)
    requires Sane(s) && w.end <= s.size
    ensures Total(s, w, tried, s.size, frames, corrupt) == Yield(frames, corrupt, s.size)
  {
    assert frames + [] == frames && corrupt + [] == corrupt;
  }

  /** One corrupt range of the scan. */
  method SkipRange(s: Source, w: Window, tried: nat, pos: nat, ghost frames: seq<Frame>, ghost corrupt: seq<(nat, nat)>)
    returns (h: Hunted)
    requires Sane(s) && pos < s.size && w.end <= s.size && s.at(pos).None?
    ensures h.resume.None? ==> Total(s, w, tried, pos, frames, corrupt) == Yield(frames, corrupt + [(pos, s.size)], pos)
    ensures h.resume.Some? ==>
              && pos < h.resume.value < s.size && h.w.end <= s.size
              && Total(s, w, tried, pos, frames, corrupt)
                 == Total(s, h.w, h.tried, h.resume.value, frames, corrupt + [(pos, h.resume.value)])
  {
    h := HuntOn(s, AfterTry(s, w, pos), tried, pos + 1);
    DeliverRange(s, w, tried, pos, frames, corrupt, h);
  }

  /** The scan with resynchronisation. */
  method ScanThroughWindow(s: Source) returns (frames: seq<Frame>, corrupt: seq<(nat, nat)>, eof: nat)
    requires Sane(s)
    ensures Yield(frames, corrupt, eof) == YieldOf(s.size, WindowPieces(s, Window(0, 0), 0, 0))
  {
    frames, corrupt := [], [];
    var w, tried: nat, pos: nat := Window(0, 0), 0, 0;
    ghost var all := Total(s, w, tried, pos, frames, corrupt);
    Nothing(YieldOf(s.size, WindowPieces(s, w, tried, pos)));
    while pos < s.size
      invariant pos <= s.size && w.end <= s.size && Total(s, w, tried, pos, frames, corrupt) == all
      decreases s.size - pos
    {
      var r := s.at(pos);
      if r.Some? {
        DeliverFrame(s, w, tried, pos, frames, corrupt);
        frames := frames + [r.value.frame];
        w, pos := AfterTry(s, w, pos), pos + r.value.len;
      } else {
        var h := SkipRange(s, w, tried, pos, frames, corrupt);
        if h.resume.None? {
          return frames, corrupt + [(pos, s.size)], pos;
        }
        corrupt := corrupt + [(pos, h.resume.value)];
        w, tried, pos := h.w, h.tried, h.resume.value;
      }
    }
    AllDelivered(s, w, tried, frames, corrupt);
    eof := pos;
  }
}
