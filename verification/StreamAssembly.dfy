/** Assembling one assistant message from a stream of parts, with tool-call arguments arriving interleaved. */
module StreamAssembly {
  import opened Basics

  /** One streamed part: content, the header of a tool call, or a piece of a call's arguments. */
  datatype Part<+I, +M> =
    | Text(text: string)
    | Think(think: string, encrypted: Option<string>)
    | Media(media: M)
    | Call(id: string, name: string, args: Option<string>, index: Option<I>)
    | Delta(more: Option<string>, index: Option<I>)
  {
    predicate IsContent() {
      Text? || Think? || Media?
    }
  }

  datatype StoredCall = StoredCall(id: string, name: string, args: Option<string>)

  datatype Message<+I, +M> = Message(content: seq<Part<I, M>>, calls: seq<StoredCall>)

  datatype EmptyResponse = NoContent | ThinkingOnly

  /** Arguments followed by a piece; either may be absent. */
  function Append(args: Option<string>, more: Option<string>): Option<string>
  {
    if more.None? then args else if args.None? then more else Some(args.value + more.value)
  }

  function Stored<I, M>(p: Part<I, M>): StoredCall
    requires p.Call?
  {
    StoredCall(p.id, p.name, p.args)
  }

  /** Merge `source` into `target`, if the two are compatible. */
  function MergeInPlace<I, M>(target: Part<I, M>, source: Part<I, M>): Option<Part<I, M>>
  {
    if target.Text? && source.Text? then Some(Text(target.text + source.text))
    else if target.Think? && source.Think? then
      if target.encrypted.Some? then None else Some(Think(target.think + source.think, source.encrypted))
    else if target.Call? && source.Delta? then Some(target.(args := Append(target.args, source.more)))
    else None
  }

  // ---- what a stream should come to -------------------------------------------------------------

  /** The tool-call headers, in order. */
  ghost function Headers<I, M>(s: seq<Part<I, M>>): (h: seq<Part<I, M>>)
    ensures forall p <- h :: p.Call?
  {
    if s == [] then []
    else Headers(s[..|s| - 1]) + if s[|s| - 1].Call? then [s[|s| - 1]] else []
  }

  /** Whether the last call is still open: no content has come after its header. */
  ghost predicate Open<I, M>(s: seq<Part<I, M>>)
  {
    s != [] &&
    var last := s[|s| - 1];
    last.Call? || (last.Delta? && Open(s[..|s| - 1]))
  }

  lemma OpenHasHeader<I, M>(s: seq<Part<I, M>>)
    ensures Open(s) ==> |Headers(s)| > 0
  {
  }

  /** The latest of the first `n` headers with this index. */
  ghost function Latest<I, M>(h: seq<Part<I, M>>, n: nat, index: I): (r: Option<nat>)
    requires n <= |h| && forall p <- h :: p.Call?
    ensures r.Some? ==> r.value < n && h[r.value].index == Some(index)
    ensures r.Some? ==> forall j | r.value < j < n :: h[j].index != Some(index)
    ensures r.None? ==> forall j | 0 <= j < n :: h[j].index != Some(index)
  {
    if n == 0 then None
    else if h[n - 1].index == Some(index) then Some(n - 1)
    else Latest(h, n - 1, index)
  }

  /** The number of headers whose call is finished. */
  ghost function Finished<I, M>(h: seq<Part<I, M>>, open: bool): int
  {
    if open then |h| - 1 else |h|
  }

  /** Which call a delta belongs to: the open one if it has the delta's index, else the latest finished one with
      that index, else the open one, else none. */
  ghost function Target<I, M>(h: seq<Part<I, M>>, open: bool, d: Part<I, M>): (r: Option<nat>)
    requires d.Delta? && (open ==> |h| > 0) && forall p <- h :: p.Call?
    ensures r.Some? ==> r.value < |h|
  {
    var n := Finished(h, open);
    if d.index.Some? && !(open && h[n].index == d.index) && Latest(h, n, d.index.value).Some?
    then Latest(h, n, d.index.value)
    else if open then Some(n) else None
  }

  ghost function Extended(calls: seq<StoredCall>, target: Option<nat>, more: Option<string>): seq<StoredCall>
    requires target.Some? ==> target.value < |calls|
  {
    if target.None? then calls
    else var j := target.value; calls[j := calls[j].(args := Append(calls[j].args, more))]
  }

  ghost function Route<I, M>(s: seq<Part<I, M>>, d: Part<I, M>): (r: Option<nat>)
    requires d.Delta?
    ensures r.Some? ==> r.value < |Headers(s)|
  {
    OpenHasHeader(s);
    Target(Headers(s), Open(s), d)
  }

  /** The calls of a stream: each header with the pieces routed to it. */
  ghost function Expected<I, M>(s: seq<Part<I, M>>): (c: seq<StoredCall>)
    ensures |c| == |Headers(s)|
  {
    if s == [] then []
    else
      var init, p := s[..|s| - 1], s[|s| - 1];
      var c := Expected(init);
      if p.Call? then c + [Stored(p)]
      else if p.Delta? then Extended(c, Route(init, p), p.more)
      else c
  }

  /** Content as a sequence of atoms, so that merging neighbours makes no difference. */
  datatype Atom<+M> = Letter(c: char) | Thought(c: char) | Signature(s: string) | Item(m: M)

  ghost function AtomsOf<I, M>(p: Part<I, M>): seq<Atom<M>>
  {
    match p
    case Text(t) => seq(|t|, i requires 0 <= i < |t| => Letter(t[i]))
    case Think(t, e) =>
      seq(|t|, i requires 0 <= i < |t| => Thought(t[i])) + if e.Some? then [Signature(e.value)] else []
    case Media(m) => [Item(m)]
    case _ => []
  }

  ghost function Atoms<I, M>(s: seq<Part<I, M>>): seq<Atom<M>>
  {
    if s == [] then [] else Atoms(s[..|s| - 1]) + AtomsOf(s[|s| - 1])
  }

  // ---- the loop's state -------------------------------------------------------------------------

  datatype State<I(==, !new), M> = State(message: Message<I, M>, pending: Option<Part<I, M>>, positions: map<I, nat>)

  function Start<I(==, !new), M>(): State<I, M>
  {
    State(Message([], []), None, map[])
  }

  /** Append a fully merged part to the message; an orphaned delta is dropped. */
  function FlushPart<I(==, !new), M>(st: State<I, M>, p: Part<I, M>): State<I, M>
  {
    if p.IsContent() then st.(message := st.message.(content := st.message.content + [p]))
    else if p.Call? then
      st.(message := st.message.(calls := st.message.calls + [Stored(p)]),
          positions := if p.index.Some? then st.positions[p.index.value := |st.message.calls|] else st.positions)
    else st
  }

  predicate IsPendingAt<I(==, !new), M>(st: State<I, M>, index: I)
  {
    st.pending.Some? && st.pending.value.Call? && st.pending.value.index == Some(index)
  }

  /** A delta with an index goes straight to its finished call. */
  predicate Redirected<I(==, !new), M>(st: State<I, M>, p: Part<I, M>)
  {
    && p.Delta? && p.index.Some? && !IsPendingAt(st, p.index.value) && p.index.value in st.positions
    && st.positions[p.index.value] < |st.message.calls|
  }

  function Consume<I(==, !new), M>(st: State<I, M>, p: Part<I, M>): State<I, M>
  {
    if Redirected(st, p) then
      var j := st.positions[p.index.value];
      var c := st.message.calls;
      st.(message := st.message.(calls := c[j := c[j].(args := Append(c[j].args, p.more))]))
    else if st.pending.None? then st.(pending := Some(p))
    else
      match MergeInPlace(st.pending.value, p)
      case Some(merged) => st.(pending := Some(merged))
      case None => FlushPart(st, st.pending.value).(pending := Some(p))
  }

  ghost function AllCalls<I(!new), M>(st: State<I, M>): seq<StoredCall>
  {
    st.message.calls + if st.pending.Some? && st.pending.value.Call? then [Stored(st.pending.value)] else []
  }

  ghost function AllContent<I(!new), M>(st: State<I, M>): seq<Part<I, M>>
  {
    st.message.content + if st.pending.Some? && st.pending.value.IsContent() then [st.pending.value] else []
  }

  /** The positions of the first `n` headers, the latest per index. */
  ghost predicate PositionsTrack<I(!new), M>(positions: map<I, nat>, h: seq<Part<I, M>>, n: nat)
  {
    && n <= |h| && (forall p <- h :: p.Call?)
    && forall i {:trigger Latest(h, n, i)} :: Latest(h, n, i) == if i in positions then Some(positions[i]) else None
  }

  /** The state holds these headers, the last of them open or not, these calls and these atoms. */
  ghost predicate Shows<I(!new), M>(st: State<I, M>, h: seq<Part<I, M>>, open: bool, calls: seq<StoredCall>, atoms: seq<Atom<M>>)
  {
    var n := Finished(h, open);
    && 0 <= n && PositionsTrack(st.positions, h, n)
    && (st.pending.Some? && st.pending.value.Call? <==> open)
    && (open ==> n < |h| && h[n].Call? && st.pending.value.index == h[n].index)
    && AllCalls(st) == calls && |st.message.calls| == n && |calls| == |h|
    && Atoms(AllContent(st)) == atoms
  }

  /** The state after the stream `s`. */
  ghost predicate Tracks<I(!new), M>(st: State<I, M>, s: seq<Part<I, M>>)
  {
    Shows(st, Headers(s), Open(s), Expected(s), Atoms(s))
  }

  // ---- one part more ----------------------------------------------------------------------------

  /** What one part adds to the reference. */
  lemma Snoc<I, M>(s: seq<Part<I, M>>, p: Part<I, M>)
    ensures Headers(s + [p]) == Headers(s) + if p.Call? then [p] else []
    ensures Open(s + [p]) <==> p.Call? || (p.Delta? && Open(s))
    ensures Atoms(s + [p]) == Atoms(s) + AtomsOf(p)
    ensures Expected(s + [p]) ==
      if p.Call? then Expected(s) + [Stored(p)]
      else if p.Delta? then Extended(Expected(s), Route(s, p), p.more)
      else Expected(s)
  {
    assert (s + [p])[..|s|] == s;
  }

  /** The latest header with an index depends on the first `n` headers only. */
  lemma {:induction false} LatestLocal<I, M>(h: seq<Part<I, M>>, more: seq<Part<I, M>>, n: nat, index: I)
    requires n <= |h| && (forall p <- h :: p.Call?) && (forall p <- more :: p.Call?)
    ensures forall p <- h + more :: p.Call?
    ensures Latest(h + more, n, index) == Latest(h, n, index)
  {
    if n > 0 && h[n - 1].index != Some(index) {
      LatestLocal(h, more, n - 1, index);
    }
  }

  lemma PositionsMore<I(!new), M>(positions: map<I, nat>, h: seq<Part<I, M>>, n: nat)
    requires PositionsTrack(positions, h, n) && n < |h|
    ensures PositionsTrack(if h[n].index.Some? then positions[h[n].index.value := n] else positions, h, n + 1)
  {
    var now := if h[n].index.Some? then positions[h[n].index.value := n] else positions;
    assert h[n] in h;
    forall i
      ensures Latest(h, n + 1, i) == if i in now then Some(now[i]) else None
    {
      assert Latest(h, n, i) == if i in positions then Some(positions[i]) else None;
    }
  }

  lemma PositionsStill<I(!new), M>(positions: map<I, nat>, h: seq<Part<I, M>>, n: nat, more: seq<Part<I, M>>)
    requires PositionsTrack(positions, h, n) && forall p <- more :: p.Call?
    ensures PositionsTrack(positions, h + more, n)
  {
    assert forall p <- h + more :: p.Call?;
    forall i
      ensures Latest(h + more, n, i) == Latest(h, n, i)
    {
      LatestLocal(h, more, n, i);
    }
  }

  lemma AtomsSnoc<I, M>(s: seq<Part<I, M>>, p: Part<I, M>)
    ensures Atoms(s + [p]) == Atoms(s) + AtomsOf(p)
  {
    assert (s + [p])[..|s|] == s;
  }

  lemma NothingMore<T>(s: seq<T>)
    ensures s + [] == s
  {
  }

  /** Flushing the pending part: what was pending becomes finished. */
  lemma FlushShows<I(!new), M>(st: State<I, M>, h: seq<Part<I, M>>, open: bool, calls: seq<StoredCall>, atoms: seq<Atom<M>>)
    requires Shows(st, h, open, calls, atoms)
    ensures var f := if st.pending.Some? then FlushPart(st, st.pending.value) else st;
      && f.message.calls == calls && PositionsTrack(f.positions, h, |h|) && Atoms(f.message.content) == atoms
  {
    NothingMore(st.message.content);
    NothingMore(st.message.calls);
    if open {
      PositionsMore(st.positions, h, |h| - 1);
    }
  }

  /** A new header: the pending part is finished, the call is open. */
  lemma CallShows<I(!new), M>(st: State<I, M>, h: seq<Part<I, M>>, open: bool, calls: seq<StoredCall>, atoms: seq<Atom<M>>,
                              p: Part<I, M>)
    requires Shows(st, h, open, calls, atoms) && p.Call?
    ensures Shows(Consume(st, p), h + [p], true, calls + [Stored(p)], atoms)
  {
    FlushShows(st, h, open, calls, atoms);
    var f := if st.pending.Some? then FlushPart(st, st.pending.value) else st;
    PositionsStill(f.positions, h, |h|, [p]);
    NothingMore(f.message.content);
    assert Consume(st, p) == f.(pending := Some(p));
  }

  lemma AtomsMerge<I, M>(q: Part<I, M>, p: Part<I, M>)
    requires MergeInPlace(q, p).Some? && p.IsContent()
    ensures MergeInPlace(q, p).value.IsContent() && AtomsOf(MergeInPlace(q, p).value) == AtomsOf(q) + AtomsOf(p)
  {
  }

  /** Content: merged into pending content, or the pending part is finished. */
  lemma ContentShows<I(!new), M>(st: State<I, M>, h: seq<Part<I, M>>, open: bool, calls: seq<StoredCall>, atoms: seq<Atom<M>>,
                                 p: Part<I, M>)
    requires Shows(st, h, open, calls, atoms) && p.IsContent()
    ensures Shows(Consume(st, p), h, false, calls, atoms + AtomsOf(p))
  {
    NothingMore(calls);
    if st.pending.Some? && MergeInPlace(st.pending.value, p).Some? {
      MergeShows(st, h, open, calls, atoms, p);
    } else {
      FlushShows(st, h, open, calls, atoms);
      var f := if st.pending.Some? then FlushPart(st, st.pending.value) else st;
      AtomsSnoc(f.message.content, p);
      assert Consume(st, p) == f.(pending := Some(p));
    }
  }

  lemma MergeShows<I(!new), M>(st: State<I, M>, h: seq<Part<I, M>>, open: bool, calls: seq<StoredCall>, atoms: seq<Atom<M>>,
                               p: Part<I, M>)
    requires Shows(st, h, open, calls, atoms) && p.IsContent() && st.pending.Some? && MergeInPlace(st.pending.value, p).Some?
    ensures Shows(Consume(st, p), h, false, calls, atoms + AtomsOf(p))
  {
    var q := st.pending.value;
    var m := MergeInPlace(q, p).value;
    AtomsMerge(q, p);
    MergeContent(st.message.content, q, m, p);
  }

  lemma MergeContent<I, M>(content: seq<Part<I, M>>, q: Part<I, M>, m: Part<I, M>, p: Part<I, M>)
    requires AtomsOf(m) == AtomsOf(q) + AtomsOf(p)
    ensures Atoms(content + [m]) == Atoms(content + [q]) + AtomsOf(p)
  {
    AtomsSnoc(content, q);
    AtomsSnoc(content, m);
    Associate(Atoms(content), AtomsOf(q), AtomsOf(p));
  }

  lemma Associate<T>(a: seq<T>, b: seq<T>, c: seq<T>)
    ensures a + (b + c) == a + b + c
  {
  }

  /** A delta for a finished call. */
  lemma RedirectShows<I(!new), M>(st: State<I, M>, h: seq<Part<I, M>>, open: bool, calls: seq<StoredCall>, atoms: seq<Atom<M>>,
                                  p: Part<I, M>)
    requires Shows(st, h, open, calls, atoms) && Redirected(st, p)
    ensures Shows(Consume(st, p), h, open, Extended(calls, Target(h, open, p), p.more), atoms)
  {
    var n, j := Finished(h, open), st.positions[p.index.value];
    assert Latest(h, n, p.index.value) == Some(j);
    assert Target(h, open, p) == Some(j);
    var c := st.message.calls;
    assert calls[j] == c[j];
    assert Extended(calls, Some(j), p.more)[..n] == c[j := c[j].(args := Append(c[j].args, p.more))];
  }

  /** A delta for the open call. */
  lemma PendingShows<I(!new), M>(st: State<I, M>, h: seq<Part<I, M>>, calls: seq<StoredCall>, atoms: seq<Atom<M>>, p: Part<I, M>)
    requires Shows(st, h, true, calls, atoms) && p.Delta? && !Redirected(st, p)
    ensures Shows(Consume(st, p), h, true, Extended(calls, Target(h, true, p), p.more), atoms)
  {
    var n := Finished(h, true);
    if p.index.Some? {
      assert Latest(h, n, p.index.value) ==
        if p.index.value in st.positions then Some(st.positions[p.index.value]) else None;
    }
    assert Target(h, true, p) == Some(n);
    assert calls[n] == Stored(st.pending.value);
  }

  /** A delta that belongs to no call. */
  lemma OrphanShows<I(!new), M>(st: State<I, M>, h: seq<Part<I, M>>, calls: seq<StoredCall>, atoms: seq<Atom<M>>, p: Part<I, M>)
    requires Shows(st, h, false, calls, atoms) && p.Delta? && !Redirected(st, p)
    ensures Shows(Consume(st, p), h, false, Extended(calls, Target(h, false, p), p.more), atoms)
  {
    if p.index.Some? {
      assert Latest(h, |h|, p.index.value).None?;
    }
    assert Target(h, false, p) == None;
    FlushShows(st, h, false, calls, atoms);
    var f := if st.pending.Some? then FlushPart(st, st.pending.value) else st;
    NothingMore(f.message.content);
    NothingMore(calls);
    assert Consume(st, p) == f.(pending := Some(p));
  }

  /** A delta: appended to the call it belongs to. */
  lemma DeltaShows<I(!new), M>(st: State<I, M>, h: seq<Part<I, M>>, open: bool, calls: seq<StoredCall>, atoms: seq<Atom<M>>,
                               p: Part<I, M>)
    requires Shows(st, h, open, calls, atoms) && p.Delta?
    ensures Shows(Consume(st, p), h, open, Extended(calls, Target(h, open, p), p.more), atoms)
  {
    if Redirected(st, p) {
      RedirectShows(st, h, open, calls, atoms, p);
    } else if open {
      PendingShows(st, h, calls, atoms, p);
    } else {
      OrphanShows(st, h, calls, atoms, p);
    }
  }

  // ---- the loop ---------------------------------------------------------------------------------

  lemma ConsumeTracks<I(!new), M>(st: State<I, M>, s: seq<Part<I, M>>, p: Part<I, M>)
    requires Tracks(st, s)
    ensures Tracks(Consume(st, p), s + [p])
  {
    Snoc(s, p);
    NothingMore(Headers(s));
    NothingMore(Atoms(s));
    match p
    case Call(_, _, _, _) => CallShows(st, Headers(s), Open(s), Expected(s), Atoms(s), p);
    case Delta(_, _) => DeltaShows(st, Headers(s), Open(s), Expected(s), Atoms(s), p);
    case _ => ContentShows(st, Headers(s), Open(s), Expected(s), Atoms(s), p);
  }

  /** The kinds of content in a sequence; an empty text still is a text. */
  datatype Kind = Texts | Thoughts | Items

  ghost function KindOf<I, M>(p: Part<I, M>): set<Kind>
  {
    match p
    case Text(_) => {Texts}
    case Think(_, _) => {Thoughts}
    case Media(_) => {Items}
    case _ => {}
  }

  ghost function Kinds<I, M>(s: seq<Part<I, M>>): set<Kind>
  {
    if s == [] then {} else Kinds(s[..|s| - 1]) + KindOf(s[|s| - 1])
  }

  lemma KindsSnoc<I, M>(s: seq<Part<I, M>>, p: Part<I, M>)
    ensures Kinds(s + [p]) == Kinds(s) + KindOf(p)
  {
    assert (s + [p])[..|s|] == s;
  }

  lemma {:induction false} KindsMembers<I, M>(s: seq<Part<I, M>>)
    ensures Texts in Kinds(s) <==> exists p <- s :: p.Text?
    ensures Thoughts in Kinds(s) <==> exists p <- s :: p.Think?
    ensures Kinds(s) == {} <==> forall p <- s :: !p.IsContent()
  {
    if s != [] {
      var init, last := s[..|s| - 1], s[|s| - 1];
      KindsMembers(init);
      assert s == init + [last];
    }
  }

  lemma KindsConsume<I(!new), M>(st: State<I, M>, p: Part<I, M>)
    ensures Kinds(AllContent(Consume(st, p))) == Kinds(AllContent(st)) + KindOf(p)
  {
    var content := st.message.content;
    NothingMore(content);
    if st.pending.Some? {
      KindsSnoc(content, st.pending.value);
      NothingMore(content + [st.pending.value]);
      KindsSnoc(content + [st.pending.value], p);
      var m := MergeInPlace(st.pending.value, p);
      if m.Some? {
        KindsSnoc(content, m.value);
      }
    }
    KindsSnoc(content, p);
  }

  // ---- the message ------------------------------------------------------------------------------

  /** The concatenated text of a message's content. */
  function ExtractText<I, M>(content: seq<Part<I, M>>): string
  {
    if content == [] then []
    else ExtractText(content[..|content| - 1]) + if content[|content| - 1].Text? then content[|content| - 1].text else []
  }

  ghost function Letters<M>(atoms: seq<Atom<M>>): string
  {
    if atoms == [] then []
    else Letters(atoms[..|atoms| - 1]) + if atoms[|atoms| - 1].Letter? then [atoms[|atoms| - 1].c] else []
  }

  lemma {:induction false} LettersAppend<M>(a: seq<Atom<M>>, b: seq<Atom<M>>)
    ensures Letters(a + b) == Letters(a) + Letters(b)
  {
    if b == [] {
      NothingMore(a);
    } else {
      assert (a + b)[..|a + b| - 1] == a + b[..|b| - 1];
      LettersAppend(a, b[..|b| - 1]);
    }
  }

  lemma {:induction false} LettersOfText<M>(t: string, atoms: seq<Atom<M>>)
    requires |atoms| == |t| && forall i | 0 <= i < |t| :: atoms[i] == Letter(t[i])
    ensures Letters(atoms) == t
  {
    if t != [] {
      LettersOfText(t[..|t| - 1], atoms[..|t| - 1]);
      assert t == t[..|t| - 1] + [t[|t| - 1]];
    }
  }

  lemma {:induction false} NoLetters<M>(atoms: seq<Atom<M>>)
    requires forall a <- atoms :: !a.Letter?
    ensures Letters(atoms) == []
  {
    if atoms != [] {
      NoLetters(atoms[..|atoms| - 1]);
    }
  }

  /** The text is the letters among the atoms. */
  lemma {:induction false} TextIsLetters<I, M>(s: seq<Part<I, M>>)
    ensures ExtractText(s) == Letters(Atoms(s))
  {
    if s != [] {
      var init, p := s[..|s| - 1], s[|s| - 1];
      TextIsLetters(init);
      LettersAppend(Atoms(init), AtomsOf(p));
      if p.Text? {
        LettersOfText(p.text, AtomsOf(p));
      } else {
        NoLetters(AtomsOf(p));
      }
    }
  }

  /** What is left of a text after trimming is not empty. */
  predicate HasInk(blank: char -> bool, t: string)
  {
    exists i :: 0 <= i < |t| && !blank(t[i])
  }

  predicate Inked<I, M>(blank: char -> bool, p: Part<I, M>)
  {
    p.Text? && HasInk(blank, p.text)
  }

  /** Some text part has ink exactly if the whole text has. */
  lemma {:induction false} InkAnywhere<I, M>(blank: char -> bool, s: seq<Part<I, M>>)
    ensures HasInk(blank, ExtractText(s)) <==> exists p <- s :: Inked(blank, p)
  {
    if s != [] {
      var init, p := s[..|s| - 1], s[|s| - 1];
      InkAnywhere(blank, init);
      assert s == init + [p];
      InkAppend(blank, ExtractText(init), if p.Text? then p.text else []);
      assert (exists q <- s :: Inked(blank, q)) <==> (exists q <- init :: Inked(blank, q)) || Inked(blank, p);
    }
  }

  lemma InkAppend(blank: char -> bool, a: string, b: string)
    ensures HasInk(blank, a + b) <==> HasInk(blank, a) || HasInk(blank, b)
  {
    var t := a + b;
    if HasInk(blank, a) {
      var i :| 0 <= i < |a| && !blank(a[i]);
      assert !blank(t[i]);
    }
    if HasInk(blank, b) {
      var i :| 0 <= i < |b| && !blank(b[i]);
      assert !blank(t[|a| + i]);
    }
  }

  lemma {:induction false} HeadersMembers<I, M>(s: seq<Part<I, M>>)
    ensures Headers(s) == [] <==> forall p <- s :: !p.Call?
  {
    if s != [] {
      HeadersMembers(s[..|s| - 1]);
      assert s == s[..|s| - 1] + [s[|s| - 1]];
    }
  }

  /** One part: redirected to a finished call, merged into the pending part, or the new pending part. */
  method TakePart<I(==, !new), M>(st: State<I, M>, part: Part<I, M>) returns (next: State<I, M>)
    ensures next == Consume(st, part)
    ensures (forall p <- st.message.content :: p.IsContent()) ==> forall p <- next.message.content :: p.IsContent()
  {
    var State(Message(content, calls), pending, positions) := st;
    if part.Delta? && part.index.Some? && !IsPendingAt(st, part.index.value) {
      if part.index.value in positions && positions[part.index.value] < |calls| {
        var j := positions[part.index.value];
        calls := calls[j := calls[j].(args := Append(calls[j].args, part.more))];
        return State(Message(content, calls), pending, positions);
      }
    }
    next := st;
    if pending.None? {
      next := next.(pending := Some(part));
    } else {
      var merged := MergeInPlace(pending.value, part);
      if merged.None? {
        next := FlushPart(st, pending.value);
        merged := Some(part);
      }
      next := next.(pending := merged);
    }
  }

  /** The state shows the stream, and its content is content of the same kinds. */
  ghost predicate Assembled<I(!new), M>(st: State<I, M>, s: seq<Part<I, M>>)
  {
    Tracks(st, s) && Kinds(AllContent(st)) == Kinds(s)
  }

  lemma AssembledMore<I(!new), M>(st: State<I, M>, s: seq<Part<I, M>>, k: nat)
    requires k < |s| && Assembled(st, s[..k])
    ensures Assembled(Consume(st, s[k]), s[..k + 1])
  {
    ConsumeTracks(st, s[..k], s[k]);
    KindsConsume(st, s[k]);
    KindsSnoc(s[..k], s[k]);
    assert s[..k + 1] == s[..k] + [s[k]];
  }

  lemma AssembledEnd<I(!new), M>(st: State<I, M>, s: seq<Part<I, M>>)
    requires Assembled(st, s)
    ensures var f := if st.pending.Some? then FlushPart(st, st.pending.value) else st;
      f.message.calls == Expected(s) && Atoms(f.message.content) == Atoms(s) && Kinds(f.message.content) == Kinds(s)
  {
    FlushShows(st, Headers(s), Open(s), Expected(s), Atoms(s));
    NothingMore(st.message.content);
  }

  /** The streaming loop and the final flush. */
  method Assemble<I(==, !new), M>(stream: seq<Part<I, M>>) returns (message: Message<I, M>)
    ensures message.calls == Expected(stream)
    ensures Atoms(message.content) == Atoms(stream) && Kinds(message.content) == Kinds(stream)
    ensures forall p <- message.content :: p.IsContent()
  {
    var st := Start<I, M>();
    for k := 0 to |stream|
      invariant Assembled(st, stream[..k]) && forall p <- st.message.content :: p.IsContent()
    {
      AssembledMore(st, stream, k);
      st := TakePart(st, stream[k]);
    }
    assert stream[..|stream|] == stream;
    AssembledEnd(st, stream);
    if st.pending.Some? {
      st := FlushPart(st, st.pending.value);
    }
    message := st.message;
  }

  /** Assemble the message of a stream. Every call comes out with exactly the arguments routed to it, and content
      only ever merges neighbours; a response without content and calls, or with thinking alone, is an error. */
  method Generate<I(==, !new), M>(stream: seq<Part<I, M>>, blank: char -> bool) returns (r: Result<Message<I, M>, EmptyResponse>)
    ensures r == Err(NoContent) <==> forall p <- stream :: p.Delta?
    ensures r == Err(ThinkingOnly) <==>
              && (exists p <- stream :: p.Think?) && (forall p <- stream :: !p.Call?)
              && !HasInk(blank, ExtractText(stream))
    ensures r.Ok? ==> r.value.calls == Expected(stream)
    ensures r.Ok? ==> Atoms(r.value.content) == Atoms(stream) && ExtractText(r.value.content) == ExtractText(stream)
  {
    var message := Assemble(stream);
    var Message(content, calls) := message;
    KindsMembers(stream);
    KindsMembers(content);
    HeadersMembers(stream);
    TextIsLetters(stream);
    TextIsLetters(content);
    InkAnywhere(blank, content);
    assert |content| > 0 ==> content[0] in content;
    assert (forall p <- stream :: p.Delta?) <==> (forall p <- stream :: !p.IsContent()) && (forall p <- stream :: !p.Call?);
    if |content| == 0 && |calls| == 0 {
      return Err(NoContent);
    }
    var hasThink := exists i :: 0 <= i < |content| && content[i].Think?;
    var hasText := exists i :: 0 <= i < |content| && Inked(blank, content[i]);
    if hasThink && !hasText && |calls| == 0 {
      return Err(ThinkingOnly);
    }
    r := Ok(message);
  }

  // ---- orderly streams --------------------------------------------------------------------------

  /** Some header has this index. */
  ghost predicate Known<I(!new), M>(h: seq<Part<I, M>>, index: Option<I>)
  {
    exists j :: 0 <= j < |h| && h[j].Call? && h[j].index == index
  }

  /** Headers with distinct indices, and every delta behind the header with its index. */
  ghost predicate Orderly<I(!new), M>(s: seq<Part<I, M>>)
  {
    s == [] ||
    var init, p := s[..|s| - 1], s[|s| - 1];
    && Orderly(init)
    && (p.Call? ==> p.index.Some? && !Known(Headers(init), p.index))
    && (p.Delta? ==> p.index.Some? && Known(Headers(init), p.index))
  }

  /** The pieces sent for one index, in the order they arrive. */
  ghost function Own<I, M>(s: seq<Part<I, M>>, index: Option<I>): Option<string>
  {
    if s == [] then None
    else
      var own, p := Own(s[..|s| - 1], index), s[|s| - 1];
      if p.Delta? && p.index == index then Append(own, p.more) else own
  }

  lemma AppendAssociates(a: Option<string>, b: Option<string>, c: Option<string>)
    ensures Append(Append(a, b), c) == Append(a, Append(b, c))
  {
    if a.Some? && b.Some? && c.Some? {
      assert a.value + b.value + c.value == a.value + (b.value + c.value);
    }
  }

  ghost predicate DistinctIndices<I(!new), M>(h: seq<Part<I, M>>)
  {
    && (forall i | 0 <= i < |h| :: h[i].Call? && h[i].index.Some?)
    && (forall i, j | 0 <= i < j < |h| :: h[i].index != h[j].index)
  }

  lemma {:induction false} OrderlyHeaders<I(!new), M>(s: seq<Part<I, M>>)
    requires Orderly(s)
    ensures DistinctIndices(Headers(s))
  {
    if s != [] {
      var init, p := s[..|s| - 1], s[|s| - 1];
      OrderlyHeaders(init);
      var h := Headers(init);
      if p.Call? {
        forall i | 0 <= i < |h|
          ensures h[i].index != p.index
        {
          assert h[i].Call?;
        }
      }
    }
  }

  lemma KnownGrows<I(!new), M>(h: seq<Part<I, M>>, more: seq<Part<I, M>>, index: Option<I>)
    ensures Known(h, index) ==> Known(h + more, index)
  {
    if Known(h, index) {
      var j :| 0 <= j < |h| && h[j].Call? && h[j].index == index;
      assert (h + more)[j] == h[j];
    }
  }

  lemma {:induction false} NothingOwn<I(!new), M>(s: seq<Part<I, M>>, index: Option<I>)
    requires Orderly(s) && !Known(Headers(s), index)
    ensures Own(s, index) == None
  {
    if s != [] {
      var init, p := s[..|s| - 1], s[|s| - 1];
      KnownGrows(Headers(init), if p.Call? then [p] else [], index);
      NothingOwn(init, index);
    }
  }

  /** With distinct indices, a delta goes to the header with its index, whatever lies in between. */
  lemma RouteByIndex<I(!new), M>(h: seq<Part<I, M>>, open: bool, d: Part<I, M>, j: nat)
    requires DistinctIndices(h) && (forall p <- h :: p.Call?) && (open ==> |h| > 0)
    requires d.Delta? && d.index.Some? && j < |h| && h[j].index == d.index
    ensures Target(h, open, d) == Some(j)
  {
    var n := Finished(h, open);
    var r := Latest(h, n, d.index.value);
  }

  /** An orderly stream, however its deltas interleave, yields its calls in header order, each with its header's
      arguments followed by its own pieces in arrival order, and nobody else's. */
  lemma {:induction false} OrderlyCalls<I(!new), M>(s: seq<Part<I, M>>)
    requires Orderly(s)
    ensures var h := Headers(s);
      forall j | 0 <= j < |h| :: Expected(s)[j] == StoredCall(h[j].id, h[j].name, Append(h[j].args, Own(s, h[j].index)))
  {
    if s != [] {
      var init, p := s[..|s| - 1], s[|s| - 1];
      var h := Headers(init);
      OrderlyCalls(init);
      OrderlyHeaders(init);
      if p.Call? {
        NothingOwn(init, p.index);
      } else if p.Delta? {
        OpenHasHeader(init);
        var j :| 0 <= j < |h| && h[j].Call? && h[j].index == p.index;
        RouteByIndex(h, Open(init), p, j);
        AppendAssociates(h[j].args, Own(init, p.index), p.more);
      }
    }
  }

  /** Two orderly streams with the same headers and the same pieces per index yield the same calls. */
  lemma InterleavingIrrelevant<I(!new), M>(s: seq<Part<I, M>>, t: seq<Part<I, M>>)
    requires Orderly(s) && Orderly(t) && Headers(s) == Headers(t)
    requires forall j | 0 <= j < |Headers(s)| :: Own(s, Headers(s)[j].index) == Own(t, Headers(s)[j].index)
    ensures Expected(s) == Expected(t)
  {
    OrderlyCalls(s);
    OrderlyCalls(t);
  }

  /** The extracted text is the text parts' concatenation, whatever the stream. */
  lemma {:induction false} TextOfStream<I, M>(s: seq<Part<I, M>>, t: seq<Part<I, M>>)
    ensures ExtractText(s + t) == ExtractText(s) + ExtractText(t)
  {
    if t == [] {
      NothingMore(s);
    } else {
      assert (s + t)[..|s + t| - 1] == s + t[..|t| - 1];
      TextOfStream(s, t[..|t| - 1]);
    }
  }
}
