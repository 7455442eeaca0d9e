/** Runs that exist: takeovers that succeed, the deaths that break exclusion, and when two `held` flags are set. */
module LockRuns {
  import opened Basics
  import opened LockProtocol
  import opened LockExclusion

  /** A run without deaths from one state to another. */
  ghost predicate Path(s: State, run: seq<Action>, t: State)
  {
    Feasible(s, run) && After(s, run) == t && forall a <- run :: !a.Die?
  }

  /** A run without harmful deaths from one state to another. */
  ghost predicate LegalPath(s: State, run: seq<Action>, t: State)
  {
    Legal(s, run) && Feasible(s, run) && After(s, run) == t
  }

  lemma One(s: State, a: Action) returns (run: seq<Action>)
    requires Enabled(s, a) && !a.Die?
    ensures Path(s, run, Step(s, a))
  {
    run := [a];
    assert Feasible(Step(s, a), []) && [a][1..] == [];
  }

  /** A step in front of a run. */
  lemma Lead(s: State, a: Action, rest: seq<Action>, t: State) returns (run: seq<Action>)
    requires Enabled(s, a) && !a.Die? && Path(Step(s, a), rest, t)
    ensures Path(s, run, t)
  {
    run := [a] + rest;
    assert run[1..] == rest;
  }

  lemma {:induction false} Join(s: State, first: seq<Action>, m: State, second: seq<Action>, t: State)
    requires Path(s, first, m) && Path(m, second, t)
    ensures Path(s, first + second, t)
    decreases |first|
  {
    if first == [] {
      assert first + second == second;
    } else {
      Join(Step(s, first[0]), first[1..], m, second, t);
      assert (first + second)[1..] == first[1..] + second;
    }
  }

  lemma {:induction false} JoinLegal(s: State, first: seq<Action>, m: State, second: seq<Action>, t: State)
    requires LegalPath(s, first, m) && LegalPath(m, second, t)
    ensures LegalPath(s, first + second, t)
    decreases |first|
  {
    if first == [] {
      assert first + second == second;
    } else {
      JoinLegal(Step(s, first[0]), first[1..], m, second, t);
      assert (first + second)[1..] == first[1..] + second;
    }
  }

  lemma {:induction false} DeathlessIsLegal(s: State, run: seq<Action>, t: State)
    requires Path(s, run, t)
    ensures LegalPath(s, run, t)
    decreases |run|
  {
    if run != [] {
      DeathlessIsLegal(Step(s, run[0]), run[1..], t);
    }
  }

  // ---- takeovers --------------------------------------------------------------------------------

  /** Nothing in the listing is a live foreign watch. */
  ghost predicate Drainable(s: State, i: nat)
  {
    && Live(s, i) && s.cs[i].phase.Scanning?
    && forall w <- s.cs[i].phase.pending :: OwnWatch(s, s.cs[i], w) || w.pid in s.dead
  }

  /** A listing without live foreign watches is worked off, whatever dead registrations it names. */
  lemma {:induction false} Drain(s: State, i: nat) returns (run: seq<Action>, t: State)
    requires Drainable(s, i)
    ensures Path(s, run, t)
    ensures Moved(s, t, i) && t.lock == s.lock && t.cs[i] == s.cs[i].(phase := Scanning({}))
    ensures forall w <- t.watches :: w in s.watches && t.watches[w] == s.watches[w]
    ensures t.nextToken == s.nextToken && t.nextSeq == s.nextSeq
    decreases |s.cs[i].phase.pending|
  {
    if s.cs[i].phase.pending == {} {
      run, t := [], s;
    } else {
      var w :| w in s.cs[i].phase.pending;
      var next := Step(s, Examine(i, w));
      assert next.cs[i] == s.cs[i].(phase := Scanning(s.cs[i].phase.pending - {w}));
      forall v <- next.cs[i].phase.pending
        ensures OwnWatch(next, next.cs[i], v) || v.pid in next.dead
      {
        assert OwnWatch(s, s.cs[i], v) || v.pid in s.dead;
      }
      run, t := Drain(next, i);
      run := Lead(s, Examine(i, w), run, t);
    }
  }

  /** A new process registers, finds the stale lock and passes the gate. */
  lemma Approach(s: State, pid: Pid) returns (run: seq<Action>, t: State)
    requires Numbered(s) && pid !in s.dead && s.lock.Some? && !PidAlive(s, s.lock.value.pid)
    ensures Path(s, run, t)
    ensures var i := |s.cs|;
      && |t.cs| == i + 1 && t.cs[..i] == s.cs && t.dead == s.dead && t.lock == s.lock
      && t.cs[i].pid == pid && t.cs[i].phase.Replacing? && t.cs[i].token.Some?
      && t.cs[i].watch !in s.watches && t.watches == s.watches[t.cs[i].watch := t.cs[i].token]
  {
    var i := |s.cs|;
    var begun := Step(Step(s, Spawn(pid)), Begin(i));
    var registered := Step(begun, Register(i));
    var gating := Step(Step(registered, Create(i)), Probe(i));
    t := Step(gating, Gate(i));
    run := One(gating, Gate(i));
    run := Lead(Step(registered, Create(i)), Probe(i), run, t);
    run := Lead(registered, Create(i), run, t);
    run := Lead(begun, Register(i), run, t);
    run := Lead(Step(s, Spawn(pid)), Begin(i), run, t);
    run := Lead(s, Spawn(pid), run, t);
    assert t.cs[..i] == s.cs;
  }

  /** The rename, the inspection that finds the own line, and the listing. */
  lemma Announce(s: State, i: nat) returns (run: seq<Action>, t: State)
    requires Live(s, i) && s.cs[i].phase.Replacing? && s.cs[i].token.Some?
    ensures Path(s, run, t)
    ensures Moved(s, t, i) && t.watches == s.watches && t.cs[i] == s.cs[i].(phase := Scanning(s.watches.Keys)) && Mine(t, t.cs[i])
  {
    var settling := Step(s, Replace(i));
    var mine := Step(settling, Settle(i));
    t := Step(mine, Survey(i));
    run := One(mine, Survey(i));
    run := Lead(settling, Settle(i), run, t);
    run := Lead(s, Replace(i), run, t);
  }

  /** Past the gate, a contender beside which no live foreign process is registered wins. */
  lemma Prevail(s: State, i: nat) returns (run: seq<Action>, t: State)
    requires Live(s, i) && s.cs[i].phase.Replacing? && s.cs[i].token.Some?
    requires forall w <- s.watches :: w.pid in s.dead || OwnWatch(s, s.cs[i], w)
    ensures Path(s, run, t)
    ensures Moved(s, t, i) && t.cs[i].held && Owns(t.cs[i]) && Mine(t, t.cs[i])
  {
    var first, listed := Announce(s, i);
    var more, drained := Drain(listed, i);
    t := Step(drained, Win(i));
    run := One(drained, Win(i));
    Join(listed, more, drained, run, t);
    Join(s, first, listed, more + run, t);
    run := first + (more + run);
  }

  /** The watch files a new instance of `pid` is not stopped by: those of dead processes, and those that name its
      pid and have no body. */
  ghost predicate Passable(s: State, pid: Pid)
  {
    forall w <- s.watches :: w.pid in s.dead || (w.pid == pid && s.watches[w].None?)
  }

  /** Availability: a stale lock (its owner is dead, or its line is unparsable) with no live foreign registration
      beside it is taken over by a single acquire of a new process. */
  lemma SoloTakeover(s: State, pid: Pid) returns (run: seq<Action>, t: State)
    requires Numbered(s) && pid !in s.dead && s.lock.Some? && !PidAlive(s, s.lock.value.pid) && Passable(s, pid)
    ensures Path(s, run, t)
    ensures |t.cs| == |s.cs| + 1 && t.cs[..|s.cs|] == s.cs && t.dead == s.dead
    ensures t.cs[|s.cs|].pid == pid && t.cs[|s.cs|].held && Owns(t.cs[|s.cs|]) && Mine(t, t.cs[|s.cs|])
  {
    var start, gated := Approach(s, pid);
    var finish;
    finish, t := Prevail(gated, |s.cs|);
    Join(s, start, gated, finish, t);
    run := start + finish;
    assert t.cs[..|s.cs|] == gated.cs[..|s.cs|];
  }

  // ---- the death that breaks exclusion ----------------------------------------------------------

  /** Once the owner of the line is dead, any other death is harmless. */
  lemma {:induction false} KillAll(s: State, pids: set<Pid>) returns (run: seq<Action>)
    requires s.lock.Some? && !PidAlive(s, s.lock.value.pid)
    ensures LegalPath(s, run, s.(dead := s.dead + pids))
    decreases |pids|
  {
    if pids <= s.dead {
      run := [];
      assert s.dead + pids == s.dead;
    } else {
      var p :| p in pids && p !in s.dead;
      var t := Step(s, Die(p));
      var rest := KillAll(t, pids - {p});
      run := [Die(p)] + rest;
      assert run[1..] == rest;
      assert s.dead + pids == t.dead + (pids - {p});
    }
  }

  /** An acquire in progress that has not won. */
  predicate Underway(c: Contender)
  {
    !c.phase.Idle? && !c.held && !c.phase.Linked?
  }

  /** `y` decides while the owner of the line is dead; nobody else owns, and nobody else's line is in the file. */
  ghost predicate Cornered(s: State, y: nat)
  {
    && Live(s, y) && Deciding(s.cs[y]) && s.cs[y].token.Some? && Registered(s, s.cs[y]) && s.cs[y].watch.pid == s.cs[y].pid
    && s.lock.Some? && !PidAlive(s, s.lock.value.pid)
    && forall x: nat | Live(s, x) && x != y :: CannotPass(s, y, x)
  }

  /** The other instance shares neither token nor watch with `y`, and its listing holds the watch of `y`. */
  predicate CannotPass(s: State, y: nat, x: nat)
    requires x < |s.cs| && y < |s.cs|
  {
    var c, d := s.cs[x], s.cs[y];
    && c.watch != d.watch && c.watch.pid == c.pid && c.token != d.token && (Underway(c) ==> !Mine(s, c) && c.phase != Leaving(true) && !HeldPhase(c.phase))
    && (c.phase.Scanning? ==> d.watch in c.phase.pending)
  }

  /** The number of steps to the end of an acquire that fails. */
  function ToEnd(c: Contender): nat
  {
    match c.phase
    case Registering => 9
    case Contending => 8
    case Probing => 7
    case Gating => 6
    case Replacing => 5
    case Surveying => 5
    case Scanning(_) => 4
    case Settling => 3
    case _ => 1
  }

  /** A step towards it. */
  function StepOut(s: State, y: nat, x: nat): Action
    requires x < |s.cs| && y < |s.cs|
  {
    match s.cs[x].phase
    case Registering => Register(x)
    case Contending => Create(x)
    case Probing => Probe(x)
    case Gating => Gate(x)
    case Replacing => Refuse(x, false)
    case Surveying => Survey(x)
    case Scanning(_) => Examine(x, s.cs[y].watch)
    case Settling => Settle(x)
    case _ => Leave(x)
  }

  /** The state once `x` has given up. */
  function GaveUp(s: State, x: nat): State
    requires x < |s.cs|
  {
    Goto(s, x, Idle).(watches := s.watches - {s.cs[x].watch})
  }

  /** Only the phase of `x` and its watch differ. */
  ghost predicate Beside(s: State, t: State, x: nat)
    requires x < |s.cs|
  {
    && |t.cs| == |s.cs| && t.cs[x] == s.cs[x].(phase := t.cs[x].phase)
    && (forall z: nat | z < |s.cs| && z != x :: t.cs[z] == s.cs[z])
    && t == s.(cs := t.cs, watches := t.watches) && t.watches - {s.cs[x].watch} == s.watches - {s.cs[x].watch}
  }

  lemma StepOutMoves(s: State, y: nat, x: nat)
    requires Cornered(s, y) && Live(s, x) && x != y && Underway(s.cs[x])
    ensures var a := StepOut(s, y, x);
      && Enabled(s, a) && !a.Die?
      && var t := Step(s, a);
      && Beside(s, t, x) && CannotPass(t, y, x)
      && (t == GaveUp(s, x) || (Underway(t.cs[x]) && ToEnd(t.cs[x]) < ToEnd(s.cs[x])))
  {
    assert CannotPass(s, y, x);
  }

  lemma BesideCornered(s: State, t: State, y: nat, x: nat)
    requires Cornered(s, y) && Live(s, x) && x != y && Beside(s, t, x) && CannotPass(t, y, x)
    ensures Cornered(t, y) && GaveUp(t, x) == GaveUp(s, x)
  {
    assert GaveUp(t, x).cs == GaveUp(s, x).cs;
    assert CannotPass(s, y, x);
    var own := s.cs[y].watch;
    assert own in t.watches - {s.cs[x].watch} && (t.watches - {s.cs[x].watch})[own] == s.watches[own];
    forall z: nat | Live(t, z) && z != y
      ensures CannotPass(t, y, z)
    {
      assert Live(s, z) && CannotPass(s, y, z);
    }
  }

  /** An acquire beside `y` can be run to its end; nothing but its phase and its watch changes. */
  lemma {:induction false} Retire(s: State, y: nat, x: nat) returns (run: seq<Action>)
    requires Cornered(s, y) && Live(s, x) && x != y && Underway(s.cs[x])
    ensures Path(s, run, GaveUp(s, x)) && Cornered(GaveUp(s, x), y)
    decreases ToEnd(s.cs[x])
  {
    StepOutMoves(s, y, x);
    var a := StepOut(s, y, x);
    var t := Step(s, a);
    BesideCornered(s, t, y, x);
    if t == GaveUp(s, x) {
      run := One(s, a);
    } else {
      run := Retire(t, y, x);
      run := Lead(s, a, run, GaveUp(s, x));
    }
  }

  /** `w` is the watch of an acquire in progress of another instance. */
  ghost predicate Sibling(s: State, y: nat, w: WatchName)
  {
    exists x: nat :: Live(s, x) && x != y && Underway(s.cs[x]) && s.cs[x].watch == w
  }

  ghost predicate SiblingFrom(s: State, y: nat, w: WatchName, k: nat)
  {
    exists x: nat :: k <= x && Live(s, x) && x != y && Underway(s.cs[x]) && s.cs[x].watch == w
  }

  /** All acquires beside `y` are run to their ends, and their watches are gone. */
  lemma {:induction false} RetireFrom(s: State, y: nat, k: nat) returns (run: seq<Action>, t: State)
    requires Cornered(s, y) && k <= |s.cs|
    ensures Path(s, run, t) && Cornered(t, y) && t.cs[y] == s.cs[y] && t.dead == s.dead && t.lock == s.lock
    ensures t.nextToken == s.nextToken && t.nextSeq == s.nextSeq
    ensures forall w <- t.watches :: w in s.watches && t.watches[w] == s.watches[w] && !SiblingFrom(s, y, w, k)
    decreases |s.cs| - k
  {
    if k == |s.cs| {
      run, t := [], s;
    } else if Live(s, k) && k != y && Underway(s.cs[k]) {
      var first := Retire(s, y, k);
      var m := GaveUp(s, k);
      run, t := RetireFrom(m, y, k + 1);
      Join(s, first, m, run, t);
      run := first + run;
      LaterSiblings(s, m, y, k);
    } else {
      run, t := RetireFrom(s, y, k + 1);
      LaterSiblings(s, s, y, k);
    }
  }

  lemma LaterSiblings(s: State, m: State, y: nat, k: nat)
    requires k < |s.cs| == |m.cs| && m.dead == s.dead && forall x: nat | k < x < |s.cs| :: m.cs[x] == s.cs[x]
    ensures forall w :: SiblingFrom(s, y, w, k) ==>
                          SiblingFrom(m, y, w, k + 1) || (Live(s, k) && k != y && Underway(s.cs[k]) && s.cs[k].watch == w)
  {
    forall w | SiblingFrom(s, y, w, k) && !(Live(s, k) && k != y && Underway(s.cs[k]) && s.cs[k].watch == w)
      ensures SiblingFrom(m, y, w, k + 1)
    {
      var x: nat :| k <= x && Live(s, x) && x != y && Underway(s.cs[x]) && s.cs[x].watch == w;
      assert Live(m, x) && m.cs[x] == s.cs[x];
    }
  }

  /** A deciding contender whose listing holds no live foreign watch wins and leaves. */
  lemma WinAlone(s: State, y: nat) returns (run: seq<Action>, t: State)
    requires Live(s, y) && Deciding(s.cs[y]) && s.cs[y].token.Some?
    requires forall w <- s.watches :: w.pid in s.dead || OwnWatch(s, s.cs[y], w)
    requires s.cs[y].phase.Scanning? ==> forall w <- s.cs[y].phase.pending :: w.pid in s.dead || OwnWatch(s, s.cs[y], w)
    ensures Path(s, run, t)
    ensures Moved(s, t, y) && t.cs[y].held && t.cs[y].phase.Idle? && t.lock == s.lock
    ensures t.nextToken == s.nextToken && t.nextSeq == s.nextSeq
    ensures forall w <- t.watches :: w in s.watches && t.watches[w] == s.watches[w] && w != s.cs[y].watch
  {
    var listed := if s.cs[y].phase.Surveying? then Step(s, Survey(y)) else s;
    var more, drained := Drain(listed, y);
    var won := Step(drained, Win(y));
    t := Step(won, Leave(y));
    run := One(won, Leave(y));
    run := Lead(drained, Win(y), run, t);
    Join(listed, more, drained, run, t);
    run := more + run;
    if s.cs[y].phase.Surveying? {
      run := Lead(s, Survey(y), run, t);
    }
  }

  /** No watch file is left over from an earlier process with the pid of `y`: every registration under its pid is
      its own, belongs to an acquire in progress, or has no body. */
  ghost predicate NoLeftover(s: State, y: nat)
    requires y < |s.cs|
  {
    forall w <- s.watches | w.pid == s.cs[y].pid && s.watches[w].Some? :: w == s.cs[y].watch || Sibling(s, y, w)
  }

  lemma DeathCorners(s: State, victim: Pid, y: nat)
    requires Inv(s) && victim !in s.dead && s.lock.Some? && s.lock.value.pid == Some(victim)
    requires Live(s, y) && s.cs[y].pid != victim && Deciding(s.cs[y])
    ensures Cornered(Step(s, Die(victim)), y)
  {
    var t := Step(s, Die(victim));
    assert Registered(s, s.cs[y]) && WellShaped(s, s.cs[y]);
    forall x: nat | Live(t, x) && x != y
      ensures CannotPass(t, y, x)
    {
      assert WellShaped(s, s.cs[x]);
      var low, high := if x < y then x else y, if x < y then y else x;
      assert s.cs[low].watch != s.cs[high].watch && (s.cs[low].token.Some? ==> s.cs[low].token != s.cs[high].token);
    }
  }

  /** Everybody with another pid is killed, everybody beside `y` gives up. */
  lemma Isolate(s: State, y: nat) returns (run: seq<Action>, t: State)
    requires Cornered(s, y) && Numbered(s) && NoLeftover(s, y)
    ensures LegalPath(s, run, t) && Cornered(t, y) && Numbered(t) && t.cs[y] == s.cs[y]
    ensures forall w <- t.watches :: w.pid in t.dead || w == t.cs[y].watch || (w.pid == t.cs[y].pid && t.watches[w].None?)
    ensures t.cs[y].phase.Scanning? ==> forall w <- t.cs[y].phase.pending :: w.pid in t.dead || OwnWatch(t, t.cs[y], w)
  {
    var names := s.watches.Keys + if s.cs[y].phase.Scanning? then s.cs[y].phase.pending else {};
    var others := (set w | w in names :: w.pid) - {s.cs[y].pid};
    run := KillAll(s, others);
    var quiet := s.(dead := s.dead + others);
    assert Cornered(quiet, y) by {
      assert forall x: nat | Live(quiet, x) :: Live(s, x) && (x != y ==> CannotPass(s, y, x) && CannotPass(quiet, y, x));
    }
    SiblingsSurvive(s, quiet, y);
    var more;
    more, t := RetireFrom(quiet, y, 0);
    DeathlessIsLegal(quiet, more, t);
    JoinLegal(s, run, quiet, more, t);
    run := run + more;
    assert forall w <- t.watches | w.pid == s.cs[y].pid && w != s.cs[y].watch :: s.watches[w].None?;
  }

  lemma SiblingsSurvive(s: State, quiet: State, y: nat)
    requires Cornered(s, y) && quiet.cs == s.cs && forall p <- quiet.dead :: p in s.dead || p != s.cs[y].pid
    ensures forall w | Sibling(s, y, w) && w.pid == s.cs[y].pid :: SiblingFrom(quiet, y, w, 0)
  {
    forall w | Sibling(s, y, w) && w.pid == s.cs[y].pid
      ensures SiblingFrom(quiet, y, w, 0)
    {
      var x: nat :| Live(s, x) && x != y && Underway(s.cs[x]) && s.cs[x].watch == w;
      assert CannotPass(s, y, x) && Live(quiet, x);
    }
  }

  /** After a harmful death the run can go on, legally, to two live owners. */
  lemma HarmfulDeathBreaks(s: State, victim: Pid, y: nat) returns (run: seq<Action>)
    requires Inv(s) && victim !in s.dead && s.lock.Some? && s.lock.value.pid == Some(victim)
    requires Live(s, y) && s.cs[y].pid != victim && Deciding(s.cs[y]) && NoLeftover(s, y)
    ensures var t := Step(s, Die(victim)); Legal(t, run) && Feasible(t, run) && !Exclusive(After(t, run))
  {
    var t := Step(s, Die(victim));
    DeathCorners(s, victim, y);
    var alone, quiet := Isolate(t, y);
    var win, won := WinAlone(quiet, y);
    var takeover, end := SoloTakeover(won, won.cs[y].pid);
    assert end.cs[y] == end.cs[..|won.cs|][y] == won.cs[y];
    assert Live(end, y) && Live(end, |won.cs|);
    Join(quiet, win, won, takeover, end);
    DeathlessIsLegal(quiet, win + takeover, end);
    JoinLegal(t, alone, quiet, win + takeover, end);
    run := alone + (win + takeover);
  }

  ghost predicate ExclusiveForever(s: State)
  {
    forall run :: Legal(s, run) && Feasible(s, run) ==> Exclusive(After(s, run))
  }

  /** The exact condition: a death leaves every legal continuation exclusive if and only if it is not harmful. */
  lemma HarmfulExactly(s: State, victim: Pid)
    requires Inv(s) && victim !in s.dead
    requires forall y: nat | Live(s, y) && Deciding(s.cs[y]) :: NoLeftover(s, y)
    ensures ExclusiveForever(Step(s, Die(victim))) <==> !Harmful(s, victim)
  {
    if Harmful(s, victim) {
      var y: nat :| Live(s, y) && s.cs[y].pid != victim && Deciding(s.cs[y]);
      var run := HarmfulDeathBreaks(s, victim, y);
    } else {
      var t := Step(s, Die(victim));
      DieInv(s, victim);
      forall run | Legal(t, run) && Feasible(t, run)
        ensures Exclusive(After(t, run))
      {
        MutualExclusion(t, run);
      }
    }
  }

  /** Two processes pass the gate of a stale lock, the first finds the line its own, and the second replaces it. */
  lemma Overtaken(s: State, first: nat, second: nat) returns (run: seq<Action>, t: State)
    requires Live(s, first) && Live(s, second) && first != second
    requires s.cs[first].phase.Replacing? && s.cs[second].phase.Replacing? && s.cs[first].token.Some?
    ensures Path(s, run, t)
    ensures t.dead == s.dead && |t.cs| == |s.cs| && t.cs[first] == s.cs[first].(phase := Surveying)
    ensures t.lock == Some(MyLine(s.cs[second]))
  {
    var placed := Step(s, Replace(first));
    var mine := Step(placed, Settle(first));
    t := Step(mine, Replace(second));
    run := One(mine, Replace(second));
    run := Lead(placed, Settle(first), run, t);
    run := Lead(s, Replace(first), run, t);
  }

  /** Such deaths can happen: the second may die before the first has listed the watch files. */
  lemma HarmfulReachable(s: State, first: Pid, second: Pid) returns (run: seq<Action>)
    requires Init(s) && s.lock.Some? && !PidAlive(s, s.lock.value.pid)
    requires first !in s.dead && second !in s.dead && first != second
    ensures Legal(s, run) && Feasible(s, run) && Harmful(After(s, run), second)
  {
    var one, near := Approach(s, first);
    DeathlessIsLegal(s, one, near);
    MutualExclusion(s, one);
    var two, both := Approach(near, second);
    assert both.cs[0] == both.cs[..1][0] == near.cs[0];
    var three, t := Overtaken(both, 0, 1);
    Join(near, two, both, three, t);
    Join(s, one, near, two + three, t);
    run := one + (two + three);
    DeathlessIsLegal(s, run, t);
    assert Live(t, 0);
  }

  // ---- the flags --------------------------------------------------------------------------------

  /** An absent lock file is created by a single acquire. */
  lemma Acquire(s: State, pid: Pid) returns (run: seq<Action>, t: State)
    requires s.lock.None? && pid !in s.dead
    ensures Path(s, run, t)
    ensures var i := |s.cs|;
      && |t.cs| == i + 1 && t.cs[..i] == s.cs && t.dead == s.dead && t.lock == Some(MyLine(t.cs[i]))
      && t.cs[i].pid == pid && t.cs[i].phase == Leaving(true) && t.cs[i].held && t.cs[i].token.Some?
  {
    var i := |s.cs|;
    var begun := Step(Step(s, Spawn(pid)), Begin(i));
    var registered := Step(begun, Register(i));
    var linked := Step(registered, Create(i));
    t := Step(linked, Claim(i));
    run := One(linked, Claim(i));
    run := Lead(registered, Create(i), run, t);
    run := Lead(begun, Register(i), run, t);
    run := Lead(Step(s, Spawn(pid)), Begin(i), run, t);
    run := Lead(s, Spawn(pid), run, t);
    assert t.cs[..i] == s.cs;
  }

  /** A winner goes on to release, up to the unlink. */
  lemma ReleaseHalfway(s: State, i: nat) returns (run: seq<Action>, t: State)
    requires Live(s, i) && s.cs[i].phase == Leaving(true) && s.cs[i].held && Mine(s, s.cs[i])
    ensures Path(s, run, t)
    ensures t.dead == s.dead && |t.cs| == |s.cs| && t.lock.None? && t.cs[i] == s.cs[i].(phase := Unlinked)
  {
    var idle := Step(s, Leave(i));
    var releasing := Step(idle, BeginRelease(i));
    var unlinking := Step(releasing, CheckRelease(i));
    t := Step(unlinking, Unlink(i));
    run := One(unlinking, Unlink(i));
    run := Lead(releasing, CheckRelease(i), run, t);
    run := Lead(idle, BeginRelease(i), run, t);
    run := Lead(s, Leave(i), run, t);
  }

  ghost predicate FlagsExclusive(s: State)
  {
    forall i: nat, j: nat | Live(s, i) && Live(s, j) && s.cs[i].held && s.cs[j].held :: i == j
  }

  /** `held` alone is not exclusive: without a lock file, one process acquires and releases, and before it clears
      its flag another has acquired; ownership stays exclusive all the same. */
  lemma HeldFlagsOverlap(s: State, first: Pid, second: Pid) returns (run: seq<Action>)
    requires Init(s) && s.lock.None? && first !in s.dead && second !in s.dead
    ensures Legal(s, run) && Feasible(s, run) && !FlagsExclusive(After(s, run)) && Exclusive(After(s, run))
  {
    var one, holding := Acquire(s, first);
    var two, released := ReleaseHalfway(holding, 0);
    var three, t := Acquire(released, second);
    assert t.cs[0] == t.cs[..1][0] == released.cs[0];
    assert Live(t, 0) && Live(t, 1) && t.cs[0].held && t.cs[1].held;
    Join(holding, two, released, three, t);
    Join(s, one, holding, two + three, t);
    run := one + (two + three);
    DeathlessIsLegal(s, run, t);
    MutualExclusion(s, run);
  }

  /** Tokens are distinct, so the lock file carries the line of one instance at most. */
  lemma OneLine(s: State, i: nat, j: nat)
    requires Distinct(s) && i < |s.cs| && j < |s.cs| && i != j
    ensures !(Mine(s, s.cs[i]) && Mine(s, s.cs[j]))
  {
    var low, high := if i < j then i else j, if i < j then j else i;
    assert s.cs[low].token.Some? ==> s.cs[low].token != s.cs[high].token;
  }

  /** Two live instances with the flag set: at least one of them has landed its unlink. */
  lemma HeldFlagsExplained(s: State, i: nat, j: nat)
    requires Inv(s) && Live(s, i) && Live(s, j) && i != j
    requires s.cs[i].held && s.cs[j].held
    ensures s.cs[i].phase.Unlinked? || s.cs[j].phase.Unlinked?
  {
    OneLine(s, i, j);
    assert Owns(s.cs[i]) ==> Mine(s, s.cs[i]);
    assert Owns(s.cs[j]) ==> Mine(s, s.cs[j]);
  }

  /** The exact condition: no two live flags are set if and only if no instance whose unlink has landed stands beside
      another live instance with the flag. */
  lemma HeldFlagsExactly(s: State)
    requires Inv(s)
    ensures FlagsExclusive(s) <==>
            forall z: nat, i: nat | Live(s, z) && s.cs[z].phase.Unlinked? && Live(s, i) && s.cs[i].held :: i == z
  {
    if forall z: nat, i: nat | Live(s, z) && s.cs[z].phase.Unlinked? && Live(s, i) && s.cs[i].held :: i == z {
      forall i: nat, j: nat | Live(s, i) && Live(s, j) && s.cs[i].held && s.cs[j].held
        ensures i == j
      {
        if i != j {
          HeldFlagsExplained(s, i, j);
        }
      }
    } else {
      var z: nat, i: nat :| Live(s, z) && s.cs[z].phase.Unlinked? && Live(s, i) && s.cs[i].held && i != z;
      assert WellShaped(s, s.cs[z]);
    }
  }
}
