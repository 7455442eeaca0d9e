/** The lock-file takeover protocol as a transition system.

    Every file operation is one atomic step; between two steps of one instance any number of
    steps of other instances (of the same or of other processes) may happen, and processes may
    die. A dead process takes no step, and its pid never comes back to life. */
module LockProtocol {
  import opened Basics

  type Pid = nat
  type Token = nat

  /** The parsed body of the lock file. An unparsable or legacy body lacks the token, the pid or both. */
  datatype Line = Line(pid: Option<Pid>, token: Option<Token>)

  /** The name of a watch file carries the registering pid; `num` makes names distinct. */
  datatype WatchName = WatchName(pid: Pid, num: nat)

  /** Where an instance stands between two file operations. */
  datatype Phase =
    | Idle                              // no acquire, renew or release in progress
    | Registering                       // watch file created, body not written yet
    | Contending                        // watch registered; next: link the lock file
    | Linked                            // the link landed; next: mark held
    | Probing                           // the link met an existing lock; next: first inspection
    | Gating                            // bid written; next: gate inspection
    | Replacing                         // gate passed; next: rename the bid over the lock file
    | Settling                          // rename landed; next: inspection of the settle loop
    | Surveying                         // the lock was mine; next: list the watch files
    | Scanning(pending: set<WatchName>) // listed names not examined yet
    | Leaving(won: bool)                // verdict known; next: remove the own watch file
    | Renewing                          // next: rename a fresh line over the lock file
    | Releasing                         // next: inspect the lock before removing it
    | Unlinking                         // the lock was mine; next: unlink it
    | Unlinked                          // unlink landed; next: clear `held`

  /** One LockFile object. */
  datatype Contender = Contender(pid: Pid, token: Option<Token>, watch: WatchName, phase: Phase, held: bool)

  datatype State = State(
    lock: Option<Line>,
    watches: map<WatchName, Option<Token>>,  // a registration whose body is missing or unparsable has no token
    cs: seq<Contender>,
    dead: set<Pid>,
    nextToken: Token,
    nextSeq: nat)

  datatype Action =
    | Spawn(pid: Pid)
    | Die(pid: Pid)
    | Begin(i: nat)
    | Register(i: nat)
    | Reap(i: nat, w: WatchName)
    | Create(i: nat)
    | Claim(i: nat)
    | Probe(i: nat)
    | Gate(i: nat)
    | Replace(i: nat)
    | Refuse(i: nat, retry: bool)
    | Settle(i: nat)
    | Survey(i: nat)
    | Examine(i: nat, w: WatchName)
    | Win(i: nat)
    | Leave(i: nat)
    | BeginRenew(i: nat)
    | Renew(i: nat)
    | BeginRelease(i: nat)
    | CheckRelease(i: nat)
    | Unlink(i: nat)
    | Drop(i: nat)

  predicate Live(s: State, i: nat)
  {
    i < |s.cs| && s.cs[i].pid !in s.dead
  }

  predicate PidAlive(s: State, pid: Option<Pid>)
  {
    pid.Some? && pid.value !in s.dead
  }

  /** The lock file carries the instance's own token. */
  predicate Mine(s: State, c: Contender)
  {
    c.token.Some? && s.lock.Some? && s.lock.value.token == c.token
  }

  function MyLine(c: Contender): Line
  {
    Line(Some(c.pid), c.token)
  }

  predicate Enabled(s: State, a: Action)
  {
    match a
    case Spawn(pid) => pid !in s.dead
    case Die(pid) => pid !in s.dead
    case Begin(i) => Live(s, i) && s.cs[i].phase.Idle? && !s.cs[i].held
    case Register(i) => Live(s, i) && s.cs[i].phase.Registering?
    case Reap(i, w) => Live(s, i) && s.cs[i].phase.Contending? && w in s.watches && w.pid != s.cs[i].pid && w.pid in s.dead
    case Create(i) => Live(s, i) && s.cs[i].phase.Contending?
    case Claim(i) => Live(s, i) && s.cs[i].phase.Linked?
    case Probe(i) => Live(s, i) && s.cs[i].phase.Probing?
    case Gate(i) => Live(s, i) && s.cs[i].phase.Gating?
    case Replace(i) => Live(s, i) && s.cs[i].phase.Replacing?
    case Refuse(i, retry) => Live(s, i) && s.cs[i].phase.Replacing?
    case Settle(i) => Live(s, i) && s.cs[i].phase.Settling?
    case Survey(i) => Live(s, i) && s.cs[i].phase.Surveying?
    case Examine(i, w) => Live(s, i) && s.cs[i].phase.Scanning? && w in s.cs[i].phase.pending
    case Win(i) => Live(s, i) && s.cs[i].phase == Scanning({})
    case Leave(i) => Live(s, i) && s.cs[i].phase.Leaving?
    case BeginRenew(i) => Live(s, i) && s.cs[i].phase.Idle? && s.cs[i].held
    case Renew(i) => Live(s, i) && s.cs[i].phase.Renewing?
    case BeginRelease(i) => Live(s, i) && s.cs[i].phase.Idle? && s.cs[i].held
    case CheckRelease(i) => Live(s, i) && s.cs[i].phase.Releasing?
    case Unlink(i) => Live(s, i) && s.cs[i].phase.Unlinking?
    case Drop(i) => Live(s, i) && s.cs[i].phase.Unlinked?
  }

  function Goto(s: State, i: nat, phase: Phase): State
    requires i < |s.cs|
  {
    s.(cs := s.cs[i := s.cs[i].(phase := phase)])
  }

  function Hold(s: State, i: nat, phase: Phase, held: bool): State
    requires i < |s.cs|
  {
    s.(cs := s.cs[i := s.cs[i].(phase := phase, held := held)])
  }

  /** A watch counts as the examiner's own by token; a body without token falls back to the pid in the name. */
  predicate OwnWatch(s: State, c: Contender, w: WatchName)
  {
    if w in s.watches && s.watches[w].Some? then s.watches[w] == c.token else w.pid == c.pid
  }

  function Step(s: State, a: Action): State
    requires Enabled(s, a)
  {
    match a
    case Spawn(pid) => s.(cs := s.cs + [Contender(pid, None, WatchName(pid, s.nextSeq), Idle, false)], nextSeq := s.nextSeq + 1)
    case Die(pid) => s.(dead := s.dead + {pid})
    case Begin(i) =>
      var c := s.cs[i].(token := Some(s.nextToken), watch := WatchName(s.cs[i].pid, s.nextSeq), phase := Registering);
      s.(cs := s.cs[i := c], watches := s.watches[c.watch := None], nextToken := s.nextToken + 1, nextSeq := s.nextSeq + 1)
    case Register(i) => Goto(s, i, Contending).(watches := s.watches[s.cs[i].watch := s.cs[i].token])
    case Reap(i, w) => s.(watches := s.watches - {w})
    case Create(i) =>
      if s.lock.None? then Goto(s, i, Linked).(lock := Some(MyLine(s.cs[i])))
      else Goto(s, i, Probing)
    case Claim(i) => Hold(s, i, Leaving(true), true)
    case Probe(i) =>
      if s.lock.None? || PidAlive(s, s.lock.value.pid) then Goto(s, i, Leaving(false))
      else Goto(s, i, Gating)
    case Gate(i) =>
      if s.lock.None? || PidAlive(s, s.lock.value.pid) || Mine(s, s.cs[i]) then Goto(s, i, Leaving(false))
      else Goto(s, i, Replacing)
    case Replace(i) => Goto(s, i, Settling).(lock := Some(MyLine(s.cs[i])))
    case Refuse(i, retry) => Goto(s, i, if retry then Gating else Leaving(false))
    case Settle(i) => Goto(s, i, if Mine(s, s.cs[i]) then Surveying else Leaving(false))
    case Survey(i) => Goto(s, i, Scanning(s.watches.Keys))
    case Examine(i, w) =>
      var rest := Scanning(s.cs[i].phase.pending - {w});
      if OwnWatch(s, s.cs[i], w) then Goto(s, i, rest)
      else if w.pid !in s.dead then Goto(s, i, Settling)
      else Goto(s, i, rest).(watches := s.watches - {w})
    case Win(i) => Hold(s, i, Leaving(true), true)
    case Leave(i) => Goto(s, i, Idle).(watches := s.watches - {s.cs[i].watch})
    case BeginRenew(i) => Goto(s, i, Renewing)
    case Renew(i) => Goto(s, i, Idle).(lock := Some(MyLine(s.cs[i])))
    case BeginRelease(i) => Goto(s, i, Releasing)
    case CheckRelease(i) => if Mine(s, s.cs[i]) then Goto(s, i, Unlinking) else Hold(s, i, Idle, false)
    case Unlink(i) => Goto(s, i, Unlinked).(lock := None)
    case Drop(i) => Hold(s, i, Idle, false)
  }

  /** The steps of a run are enabled one after the other. */
  predicate Feasible(s: State, run: seq<Action>)
    decreases |run|
  {
    run == [] || (Enabled(s, run[0]) && Feasible(Step(s, run[0]), run[1..]))
  }

  function After(s: State, run: seq<Action>): State
    requires Feasible(s, run)
    decreases |run|
  {
    if run == [] then s else After(Step(s, run[0]), run[1..])
  }

  /** The lock directory before the first instance starts: any lock file (absent, live, stale,
      legacy or garbage), any leftover watch files, any processes already dead. */
  predicate Init(s: State)
  {
    && s.cs == []
    && (s.lock.Some? && s.lock.value.token.Some? ==> s.lock.value.token.value < s.nextToken)
    && (forall w <- s.watches :: w.num < s.nextSeq)
    && (forall w <- s.watches :: s.watches[w].Some? ==> s.watches[w].value < s.nextToken)
  }

  /** The instance may use the database as its exclusive owner. The flag `held` alone says less:
      it is still true between the unlink of a release and the assignment that clears it. */
  predicate Owns(c: Contender)
  {
    c.phase.Linked? || (c.held && !c.phase.Unlinked?)
  }

  ghost predicate Exclusive(s: State)
  {
    forall i: nat, j: nat | Live(s, i) && Live(s, j) && Owns(s.cs[i]) && Owns(s.cs[j]) :: i == j
  }

  /** The instance has inspected the lock, found it its own, and has not reached a verdict yet. */
  predicate Deciding(c: Contender)
  {
    c.phase.Surveying? || c.phase.Scanning?
  }

  /** The one death the protocol does not tolerate: the lock line belongs to the dying process
      while a contender of another process is between finding the lock its own and its verdict. */
  ghost predicate Harmful(s: State, pid: Pid)
  {
    && s.lock.Some? && s.lock.value.pid == Some(pid)
    && exists j: nat :: Live(s, j) && s.cs[j].pid != pid && Deciding(s.cs[j])
  }

  /** A feasible run without a harmful death. */
  ghost predicate Legal(s: State, run: seq<Action>)
    decreases |run|
  {
    run == [] ||
    (Enabled(s, run[0]) && (run[0].Die? ==> !Harmful(s, run[0].pid)) && Legal(Step(s, run[0]), run[1..]))
  }

  lemma {:induction false} LegalIsFeasible(s: State, run: seq<Action>)
    requires Legal(s, run)
    ensures Feasible(s, run)
    decreases |run|
  {
    if run != [] {
      LegalIsFeasible(Step(s, run[0]), run[1..]);
    }
  }
}
