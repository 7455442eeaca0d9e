/** At most one live owner: the inductive invariant of the takeover protocol, the theorem over
    all runs, and the two runs that show its conditions are needed. */
module LockExclusion {
  import opened Basics
  import opened LockProtocol

  /** Between the gate check and the verdict. */
  predicate Active(c: Contender)
  {
    c.phase.Replacing? || c.phase.Settling? || Deciding(c)
  }

  /** The only phases in which the lock file may carry the instance's token. */
  predicate MayHaveLine(c: Contender)
  {
    Owns(c) || c.phase.Settling? || Deciding(c)
  }

  /** The phases reached only with `held` set. */
  predicate HeldPhase(phase: Phase)
  {
    phase == Leaving(true) || phase.Renewing? || phase.Releasing? || phase.Unlinking? || phase.Unlinked?
  }

  /** The phases during which the own watch file is on disk with its token. */
  predicate WatchPhase(c: Contender)
  {
    c.phase.Contending? || c.phase.Probing? || c.phase.Gating? || Active(c)
  }

  predicate WellShaped(s: State, c: Contender)
  {
    && (c.held ==> c.phase.Idle? || HeldPhase(c.phase))
    && (HeldPhase(c.phase) ==> c.held)
    && (!c.phase.Idle? || c.held ==> c.token.Some?)
    && (c.token.Some? ==> c.token.value < s.nextToken)
    && c.watch.pid == c.pid && c.watch.num < s.nextSeq
  }

  predicate Registered(s: State, c: Contender)
  {
    c.watch in s.watches && s.watches[c.watch] == c.token
  }

  ghost predicate Numbered(s: State)
  {
    && (s.lock.Some? && s.lock.value.token.Some? ==> s.lock.value.token.value < s.nextToken)
    && (forall w <- s.watches :: w.num < s.nextSeq)
  }

  ghost predicate Shapes(s: State)
  {
    forall i: nat | i < |s.cs| :: WellShaped(s, s.cs[i])
  }

  /** No two instances share a token or a watch name. */
  ghost predicate Distinct(s: State)
  {
    forall i: nat, j: nat | i < j < |s.cs| ::
      s.cs[i].watch != s.cs[j].watch && (s.cs[i].token.Some? ==> s.cs[i].token != s.cs[j].token)
  }

  ghost predicate LineRightful(s: State)
  {
    forall i: nat | i < |s.cs| && Mine(s, s.cs[i]) :: MayHaveLine(s.cs[i]) && s.lock.value.pid == Some(s.cs[i].pid)
  }

  ghost predicate AllRegistered(s: State)
  {
    forall i: nat | Live(s, i) && WatchPhase(s.cs[i]) :: Registered(s, s.cs[i])
  }

  ghost predicate NobodyActive(s: State)
  {
    forall i: nat | Live(s, i) :: !Active(s.cs[i])
  }

  /** The lock file carries the line of a live contender that is still in flight. */
  ghost predicate LineInFlight(s: State)
  {
    exists x: nat :: Live(s, x) && (s.cs[x].phase.Settling? || Deciding(s.cs[x])) && Mine(s, s.cs[x])
  }

  /** Bookkeeping: numbers, tokens and watch files. */
  ghost predicate Books(s: State)
  {
    Numbered(s) && Shapes(s) && Distinct(s) && LineRightful(s) && AllRegistered(s)
  }

  ghost predicate Safe(s: State)
  {
    // an absent lock file tempts nobody who has passed the gate
    && (s.lock.None? ==> NobodyActive(s))
    // an owner's line is in the file and nobody is between gate check and verdict
    && (forall z: nat | Live(s, z) && Owns(s.cs[z]) :: Mine(s, s.cs[z]) && NobodyActive(s))
    && (forall y: nat | Live(s, y) && Deciding(s.cs[y]) :: LineInFlight(s))
    // a listing in progress still holds the watch of every other contender past the gate
    && (forall y: nat, x: nat | Live(s, y) && s.cs[y].phase.Scanning? && Live(s, x) && x != y && Active(s.cs[x]) ::
          s.cs[x].watch in s.cs[y].phase.pending)
  }

  ghost predicate Inv(s: State)
  {
    Books(s) && Safe(s)
  }

  lemma InitInv(s: State)
    requires Init(s)
    ensures Inv(s)
  {
  }

  /** Only instance `i` moved; it kept its process. */
  ghost predicate Moved(s: State, s': State, i: nat)
  {
    && i < |s.cs| == |s'.cs|
    && s'.dead == s.dead
    && (forall j: nat | j < |s.cs| && j != i :: s'.cs[j] == s.cs[j])
    && s'.cs[i].pid == s.cs[i].pid
  }

  /** `i` moved without touching the lock file, did not pass the gate, gained no ownership and
      did not abandon a line of its own. */
  ghost predicate Quiet(s: State, s': State, i: nat)
  {
    && Moved(s, s', i)
    && s'.lock == s.lock
    && !Active(s'.cs[i])
    && (Owns(s'.cs[i]) ==> Owns(s.cs[i]) && s'.cs[i].token == s.cs[i].token)
    && !(Mine(s, s.cs[i]) && (s.cs[i].phase.Settling? || Deciding(s.cs[i])))
  }

  lemma QuietKeepsSafe(s: State, s': State, i: nat)
    requires Inv(s) && Quiet(s, s', i)
    ensures Safe(s')
  {
    if LineInFlight(s) {
      var x: nat :| Live(s, x) && (s.cs[x].phase.Settling? || Deciding(s.cs[x])) && Mine(s, s.cs[x]);
      assert Live(s', x) && Mine(s', s'.cs[x]);
    }
  }

  /** What every step of instance `i` respects: fresh numbers, nobody else's watch file, and a lock
      line that is `i`'s own when `i` wrote it. */
  ghost predicate Tidy(s: State, s': State, i: nat)
  {
    && Moved(s, s', i)
    && WellShaped(s', s'.cs[i])
    && s.nextToken <= s'.nextToken && s.nextSeq <= s'.nextSeq
    && (s'.cs[i].token == s.cs[i].token || s'.cs[i].token == Some(s.nextToken))
    && (s'.cs[i].watch == s.cs[i].watch || s'.cs[i].watch.num == s.nextSeq)
    && (s'.lock == s.lock || s'.lock.None? || s'.lock == Some(MyLine(s'.cs[i])))
    && (Mine(s', s'.cs[i]) ==> MayHaveLine(s'.cs[i]))
    && (WatchPhase(s'.cs[i]) ==> Registered(s', s'.cs[i]))
    && (forall w <- s'.watches :: w in s.watches || w == s'.cs[i].watch)
    && (forall w <- s.watches :: w.pid in s.dead || w == s.cs[i].watch || (w in s'.watches && s'.watches[w] == s.watches[w]))
  }

  lemma TidyKeepsBooks(s: State, s': State, i: nat)
    requires Inv(s) && Tidy(s, s', i)
    ensures Books(s')
  {
    assert Numbered(s');
    forall j: nat, k: nat | j < k < |s'.cs|
      ensures s'.cs[j].watch != s'.cs[k].watch && (s'.cs[j].token.Some? ==> s'.cs[j].token != s'.cs[k].token)
    {
      assert WellShaped(s, s.cs[j]) && WellShaped(s, s.cs[k]);
    }
    forall j: nat | j < |s'.cs| && Mine(s', s'.cs[j])
      ensures MayHaveLine(s'.cs[j]) && s'.lock.value.pid == Some(s'.cs[j].pid)
    {
      assert WellShaped(s, s.cs[j]);
      if j != i {
        assert s'.lock == s.lock;
      }
    }
    forall j: nat | Live(s', j) && WatchPhase(s'.cs[j])
      ensures Registered(s', s'.cs[j])
    {
      assert WellShaped(s, s.cs[j]);
    }
  }

  lemma QuietInv(s: State, s': State, i: nat)
    requires Inv(s) && Tidy(s, s', i) && Quiet(s, s', i)
    ensures Inv(s')
  {
    TidyKeepsBooks(s, s', i);
    QuietKeepsSafe(s, s', i);
  }

  // ---- one lemma per kind of step ------------------------------------------------------------

  lemma SpawnKeepsBooks(s: State, s': State, pid: Pid)
    requires Books(s) && Enabled(s, Spawn(pid)) && s' == Step(s, Spawn(pid))
    ensures Books(s')
  {
    assert forall j: nat | j < |s'.cs| :: j < |s.cs| ==> s'.cs[j] == s.cs[j] && WellShaped(s, s.cs[j]);
  }

  lemma SpawnInv(s: State, pid: Pid)
    requires Inv(s) && Enabled(s, Spawn(pid))
    ensures Inv(Step(s, Spawn(pid)))
  {
    var s' := Step(s, Spawn(pid));
    assert forall j: nat | j < |s.cs| :: s'.cs[j] == s.cs[j];
    SpawnKeepsBooks(s, s', pid);
    if LineInFlight(s) {
      var x: nat :| Live(s, x) && (s.cs[x].phase.Settling? || Deciding(s.cs[x])) && Mine(s, s.cs[x]);
      assert Live(s', x) && Mine(s', s'.cs[x]);
    }
  }

  lemma DieInv(s: State, pid: Pid)
    requires Inv(s) && Enabled(s, Die(pid)) && !Harmful(s, pid)
    ensures Inv(Step(s, Die(pid)))
  {
    var s' := Step(s, Die(pid));
    if LineInFlight(s) {
      var x: nat :| Live(s, x) && (s.cs[x].phase.Settling? || Deciding(s.cs[x])) && Mine(s, s.cs[x]);
      assert s.cs[x].pid != pid ==> Live(s', x) && Mine(s', s'.cs[x]);
    }
  }

  lemma BeginInv(s: State, i: nat)
    requires Inv(s) && Enabled(s, Begin(i))
    ensures Inv(Step(s, Begin(i)))
  {
    QuietInv(s, Step(s, Begin(i)), i);
  }

  lemma RegisterInv(s: State, i: nat)
    requires Inv(s) && Enabled(s, Register(i))
    ensures Inv(Step(s, Register(i)))
  {
    QuietInv(s, Step(s, Register(i)), i);
  }

  lemma ReapInv(s: State, i: nat, w: WatchName)
    requires Inv(s) && Enabled(s, Reap(i, w))
    ensures Inv(Step(s, Reap(i, w)))
  {
    QuietInv(s, Step(s, Reap(i, w)), i);
  }

  lemma CreateInv(s: State, i: nat)
    requires Inv(s) && Enabled(s, Create(i))
    ensures Inv(Step(s, Create(i)))
  {
    var s' := Step(s, Create(i));
    if s.lock.None? {
      TidyKeepsBooks(s, s', i);
    } else {
      QuietInv(s, s', i);
    }
  }

  lemma ClaimInv(s: State, i: nat)
    requires Inv(s) && Enabled(s, Claim(i))
    ensures Inv(Step(s, Claim(i)))
  {
    QuietInv(s, Step(s, Claim(i)), i);
  }

  lemma ProbeInv(s: State, i: nat)
    requires Inv(s) && Enabled(s, Probe(i))
    ensures Inv(Step(s, Probe(i)))
  {
    QuietInv(s, Step(s, Probe(i)), i);
  }

  /** The gate opens only on a dead owner's line, so nobody owns and nobody decides. */
  lemma GateInv(s: State, i: nat)
    requires Inv(s) && Enabled(s, Gate(i))
    ensures Inv(Step(s, Gate(i)))
  {
    var s' := Step(s, Gate(i));
    if s'.cs[i].phase.Replacing? {
      TidyKeepsBooks(s, s', i);
    } else {
      QuietInv(s, s', i);
    }
  }

  lemma ReplaceInv(s: State, i: nat)
    requires Inv(s) && Enabled(s, Replace(i))
    ensures Inv(Step(s, Replace(i)))
  {
    var s' := Step(s, Replace(i));
    TidyKeepsBooks(s, s', i);
    assert Live(s', i) && Mine(s', s'.cs[i]);
  }

  lemma RefuseInv(s: State, i: nat, retry: bool)
    requires Inv(s) && Enabled(s, Refuse(i, retry))
    ensures Inv(Step(s, Refuse(i, retry)))
  {
    QuietInv(s, Step(s, Refuse(i, retry)), i);
  }

  lemma SettleInv(s: State, i: nat)
    requires Inv(s) && Enabled(s, Settle(i))
    ensures Inv(Step(s, Settle(i)))
  {
    var s' := Step(s, Settle(i));
    if Mine(s, s.cs[i]) {
      TidyKeepsBooks(s, s', i);
      assert Live(s', i) && Mine(s', s'.cs[i]);
    } else {
      QuietInv(s, s', i);
    }
  }

  /** `i` stays among the contenders in flight; a line in flight stays in flight. */
  lemma LineStaysInFlight(s: State, s': State, i: nat)
    requires LineInFlight(s) && Moved(s, s', i) && s'.lock == s.lock && s'.cs[i].token == s.cs[i].token
    requires s'.cs[i].phase.Settling? || Deciding(s'.cs[i])
    ensures LineInFlight(s')
  {
    var x: nat :| Live(s, x) && (s.cs[x].phase.Settling? || Deciding(s.cs[x])) && Mine(s, s.cs[x]);
    assert Live(s', x) && Mine(s', s'.cs[x]);
  }

  lemma SurveyInv(s: State, i: nat)
    requires Inv(s) && Enabled(s, Survey(i))
    ensures Inv(Step(s, Survey(i)))
  {
    var s' := Step(s, Survey(i));
    TidyKeepsBooks(s, s', i);
    LineStaysInFlight(s, s', i);
  }

  /** A pending name is crossed off only for a watch of the examiner itself or of a dead process. */
  lemma PendingKept(s: State, i: nat, w: WatchName, x: nat)
    requires Inv(s) && Enabled(s, Examine(i, w)) && Live(s, x) && x != i && Active(s.cs[x])
    ensures var c := Step(s, Examine(i, w)).cs[i]; c.phase.Scanning? ==> s.cs[x].watch in c.phase.pending
  {
    assert Registered(s, s.cs[x]) && WellShaped(s, s.cs[x]);
  }

  lemma ExamineInv(s: State, i: nat, w: WatchName)
    requires Inv(s) && Enabled(s, Examine(i, w))
    ensures Inv(Step(s, Examine(i, w)))
  {
    var s' := Step(s, Examine(i, w));
    TidyKeepsBooks(s, s', i);
    LineStaysInFlight(s, s', i);
    assert Safe(s') by {
      forall x: nat | Live(s, x) && x != i && Active(s.cs[x]) { PendingKept(s, i, w, x); }
    }
  }

  /** The verdict: an exhausted listing means that nobody else is past the gate, so the line in flight is `i`'s. */
  lemma WinInv(s: State, i: nat)
    requires Inv(s) && Enabled(s, Win(i))
    ensures Inv(Step(s, Win(i)))
  {
    var s' := Step(s, Win(i));
    assert Mine(s, s.cs[i]) && forall x: nat | Live(s, x) && x != i :: !Active(s.cs[x]);
    TidyKeepsBooks(s, s', i);
  }

  lemma LeaveInv(s: State, i: nat)
    requires Inv(s) && Enabled(s, Leave(i))
    ensures Inv(Step(s, Leave(i)))
  {
    QuietInv(s, Step(s, Leave(i)), i);
  }

  lemma RenewInv(s: State, i: nat)
    requires Inv(s) && Enabled(s, Renew(i))
    ensures Inv(Step(s, Renew(i)))
  {
    TidyKeepsBooks(s, Step(s, Renew(i)), i);
  }

  lemma UnlinkInv(s: State, i: nat)
    requires Inv(s) && Enabled(s, Unlink(i))
    ensures Inv(Step(s, Unlink(i)))
  {
    TidyKeepsBooks(s, Step(s, Unlink(i)), i);
  }

  lemma LifecycleInv(s: State, a: Action)
    requires Inv(s) && Enabled(s, a)
    requires a.BeginRenew? || a.BeginRelease? || a.CheckRelease? || a.Drop?
    ensures Inv(Step(s, a))
  {
    QuietInv(s, Step(s, a), a.i);
  }

  lemma StepInv(s: State, a: Action)
    requires Inv(s) && Enabled(s, a)
    requires a.Die? ==> !Harmful(s, a.pid)
    ensures Inv(Step(s, a))
  {
    match a
    case Spawn(pid) => SpawnInv(s, pid);
    case Die(pid) => DieInv(s, pid);
    case Begin(i) => BeginInv(s, i);
    case Register(i) => RegisterInv(s, i);
    case Reap(i, w) => ReapInv(s, i, w);
    case Create(i) => CreateInv(s, i);
    case Claim(i) => ClaimInv(s, i);
    case Probe(i) => ProbeInv(s, i);
    case Gate(i) => GateInv(s, i);
    case Replace(i) => ReplaceInv(s, i);
    case Refuse(i, retry) => RefuseInv(s, i, retry);
    case Settle(i) => SettleInv(s, i);
    case Survey(i) => SurveyInv(s, i);
    case Examine(i, w) => ExamineInv(s, i, w);
    case Win(i) => WinInv(s, i);
    case Leave(i) => LeaveInv(s, i);
    case Renew(i) => RenewInv(s, i);
    case Unlink(i) => UnlinkInv(s, i);
    case BeginRenew(_) => LifecycleInv(s, a);
    case BeginRelease(_) => LifecycleInv(s, a);
    case CheckRelease(_) => LifecycleInv(s, a);
    case Drop(_) => LifecycleInv(s, a);
  }

  /** Over every run without a harmful death, in every interleaving of any number of instances
      and processes: at most one live instance is an owner. */
  lemma {:induction false} MutualExclusion(s: State, run: seq<Action>)
    requires Init(s) || Inv(s)
    requires Legal(s, run)
    ensures Feasible(s, run) && Inv(After(s, run)) && Exclusive(After(s, run))
    decreases |run|
  {
    if Init(s) {
      InitInv(s);
    }
    LegalIsFeasible(s, run);
    if run != [] {
      StepInv(s, run[0]);
      MutualExclusion(Step(s, run[0]), run[1..]);
    }
  }
}
