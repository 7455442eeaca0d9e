/** The close gate with an in-flight count: the tracker object and the guarantees it gives over
    every run of its clients. */
module Gates {
  import opened Basics

  /** The tracker's state. A promise is a number; `resolved` holds the promises resolved so far. */
  datatype Gate = Gate(
    count: nat,
    open: bool,
    pausers: nat,
    closed: bool,
    waiting: seq<nat>,
    resolved: set<nat>,
    minted: nat,
    closing: Option<nat>)

  const Fresh := Gate(0, true, 0, false, [], {}, 0, None)

  function Wait(g: Gate): Gate
  {
    if g.count == 0 then g.(resolved := g.resolved + {g.minted}, minted := g.minted + 1)
    else g.(waiting := g.waiting + [g.minted], minted := g.minted + 1)
  }

  function AfterEnter(g: Gate): Gate
  {
    if g.open then g.(count := g.count + 1) else g
  }

  function AfterLeave(g: Gate): Gate
  {
    if g.count == 0 then g
    else if g.count == 1 then g.(count := 0, waiting := [], resolved := g.resolved + set i | i in g.waiting)
    else g.(count := g.count - 1)
  }

  function AfterPause(g: Gate): Gate
  {
    Wait(g.(pausers := g.pausers + 1, open := false))
  }

  function AfterResume(g: Gate): Gate
  {
    if g.closed then g
    else
      var left := if g.pausers > 0 then g.pausers - 1 else 0;
      g.(pausers := left, open := g.open || left == 0)
  }

  function AfterClose(g: Gate): Gate
  {
    if g.closing.Some? then g
    else Wait(g.(closed := true, open := false)).(closing := Some(g.minted))
  }

  class OpTracker {
    var count: nat
    var open: bool
    var pausers: nat
    var permanentlyClosed: bool
    var idleWaiters: seq<nat>
    var resolved: set<nat>
    var minted: nat
    var closePromise: Option<nat>

    function View(): Gate
      reads this
    {
      Gate(count, open, pausers, permanentlyClosed, idleWaiters, resolved, minted, closePromise)
    }

    constructor ()
      ensures View() == Fresh
    {
      count, open, pausers, permanentlyClosed := 0, true, 0, false;
      idleWaiters, resolved, minted, closePromise := [], {}, 0, None;
    }

    method Enter() returns (entered: bool)
      modifies this
      ensures entered == old(open) && View() == AfterEnter(old(View()))
    {
      if !open {
        return false;
      }
      count := count + 1;
      return true;
    }

    /** Err models the exception thrown for a leave without an enter. */
    method Leave() returns (r: Result<(), string>)
      modifies this
      ensures r.Ok? <==> old(count) > 0
      ensures View() == AfterLeave(old(View()))
    {
      if count <= 0 {
        return Err("OpTracker: leave() without a matching enter()");
      }
      count := count - 1;
      if count == 0 {
        var waiters := idleWaiters;
        idleWaiters := [];
        var i := 0;
        while i < |waiters|
          invariant 0 <= i <= |waiters|
          invariant resolved == old(resolved) + set w | w in waiters[..i]
          invariant View() == old(View()).(count := 0, waiting := [], resolved := resolved)
        {
          assert waiters[..i + 1] == waiters[..i] + [waiters[i]];
          resolved := resolved + {waiters[i]};
          i := i + 1;
        }
        assert waiters[..i] == waiters;
      }
      return Ok(());
    }

    method WhenIdle() returns (promise: nat)
      modifies this
      ensures promise == old(minted) && View() == Wait(old(View()))
    {
      promise := minted;
      minted := minted + 1;
      if count == 0 {
        resolved := resolved + {promise};
      } else {
        idleWaiters := idleWaiters + [promise];
      }
    }

    method Pause() returns (promise: nat)
      modifies this
      ensures promise == old(minted) && View() == AfterPause(old(View()))
    {
      pausers := pausers + 1;
      open := false;
      promise := WhenIdle();
    }

    method Resume()
      modifies this
      ensures View() == AfterResume(old(View()))
    {
      if permanentlyClosed {
        return;
      }
      if pausers > 0 {
        pausers := pausers - 1;
      }
      if pausers == 0 {
        open := true;
      }
    }

    method Close() returns (promise: nat)
      modifies this
      ensures View() == AfterClose(old(View())) && Some(promise) == closePromise
    {
      if closePromise.None? {
        permanentlyClosed := true;
        open := false;
        var p := WhenIdle();
        closePromise := Some(p);
      }
      promise := closePromise.value;
    }
  }

  // ---- runs of clients -----------------------------------------------------------------------

  /** What a client may do; a pauser resumes the pause whose promise it holds. */
  datatype Use = Enter | Leave | WhenIdle | Pause | Resume(pause: nat) | Close

  /** The gate together with the pauses not resumed yet, named by their drain promise. */
  datatype World = World(g: Gate, pauses: set<nat>)

  /** Every resume has an earlier pause of its own, every leave an enter. */
  predicate Matched(w: World, u: Use)
  {
    match u
    case Leave => w.g.count > 0
    case Resume(p) => p in w.pauses
    case _ => true
  }

  function Do(w: World, u: Use): World
  {
    match u
    case Enter => w.(g := AfterEnter(w.g))
    case Leave => w.(g := AfterLeave(w.g))
    case WhenIdle => w.(g := Wait(w.g))
    case Pause => World(AfterPause(w.g), w.pauses + {w.g.minted})
    case Resume(p) => World(AfterResume(w.g), w.pauses - {p})
    case Close => w.(g := AfterClose(w.g))
  }

  predicate AllMatched(w: World, uses: seq<Use>)
    decreases |uses|
  {
    uses == [] || (Matched(w, uses[0]) && AllMatched(Do(w, uses[0]), uses[1..]))
  }

  function DoAll(w: World, uses: seq<Use>): World
    decreases |uses|
  {
    if uses == [] then w else DoAll(Do(w, uses[0]), uses[1..])
  }

  /** Every promise handed out is waiting or resolved, never both; nobody waits for an idle tracker. */
  ghost predicate PromisesSound(g: Gate)
  {
    && (g.count == 0 ==> g.waiting == [])
    && (forall p: nat | p < g.minted :: p in g.waiting || p in g.resolved)
    && (forall p <- g.waiting :: p < g.minted && p !in g.resolved)
    && (forall p <- g.resolved :: p < g.minted)
    && (forall i, j | 0 <= i < j < |g.waiting| :: g.waiting[i] != g.waiting[j])
  }

  ghost predicate GateSound(w: World)
  {
    var g := w.g;
    // the gate is open exactly when it is not closed and no pause is outstanding
    && (g.open <==> !g.closed && w.pauses == {})
    && (!g.closed ==> g.pausers == |w.pauses|)
    // from the moment a pause has drained until its pauser resumes, nothing is in flight
    && (forall p <- w.pauses :: p < g.minted && (p in g.resolved ==> g.count == 0))
    // the close promise resolves only on an empty tracker
    && (g.closing.Some? <==> g.closed)
    && (g.closing.Some? ==> g.closing.value < g.minted && (g.closing.value in g.resolved ==> g.count == 0))
  }

  ghost predicate Sound(w: World)
  {
    PromisesSound(w.g) && GateSound(w)
  }

  lemma WaitSound(g: Gate)
    requires PromisesSound(g)
    ensures PromisesSound(Wait(g))
  {
    var h := Wait(g);
    forall i, j | 0 <= i < j < |h.waiting|
      ensures h.waiting[i] != h.waiting[j]
    {
      assert g.waiting[i] in g.waiting;
    }
    forall p: nat | p < h.minted
      ensures p in h.waiting || p in h.resolved
    {
      if p == g.minted && g.count > 0 {
        assert h.waiting[|g.waiting|] == p;
      } else if p in g.waiting {
        var i :| 0 <= i < |g.waiting| && g.waiting[i] == p;
        assert g.count > 0 && h.waiting[i] == p;
      }
    }
  }

  lemma LeaveSound(w: World)
    requires Sound(w) && w.g.count > 0
    ensures Sound(Do(w, Leave))
  {
  }

  lemma PauseSound(w: World)
    requires Sound(w)
    ensures Sound(Do(w, Pause))
  {
    WaitSound(w.g.(pausers := w.g.pausers + 1, open := false));
  }

  lemma ResumeSound(w: World, p: nat)
    requires Sound(w) && p in w.pauses
    ensures Sound(Do(w, Resume(p)))
  {
    assert |w.pauses - {p}| == |w.pauses| - 1;
  }

  lemma CloseSound(w: World)
    requires Sound(w)
    ensures Sound(Do(w, Close))
  {
    WaitSound(w.g.(closed := true, open := false));
  }

  lemma DoSound(w: World, u: Use)
    requires Sound(w) && Matched(w, u)
    ensures Sound(Do(w, u))
    ensures w.g.resolved <= Do(w, u).g.resolved
    ensures w.g.closed ==> Do(w, u).g.closed && !Do(w, u).g.open
  {
    match u
    case Enter =>
    case Leave => LeaveSound(w);
    case WhenIdle => WaitSound(w.g);
    case Pause => PauseSound(w);
    case Resume(p) => ResumeSound(w, p);
    case Close => CloseSound(w);
  }

  /** Over every run of matched uses the guarantees of the tracker hold, promises stay resolved,
      and close is terminal. */
  lemma {:induction false} RunSound(w: World, uses: seq<Use>)
    requires Sound(w) && AllMatched(w, uses)
    ensures Sound(DoAll(w, uses))
    ensures w.g.resolved <= DoAll(w, uses).g.resolved
    ensures w.g.closed ==> DoAll(w, uses).g.closed && !DoAll(w, uses).g.open
    decreases |uses|
  {
    if uses != [] {
      DoSound(w, uses[0]);
      RunSound(Do(w, uses[0]), uses[1..]);
    }
  }

  /** From a new tracker. */
  lemma TrackerGuarantees(uses: seq<Use>)
    requires AllMatched(World(Fresh, {}), uses)
    ensures Sound(DoAll(World(Fresh, {}), uses))
  {
    RunSound(World(Fresh, {}), uses);
  }
}
