/** Building an index generation while writers keep changing the store: the walk, the mutation queue, the seal. */
module GenerationBuilds {
  import opened Basics
  import opened Bytes
  import opened Recovery

  const REBUILD_YIELD_DOCS: nat := 512

  /** A queued write. `storeOnly` marks a rewrite of the expiry, which feeds no value-derived index. */
  datatype GenOp = SetOp(key: Bytes, rec: Rec, storeOnly: bool) | DelOp(key: Bytes)

  /** Where a record stands in the compound indexes; the expiry plays no part. */
  type Placing<!P> = (Bytes, Option<Bytes>) -> Option<P>

  function PlaceRec<P>(place: Placing<P>, rec: Rec): Option<P>
  {
    place(rec.value, rec.meta)
  }

  /** The detached states: store image, dt columns, compound placements. */
  datatype Detached<P> = Detached(image: Records, dt: map<Bytes, Option<Bytes>>, cmp: map<Bytes, P>)

  function PutPlace<P>(cmp: map<Bytes, P>, key: Bytes, p: Option<P>): map<Bytes, P>
  {
    if p.Some? then cmp[key := p.value] else cmp - {key}
  }

  /** Feed one record into all three states. */
  function Feed<P>(place: Placing<P>, d: Detached<P>, key: Bytes, rec: Rec): Detached<P>
  {
    Detached(d.image[key := rec], d.dt[key := rec.meta], PutPlace(d.cmp, key, PlaceRec(place, rec)))
  }

  function DrainOp<P>(place: Placing<P>, d: Detached<P>, op: GenOp): Detached<P>
  {
    match op
    case SetOp(key, rec, storeOnly) =>
      if storeOnly then Detached(d.image[key := rec], d.dt[key := rec.meta], d.cmp) else Feed(place, d, key, rec)
    case DelOp(key) => Detached(d.image - {key}, d.dt - {key}, d.cmp - {key})
  }

  predicate Refeeds(op: GenOp)
  {
    !(op.SetOp? && op.storeOnly)
  }

  /** What the states become once the queue is drained, and the keys the queue touches and re-feeds. */
  datatype Outlook<P> = Outlook(states: Detached<P>, touched: set<Bytes>, refed: set<Bytes>)

  ghost function Ahead<P>(place: Placing<P>, o: Outlook<P>, op: GenOp): Outlook<P>
  {
    Outlook(DrainOp(place, o.states, op), o.touched + {op.key}, if Refeeds(op) then o.refed + {op.key} else o.refed)
  }

  ghost function DrainAll<P>(place: Placing<P>, d: Detached<P>, queue: seq<GenOp>): Outlook<P>
  {
    if queue == [] then Outlook(d, {}, {}) else Ahead(place, DrainAll(place, d, queue[..|queue| - 1]), queue[|queue| - 1])
  }

  /** Two states agree on one key of the image, the dt columns and the placements. */
  ghost predicate SameAt<T>(a: map<Bytes, T>, b: map<Bytes, T>, k: Bytes)
  {
    (k in a <==> k in b) && (k in a ==> a[k] == b[k])
  }

  /** Draining treats every key on its own: feeding `key` beforehand shows only where no later operation on that
      key overrides it. */
  lemma {:induction false} DrainLocal<P>(place: Placing<P>, d: Detached<P>, key: Bytes, rec: Rec, queue: seq<GenOp>, k: Bytes)
    ensures var a, b := DrainAll(place, d, queue), DrainAll(place, Feed(place, d, key, rec), queue);
      && a.touched == b.touched && a.refed == b.refed
      && (k != key || k in a.touched ==> SameAt(a.states.image, b.states.image, k))
      && (k != key || k in a.refed ==> SameAt(a.states.cmp, b.states.cmp, k))
      && (k == key && k !in a.touched ==> k in b.states.image && b.states.image[k] == rec)
      && (k == key && k !in a.refed ==> SameAt(b.states.cmp, Feed(place, d, key, rec).cmp, k))
  {
    if queue != [] {
      DrainLocal(place, d, key, rec, queue[..|queue| - 1], k);
    }
  }

  // ---- the invariant of a build -----------------------------------------------------------------

  /** Once drained, the image holds what the store holds, except records whose time has passed and keys the walk
      has yet to visit. */
  ghost predicate ImageTracks(image: Records, store: Records, touched: set<Bytes>, remaining: seq<Bytes>, now: int)
  {
    && (forall k <- image :: if k in store then image[k] == store[k] else Expired(image[k], now))
    && (forall k <- store :: k in image || (k in remaining && k !in touched))
  }

  /** Once drained, every stored key that has been visited or re-fed stands where its record belongs. */
  ghost predicate PlacesTrack<P>(place: Placing<P>, d: Detached<P>, store: Records, refed: set<Bytes>, remaining: seq<Bytes>)
  {
    && (forall k <- d.cmp :: k in d.image)
    && (forall k <- store | k !in remaining || k in refed :: Lookup(d.cmp, k) == PlaceRec(place, store[k]))
  }

  function Lookup<P>(cmp: map<Bytes, P>, k: Bytes): Option<P>
  {
    if k in cmp then Some(cmp[k]) else None
  }

  ghost predicate DtTracks(dt: map<Bytes, Option<Bytes>>, image: Records)
  {
    dt.Keys == image.Keys && forall k <- image :: dt[k] == image[k].meta
  }

  lemma {:induction false} DrainKeepsDt<P>(place: Placing<P>, d: Detached<P>, queue: seq<GenOp>)
    requires DtTracks(d.dt, d.image)
    ensures var e := DrainAll(place, d, queue).states; DtTracks(e.dt, e.image)
  {
    if queue != [] {
      DrainKeepsDt(place, d, queue[..|queue| - 1]);
    }
  }

  lemma DrainSnoc<P>(place: Placing<P>, d: Detached<P>, queue: seq<GenOp>, op: GenOp)
    ensures DrainAll(place, d, queue + [op]) == Ahead(place, DrainAll(place, d, queue), op)
  {
    assert (queue + [op])[..|queue|] == queue;
  }

  /** Image and, as long as rewrites of expiries are steady, placements are on track. */
  ghost predicate Tracks<P>(place: Placing<P>, o: Outlook<P>, store: Records, remaining: seq<Bytes>, now: int, steady: bool)
  {
    && ImageTracks(o.states.image, store, o.touched, remaining, now)
    && (steady ==> PlacesTrack(place, o.states, store, o.refed, remaining))
  }

  function Effect(op: GenOp): RawOp
  {
    match op
    case SetOp(key, rec, _) => Set(key, rec)
    case DelOp(key) => Del(key)
  }

  /** A rewrite of the expiry finds the record there, and leaves it where it belongs. */
  ghost predicate KeepsPlace<P>(place: Placing<P>, op: GenOp, store: Records)
  {
    op.SetOp? && op.storeOnly ==> op.key in store && PlaceRec(place, op.rec) == PlaceRec(place, store[op.key])
  }

  /** One write, to the store and to the queue. */
  lemma WriteTracks<P>(place: Placing<P>, o: Outlook<P>, store: Records, remaining: seq<Bytes>, now: int, steady: bool, op: GenOp)
    requires Tracks(place, o, store, remaining, now, steady)
    ensures Tracks(place, Ahead(place, o, op), Apply(store, Effect(op)), remaining, now, steady && KeepsPlace(place, op, store))
  {
  }

  // ---- what the placements were told ------------------------------------------------------------

  /** The record last fed to the placements, for each key, after a write: a rewrite of the expiry feeds none. */
  ghost function FedBy(fed: Records, op: GenOp): Records
  {
    match op
    case SetOp(key, rec, storeOnly) => if storeOnly then fed else fed[key := rec]
    case DelOp(key) => fed - {key}
  }

  /** After a walk step: a write to the key that is still queued comes later. */
  ghost function FedByVisit<P>(fed: Records, o: Outlook<P>, key: Bytes, rec: Rec): Records
  {
    if key in o.refed then fed else fed[key := rec]
  }

  /** Where a key stands if it was placed by the record last fed. */
  ghost function FedPlace<P>(place: Placing<P>, fed: Records, k: Bytes): Option<P>
  {
    if k in fed then PlaceRec(place, fed[k]) else None
  }

  ghost predicate PlacesFed<P>(place: Placing<P>, cmp: map<Bytes, P>, fed: Records)
  {
    forall k :: Lookup(cmp, k) == FedPlace(place, fed, k)
  }

  lemma WriteFeeds<P>(place: Placing<P>, o: Outlook<P>, fed: Records, op: GenOp)
    requires PlacesFed(place, o.states.cmp, fed)
    ensures PlacesFed(place, Ahead(place, o, op).states.cmp, FedBy(fed, op))
  {
    forall k
      ensures Lookup(Ahead(place, o, op).states.cmp, k) == FedPlace(place, FedBy(fed, op), k)
    {
      assert Lookup(o.states.cmp, k) == FedPlace(place, fed, k);
    }
  }

  lemma VisitFeeds<P>(place: Placing<P>, states: Detached<P>, queue: seq<GenOp>, fed: Records, key: Bytes, rec: Rec)
    requires PlacesFed(place, DrainAll(place, states, queue).states.cmp, fed)
    ensures var o := DrainAll(place, states, queue);
      PlacesFed(place, DrainAll(place, Feed(place, states, key, rec), queue).states.cmp, FedByVisit(fed, o, key, rec))
  {
    var e := DrainAll(place, Feed(place, states, key, rec), queue);
    var told := FedByVisit(fed, DrainAll(place, states, queue), key, rec);
    forall k
      ensures Lookup(e.states.cmp, k) == FedPlace(place, told, k)
    {
      DrainLocal(place, states, key, rec, queue, k);
      assert Lookup(DrainAll(place, states, queue).states.cmp, k) == FedPlace(place, fed, k);
    }
  }

  datatype Health = Sound | Broken

  /** A build is sound: readers see the writes so far, the columns follow the image, what draining leads to is known,
      and unless the build is dead, that is on track. */
  ghost function HealthOf<P>(place: Placing<P>, store: Records, now: int, states: Detached<P>, queue: seq<GenOp>,
                             aborted: bool, remaining: seq<Bytes>, writes: Records, ahead: Outlook<P>, fed: Records,
                             steady: bool): Health
  {
    if && Agrees(store, writes, now) && DtTracks(states.dt, states.image)
       && ahead == DrainAll(place, states, queue) && PlacesFed(place, ahead.states.cmp, fed)
       && (!aborted ==> Tracks(place, ahead, store, remaining, now, steady))
    then Sound else Broken
  }

  // ---- the running build ------------------------------------------------------------------------

  class GenerationBuild<P(!new)> {
    const place: Placing<P>
    /** The live store, and the clock. */
    var store: Records
    var now: int
    /** The mutation queue of the registered build, and its abort flag. */
    var queue: seq<GenOp>
    var aborted: bool
    var states: Detached<P>
    /** The keys the walk has yet to visit. */
    var remaining: seq<Bytes>
    /** Every write since the start, and the store then. */
    ghost var first: Records
    ghost var history: seq<RawOp>
    /** Whether every rewrite of an expiry kept the record in its place. */
    ghost var steady: bool
    /** What draining the queue would lead to, and the record last fed to the placements for each key. */
    ghost var ahead: Outlook<P>
    ghost var fed: Records

    ghost predicate Valid()
      reads this
    {
      HealthOf(place, store, now, states, queue, aborted, remaining, Fold(first, history), ahead, fed, steady) == Sound
    }

    /** Register the queue on a running store; the walk will visit all its keys. */
    constructor (place: Placing<P>, store: Records, keys: seq<Bytes>, now: int)
      requires forall k <- store :: k in keys
      ensures Valid() && this.store == store && this.now == now && remaining == keys && !aborted && steady
      ensures first == store && history == [] && fed == map[] && this.place == place && queue == []
      ensures ahead == Outlook(Detached(map[], map[], map[]), {}, {})
    {
      this.place, this.store, this.now := place, store, now;
      queue, aborted, remaining := [], false, keys;
      states := Detached(map[], map[], map[]);
      first, history, steady, fed := store, [], true, map[];
      ahead := Outlook(Detached(map[], map[], map[]), {}, {});
    }

    /** The bookkeeping of every write. */
    ghost method Note(op: GenOp)
      requires Agrees(store, Fold(first, history), now)
      requires ahead == DrainAll(place, states, queue) && PlacesFed(place, ahead.states.cmp, fed)
      modifies this`history, this`ahead, this`fed
      ensures Agrees(Apply(store, Effect(op)), Fold(first, history), now)
      ensures ahead == Ahead(place, old(ahead), op) == DrainAll(place, states, queue + [op])
      ensures fed == FedBy(old(fed), op) && PlacesFed(place, ahead.states.cmp, fed)
    {
      HistoryMore(store, first, history, Effect(op), now);
      DrainSnoc(place, states, queue, op);
      WriteFeeds(place, ahead, fed, op);
      history := history + [Effect(op)];
      ahead := Ahead(place, ahead, op);
      fed := FedBy(fed, op);
    }

    /** A write through the ordinary path. */
    method Set(key: Bytes, rec: Rec)
      requires Valid()
      modifies this`store, this`queue, this`history, this`ahead, this`fed, this`steady
      ensures Valid() && store == old(store)[key := rec] && fed == old(fed)[key := rec] && steady == old(steady)
    {
      Push(SetOp(key, rec, false));
    }

    /** Change the store and queue the write. */
    method Push(op: GenOp)
      requires Valid()
      modifies this`store, this`queue, this`history, this`ahead, this`fed, this`steady
      ensures Valid() && store == Apply(old(store), Effect(op)) && fed == FedBy(old(fed), op)
      ensures steady <==> old(steady) && KeepsPlace(place, op, old(store))
    {
      if !aborted {
        WriteTracks(place, ahead, store, remaining, now, steady, op);
      }
      ghost var still := steady && KeepsPlace(place, op, store);
      Note(op);
      Commit(op, still);
    }

    /** Both sides take the write in one step. */
    method Commit(op: GenOp, ghost still: bool)
      requires Agrees(Apply(store, Effect(op)), Fold(first, history), now) && DtTracks(states.dt, states.image)
      requires ahead == DrainAll(place, states, queue + [op]) && PlacesFed(place, ahead.states.cmp, fed)
      requires !aborted ==> Tracks(place, ahead, Apply(store, Effect(op)), remaining, now, still)
      modifies this`store, this`queue, this`steady
      ensures Valid() && store == Apply(old(store), Effect(op)) && steady == still
    {
      steady := still;
      store := Apply(store, Effect(op));
      queue := queue + [op];
    }

    /** A deletion. */
    method Delete(key: Bytes)
      requires Valid()
      modifies this`store, this`queue, this`history, this`ahead, this`fed, this`steady
      ensures Valid() && store == old(store) - {key} && fed == old(fed) - {key} && steady == old(steady)
    {
      Push(DelOp(key));
    }

    /** A rewrite of the expiry. The record written is the one read before the write was prepared: by now the key
        can have been set again, or deleted. The placements are not told. */
    method Expire(key: Bytes, rec: Rec)
      requires Valid()
      modifies this`store, this`queue, this`history, this`ahead, this`fed, this`steady
      ensures Valid() && store == old(store)[key := rec] && fed == old(fed)
      ensures steady <==> old(steady) && key in old(store) && PlaceRec(place, rec) == PlaceRec(place, old(store)[key])
    {
      Push(SetOp(key, rec, true));
    }

    /** Time passes. */
    method Tick(later: int)
      requires Valid() && later >= now
      modifies this`now
      ensures Valid() && now == later
    {
      now := later;
    }

    /** An expired record is reaped; nobody tells the queue. */
    method Reap(key: Bytes)
      requires Valid()
      modifies this`store
      ensures Valid() && store == if key in old(store) && Expired(old(store)[key], now) then old(store) - {key} else old(store)
    {
      if key in store && Expired(store[key], now) {
        store := store - {key};
      }
    }

    /** A failed log write rewinds the store behind the queue's back. */
    method Rollback(key: Bytes, prev: Option<Rec>)
      requires Valid()
      modifies this`store, this`history, this`aborted
      ensures Valid() && aborted
    {
      var op := if prev.Some? then RawOp.Set(key, prev.value) else Del(key);
      HistoryMore(store, first, history, op, now);
      store := Apply(store, op);
      history := history + [op];
      aborted := true;
    }

    /** Anything that can happen at a yield. */
    method Others()
      requires Valid()
      modifies this`store, this`now, this`queue, this`aborted, this`history, this`ahead, this`fed, this`steady
      ensures Valid() && now >= old(now) && (old(aborted) ==> aborted) && (steady ==> old(steady))
    {
      var n: int := *;
      while n > 0
        invariant Valid() && now >= old(now) && (old(aborted) ==> aborted) && (steady ==> old(steady))
      {
        var event: int, key: Bytes, rec: Rec := *, *, *;
        if event == 0 {
          Set(key, rec);
        } else if event == 1 {
          Delete(key);
        } else if event == 2 {
          Expire(key, rec);
        } else if event == 3 {
          Reap(key);
        } else if event == 4 {
          Rollback(key, Some(rec));
        } else if event == 5 {
          Rollback(key, None);
        } else if event == 6 {
          aborted := true;
        } else if event >= now {
          Tick(event);
        }
        n := n - 1;
      }
    }

    /** Empty the queue onto the detached states. */
    method DrainQueue()
      requires Valid()
      modifies this`queue, this`states, this`ahead
      ensures Valid() && queue == [] && states == ahead.states == old(ahead).states
    {
      var ops := queue;
      Drained();
      queue := [];
      FeedAll(ops);
      ahead := Outlook(states, {}, {});
    }

    method FeedAll(ops: seq<GenOp>)
      modifies this`states
      ensures states == DrainAll(place, old(states), ops).states
    {
      ghost var was := states;
      for i := 0 to |ops|
        invariant states == DrainAll(place, was, ops[..i]).states
      {
        assert ops[..i + 1][..i] == ops[..i];
        states := DrainOp(place, states, ops[i]);
      }
      assert ops[..|ops|] == ops;
    }

    lemma Drained()
      requires Valid()
      ensures var d := DrainAll(place, states, queue).states;
        && d == ahead.states
        && HealthOf(place, store, now, d, [], aborted, remaining, Fold(first, history), Outlook(d, {}, {}), fed, steady) == Sound
    {
      DrainKeepsDt(place, states, queue);
    }

    /** The walk takes the next key; a key that is gone by now is passed over. */
    method Visit()
      requires Valid() && remaining != []
      modifies this`store, this`states, this`remaining, this`ahead, this`fed
      ensures Valid() && remaining == old(remaining)[1..] && (forall k <- store :: k in old(store))
      ensures var key := old(remaining)[0];
        fed == if key in store then FedByVisit(old(fed), old(ahead), key, store[key]) else old(fed)
    {
      var key := remaining[0];
      Reap(key);
      if key in store {
        Take(key);
      } else {
        GonePassed();
        remaining := remaining[1..];
      }
    }

    method Take(key: Bytes)
      requires Valid() && remaining != [] && key == remaining[0] && key in store
      modifies this`states, this`remaining, this`ahead, this`fed
      ensures Valid() && remaining == old(remaining)[1..] && fed == FedByVisit(old(fed), old(ahead), key, store[key])
    {
      VisitKeeps(key);
      var d := Feed(place, states, key, store[key]);
      ghost var told := FedByVisit(fed, ahead, key, store[key]);
      states, remaining := d, remaining[1..];
      ahead, fed := DrainAll(place, d, queue), told;
    }

    lemma GonePassed()
      requires Valid() && remaining != [] && remaining[0] !in store
      ensures HealthOf(place, store, now, states, queue, aborted, remaining[1..], Fold(first, history), ahead, fed, steady)
              == Sound
    {
      assert forall k <- store :: k in remaining ==> k in remaining[1..];
    }

    /** The whole build: walk the keys, at every yield drain the queue, look whether the build is still alive and
        let the others run; then seal. A sealed image holds exactly the live store, up to records whose time has
        passed, and with steady expiries the placements are those of the live records. */
    method Build() returns (sealed: bool)
      requires Valid()
      modifies this
      ensures Valid() && now >= old(now)
      ensures sealed ==> !aborted && queue == [] && remaining == []
      ensures sealed ==> Agrees(store, states.image, now) && DtTracks(states.dt, states.image)
      ensures sealed ==> forall t | t >= now :: Live(states.image, t) == Live(store, t) == Live(Fold(first, history), t)
      ensures sealed ==> PlacesFed(place, states.cmp, fed)
      ensures sealed ==> forall k <- store :: WellPlaced(k) <==> FedPlace(place, fed, k) == PlaceRec(place, store[k])
      ensures sealed && steady ==> (forall k <- states.cmp :: k in states.image) && (forall k <- store :: WellPlaced(k))
    {
      var docs := 0;
      while remaining != []
        invariant Valid() && now >= old(now)
        decreases |remaining|
      {
        Visit();
        docs := docs + 1;
        var heavy: bool := *;
        if docs >= REBUILD_YIELD_DOCS || heavy {
          docs := 0;
          DrainQueue();
          if aborted {
            return false;
          }
          Others();
        }
      }
      sealed := Seal();
      if sealed {
        Sealed();
      }
    }

    /** The end of the walk: drain once more, and seal unless the build is dead. */
    method Seal() returns (sealed: bool)
      requires Valid() && remaining == []
      modifies this`queue, this`states, this`ahead
      ensures Valid() && queue == [] && states == ahead.states == old(ahead).states && (sealed <==> !aborted)
    {
      DrainQueue();
      sealed := !aborted;
    }

    /** The key stands where its stored record belongs. */
    ghost predicate WellPlaced(k: Bytes)
      requires k in store
      reads this
    {
      Lookup(states.cmp, k) == PlaceRec(place, store[k])
    }

    lemma Sealed()
      requires Valid() && queue == [] && remaining == [] && !aborted
      ensures Agrees(store, states.image, now)
      ensures forall t | t >= now :: Live(states.image, t) == Live(store, t) == Live(Fold(first, history), t)
      ensures PlacesFed(place, states.cmp, fed)
      ensures forall k <- store :: WellPlaced(k) <==> FedPlace(place, fed, k) == PlaceRec(place, store[k])
      ensures steady ==> (forall k <- states.cmp :: k in states.image) && (forall k <- store :: WellPlaced(k))
    {
      assert ahead == Outlook(states, {}, {});
      forall t | t >= now
        ensures Live(states.image, t) == Live(store, t) == Live(Fold(first, history), t)
      {
        AgreesLive(store, states.image, now, t);
        AgreesLive(store, Fold(first, history), now, t);
      }
    }

    lemma VisitKeeps(key: Bytes)
      requires Valid() && remaining != [] && key == remaining[0] && key in store
      ensures var d := Feed(place, states, key, store[key]);
        HealthOf(place, store, now, d, queue, aborted, remaining[1..], Fold(first, history), DrainAll(place, d, queue),
                 FedByVisit(fed, ahead, key, store[key]), steady) == Sound
    {
      VisitFeeds(place, states, queue, fed, key, store[key]);
      if !aborted {
        VisitTracks(place, states, store, queue, remaining, now, steady);
      }
    }
  }

  // ---- two runs that seal a wrong placement -----------------------------------------------------

  /** Once the walk has passed `key`, the key is set anew, and a rewrite of its expiry commits the record it had read
      before: the seal holds the stale record, in the place of the newer one. */
  method StaleExpiry<P(!new)>(b: GenerationBuild<P>, key: Bytes, newer: Rec, stale: Rec) returns (sealed: bool)
    requires b.Valid() && b.remaining == [] && !b.aborted
    modifies b`store, b`queue, b`states, b`history, b`ahead, b`fed, b`steady
    ensures sealed && b.Valid() && b.queue == [] && b.store == old(b.store)[key := stale]
    ensures Lookup(b.states.cmp, key) == PlaceRec(b.place, newer)
    ensures b.WellPlaced(key) <==> PlaceRec(b.place, newer) == PlaceRec(b.place, stale)
  {
    LastWriteOnly(b.store, key, newer, stale);
    b.Set(key, newer);
    b.Expire(key, stale);
    sealed := SealOne(b, key);
  }

  /** The key is deleted before the rewrite of its expiry commits: it is back in the store, and placed nowhere. */
  method RevivedExpiry<P(!new)>(b: GenerationBuild<P>, key: Bytes, stale: Rec) returns (sealed: bool)
    requires b.Valid() && b.remaining == [] && !b.aborted
    modifies b`store, b`queue, b`states, b`history, b`ahead, b`fed, b`steady
    ensures sealed && b.Valid() && b.queue == [] && b.store == old(b.store)[key := stale]
    ensures key !in b.states.cmp && (b.WellPlaced(key) <==> PlaceRec(b.place, stale).None?)
  {
    LastWriteOnly(b.store, key, stale, stale);
    b.Delete(key);
    b.Expire(key, stale);
    sealed := SealOne(b, key);
  }

  lemma LastWriteOnly(store: Records, key: Bytes, rec: Rec, last: Rec)
    ensures store[key := rec][key := last] == store[key := last] == (store - {key})[key := last]
  {
  }

  method SealOne<P(!new)>(b: GenerationBuild<P>, key: Bytes) returns (sealed: bool)
    requires b.Valid() && b.remaining == [] && !b.aborted
    modifies b`queue, b`states, b`ahead
    ensures sealed && b.Valid() && b.queue == [] && Lookup(b.states.cmp, key) == FedPlace(b.place, b.fed, key)
  {
    sealed := b.Seal();
    b.Sealed();
  }

  /** So a build can seal a wrong placement: with placement by value, a walk over one key, and another value in
      between. */
  method SealsWrong(key: Bytes, before: Rec, newer: Rec, now: int) returns (b: GenerationBuild<Bytes>)
    requires before.value != newer.value
    ensures fresh(b) && b.Valid() && b.queue == [] && b.remaining == [] && !b.aborted
    ensures key in b.store && !b.WellPlaced(key)
  {
    b := WalkOne((value, meta) => Some(value), key, before, now);
    var _ := StaleExpiry(b, key, newer, before);
  }

  method WalkOne<P(!new)>(place: Placing<P>, key: Bytes, rec: Rec, now: int) returns (b: GenerationBuild<P>)
    ensures fresh(b) && b.Valid() && b.remaining == [] && !b.aborted && b.place == place
  {
    b := new GenerationBuild(place, map[key := rec], [key], now);
    b.Visit();
  }

  /** The store and the history take a write together. */
  lemma HistoryMore(store: Records, first: Records, history: seq<RawOp>, op: RawOp, now: int)
    requires Agrees(store, Fold(first, history), now)
    ensures Agrees(Apply(store, op), Fold(first, history + [op]), now)
  {
    assert (history + [op])[..|history|] == history;
  }

  lemma Rest(remaining: seq<Bytes>, k: Bytes)
    requires remaining != [] && k != remaining[0]
    ensures k in remaining <==> k in remaining[1..]
  {
  }

  /** Visiting a stored key keeps everything on track. */
  lemma VisitTracks<P>(place: Placing<P>, states: Detached<P>, store: Records, queue: seq<GenOp>, remaining: seq<Bytes>,
                       now: int, steady: bool)
    requires remaining != [] && remaining[0] in store
    requires Tracks(place, DrainAll(place, states, queue), store, remaining, now, steady)
    ensures var key := remaining[0];
      Tracks(place, DrainAll(place, Feed(place, states, key, store[key]), queue), store, remaining[1..], now, steady)
  {
    var key := remaining[0];
    var e := DrainAll(place, Feed(place, states, key, store[key]), queue);
    forall k
      ensures k in e.states.image ==> if k in store then e.states.image[k] == store[k] else Expired(e.states.image[k], now)
      ensures k in store ==> k in e.states.image || (k in remaining[1..] && k !in e.touched)
      ensures steady && k in e.states.cmp ==> k in e.states.image
      ensures steady && k in store && (k !in remaining[1..] || k in e.refed) ==> Lookup(e.states.cmp, k) == PlaceRec(place, store[k])
    {
      DrainLocal(place, states, key, store[key], queue, k);
      if k != key {
        Rest(remaining, k);
      }
    }
  }
}
