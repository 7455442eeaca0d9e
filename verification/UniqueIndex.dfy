/** Secondary indexes and their unique constraint: the incremental batch check decides exactly whether the
    state after the batch is unique. */
module UniqueIndexes {
  import opened Basics
  import opened Ordered
  import opened Ranges
  import opened ExactLists

  /** The postings of an equality index by term, those of a range index as one sorted list. */
  datatype Posting<S, P> = ByTerm(terms: map<S, set<P>>) | ByValue(list: seq<Entry<S, P>>)

  /** `value` lists what the document's field flattens to: the scalar keys for an equality index, the finite
      numbers for a range index; none if the field is undefined and the index sparse. */
  datatype Op<P, S> = Put(pk: P, value: Option<seq<S>>) | Drop(pk: P)

  ghost predicate Holds<S(!new), P(!new)>(post: Posting<S, P>, s: S, p: P)
  {
    match post
    case ByTerm(terms) => s in terms && p in terms[s]
    case ByValue(list) => Entry(s, p) in list
  }

  ghost predicate PostGood<S(!new), P(!new)>(o: Order<S, P>, post: Posting<S, P>)
  {
    match post
    case ByTerm(terms) => forall s <- terms :: terms[s] != {}
    case ByValue(list) => o.Sorted(list) && Single(o, list)
  }

  /** The postings and the reverse map agree. */
  ghost predicate Mirrors<S(!new), P(!new)>(post: Posting<S, P>, byPk: map<P, seq<S>>)
  {
    forall s, p {:trigger Holds(post, s, p)} :: Holds(post, s, p) <==> p in byPk && s in byPk[p]
  }

  // ---- single terms -----------------------------------------------------------------------------

  function AddTerm<S(==, !new), P(==, !new)>(o: Order<S, P>, post: Posting<S, P>, s: S, pk: P): Posting<S, P>
  {
    match post
    case ByTerm(terms) => ByTerm(terms[s := (if s in terms then terms[s] else {}) + {pk}])
    case ByValue(list) => ByValue(InsertEntry(o, list, Entry(s, pk)))
  }

  function DropTerm<S(==, !new), P(==, !new)>(o: Order<S, P>, post: Posting<S, P>, s: S, pk: P): Posting<S, P>
  {
    match post
    case ByTerm(terms) =>
      if s !in terms then post
      else
        var left := terms[s] - {pk};
        if left == {} then ByTerm(terms - {s}) else ByTerm(terms[s := left])
    case ByValue(list) => ByValue(DeleteEntry(o, list, Entry(s, pk)))
  }

  lemma AddTermHolds<S(!new), P(!new)>(o: Order<S, P>, post: Posting<S, P>, s: S, pk: P)
    requires Exact(o) && PostGood(o, post) && (post.ByValue? ==> !Holds(post, s, pk))
    ensures var now := AddTerm(o, post, s, pk);
      && PostGood(o, now) && now.ByValue? == post.ByValue?
      && forall t, q {:trigger Holds(now, t, q)} :: Holds(now, t, q) <==> Holds(post, t, q) || (t == s && q == pk)
  {
    if post.ByValue? {
      InsertMembers(o, post.list, Entry(s, pk));
    }
  }

  lemma DropTermHolds<S(!new), P(!new)>(o: Order<S, P>, post: Posting<S, P>, s: S, pk: P)
    requires Exact(o) && PostGood(o, post)
    ensures var now := DropTerm(o, post, s, pk);
      && PostGood(o, now) && now.ByValue? == post.ByValue?
      && forall t, q {:trigger Holds(now, t, q)} :: Holds(now, t, q) <==> Holds(post, t, q) && !(t == s && q == pk)
  {
    match post
    case ByTerm(terms) =>
      if s in terms {
        assert forall q :: q in terms[s] - {pk} <==> q in terms[s] && q != pk;
      }
    case ByValue(list) =>
      var e := Entry(s, pk);
      if e in list {
        DeleteMembers(o, list, e);
      } else {
        assert forall i | 0 <= i < |list| && o.Same(list[i], e) :: list[i] == e;
        DeleteExact(o, list, e);
      }
  }

  /** Inserting a document whose key is still indexed leaves the two sides in agreement exactly when no old
      term is lost; otherwise the lost terms stay behind as phantoms. */
  lemma InsertWithoutRemove<S(!new), P(!new)>(post: Posting<S, P>, now: Posting<S, P>, byPk: map<P, seq<S>>, pk: P, keys: seq<S>)
    requires Mirrors(post, byPk)
    requires forall t, q {:trigger Holds(now, t, q)} :: Holds(now, t, q) <==> Holds(post, t, q) || (q == pk && t in keys)
    ensures Mirrors(now, byPk[pk := keys]) <==> (pk in byPk ==> forall s <- byPk[pk] :: s in keys)
  {
    if pk in byPk && !(forall s <- byPk[pk] :: s in keys) {
      var s :| s in byPk[pk] && s !in keys;
      assert Holds(post, s, pk) && Holds(now, s, pk);
    }
    if pk in byPk ==> forall s <- byPk[pk] :: s in keys {
      forall t, q
        ensures Holds(now, t, q) <==> q in byPk[pk := keys] && t in byPk[pk := keys][q]
      {
        assert Holds(post, t, q) <==> q in byPk && t in byPk[q];
      }
    }
  }

  // ---- claims -----------------------------------------------------------------------------------

  function Terms<P, S>(op: Op<P, S>): seq<S>
  {
    if op.Put? && op.value.Some? then op.value.value else []
  }

  /** The last op per key wins. */
  ghost function LastOf<P(!new), S>(ops: seq<Op<P, S>>): (m: map<P, Op<P, S>>)
    ensures forall p <- m :: m[p].pk == p
  {
    if ops == [] then map[]
    else LastOf(ops[..|ops| - 1])[ops[|ops| - 1].pk := ops[|ops| - 1]]
  }

  /** What a key claims after the batch. */
  ghost function Claim<P(!new), S>(byPk: map<P, seq<S>>, last: map<P, Op<P, S>>, p: P): seq<S>
  {
    if p in last then Terms(last[p]) else if p in byPk then byPk[p] else []
  }

  /** No term is claimed by two keys. */
  ghost predicate UniqueAfter<P(!new), S(!new)>(byPk: map<P, seq<S>>, last: map<P, Op<P, S>>)
  {
    forall p, q, s | s in Claim(byPk, last, p) && s in Claim(byPk, last, q) :: p == q
  }

  /** The index `now` claims, key by key, what `was` claims after the batch. */
  ghost predicate Settled<P(!new), S(!new)>(now: map<P, seq<S>>, was: map<P, seq<S>>, last: map<P, Op<P, S>>)
  {
    forall p, s :: s in Claim(now, map[], p) <==> s in Claim(was, last, p)
  }

  lemma SettledStep<P(!new), S(!new)>(now: map<P, seq<S>>, mid: map<P, seq<S>>, was: map<P, seq<S>>,
                                      last: map<P, Op<P, S>>, op: Op<P, S>)
    requires Settled(mid, was, last) && Settled(now, mid, map[op.pk := op])
    ensures Settled(now, was, last[op.pk := op])
  {
    forall p, s
      ensures s in Claim(now, map[], p) <==> s in Claim(was, last[op.pk := op], p)
    {
      assert s in Claim(now, map[], p) <==> s in Claim(mid, map[op.pk := op], p);
      assert p != op.pk ==> Claim(mid, map[op.pk := op], p) == Claim(mid, map[], p);
    }
  }

  ghost predicate UniqueNow<P(!new), S(!new)>(byPk: map<P, seq<S>>)
  {
    UniqueAfter(byPk, map[])
  }

  /** Whether a value gets a place in the index at all. */
  predicate Indexed<S, P>(post: Posting<S, P>, value: Option<seq<S>>)
  {
    value.Some? && (post.ByValue? ==> |value.value| > 0)
  }

  // ---- the index --------------------------------------------------------------------------------

  class SecondaryIndex<S(==, !new), P(==, !new)> {
    const order: Order<S, P>
    const unique: bool
    var post: Posting<S, P>
    var byPk: map<P, seq<S>>

    ghost predicate Valid()
      reads this
    {
      Exact(order) && PostGood(order, post) && Mirrors(post, byPk)
    }

    constructor (order: Order<S, P>, unique: bool, range: bool)
      requires Exact(order)
      ensures Valid() && byPk == map[] && this.order == order && this.unique == unique && post.ByValue? == range
    {
      this.order, this.unique := order, unique;
      post := if range then ByValue([]) else ByTerm(map[]);
      byPk := map[];
    }

    /** Distinct elements, first occurrences first. */
    static method Dedupe(vals: seq<S>) returns (out: seq<S>)
      ensures NoRepeat(out) && forall s :: s in out <==> s in vals
    {
      out := [];
      for i := 0 to |vals|
        invariant NoRepeat(out) && forall s :: s in out <==> s in vals[..i]
      {
        if vals[i] !in out {
          out := out + [vals[i]];
        }
        assert vals[..i + 1] == vals[..i] + [vals[i]];
      }
      assert vals[..|vals|] == vals;
    }

    /** Insert one document's terms. A range index takes each distinct number once and relies on its caller to
        have removed the key before. */
    method InsertDoc(pk: P, value: Option<seq<S>>)
      requires Exact(order) && PostGood(order, post)
      requires post.ByValue? && value.Some? ==> forall s <- value.value :: !Holds(post, s, pk)
      modifies this
      ensures PostGood(order, post) && post.ByValue? == old(post).ByValue?
      ensures !Indexed(post, value) ==> post == old(post) && byPk == old(byPk)
      ensures Indexed(post, value) ==>
                && pk in byPk && byPk == old(byPk)[pk := byPk[pk]]
                && (forall s :: s in byPk[pk] <==> s in value.value)
                && forall s, q {:trigger Holds(post, s, q)} ::
                     Holds(post, s, q) <==> Holds(old(post), s, q) || (q == pk && s in value.value)
    {
      if value.None? {
        return;
      }
      var vals := value.value;
      if post.ByValue? {
        vals := Dedupe(vals);
        assert |value.value| > 0 ==> value.value[0] in vals;
        assert |vals| > 0 ==> vals[0] in value.value;
        if |vals| == 0 {
          return;
        }
      }
      for i := 0 to |vals|
        invariant PostGood(order, post) && post.ByValue? == old(post).ByValue? && byPk == old(byPk)
        invariant forall s, q {:trigger Holds(post, s, q)} ::
                    Holds(post, s, q) <==> Holds(old(post), s, q) || (q == pk && s in vals[..i])
      {
        assert vals[..i + 1] == vals[..i] + [vals[i]];
        AddTermHolds(order, post, vals[i], pk);
        post := AddTerm(order, post, vals[i], pk);
      }
      assert vals[..|vals|] == vals;
      byPk := byPk[pk := vals];
    }

    /** Remove one key from the index. */
    method RemoveKey(pk: P)
      requires Valid()
      modifies this
      ensures Valid() && byPk == old(byPk) - {pk} && post.ByValue? == old(post).ByValue?
    {
      if pk in byPk {
        var keys := byPk[pk];
        for i := 0 to |keys|
          invariant PostGood(order, post) && post.ByValue? == old(post).ByValue? && byPk == old(byPk)
          invariant forall s, q {:trigger Holds(post, s, q)} ::
                      Holds(post, s, q) <==> Holds(old(post), s, q) && !(q == pk && s in keys[..i])
        {
          assert keys[..i + 1] == keys[..i] + [keys[i]];
          DropTermHolds(order, post, keys[i], pk);
          post := DropTerm(order, post, keys[i], pk);
        }
        assert keys[..|keys|] == keys;
        byPk := byPk - {pk};
      }
    }

    /** The keys the index finds for a term: all of them in an equality index, the first in a range index. */
    method Probe(s: S) returns (holders: set<P>)
      requires Valid()
      ensures forall h <- holders :: Holds(post, s, h)
      ensures (exists h :: Holds(post, s, h)) ==> holders != {}
      ensures post.ByTerm? ==> forall h :: Holds(post, s, h) ==> h in holders
    {
      match post
      case ByTerm(terms) =>
        holders := if s in terms then terms[s] else {};
      case ByValue(list) =>
        var hit := Page(Scan(order, list, At(s), false), 0, Some(1));
        ProbeHit(order, list, s);
        holders := if |hit| > 0 then {hit[0].val} else {};
    }

    /** Every holder of the term is the claimant itself or a key the batch touches. */
    method Vacated(s: S, claimant: P, last: map<P, Op<P, S>>) returns (ok: bool)
      requires Valid()
      ensures !ok ==> !Clear(post, last, claimant, s)
      ensures ok && UniqueNow(byPk) ==> Clear(post, last, claimant, s)
    {
      var holders := Probe(s);
      var rest := holders;
      while rest != {}
        invariant rest <= holders
        invariant forall h <- holders - rest :: h == claimant || h in last
        decreases |rest|
      {
        var h :| h in rest;
        if h != claimant && h !in last {
          assert Holds(post, s, h);
          return false;
        }
        rest := rest - {h};
      }
      ok := true;
      if UniqueNow(byPk) {
        forall h | Holds(post, s, h)
          ensures h == claimant || h in last
        {
          var g :| g in holders;
          SoleHolder(post, byPk, s, g, h);
        }
      }
    }

    /** Would putting the document break this unique index? */
    method CheckUnique(pk: P, value: Option<seq<S>>) returns (ok: bool)
      requires Valid()
      ensures unique && !ok ==> !UniqueAfter(byPk, map[pk := Put(pk, value)])
      ensures unique && ok && UniqueNow(byPk) ==> UniqueAfter(byPk, map[pk := Put(pk, value)])
      ensures !unique ==> ok
    {
      if !unique {
        return true;
      }
      ghost var last := map[pk := Put(pk, value)];
      BatchExact(post, byPk, last);
      var vals := Terms(Put(pk, value));
      for i := 0 to |vals|
        invariant UniqueNow(byPk) ==> forall j | 0 <= j < i :: Clear(post, last, pk, vals[j])
      {
        var fits := Vacated(vals[i], pk, map[pk := Put(pk, value)]);
        if !fits {
          return false;
        }
      }
      return true;
    }

    /** One key's claims against the batch's earlier claims and the live index. */
    method CheckClaims(pk: P, last: map<P, Op<P, S>>, claimed0: map<S, P>, ghost done: seq<P>)
      returns (ok: bool, claimed: map<S, P>)
      requires Valid() && pk in last && pk !in done
      requires Claimed(claimed0, last, done)
      ensures ok ==> Claimed(claimed, last, done + [pk])
      ensures ok && UniqueNow(byPk) ==> forall s <- Terms(last[pk]) :: Clear(post, last, pk, s)
      ensures !ok ==> Conflict(post, last)
    {
      claimed := claimed0;
      var vals := Terms(last[pk]);
      for i := 0 to |vals|
        invariant forall s :: s in claimed <==> s in claimed0 || s in vals[..i]
        invariant forall s <- claimed :: claimed[s] == if s in vals[..i] then pk else claimed0[s]
        invariant forall s <- vals[..i] :: s !in claimed0
        invariant UniqueNow(byPk) ==> forall s <- vals[..i] :: Clear(post, last, pk, s)
      {
        var s := vals[i];
        assert vals[..i + 1] == vals[..i] + [s];
        if s in claimed && claimed[s] != pk {
          assert s in Terms(last[claimed[s]]);
          return false, claimed;
        }
        claimed := claimed[s := pk];
        var fits := Vacated(s, pk, last);
        if !fits {
          return false, claimed;
        }
      }
      assert vals[..|vals|] == vals;
      return true, claimed;
    }

    /** Does the state after the whole batch keep this unique index unique? */
    method CheckUniqueBatch(ops: seq<Op<P, S>>) returns (ok: bool)
      requires Valid()
      ensures unique && !ok ==> !UniqueAfter(byPk, LastOf(ops))
      ensures unique && ok && UniqueNow(byPk) ==> UniqueAfter(byPk, LastOf(ops))
      ensures !unique ==> ok
    {
      if !unique {
        return true;
      }
      var last, keys := LastOps(ops);
      BatchExact(post, byPk, last);
      var claimed: map<S, P> := map[];
      for i := 0 to |keys|
        invariant Claimed(claimed, last, keys[..i])
        invariant UniqueNow(byPk) ==> forall p <- keys[..i], s | p in last && s in Terms(last[p]) :: Clear(post, last, p, s)
      {
        assert keys[..i + 1] == keys[..i] + [keys[i]];
        var fits;
        fits, claimed := CheckClaims(keys[i], last, claimed, keys[..i]);
        if !fits {
          return false;
        }
      }
      assert keys[..|keys|] == keys;
      if UniqueNow(byPk) {
        NoConflict(post, last, claimed, keys);
      }
      return true;
    }

    /** The last op per key, and the keys in the order they first appear. */
    static method LastOps(ops: seq<Op<P, S>>) returns (last: map<P, Op<P, S>>, keys: seq<P>)
      ensures last == LastOf(ops) && NoRepeat(keys) && forall p :: p in keys <==> p in last
    {
      last, keys := map[], [];
      for i := 0 to |ops|
        invariant last == LastOf(ops[..i]) && NoRepeat(keys) && forall p :: p in keys <==> p in last
      {
        assert ops[..i + 1][..i] == ops[..i];
        if ops[i].pk !in last {
          keys := keys + [ops[i].pk];
        }
        last := last[ops[i].pk := ops[i]];
      }
      assert ops[..|ops|] == ops;
    }

    /** Apply one op the way the write path does: remove the key, then insert its new document. */
    method ApplyOp(op: Op<P, S>)
      requires Valid()
      modifies this
      ensures Valid() && post.ByValue? == old(post).ByValue?
      ensures Settled(byPk, old(byPk), map[op.pk := op])
    {
      RemoveKey(op.pk);
      if op.Put? {
        ghost var before := post;
        ghost var rest := byPk;
        InsertDoc(op.pk, op.value);
        if Indexed(post, op.value) {
          InsertWithoutRemove(before, post, rest, op.pk, byPk[op.pk]);
        }
      }
    }

    method ApplyBatch(ops: seq<Op<P, S>>)
      requires Valid()
      modifies this
      ensures Valid()
      ensures Settled(byPk, old(byPk), LastOf(ops))
    {
      for i := 0 to |ops|
        invariant Valid()
        invariant Settled(byPk, old(byPk), LastOf(ops[..i]))
      {
        assert ops[..i + 1][..i] == ops[..i];
        ghost var mid := byPk;
        ApplyOp(ops[i]);
        SettledStep(byPk, mid, old(byPk), LastOf(ops[..i]), ops[i]);
      }
      assert ops[..|ops|] == ops;
    }

    /** A checked batch: applied exactly if the state after it is unique, and the index stays unique. */
    method Transact(ops: seq<Op<P, S>>) returns (ok: bool)
      requires Valid() && unique && UniqueNow(byPk)
      modifies this
      ensures Valid() && UniqueNow(byPk)
      ensures ok <==> UniqueAfter(old(byPk), LastOf(ops))
      ensures !ok ==> post == old(post) && byPk == old(byPk)
      ensures ok ==> Settled(byPk, old(byPk), LastOf(ops))
    {
      ok := CheckUniqueBatch(ops);
      if ok {
        ApplyBatch(ops);
      }
    }
  }

  function At<S(!new)>(s: S): Bounds<S>
  {
    Bounds(Some(s), None, Some(s), None)
  }

  /** A one-entry range over a single value hits exactly if somebody holds it. */
  lemma ProbeHit<S(!new), P(!new)>(o: Order<S, P>, list: seq<Entry<S, P>>, s: S)
    requires Exact(o) && o.Sorted(list) && Single(o, list)
    ensures var hit := Page(Scan(o, list, At(s), false), 0, Some(1));
      && (|hit| > 0 ==> Holds(ByValue(list), s, hit[0].val))
      && ((exists h :: Holds(ByValue(list), s, h)) ==> |hit| > 0)
  {
    var scan := Scan(o, list, At(s), false);
    ScanSelects(o, list, At(s), false);
    PageSlices(scan, 0, Some(1));
    if scan != [] {
      assert scan[0] in scan;
      FilterMembers(list, InBounds(o, At(s)), scan[0]);
      assert o.cmpK(scan[0].key, s) == 0;
      assert o.Same(scan[0], Entry(s, scan[0].val));
    }
    if h :| Holds(ByValue(list), s, h) {
      FilterMembers(list, InBounds(o, At(s)), Entry(s, h));
    }
  }

  // ---- the batch check --------------------------------------------------------------------------

  ghost predicate Clear<S(!new), P(!new)>(post: Posting<S, P>, last: map<P, Op<P, S>>, claimant: P, s: S)
  {
    forall h | Holds(post, s, h) :: h == claimant || h in last
  }

  /** The batch claims of the keys in `done`, without a conflict so far. */
  ghost predicate Claimed<S(!new), P(!new)>(claimed: map<S, P>, last: map<P, Op<P, S>>, done: seq<P>)
  {
    && (forall s <- claimed :: claimed[s] in done && claimed[s] in last && s in Terms(last[claimed[s]]))
    && (forall p, s | p in done && p in last && s in Terms(last[p]) :: s in claimed && claimed[s] == p)
  }

  /** Two touched keys claim the same term, or an untouched key holds a claimed one. */
  ghost predicate Conflict<S(!new), P(!new)>(post: Posting<S, P>, last: map<P, Op<P, S>>)
  {
    || (exists p, q, s :: p in last && q in last && p != q && s in Terms(last[p]) && s in Terms(last[q]))
    || (exists p, s :: p in last && s in Terms(last[p]) && !Clear(post, last, p, s))
  }

  lemma NoConflict<S(!new), P(!new)>(post: Posting<S, P>, last: map<P, Op<P, S>>, claimed: map<S, P>, keys: seq<P>)
    requires Claimed(claimed, last, keys) && forall p <- last :: p in keys
    requires forall p <- keys, s | p in last && s in Terms(last[p]) :: Clear(post, last, p, s)
    ensures !Conflict(post, last)
  {
    forall p, s | p in last && s in Terms(last[p])
      ensures s in claimed && claimed[s] == p && Clear(post, last, p, s)
    {
      assert p in keys;
    }
    if p, q, s :| p in last && q in last && p != q && s in Terms(last[p]) && s in Terms(last[q]) {
      assert claimed[s] == p && claimed[s] == q;
    }
  }

  lemma SoleHolder<S(!new), P(!new)>(post: Posting<S, P>, byPk: map<P, seq<S>>, s: S, g: P, h: P)
    requires Mirrors(post, byPk) && UniqueNow(byPk) && Holds(post, s, g) && Holds(post, s, h)
    ensures g == h
  {
    assert s in Claim(byPk, map[], g) && s in Claim(byPk, map[], h);
  }

  /** On an index that is unique now, the state after the batch is unique exactly if there is no conflict,
      although only the terms the batch claims are looked at. */
  lemma BatchExact<S(!new), P(!new)>(post: Posting<S, P>, byPk: map<P, seq<S>>, last: map<P, Op<P, S>>)
    requires Mirrors(post, byPk)
    ensures Conflict(post, last) ==> !UniqueAfter(byPk, last)
    ensures UniqueNow(byPk) && !Conflict(post, last) ==> UniqueAfter(byPk, last)
  {
    if Conflict(post, last) {
      if p, q, s :| p in last && q in last && p != q && s in Terms(last[p]) && s in Terms(last[q]) {
        assert s in Claim(byPk, last, p) && s in Claim(byPk, last, q);
      } else {
        var p, s :| p in last && s in Terms(last[p]) && !Clear(post, last, p, s);
        var h :| Holds(post, s, h) && h != p && h !in last;
        assert s in Claim(byPk, last, p) && s in Claim(byPk, last, h);
      }
    }
    if UniqueNow(byPk) && !Conflict(post, last) {
      forall p, q, s | s in Claim(byPk, last, p) && s in Claim(byPk, last, q)
        ensures p == q
      {
        if p !in last {
          assert Holds(post, s, p);
          assert q in last ==> Clear(post, last, q, s);
          assert s in Claim(byPk, map[], p);
        }
        if q !in last {
          assert Holds(post, s, q);
          assert p in last ==> Clear(post, last, p, s);
          assert s in Claim(byPk, map[], q);
        }
      }
    }
  }
}
