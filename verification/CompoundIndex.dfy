/** Compound indexes: per group value a skip list of keys ordered by the order column. */
module CompoundIndexes {
  import opened Basics
  import opened SkipLinks
  import opened Ordered
  import opened Ranges
  import opened ExactLists

  /** Where a key stands: its group and its order value. */
  datatype Placement<+G, +O> = Placement(group: G, order: O)

  type Lists<G(!new), O, P> = map<G, seq<Entry<O, P>>>
  type Places<P(!new), G, O> = map<P, Placement<G, O>>

  /** Every placed key is in exactly one slot, the one `byPk` names; every slot holds a placed key; every
      group list is a non-empty sorted list without duplicates. */
  ghost predicate Slots<G(!new), O(!new), P(!new)>(o: Order<O, P>, lists: Lists<G, O, P>, byPk: Places<P, G, O>)
  {
    && (forall g <- lists :: ListGood(o, lists[g]))
    && (forall g, e | g in lists && e in lists[g] :: e.val in byPk && byPk[e.val] == Placement(g, e.key))
    && (forall pk <- byPk :: byPk[pk].group in lists && Entry(byPk[pk].order, pk) in lists[byPk[pk].group])
  }

  ghost function ListAt<G(!new), O, P>(lists: Lists<G, O, P>, g: G): seq<Entry<O, P>>
  {
    if g in lists then lists[g] else []
  }

  /** An emptied group is reaped. */
  ghost function WithList<G(!new), O, P>(lists: Lists<G, O, P>, g: G, s: seq<Entry<O, P>>): Lists<G, O, P>
  {
    if s == [] then lists - {g} else lists[g := s]
  }

  // ---- moving one key ---------------------------------------------------------------------------

  lemma TakeOut<G(!new), O(!new), P(!new)>(o: Order<O, P>, lists: Lists<G, O, P>, byPk: Places<P, G, O>, pk: P)
    requires Exact(o) && Slots(o, lists, byPk) && pk in byPk
    ensures var Placement(g, at) := byPk[pk];
      g in lists && Slots(o, WithList(lists, g, DeleteEntry(o, lists[g], Entry(at, pk))), byPk - {pk})
  {
    var Placement(g, at) := byPk[pk];
    var e := Entry(at, pk);
    DeleteMembers(o, lists[g], e);
  }

  lemma PutIn<G(!new), O(!new), P(!new)>(o: Order<O, P>, lists: Lists<G, O, P>, byPk: Places<P, G, O>, pk: P,
                                         p: Placement<G, O>)
    requires Exact(o) && Slots(o, lists, byPk) && pk !in byPk
    ensures Slots(o, lists[p.group := InsertEntry(o, ListAt(lists, p.group), Entry(p.order, pk))], byPk[pk := p])
  {
    assert Entry(p.order, pk) !in ListAt(lists, p.group);
    InsertMembers(o, ListAt(lists, p.group), Entry(p.order, pk));
  }

  lemma SlotOf<G(!new), O(!new), P(!new)>(o: Order<O, P>, lists: Lists<G, O, P>, byPk: Places<P, G, O>, g: G, e: Entry<O, P>)
    requires Slots(o, lists, byPk)
    ensures e in ListAt(lists, g) <==> e.val in byPk && byPk[e.val] == Placement(g, e.key)
  {
  }

  lemma SameLists<G(!new), O(!new), P(!new)>(o: Order<O, P>, a: Lists<G, O, P>, b: Lists<G, O, P>, byPk: Places<P, G, O>, g: G)
    requires Exact(o) && Slots(o, a, byPk) && Slots(o, b, byPk)
    ensures ListAt(a, g) == ListAt(b, g) && (g in a <==> ListAt(a, g) != [])
  {
    forall e
      ensures e in ListAt(a, g) <==> e in ListAt(b, g)
    {
      SlotOf(o, a, byPk, g, e);
      SlotOf(o, b, byPk, g, e);
    }
    SortedUnique(o, ListAt(a, g), ListAt(b, g));
  }

  /** The lists are a function of the placements. */
  lemma SlotsUnique<G(!new), O(!new), P(!new)>(o: Order<O, P>, a: Lists<G, O, P>, b: Lists<G, O, P>, byPk: Places<P, G, O>)
    requires Exact(o) && Slots(o, a, byPk) && Slots(o, b, byPk)
    ensures a == b
  {
    forall g
      ensures ListAt(a, g) == ListAt(b, g) && (g in a <==> g in b)
    {
      SameLists(o, a, b, byPk, g);
      SameLists(o, b, a, byPk, g);
    }
  }

  // ---- the index --------------------------------------------------------------------------------

  class CompoundEntry<G(==, !new), O(==, !new), P(==, !new)> {
    const order: Order<O, P>
    /** Each group's list, by its contents: the skip list's own contracts say how they change. */
    var groups: map<G, seq<Entry<O, P>>>
    var byPk: map<P, Placement<G, O>>

    ghost predicate Valid()
      reads this
    {
      Exact(order) && Slots(order, groups, byPk)
    }

    constructor (order: Order<O, P>)
      requires Exact(order)
      ensures Valid() && this.order == order && byPk == map[]
    {
      this.order := order;
      groups := map[];
      byPk := map[];
    }

    /** Take a key out of its group's list and reap the group if that empties it. */
    method Leave(pk: P)
      requires Valid() && pk in byPk
      modifies this`groups
      ensures Slots(order, groups, byPk - {pk})
    {
      TakeOut(order, groups, byPk, pk);
      var prev := byPk[pk];
      if prev.group in groups {
        var list := DeleteEntry(order, groups[prev.group], Entry(prev.order, pk));
        groups := groups[prev.group := list];
        if |list| == 0 {
          groups := groups - {prev.group};
        }
      }
    }

    /** Put a key into its group's list, creating the group if it is new. */
    method Join(pk: P, p: Placement<G, O>, ghost rest: Places<P, G, O>)
      requires Exact(order) && rest == byPk - {pk} && Slots(order, groups, rest)
      modifies this`groups
      ensures Slots(order, groups, byPk[pk := p])
    {
      PutIn(order, groups, rest, pk, p);
      assert rest[pk := p] == byPk[pk := p];
      var list := if p.group in groups then groups[p.group] else [];
      groups := groups[p.group := InsertEntry(order, list, Entry(p.order, pk))];
    }

    /** Add or update a document; `placed` is none if the document has no place in this index. */
    method AddToEntry(pk: P, placed: Option<Placement<G, O>>)
      requires Valid()
      modifies this
      ensures Valid()
      ensures byPk == if placed.Some? then old(byPk)[pk := placed.value] else old(byPk) - {pk}
    {
      if pk in byPk && placed == Some(byPk[pk]) {
        return;
      }
      if pk in byPk {
        Leave(pk);
      }
      if placed.Some? {
        Join(pk, placed.value, byPk - {pk});
        byPk := byPk[pk := placed.value];
      } else {
        byPk := byPk - {pk};
      }
    }

    method RemoveFromEntry(pk: P)
      requires Valid()
      modifies this
      ensures Valid() && byPk == old(byPk) - {pk}
    {
      if pk in byPk {
        Leave(pk);
        byPk := byPk - {pk};
      }
    }

    /** Any run of changes on an empty index. */
    method Replay<D>(place: D -> Option<Placement<G, O>>, run: seq<Change<P, D>>)
      requires Valid() && byPk == map[]
      modifies this
      ensures Valid() && byPk == PlacesAfter(place, run)
    {
      for i := 0 to |run|
        invariant Valid() && byPk == PlacesAfter(place, run[..i])
      {
        assert run[..i + 1][..i] == run[..i];
        match run[i]
        case Put(pk, doc) => AddToEntry(pk, place(doc));
        case Drop(pk) => RemoveFromEntry(pk);
      }
      assert run[..|run|] == run;
    }

    /** Rebuild off to the side and swap the finished state in. */
    method Rebuild<D>(place: D -> Option<Placement<G, O>>, docs: seq<(P, D)>)
      requires Valid()
      modifies this
      ensures Valid() && byPk == PlacesAfter(place, Puts(docs))
    {
      var next := new CompoundEntry(order);
      for i := 0 to |docs|
        invariant fresh(next) && next.order == order && next.Valid()
        invariant next.byPk == PlacesAfter(place, Puts(docs[..i]))
      {
        assert docs[..i + 1][..i] == docs[..i];
        assert Puts(docs[..i + 1])[..i] == Puts(docs[..i]);
        next.AddToEntry(docs[i].0, place(docs[i].1));
      }
      assert docs[..|docs|] == docs;
      groups, byPk := next.groups, next.byPk;
    }

    /** Range over a group; an unknown group has nothing. */
    method Range(group: G, opts: RangeOptions<O>) returns (out: seq<Entry<O, P>>)
      requires Valid()
      ensures out == Answer(order, groups, group, opts)
    {
      if group in groups {
        out := Page(Scan(order, groups[group], opts.bounds, opts.reverse), opts.offset, opts.count);
      } else {
        out := [];
      }
    }
  }

  function Answer<G(==, !new), O(!new), P(!new)>(o: Order<O, P>, lists: Lists<G, O, P>, group: G, opts: RangeOptions<O>):
      seq<Entry<O, P>>
  {
    if group in lists then Page(Scan(o, lists[group], opts.bounds, opts.reverse), opts.offset, opts.count) else []
  }

  // ---- whole runs -------------------------------------------------------------------------------

  datatype Change<P, D> = Put(pk: P, doc: D) | Drop(pk: P)

  ghost function Puts<P, D>(docs: seq<(P, D)>): (r: seq<Change<P, D>>)
    ensures |r| == |docs| && forall i | 0 <= i < |r| :: r[i] == Put(docs[i].0, docs[i].1)
  {
    seq(|docs|, i requires 0 <= i < |docs| => Put(docs[i].0, docs[i].1))
  }

  /** The placements an index holds after a run of changes; `place` extracts the two columns of a document. */
  ghost function PlacesAfter<P(!new), D, G, O>(place: D -> Option<Placement<G, O>>, run: seq<Change<P, D>>): Places<P, G, O>
  {
    if run == [] then map[]
    else
      var before := PlacesAfter(place, run[..|run| - 1]);
      match run[|run| - 1]
      case Put(pk, doc) => if place(doc).Some? then before[pk := place(doc).value] else before - {pk}
      case Drop(pk) => before - {pk}
  }

  /** The latest documents after the run. */
  ghost function Latest<P(!new), D>(run: seq<Change<P, D>>): map<P, D>
  {
    if run == [] then map[]
    else
      var before := Latest(run[..|run| - 1]);
      match run[|run| - 1]
      case Put(pk, doc) => before[pk := doc]
      case Drop(pk) => before - {pk}
  }

  ghost predicate Reflects<P(!new), D, G, O>(place: D -> Option<Placement<G, O>>, byPk: Places<P, G, O>, docs: map<P, D>)
  {
    && (forall pk <- byPk :: pk in docs && place(docs[pk]) == Some(byPk[pk]))
    && (forall pk <- docs :: place(docs[pk]).Some? ==> pk in byPk)
  }

  lemma {:induction false} PlacesReflect<P(!new), D, G, O>(place: D -> Option<Placement<G, O>>, run: seq<Change<P, D>>)
    ensures Reflects(place, PlacesAfter(place, run), Latest(run))
  {
    if run != [] {
      PlacesReflect(place, run[..|run| - 1]);
    }
  }

  /** Whatever the run, an index that holds its placements answers every range like one rebuilt by putting
      just the latest documents, in any order. */
  lemma RangesLikeRebuild<P(!new), D, G(!new), O(!new)>(
      place: D -> Option<Placement<G, O>>, run: seq<Change<P, D>>, rebuild: seq<Change<P, D>>,
      o: Order<O, P>, lists: Lists<G, O, P>, rebuilt: Lists<G, O, P>, group: G, opts: RangeOptions<O>)
    requires Exact(o) && Latest(rebuild) == Latest(run)
    requires Slots(o, lists, PlacesAfter(place, run)) && Slots(o, rebuilt, PlacesAfter(place, rebuild))
    ensures lists == rebuilt && Answer(o, lists, group, opts) == Answer(o, rebuilt, group, opts)
  {
    PlacesReflect(place, run);
    PlacesReflect(place, rebuild);
    assert PlacesAfter(place, run) == PlacesAfter(place, rebuild);
    SlotsUnique(o, lists, rebuilt, PlacesAfter(place, run));
  }

  /** What a range over a group lists: exactly the keys whose latest document lies in the group, within bounds. */
  lemma RangeMembers<P(!new), D, G(!new), O(!new)>(
      place: D -> Option<Placement<G, O>>, run: seq<Change<P, D>>, o: Order<O, P>, lists: Lists<G, O, P>, group: G,
      b: Bounds<O>, reverse: bool, e: Entry<O, P>)
    requires Exact(o) && Slots(o, lists, PlacesAfter(place, run)) && Honoured(o, b, reverse)
    ensures e in Answer(o, lists, group, RangeOptions(b, 0, None, reverse)) <==>
      && e.val in Latest(run) && place(Latest(run)[e.val]) == Some(Placement(group, e.key))
      && OverLower(o, b, e) && UnderUpper(o, b, e)
  {
    PlacesReflect(place, run);
    SlotOf(o, lists, PlacesAfter(place, run), group, e);
    if group in lists {
      ScanMembers(o, lists[group], b, reverse, e);
    }
  }
}
