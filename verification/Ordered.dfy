/** Entries ordered by a key comparator with a tie-break on the value, and what inserting, deleting,
    ranking and range scanning mean on a sorted list of them. */
module Ordered {
  import opened Basics
  import opened SkipLinks

  datatype Entry<K, V> = Entry(key: K, val: V)

  type Comparator<!T> = (T, T) -> int

  ghost predicate TotalOrder<T(!new)>(cmp: Comparator<T>)
  {
    && (forall a :: cmp(a, a) == 0)
    && (forall a, b :: cmp(a, b) < 0 <==> cmp(b, a) > 0)
    && (forall a, b, c :: cmp(a, b) <= 0 && cmp(b, c) <= 0 ==> cmp(a, c) <= 0)
  }

  /** The two comparators of a list. */
  datatype Order<!K(!new), !V(!new)> = Order(cmpK: Comparator<K>, cmpV: Comparator<V>) {
    ghost predicate Total() {
      TotalOrder(cmpK) && TotalOrder(cmpV)
    }

    predicate Less(a: Entry<K, V>, b: Entry<K, V>) {
      var c := cmpK(a.key, b.key);
      c < 0 || (c == 0 && cmpV(a.val, b.val) < 0)
    }

    predicate Same(a: Entry<K, V>, b: Entry<K, V>) {
      cmpK(a.key, b.key) == 0 && cmpV(a.val, b.val) == 0
    }

    ghost predicate Sorted(s: seq<Entry<K, V>>) {
      forall i, j | 0 <= i < j < |s| :: !Less(s[j], s[i])
    }

    lemma LessTransitive(a: Entry<K, V>, b: Entry<K, V>, c: Entry<K, V>)
      requires Total() && !Less(b, a) && Less(b, c)
      ensures Less(a, c)
    {
    }

    lemma NotLessTransitive(a: Entry<K, V>, b: Entry<K, V>, c: Entry<K, V>)
      requires Total() && !Less(b, a) && !Less(c, b)
      ensures !Less(c, a)
    {
    }

    /** Exactly one of less, same and greater. */
    lemma Trichotomy(a: Entry<K, V>, b: Entry<K, V>)
      requires Total()
      ensures Less(a, b) ==> !Less(b, a) && !Same(a, b)
      ensures !Less(a, b) && !Less(b, a) <==> Same(a, b)
      ensures Same(a, b) <==> Same(b, a)
    {
    }
  }

  /** The number of leading elements that satisfy `p`. */
  function Leading<T>(s: seq<T>, p: T -> bool): (n: nat)
    ensures n <= |s|
    ensures forall i | 0 <= i < n :: p(s[i])
    ensures n < |s| ==> !p(s[n])
  {
    if s == [] || !p(s[0]) then 0 else 1 + Leading(s[1..], p)
  }

  /** Once false, `p` stays false along the list. */
  ghost predicate DownClosed<T>(s: seq<T>, p: T -> bool)
  {
    forall i, j | 0 <= i < j < |s| && p(s[j]) :: p(s[i])
  }

  function Below<K(!new), V(!new)>(o: Order<K, V>, e: Entry<K, V>): Entry<K, V> -> bool
  {
    (x: Entry<K, V>) => o.Less(x, e)
  }

  function UpTo<K(!new), V(!new)>(o: Order<K, V>, e: Entry<K, V>): Entry<K, V> -> bool
  {
    (x: Entry<K, V>) => o.Less(x, e) || o.Same(x, e)
  }

  /** Keys below the bound, or at it too when `strict` asks for entries beyond the bound. */
  function Short<K(!new), V(!new)>(o: Order<K, V>, bound: K, strict: bool): Entry<K, V> -> bool
  {
    (x: Entry<K, V>) => if strict then o.cmpK(x.key, bound) <= 0 else o.cmpK(x.key, bound) < 0
  }

  lemma BelowDownClosed<K(!new), V(!new)>(o: Order<K, V>, s: seq<Entry<K, V>>, e: Entry<K, V>)
    requires o.Total() && o.Sorted(s)
    ensures DownClosed(s, Below(o, e))
  {
    forall i, j | 0 <= i < j < |s| && Below(o, e)(s[j])
      ensures Below(o, e)(s[i])
    {
      o.LessTransitive(s[i], s[j], e);
    }
  }

  lemma UpToDownClosed<K(!new), V(!new)>(o: Order<K, V>, s: seq<Entry<K, V>>, e: Entry<K, V>)
    requires o.Total() && o.Sorted(s)
    ensures DownClosed(s, UpTo(o, e))
  {
    forall i, j | 0 <= i < j < |s| && UpTo(o, e)(s[j])
      ensures UpTo(o, e)(s[i])
    {
      o.Trichotomy(s[j], e);
      o.Trichotomy(s[i], e);
      o.NotLessTransitive(s[i], s[j], e);
    }
  }

  lemma ShortDownClosed<K(!new), V(!new)>(o: Order<K, V>, s: seq<Entry<K, V>>, bound: K, strict: bool)
    requires o.Total() && o.Sorted(s)
    ensures DownClosed(s, Short(o, bound, strict))
  {
  }

  // ---- insertion and deletion -----------------------------------------------------------------

  function InsertPoint<K(!new), V(!new)>(o: Order<K, V>, s: seq<Entry<K, V>>, e: Entry<K, V>): (k: nat)
    ensures k <= |s|
  {
    Leading(s, Below(o, e))
  }

  function InsertEntry<K(!new), V(!new)>(o: Order<K, V>, s: seq<Entry<K, V>>, e: Entry<K, V>): seq<Entry<K, V>>
  {
    Inserted(s, InsertPoint(o, s, e), e)
  }

  ghost predicate Contains<K(!new), V(!new)>(o: Order<K, V>, s: seq<Entry<K, V>>, e: Entry<K, V>)
  {
    exists i :: 0 <= i < |s| && o.Same(s[i], e)
  }

  function DeleteEntry<K(!new), V(!new)>(o: Order<K, V>, s: seq<Entry<K, V>>, e: Entry<K, V>): seq<Entry<K, V>>
  {
    var k := InsertPoint(o, s, e);
    if k < |s| && o.Same(s[k], e) then Removed(s, k) else s
  }

  lemma InsertedElements<T>(s: seq<T>, i: nat, x: T)
    requires i <= |s|
    ensures multiset(Inserted(s, i, x)) == multiset(s) + multiset{x}
  {
    assert s == s[..i] + s[i..];
  }

  lemma RemovedElements<T>(s: seq<T>, i: nat)
    requires i < |s|
    ensures multiset(s) == multiset(Removed(s, i)) + multiset{s[i]}
  {
    assert s == s[..i] + [s[i]] + s[i + 1..];
  }

  /** Inserting keeps the list sorted and adds exactly the one entry. */
  lemma InsertKeepsSorted<K(!new), V(!new)>(o: Order<K, V>, s: seq<Entry<K, V>>, e: Entry<K, V>)
    requires o.Total() && o.Sorted(s)
    ensures o.Sorted(InsertEntry(o, s, e))
    ensures multiset(InsertEntry(o, s, e)) == multiset(s) + multiset{e}
  {
    var k := InsertPoint(o, s, e);
    InsertedElements(s, k, e);
    BelowDownClosed(o, s, e);
    assert forall i | 0 <= i < k :: Below(o, e)(s[i]);
    assert forall j | k <= j < |s| :: !Below(o, e)(s[j]);
    InsertedSorted(o, s, k, e);
  }

  lemma InsertedSorted<K(!new), V(!new)>(o: Order<K, V>, s: seq<Entry<K, V>>, k: nat, e: Entry<K, V>)
    requires o.Total() && o.Sorted(s) && k <= |s|
    requires forall i | 0 <= i < k :: o.Less(s[i], e)
    requires forall j | k <= j < |s| :: !o.Less(s[j], e)
    ensures o.Sorted(Inserted(s, k, e))
  {
    var t := Inserted(s, k, e);
    forall i, j | 0 <= i < j < |t|
      ensures !o.Less(t[j], t[i])
    {
      if j == k {
        o.Trichotomy(s[i], e);
      }
    }
  }

  /** Between `e` and an entry equal to `e` there are only entries equal to `e`. */
  lemma SameSandwich<K(!new), V(!new)>(o: Order<K, V>, x: Entry<K, V>, y: Entry<K, V>, e: Entry<K, V>)
    requires o.Total() && !o.Less(x, e) && !o.Less(y, x) && o.Same(y, e)
    ensures o.Same(x, e)
  {
    o.Trichotomy(x, e);
    o.Trichotomy(y, e);
    if o.Less(e, x) {
      o.LessTransitive(y, e, x);
    }
  }

  /** Where an equal entry exists, the insertion point is at one. */
  lemma PointAtSame<K(!new), V(!new)>(o: Order<K, V>, s: seq<Entry<K, V>>, e: Entry<K, V>)
    requires o.Total() && o.Sorted(s) && Contains(o, s, e)
    ensures var k := InsertPoint(o, s, e); k < |s| && o.Same(s[k], e)
  {
    var k := InsertPoint(o, s, e);
    var i :| 0 <= i < |s| && o.Same(s[i], e);
    o.Trichotomy(s[i], e);
    assert !Below(o, e)(s[i]);
    BelowDownClosed(o, s, e);
    assert k <= i;
    if k < i {
      assert !Below(o, e)(s[k]);
      SameSandwich(o, s[k], s[i], e);
    }
  }

  /** Deleting changes the list exactly when an entry equal to `e` is there; then one such entry goes. */
  lemma DeleteExact<K(!new), V(!new)>(o: Order<K, V>, s: seq<Entry<K, V>>, e: Entry<K, V>)
    requires o.Total() && o.Sorted(s)
    ensures o.Sorted(DeleteEntry(o, s, e))
    ensures !Contains(o, s, e) ==> DeleteEntry(o, s, e) == s
    ensures Contains(o, s, e) ==> var k := InsertPoint(o, s, e);
      k < |s| && o.Same(s[k], e) && multiset(s) == multiset(DeleteEntry(o, s, e)) + multiset{s[k]}
  {
    if Contains(o, s, e) {
      PointAtSame(o, s, e);
      RemovedElements(s, InsertPoint(o, s, e));
    }
  }

  /** Inserting and then deleting an entry that was not there gives the list back. */
  lemma DeleteUndoesInsert<K(!new), V(!new)>(o: Order<K, V>, s: seq<Entry<K, V>>, e: Entry<K, V>)
    requires o.Total() && o.Sorted(s)
    ensures DeleteEntry(o, InsertEntry(o, s, e), e) == s
  {
    var k := InsertPoint(o, s, e);
    var t := InsertEntry(o, s, e);
    BelowDownClosed(o, s, e);
    o.Trichotomy(e, e);
    assert !Below(o, e)(t[k]) && forall i | 0 <= i < k :: Below(o, e)(t[i]);
    assert InsertPoint(o, t, e) == k;
    assert Removed(t, k) == s;
  }

  // ---- ranks ------------------------------------------------------------------------------------

  /** The position of the last entry equal to `e`. */
  ghost function RankOf<K(!new), V(!new)>(o: Order<K, V>, s: seq<Entry<K, V>>, e: Entry<K, V>): Option<nat>
  {
    var k := Leading(s, UpTo(o, e));
    if k > 0 && o.Same(s[k - 1], e) then Some(k - 1) else None
  }

  /** No two entries are equal. */
  ghost predicate Single<K(!new), V(!new)>(o: Order<K, V>, s: seq<Entry<K, V>>)
  {
    forall i, j | 0 <= i < j < |s| :: !o.Same(s[i], s[j])
  }

  lemma SameUpTo<K(!new), V(!new)>(o: Order<K, V>, x: Entry<K, V>, y: Entry<K, V>, e: Entry<K, V>)
    requires o.Total() && o.Same(x, e) && !o.Less(y, x) && UpTo(o, e)(y)
    ensures o.Same(y, e)
  {
    o.Trichotomy(x, e);
    o.NotLessTransitive(e, x, y);
  }

  /** A rank is found exactly for entries that are there, at a position holding an equal entry. */
  lemma RankFound<K(!new), V(!new)>(o: Order<K, V>, s: seq<Entry<K, V>>, e: Entry<K, V>)
    requires o.Total() && o.Sorted(s)
    ensures RankOf(o, s, e).Some? <==> Contains(o, s, e)
    ensures RankOf(o, s, e).Some? ==> RankOf(o, s, e).value < |s| && o.Same(s[RankOf(o, s, e).value], e)
  {
    if Contains(o, s, e) {
      var i :| 0 <= i < |s| && o.Same(s[i], e);
      UpToDownClosed(o, s, e);
      RankAtSame(o, s, i, e);
    }
  }

  lemma RankAtSame<K(!new), V(!new)>(o: Order<K, V>, s: seq<Entry<K, V>>, i: nat, e: Entry<K, V>)
    requires o.Total() && o.Sorted(s) && i < |s| && o.Same(s[i], e) && DownClosed(s, UpTo(o, e))
    ensures RankOf(o, s, e).Some?
  {
    var p := UpTo(o, e);
    var k := Leading(s, p);
    assert p(s[i]);
    assert i < k && p(s[k - 1]);
    if i < k - 1 {
      SameUpTo(o, s[i], s[k - 1], e);
    }
  }

  /** On distinct entries, getting by rank and ranking are inverse to each other. */
  lemma RanksInverse<K(!new), V(!new)>(o: Order<K, V>, s: seq<Entry<K, V>>, i: nat)
    requires o.Total() && o.Sorted(s) && Single(o, s) && i < |s|
    ensures RankOf(o, s, s[i]) == Some(i)
  {
    o.Trichotomy(s[i], s[i]);
    assert Contains(o, s, s[i]);
    RankFound(o, s, s[i]);
    var r := RankOf(o, s, s[i]).value;
    o.Trichotomy(s[r], s[i]);
  }

  // ---- bulk loading -----------------------------------------------------------------------------

  /** Without the entries that repeat the last one kept. */
  ghost function Deduped<K(!new), V(!new)>(o: Order<K, V>, s: seq<Entry<K, V>>): (d: seq<Entry<K, V>>)
    ensures |d| <= |s| && (s != [] ==> d != [])
  {
    if s == [] then []
    else
      Kept(o, Deduped(o, s[..|s| - 1]), s[|s| - 1])
  }

  /** On a sorted list exactly the duplicates go: what is left is sorted, without two equal entries, taken
      from the list, and holds an equal of every entry. */
  lemma {:induction false} DedupedExact<K(!new), V(!new)>(o: Order<K, V>, s: seq<Entry<K, V>>)
    requires o.Total() && o.Sorted(s)
    ensures var d := Deduped(o, s); o.Sorted(d) && Single(o, d) && (forall e <- d :: e in s) && Covers(o, d, s)
  {
    if s != [] {
      var init, e := s[..|s| - 1], s[|s| - 1];
      DedupedExact(o, init);
      DedupedOrder(o, Deduped(o, init), init, e);
      DedupedCovers(o, Deduped(o, init), init, e);
      assert s == init + [e];
    }
  }

  ghost predicate Covers<K(!new), V(!new)>(o: Order<K, V>, d: seq<Entry<K, V>>, s: seq<Entry<K, V>>)
  {
    forall e <- s :: Contains(o, d, e)
  }

  ghost function Kept<K(!new), V(!new)>(o: Order<K, V>, d: seq<Entry<K, V>>, e: Entry<K, V>): seq<Entry<K, V>>
  {
    if d != [] && o.Same(d[|d| - 1], e) then d else d + [e]
  }

  lemma DedupedOrder<K(!new), V(!new)>(o: Order<K, V>, d: seq<Entry<K, V>>, init: seq<Entry<K, V>>, e: Entry<K, V>)
    requires o.Total() && o.Sorted(init + [e])
    requires o.Sorted(d) && Single(o, d) && forall x <- d :: x in init
    ensures o.Sorted(Kept(o, d, e)) && Single(o, Kept(o, d, e))
  {
    SortedEnd(o, init, e);
    forall i | 0 <= i < |d| && !o.Same(d[|d| - 1], e)
      ensures !o.Same(d[i], e)
    {
      DedupedStep(o, d[i], d[|d| - 1], e);
    }
  }

  lemma SortedEnd<K(!new), V(!new)>(o: Order<K, V>, init: seq<Entry<K, V>>, e: Entry<K, V>)
    requires o.Sorted(init + [e])
    ensures forall x <- init :: !o.Less(e, x)
  {
    var s := init + [e];
    forall x | x in init
      ensures !o.Less(e, x)
    {
      var j :| 0 <= j < |init| && init[j] == x;
      assert s[j] == x && s[|init|] == e;
    }
  }

  lemma DedupedCovers<K(!new), V(!new)>(o: Order<K, V>, d: seq<Entry<K, V>>, init: seq<Entry<K, V>>, e: Entry<K, V>)
    requires o.Total() && Covers(o, d, init)
    ensures Covers(o, Kept(o, d, e), init + [e])
  {
    var now := Kept(o, d, e);
    o.Trichotomy(e, e);
    assert o.Same(now[|now| - 1], e);
    forall x | x in init + [e]
      ensures Contains(o, now, x)
    {
      if x in init {
        assert Contains(o, d, x);
        var i :| 0 <= i < |d| && o.Same(d[i], x);
        assert now[i] == d[i];
      }
    }
  }

  lemma DedupedStep<K(!new), V(!new)>(o: Order<K, V>, x: Entry<K, V>, last: Entry<K, V>, e: Entry<K, V>)
    requires o.Total() && (!o.Less(last, x) || x == last) && !o.Less(e, last) && !o.Same(last, e)
    ensures !o.Same(x, e)
  {
    o.Trichotomy(last, e);
    o.Trichotomy(x, e);
    if x != last {
      o.LessTransitive(x, last, e);
    }
  }
}
