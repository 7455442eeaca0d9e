/** Sorted lists under an order that only identical entries tie in: they are determined by their members. */
module ExactLists {
  import opened SkipLinks
  import opened Ordered

  /** A total order in which only identical entries compare equal, as numbers and strings do. */
  ghost predicate Exact<O(!new), P(!new)>(o: Order<O, P>)
  {
    o.Total() && forall a, b :: o.Same(a, b) ==> a == b
  }

  ghost predicate ListGood<O(!new), P(!new)>(o: Order<O, P>, s: seq<Entry<O, P>>)
  {
    s != [] && o.Sorted(s) && Single(o, s)
  }

  ghost predicate NoRepeat<T>(s: seq<T>)
  {
    forall i, j | 0 <= i < j < |s| :: s[i] != s[j]
  }

  lemma SingleIsNoRepeat<O(!new), P(!new)>(o: Order<O, P>, s: seq<Entry<O, P>>)
    requires Exact(o)
    ensures Single(o, s) <==> NoRepeat(s)
  {
    if Single(o, s) {
      forall i, j | 0 <= i < j < |s|
        ensures s[i] != s[j]
      {
        o.Trichotomy(s[i], s[i]);
      }
    }
  }

  lemma RemovedMembers<T>(s: seq<T>, k: nat)
    requires NoRepeat(s) && k < |s|
    ensures NoRepeat(Removed(s, k)) && forall x :: x in Removed(s, k) <==> x in s && x != s[k]
  {
    var t := Removed(s, k);
    assert forall j | 0 <= j < |t| :: t[j] == s[if j < k then j else j + 1];
    forall x | x in s && x != s[k]
      ensures x in t
    {
      var j :| 0 <= j < |s| && s[j] == x;
      assert x == t[if j < k then j else j - 1];
    }
  }

  lemma InsertedOnce<T>(s: seq<T>, k: nat, e: T)
    requires NoRepeat(s) && k <= |s| && e !in s
    ensures NoRepeat(Inserted(s, k, e)) && forall x :: x in Inserted(s, k, e) <==> x in s || x == e
  {
    InsertedMembers(s, k, e);
    var t := Inserted(s, k, e);
    assert forall j | 0 <= j < |t| && j != k :: t[j] == s[if j < k then j else j - 1];
  }

  lemma DeleteMembers<O(!new), P(!new)>(o: Order<O, P>, s: seq<Entry<O, P>>, e: Entry<O, P>)
    requires Exact(o) && o.Sorted(s) && Single(o, s) && e in s
    ensures var t := DeleteEntry(o, s, e);
      o.Sorted(t) && Single(o, t) && forall x :: x in t <==> x in s && x != e
  {
    var k := InsertPoint(o, s, e);
    o.Trichotomy(e, e);
    DeleteExact(o, s, e);
    assert s[k] == e;
    SingleIsNoRepeat(o, s);
    RemovedMembers(s, k);
    SingleIsNoRepeat(o, Removed(s, k));
  }

  lemma InsertMembers<O(!new), P(!new)>(o: Order<O, P>, s: seq<Entry<O, P>>, e: Entry<O, P>)
    requires Exact(o) && o.Sorted(s) && Single(o, s) && e !in s
    ensures var t := InsertEntry(o, s, e);
      ListGood(o, t) && forall x :: x in t <==> x in s || x == e
  {
    var k := InsertPoint(o, s, e);
    InsertKeepsSorted(o, s, e);
    SingleIsNoRepeat(o, s);
    InsertedOnce(s, k, e);
    SingleIsNoRepeat(o, Inserted(s, k, e));
  }

  /** A sorted list without duplicates is determined by its members. */
  lemma {:induction false} SortedUnique<O(!new), P(!new)>(o: Order<O, P>, s: seq<Entry<O, P>>, t: seq<Entry<O, P>>)
    requires Exact(o) && o.Sorted(s) && o.Sorted(t) && Single(o, s) && Single(o, t)
    requires forall e :: e in s <==> e in t
    ensures s == t
  {
    if s == [] {
      assert forall i | 0 <= i < |t| :: t[i] in t;
    } else {
      assert s[0] in t && s[0] in s;
      assert t[0] in t && t[0] in s;
      var i :| 0 <= i < |s| && s[i] == t[0];
      var j :| 0 <= j < |t| && t[j] == s[0];
      o.Trichotomy(s[0], t[0]);
      assert s[0] == t[0];
      TailMembers(o, s);
      TailMembers(o, t);
      SortedUnique(o, s[1..], t[1..]);
      assert s == [s[0]] + s[1..] && t == [t[0]] + t[1..];
    }
  }

  lemma TailMembers<O(!new), P(!new)>(o: Order<O, P>, s: seq<Entry<O, P>>)
    requires Exact(o) && o.Sorted(s) && Single(o, s) && s != []
    ensures o.Sorted(s[1..]) && Single(o, s[1..])
    ensures forall e :: e in s[1..] <==> e in s && e != s[0]
  {
    var t := s[1..];
    o.Trichotomy(s[0], s[0]);
    assert forall i | 0 <= i < |t| :: t[i] == s[i + 1];
    forall e | e in s && e != s[0]
      ensures e in t
    {
      var j :| 0 <= j < |s| && s[j] == e;
      assert t[j - 1] == e;
    }
  }
}
