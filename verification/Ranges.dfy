/** What a range scan over a sorted list means: the bounds, the direction, the offset and the count. */
module Ranges {
  import opened Basics
  import opened Ordered

  datatype Bounds<+K> = Bounds(gte: Option<K>, gt: Option<K>, lte: Option<K>, lt: Option<K>)

  /** A missing count takes everything. */
  datatype RangeOptions<+K> = RangeOptions(bounds: Bounds<K>, offset: int, count: Option<int>, reverse: bool)

  predicate OverLower<K(!new), V(!new)>(o: Order<K, V>, b: Bounds<K>, e: Entry<K, V>)
  {
    && (b.gte.Some? ==> o.cmpK(e.key, b.gte.value) >= 0)
    && (b.gt.Some? ==> o.cmpK(e.key, b.gt.value) > 0)
  }

  predicate UnderUpper<K(!new), V(!new)>(o: Order<K, V>, b: Bounds<K>, e: Entry<K, V>)
  {
    && (b.lte.Some? ==> o.cmpK(e.key, b.lte.value) <= 0)
    && (b.lt.Some? ==> o.cmpK(e.key, b.lt.value) < 0)
  }

  /** The entries a forward scan jumps over. */
  function Skipped<K(!new), V(!new)>(o: Order<K, V>, b: Bounds<K>): Entry<K, V> -> bool
  {
    if b.gte.Some? then Short(o, b.gte.value, b.gt.Some?)
    else if b.gt.Some? then Short(o, b.gt.value, true)
    else _ => false
  }

  /** The entries up to the one a reverse scan starts from. */
  function Reached<K(!new), V(!new)>(o: Order<K, V>, b: Bounds<K>): Entry<K, V> -> bool
  {
    if b.lte.Some? then Short(o, b.lte.value, true)
    else if b.lt.Some? then Short(o, b.lt.value, false)
    else _ => true
  }

  function Under<K(!new), V(!new)>(o: Order<K, V>, b: Bounds<K>): Entry<K, V> -> bool
  {
    e => UnderUpper(o, b, e)
  }

  function Over<K(!new), V(!new)>(o: Order<K, V>, b: Bounds<K>): Entry<K, V> -> bool
  {
    e => OverLower(o, b, e)
  }

  function Reversed<T>(s: seq<T>): (r: seq<T>)
    ensures |r| == |s| && forall i | 0 <= i < |s| :: r[i] == s[|s| - 1 - i]
  {
    seq(|s|, i requires 0 <= i < |s| => s[|s| - 1 - i])
  }

  function TakeWhile<T>(s: seq<T>, p: T -> bool): seq<T>
  {
    s[..Leading(s, p)]
  }

  /** The entries a scan visits, in the order it visits them. */
  function Scan<K(!new), V(!new)>(o: Order<K, V>, s: seq<Entry<K, V>>, b: Bounds<K>, reverse: bool): seq<Entry<K, V>>
  {
    if reverse
    then TakeWhile(Reversed(s[..Leading(s, Reached(o, b))]), Over(o, b))
    else TakeWhile(s[Leading(s, Skipped(o, b))..], Under(o, b))
  }

  function Dec(count: Option<int>): Option<int>
  {
    if count.Some? then Some(count.value - 1) else None
  }

  predicate Wanted(count: Option<int>)
  {
    count.Some? ==> count.value > 0
  }

  /** Skip `offset` entries, then take `count`. */
  function Page<T>(t: seq<T>, offset: int, count: Option<int>): seq<T>
  {
    if t == [] then []
    else if offset > 0 then Page(t[1..], offset - 1, count)
    else if Wanted(count) then [t[0]] + Page(t[1..], offset, Dec(count))
    else []
  }

  /** What is left to page after `j` elements, when the scan looks at the next one. */
  lemma TakeStep<T>(r: seq<T>, p: T -> bool, j: nat, offset: int, count: Option<int>)
    requires j <= |TakeWhile(r, p)| && j < |r|
    ensures p(r[j]) <==> j < |TakeWhile(r, p)|
    ensures var t := TakeWhile(r, p);
      Page(t[j..], offset, count) ==
        if !p(r[j]) then []
        else if offset > 0 then Page(t[j + 1..], offset - 1, count)
        else if Wanted(count) then [r[j]] + Page(t[j + 1..], offset, Dec(count))
        else []
  {
    var t := TakeWhile(r, p);
    if j < |t| {
      assert t[j..][1..] == t[j + 1..] && t[j..][0] == r[j];
    }
  }

  /** `left` is what a scan of `r` while `p` still has to emit after `j` entries. */
  ghost predicate Left<T>(left: seq<T>, r: seq<T>, p: T -> bool, j: nat, offset: int, count: Option<int>)
  {
    j <= |TakeWhile(r, p)| && left == Page(TakeWhile(r, p)[j..], offset, count)
  }

  lemma EverythingLeft<T>(r: seq<T>, p: T -> bool, offset: int, count: Option<int>) returns (left: seq<T>)
    ensures Left(left, r, p, 0, offset, count) && left == Page(TakeWhile(r, p), offset, count)
  {
    left := Page(TakeWhile(r, p), offset, count);
    assert TakeWhile(r, p)[0..] == TakeWhile(r, p);
  }

  /** One entry within the bounds: skipped while there is an offset, emitted otherwise. */
  method Emit<T>(e: T, offset0: int, count0: Option<int>, out0: seq<T>, ghost left0: seq<T>, ghost r: seq<T>,
                 ghost p: T -> bool, ghost j: nat)
    returns (offset: int, count: Option<int>, out: seq<T>, ghost left: seq<T>)
    requires offset0 > 0 || Wanted(count0)
    requires Left(left0, r, p, j, offset0, count0) && j < |r| && r[j] == e && p(e)
    ensures Left(left, r, p, j + 1, offset, count) && out0 + left0 == out + left
  {
    TakeStep(r, p, j, offset0, count0);
    offset, count, out := offset0, count0, out0;
    if offset > 0 {
      offset := offset - 1;
    } else {
      out := out + [e];
      count := Dec(count);
    }
    left := Page(TakeWhile(r, p)[j + 1..], offset, count);
  }

  lemma NothingLeft<T>(left: seq<T>, r: seq<T>, p: T -> bool, j: nat, offset: int, count: Option<int>)
    requires Left(left, r, p, j, offset, count)
    requires j < |r| ==> !p(r[j]) || !(offset > 0 || Wanted(count))
    ensures left == []
  {
    if j < |r| {
      TakeStep(r, p, j, offset, count);
    }
  }

  function Clamp(n: int, high: nat): (r: nat)
    ensures r <= high
  {
    if n < 0 then 0 else if n > high then high else n
  }

  /** A page is a slice. */
  lemma {:induction false} PageSlices<T>(t: seq<T>, offset: int, count: Option<int>)
    ensures var rest := t[Clamp(offset, |t|)..];
      Page(t, offset, count) == if count.Some? then rest[..Clamp(count.value, |rest|)] else rest
  {
    if t != [] {
      if offset > 0 {
        PageSlices(t[1..], offset - 1, count);
        assert t[1..][Clamp(offset - 1, |t| - 1)..] == t[Clamp(offset, |t|)..];
      } else if Wanted(count) {
        PageSlices(t[1..], offset, Dec(count));
        assert t[1..][0..] == t[1..];
      }
    }
  }

  // ---- scanning is filtering --------------------------------------------------------------------

  ghost function Filter<T>(s: seq<T>, p: T -> bool): seq<T>
  {
    if s == [] then [] else (if p(s[0]) then [s[0]] else []) + Filter(s[1..], p)
  }

  lemma {:induction false} FilterAgrees<T>(s: seq<T>, p: T -> bool, q: T -> bool)
    requires forall e <- s :: p(e) == q(e)
    ensures Filter(s, p) == Filter(s, q)
  {
    if s != [] {
      FilterAgrees(s[1..], p, q);
    }
  }

  lemma {:induction false} FilterAppend<T>(s: seq<T>, t: seq<T>, p: T -> bool)
    ensures Filter(s + t, p) == Filter(s, p) + Filter(t, p)
  {
    if s == [] {
      assert s + t == t;
    } else {
      FilterAppend(s[1..], t, p);
      assert (s + t)[1..] == s[1..] + t && (s + t)[0] == s[0];
      var head := if p(s[0]) then [s[0]] else [];
      assert head + (Filter(s[1..], p) + Filter(t, p)) == head + Filter(s[1..], p) + Filter(t, p);
    }
  }

  lemma {:induction false} FilterReversed<T>(s: seq<T>, p: T -> bool)
    ensures Filter(Reversed(s), p) == Reversed(Filter(s, p))
  {
    if s != [] {
      assert Reversed(s) == Reversed(s[1..]) + [s[0]];
      FilterAppend(Reversed(s[1..]), [s[0]], p);
      FilterReversed(s[1..], p);
    }
  }

  lemma {:induction false} FilterMembers<T>(s: seq<T>, p: T -> bool, x: T)
    ensures x in Filter(s, p) <==> x in s && p(x)
    ensures x in Reversed(Filter(s, p)) <==> x in s && p(x)
  {
    if s != [] {
      FilterMembers(s[1..], p, x);
    }
    var f := Filter(s, p);
    if x in f {
      var i :| 0 <= i < |f| && f[i] == x;
      assert Reversed(f)[|f| - 1 - i] == x;
    }
  }

  /** Filtering by a condition that stays false once false takes a prefix. */
  lemma {:induction false} FilterPrefix<T>(s: seq<T>, p: T -> bool)
    requires DownClosed(s, p)
    ensures Filter(s, p) == TakeWhile(s, p)
  {
    if s != [] {
      assert DownClosed(s[1..], p) by {
        assert forall i | 0 <= i < |s| - 1 :: s[1..][i] == s[i + 1];
      }
      FilterPrefix(s[1..], p);
      if !p(s[0]) {
        assert s[1..] == [] || !p(s[1]);
      }
    }
  }

  ghost function Negated<T>(p: T -> bool): T -> bool
  {
    e => !p(e)
  }

  ghost function Passing<T>(early: T -> bool, p: T -> bool): T -> bool
  {
    e => !early(e) && p(e)
  }

  /** Skipping a prefix and then taking while: a filter by both conditions. */
  lemma {:induction false} FilterWindow<T>(s: seq<T>, early: T -> bool, p: T -> bool)
    requires DownClosed(s, early) && DownClosed(s, p)
    ensures Filter(s, Passing(early, p)) == TakeWhile(s[Leading(s, early)..], p)
  {
    if s != [] && early(s[0]) {
      var t := s[1..];
      assert forall i | 0 <= i < |t| :: t[i] == s[i + 1];
      FilterWindow(t, early, p);
      assert t[Leading(t, early)..] == s[Leading(s, early)..];
    } else {
      assert forall e <- s :: !early(e);
      FilterAgrees(s, Passing(early, p), p);
      FilterPrefix(s, p);
    }
  }

  /** The keys that the start of a scan judges otherwise than its bounds: a forward scan starts at `gte`, or beyond
      it if there is a `gt` as well; a reverse one with an `lte` never looks at the `lt`. */
  ghost predicate Misjudged<K(!new), V(!new)>(o: Order<K, V>, b: Bounds<K>, reverse: bool, k: K)
  {
    if reverse
    then b.lte.Some? && b.lt.Some? && o.cmpK(k, b.lte.value) <= 0 && o.cmpK(k, b.lt.value) >= 0
    else
      && b.gte.Some? && b.gt.Some?
      && if o.cmpK(k, b.gt.value) > 0 then o.cmpK(k, b.gte.value) == 0 else o.cmpK(k, b.gte.value) > 0
  }

  /** A scan in this direction honours the bounds: what its start misjudges lies outside the bounds on the far side. */
  ghost predicate Honoured<K(!new), V(!new)>(o: Order<K, V>, b: Bounds<K>, reverse: bool)
  {
    forall e: Entry<K, V> | Misjudged(o, b, reverse, e.key) :: if reverse then !OverLower(o, b, e) else !UnderUpper(o, b, e)
  }

  /** The two bounds on the near side agree. */
  predicate NearAgrees<K(!new), V(!new)>(o: Order<K, V>, b: Bounds<K>, reverse: bool)
  {
    if reverse
    then b.lte.Some? && b.lt.Some? ==> o.cmpK(b.lte.value, b.lt.value) < 0
    else b.gte.Some? && b.gt.Some? ==> o.cmpK(b.gte.value, b.gt.value) == 0
  }

  /** Bounds that agree on the near side are honoured; with no bound on the far side, only those. */
  lemma AgreeingHonoured<K(!new), V(!new)>(o: Order<K, V>, b: Bounds<K>, reverse: bool, v: V)
    requires o.Total()
    ensures NearAgrees(o, b, reverse) ==> Honoured(o, b, reverse)
    ensures (if reverse then b.gte.None? && b.gt.None? else b.lte.None? && b.lt.None?) ==>
              (Honoured(o, b, reverse) <==> NearAgrees(o, b, reverse))
  {
    if !NearAgrees(o, b, reverse) {
      var k := if reverse then b.lte.value else if o.cmpK(b.gte.value, b.gt.value) < 0 then b.gt.value else b.gte.value;
      assert Misjudged(o, b, reverse, Entry(k, v).key);
    }
  }

  ghost function InBounds<K(!new), V(!new)>(o: Order<K, V>, b: Bounds<K>): Entry<K, V> -> bool
  {
    e => OverLower(o, b, e) && UnderUpper(o, b, e)
  }

  ghost function Selected<K(!new), V(!new)>(o: Order<K, V>, s: seq<Entry<K, V>>, b: Bounds<K>, reverse: bool): seq<Entry<K, V>>
  {
    if reverse then Reversed(Filter(s, InBounds(o, b))) else Filter(s, InBounds(o, b))
  }

  lemma SkippedIsBelow<K(!new), V(!new)>(o: Order<K, V>, b: Bounds<K>, e: Entry<K, V>)
    requires o.Total()
    ensures !Misjudged(o, b, false, e.key) <==> (!Skipped(o, b)(e) <==> OverLower(o, b, e))
  {
  }

  lemma ReachedIsUnder<K(!new), V(!new)>(o: Order<K, V>, b: Bounds<K>, e: Entry<K, V>)
    requires o.Total()
    ensures !Misjudged(o, b, true, e.key) <==> (Reached(o, b)(e) <==> UnderUpper(o, b, e))
  {
  }

  /** Later entries are over more lower bounds and under fewer upper bounds. */
  lemma BoundsMonotone<K(!new), V(!new)>(o: Order<K, V>, b: Bounds<K>, early: Entry<K, V>, late: Entry<K, V>)
    requires o.Total() && o.cmpK(early.key, late.key) <= 0
    ensures Skipped(o, b)(late) ==> Skipped(o, b)(early)
    ensures Reached(o, b)(late) ==> Reached(o, b)(early)
    ensures Under(o, b)(late) ==> Under(o, b)(early)
    ensures Over(o, b)(early) ==> Over(o, b)(late)
  {
  }

  lemma BoundsDownClosed<K(!new), V(!new)>(o: Order<K, V>, s: seq<Entry<K, V>>, b: Bounds<K>)
    requires o.Total() && o.Sorted(s)
    ensures DownClosed(s, Skipped(o, b)) && DownClosed(s, Reached(o, b)) && DownClosed(s, Under(o, b))
    ensures DownClosed(Reversed(s), Over(o, b)) && DownClosed(Reversed(s), Negated(Reached(o, b)))
  {
    forall i, j | 0 <= i < j < |s| {
      BoundsMonotone(o, b, s[i], s[j]);
    }
    var r := Reversed(s);
    forall i, j | 0 <= i < j < |r| {
      BoundsMonotone(o, b, r[j], r[i]);
    }
  }

  lemma {:induction false} LeadingReversed<T>(s: seq<T>, p: T -> bool)
    requires DownClosed(s, p)
    ensures Reversed(s)[Leading(Reversed(s), Negated(p))..] == Reversed(s[..Leading(s, p)])
  {
    var r := Reversed(s);
    var k := Leading(r, Negated(p));
    var m := Leading(s, p);
    assert forall i | 0 <= i < m :: p(s[i]);
    assert m < |s| ==> !p(s[m]);
    assert forall i | m <= i < |s| :: !p(s[i]);
    assert k < |r| ==> p(r[k]);
    assert k > 0 ==> !p(r[k - 1]);
    assert k == |s| - m;
  }

  /** A scan in either direction selects exactly the entries within the bounds, in order. */
  lemma ScanSelects<K(!new), V(!new)>(o: Order<K, V>, s: seq<Entry<K, V>>, b: Bounds<K>, reverse: bool)
    requires o.Total() && o.Sorted(s) && Honoured(o, b, reverse)
    ensures Scan(o, s, b, reverse) == Selected(o, s, b, reverse)
  {
    BoundsDownClosed(o, s, b);
    if reverse {
      var r := Reversed(s);
      var late := Negated(Reached(o, b));
      FilterReversed(s, InBounds(o, b));
      FilterWindow(r, late, Over(o, b));
      LeadingReversed(s, Reached(o, b));
      forall e | e in r
        ensures InBounds(o, b)(e) == Passing(late, Over(o, b))(e)
      {
        ReachedIsUnder(o, b, e);
      }
      FilterAgrees(r, InBounds(o, b), Passing(late, Over(o, b)));
    } else {
      FilterWindow(s, Skipped(o, b), Under(o, b));
      forall e | e in s
        ensures InBounds(o, b)(e) == Passing(Skipped(o, b), Under(o, b))(e)
      {
        SkippedIsBelow(o, b, e);
      }
      FilterAgrees(s, InBounds(o, b), Passing(Skipped(o, b), Under(o, b)));
    }
  }

  /** An unpaged range holds exactly the entries within the bounds. */
  lemma ScanMembers<K(!new), V(!new)>(o: Order<K, V>, s: seq<Entry<K, V>>, b: Bounds<K>, reverse: bool, e: Entry<K, V>)
    requires o.Total() && o.Sorted(s) && Honoured(o, b, reverse)
    ensures e in Page(Scan(o, s, b, reverse), 0, None) <==> e in s && OverLower(o, b, e) && UnderUpper(o, b, e)
  {
    ScanSelects(o, s, b, reverse);
    FilterMembers(s, InBounds(o, b), e);
    PageSlices(Scan(o, s, b, reverse), 0, None);
  }

  ghost predicate ScansRight<K(!new), V(!new)>(o: Order<K, V>, s: seq<Entry<K, V>>, b: Bounds<K>, reverse: bool)
  {
    o.Sorted(s) ==> Scan(o, s, b, reverse) == Selected(o, s, b, reverse)
  }

  /** The exact condition: a scan is right on every sorted list if and only if it honours its bounds; a list of one
      entry shows it otherwise. */
  lemma HonouredExactly<K(!new), V(!new)>(o: Order<K, V>, b: Bounds<K>, reverse: bool)
    requires o.Total()
    ensures (forall s :: ScansRight(o, s, b, reverse)) <==> Honoured(o, b, reverse)
  {
    if Honoured(o, b, reverse) {
      forall s
        ensures ScansRight(o, s, b, reverse)
      {
        if o.Sorted(s) {
          ScanSelects(o, s, b, reverse);
        }
      }
    } else {
      var e: Entry<K, V> :| Misjudged(o, b, reverse, e.key) && if reverse then OverLower(o, b, e) else UnderUpper(o, b, e);
      SkippedIsBelow(o, b, e);
      ReachedIsUnder(o, b, e);
      OneEntry(o, b, reverse, e);
    }
  }

  lemma OneEntry<K(!new), V(!new)>(o: Order<K, V>, b: Bounds<K>, reverse: bool, e: Entry<K, V>)
    requires o.Total()
    requires if reverse then OverLower(o, b, e) else UnderUpper(o, b, e)
    requires if reverse then Reached(o, b)(e) != InBounds(o, b)(e) else Skipped(o, b)(e) == InBounds(o, b)(e)
    ensures !ScansRight(o, [e], b, reverse)
  {
    assert Filter([e], InBounds(o, b)) == if InBounds(o, b)(e) then [e] else [];
    assert Reversed([e]) == [e];
    assert [e][..0] == [] && [e][..1] == [e];
  }
}
