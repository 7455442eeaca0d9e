/** Towers of forward links over a row of nodes, and how inserting or removing one node must
    change them. Position 0 of a row is the header. */
module SkipLinks {

  const MAX_LEVEL: nat := 32

  class SkipNode<K, V> {
    const key: K
    const val: V
    var backward: SkipNode?<K, V>
    var level: seq<Level<K, V>>

    constructor (key: K, val: V, height: nat)
      ensures this.key == key && this.val == val && backward == null
      ensures |level| == height && forall l | 0 <= l < height :: level[l] == Level(null, 0)
    {
      this.key := key;
      this.val := val;
      backward := null;
      level := seq(height, _ => Level(null, 0));
    }
  }

  datatype Level<K, V> = Level(forward: SkipNode?<K, V>, span: int)

  type Row<K, V> = seq<SkipNode<K, V>>
  type Towers<K, V> = seq<seq<Level<K, V>>>

  /** The link of position `p` at level `l`: without a forward node no later tower reaches `l`; otherwise the
      span is the exact distance to the forward node, and no tower in between reaches `l`. */
  ghost predicate Link<K, V>(row: Row, lv: Towers<K, V>, p: nat, l: nat)
    requires |row| == |lv| && p < |lv| && l < |lv[p]|
  {
    var link := lv[p][l];
    if link.forward == null then
      forall r | p < r < |lv| :: |lv[r]| <= l
    else
      var q := p + link.span;
      p < q < |row| && row[q] == link.forward && l < |lv[q]| && forall r | p < r < q :: |lv[r]| <= l
  }

  ghost predicate Linked<K, V>(row: Row, lv: Towers<K, V>)
  {
    && |row| == |lv|
    && forall p: nat, l: nat {:trigger Link(row, lv, p, l)} | p < |lv| && l < |lv[p]| :: Link(row, lv, p, l)
  }

  /** `p` is the last position up to `k` whose tower reaches level `l`. */
  ghost predicate LastAt<K, V>(lv: Towers<K, V>, p: nat, l: nat, k: nat)
  {
    p <= k < |lv| && l < |lv[p]| && forall r | p < r <= k :: |lv[r]| <= l
  }

  ghost predicate Differ<T>(row: seq<T>, i: nat, j: nat)
    requires i < |row| && j < |row|
  {
    row[i] != row[j]
  }

  ghost predicate Distinct<K, V>(row: Row<K, V>)
  {
    forall i: nat, j: nat {:trigger Differ(row, i, j)} | i < j < |row| :: Differ(row, i, j)
  }

  lemma DistinctAt<K, V>(row: Row<K, V>, i: nat)
    requires Distinct(row) && i < |row|
    ensures forall p | 0 <= p < |row| && p != i :: row[p] != row[i]
  {
    forall p | 0 <= p < |row| && p != i
      ensures row[p] != row[i]
    {
      assert if p < i then Differ(row, p, i) else Differ(row, i, p);
    }
  }

  function Inserted<T>(s: seq<T>, i: nat, x: T): seq<T>
    requires i <= |s|
  {
    s[..i] + [x] + s[i..]
  }

  function Removed<T>(s: seq<T>, i: nat): seq<T>
    requires i < |s|
  {
    s[..i] + s[i + 1..]
  }

  /** How the towers change when a node with tower `tower` goes in after position `k`; `preds[l]` is the
      predecessor at level `l`. Spans of links without a forward node are left open. */
  ghost predicate InsertStep<K, V>(lv: Towers<K, V>, lw: Towers<K, V>, preds: seq<nat>, k: nat, x: SkipNode<K, V>, height: nat)
  {
    && k < |lv| && |lw| == |lv| + 1 && height <= |preds|
    && (forall l | 0 <= l < |preds| :: LastAt(lv, preds[l], l, k))
    && (forall p | k < p < |lv| :: lw[p + 1] == lv[p])
    && (forall p | 0 <= p <= k :: |lw[p]| == |lv[p]|)
    && |lw[k + 1]| == height
    && (forall p: nat, l: nat {:trigger lv[p][l]} | p <= k && l < |lv[p]| && l < height ::
          lw[p][l] == if p == preds[l] then Level(x, k + 1 - p) else lv[p][l])
    && (forall p: nat, l: nat {:trigger lv[p][l]} | p <= k && l < |lv[p]| && height <= l ::
          if l < |preds| && p == preds[l]
          then lw[p][l].forward == lv[p][l].forward && (lv[p][l].forward != null ==> lw[p][l].span == lv[p][l].span + 1)
          else lw[p][l] == lv[p][l])
    && (forall l | 0 <= l < height ::
          lw[k + 1][l].forward == lv[preds[l]][l].forward &&
          (lw[k + 1][l].forward != null ==> lw[k + 1][l].span == lv[preds[l]][l].span - (k - preds[l])))
  }

  /** Links that start before the new node. */
  lemma InsertLinkBefore<K, V>(row: Row<K, V>, lv: Towers<K, V>, lw: Towers<K, V>, preds: seq<nat>, k: nat,
                               x: SkipNode<K, V>, height: nat, p: nat, l: nat)
    requires Linked(row, lv) && InsertStep(lv, lw, preds, k, x, height)
    requires |preds| <= l < |lv[0]| ==> lv[0][l].forward == null
    requires p <= k && l < |lv[p]| && (p > 0 ==> |lv[p]| <= |preds|)
    ensures Link(Inserted(row, k + 1, x), lw, p, l)
  {
    var now := Inserted(row, k + 1, x);
    assert Link(row, lv, p, l);
    if l < |preds| {
      var u := preds[l];
      assert LastAt(lv, u, l, k);
      if p == u {
        if l < height {
          assert now[p + lw[p][l].span] == x;
        } else if lv[p][l].forward != null {
          var q := p + lv[p][l].span;
          assert q > k && lw[q + 1] == lv[q] && now[q + 1] == row[q];
          assert forall r | k + 1 < r < q + 1 :: lw[r] == lv[r - 1];
        } else {
          assert forall r | k + 1 < r < |lw| :: lw[r] == lv[r - 1];
        }
      } else {
        assert p < u && lw[p][l] == lv[p][l];
        var q := p + lv[p][l].span;
        assert lv[p][l].forward != null && q <= u;
        assert now[q] == row[q];
      }
    } else {
      assert p == 0 && lv[p][l].forward == null && lw[p][l] == lv[p][l];
      assert forall r | k + 1 < r < |lw| :: lw[r] == lv[r - 1];
    }
  }

  /** Links of the new node itself. */
  lemma InsertLinkNew<K, V>(row: Row<K, V>, lv: Towers<K, V>, lw: Towers<K, V>, preds: seq<nat>, k: nat,
                            x: SkipNode<K, V>, height: nat, l: nat)
    requires Linked(row, lv) && InsertStep(lv, lw, preds, k, x, height) && l < height
    ensures Link(Inserted(row, k + 1, x), lw, k + 1, l)
  {
    var now := Inserted(row, k + 1, x);
    var u := preds[l];
    assert LastAt(lv, u, l, k);
    assert Link(row, lv, u, l);
    assert forall r | k + 1 < r < |lw| :: lw[r] == lv[r - 1];
    if lv[u][l].forward != null {
      var q := u + lv[u][l].span;
      assert q > k && now[q + 1] == row[q] && lw[q + 1] == lv[q];
    }
  }

  /** Links that start behind the new node move along with it. */
  lemma InsertLinkBehind<K, V>(row: Row<K, V>, lv: Towers<K, V>, lw: Towers<K, V>, preds: seq<nat>, k: nat,
                               x: SkipNode<K, V>, height: nat, p: nat, l: nat)
    requires Linked(row, lv) && InsertStep(lv, lw, preds, k, x, height)
    requires k < p < |lv| && l < |lv[p]|
    ensures Link(Inserted(row, k + 1, x), lw, p + 1, l)
  {
    var now := Inserted(row, k + 1, x);
    assert Link(row, lv, p, l);
    assert forall r | k + 1 < r < |lw| :: lw[r] == lv[r - 1];
    if lv[p][l].forward != null {
      var q := p + lv[p][l].span;
      assert now[q + 1] == row[q] && lw[q + 1] == lv[q];
    }
  }

  lemma InsertLinked<K, V>(row: Row<K, V>, lv: Towers<K, V>, lw: Towers<K, V>, preds: seq<nat>, k: nat, x: SkipNode<K, V>, height: nat)
    requires Linked(row, lv) && InsertStep(lv, lw, preds, k, x, height)
    requires forall p | 0 < p < |lv| :: |lv[p]| <= |preds|
    requires forall l | |preds| <= l < |lv[0]| :: lv[0][l].forward == null
    ensures Linked(Inserted(row, k + 1, x), lw)
  {
    var now := Inserted(row, k + 1, x);
    forall p: nat, l: nat | p < |lw| && l < |lw[p]|
      ensures Link(now, lw, p, l)
    {
      if p > k + 1 {
        assert lw[p] == lv[p - 1];
        InsertLinkBehind(row, lv, lw, preds, k, x, height, p - 1, l);
      } else if p == k + 1 {
        InsertLinkNew(row, lv, lw, preds, k, x, height, l);
      } else {
        InsertLinkBefore(row, lv, lw, preds, k, x, height, p, l);
      }
    }
  }

  /** How the towers change when the node at position `k + 1` is taken out; `preds[l]` is the last
      position up to `k` that reaches level `l`. */
  ghost predicate RemoveStep<K, V>(lv: Towers<K, V>, lw: Towers<K, V>, preds: seq<nat>, k: nat)
  {
    && k + 1 < |lv| && |lw| == |lv| - 1
    && (forall l | 0 <= l < |preds| :: LastAt(lv, preds[l], l, k))
    && (forall p | k + 1 < p < |lv| :: lw[p - 1] == lv[p])
    && (forall p | 0 <= p <= k :: |lw[p]| == |lv[p]|)
    && |lv[k + 1]| <= |preds|
    && (forall p: nat, l: nat {:trigger lv[p][l]} | p <= k && l < |lv[p]| && l < |lv[k + 1]| ::
          if p == preds[l]
          then lw[p][l] == Level(lv[k + 1][l].forward, lv[p][l].span + lv[k + 1][l].span - 1)
          else lw[p][l] == lv[p][l])
    && (forall p: nat, l: nat {:trigger lv[p][l]} | p <= k && l < |lv[p]| && |lv[k + 1]| <= l ::
          if l < |preds| && p == preds[l]
          then lw[p][l].forward == lv[p][l].forward && (lv[p][l].forward != null ==> lw[p][l].span == lv[p][l].span - 1)
          else lw[p][l] == lv[p][l])
  }

  lemma RemoveLinkBefore<K, V>(row: Row<K, V>, lv: Towers<K, V>, lw: Towers<K, V>, preds: seq<nat>, k: nat, p: nat, l: nat)
    requires Linked(row, lv) && RemoveStep(lv, lw, preds, k)
    requires |preds| <= l < |lv[0]| ==> lv[0][l].forward == null
    requires p <= k && l < |lv[p]| && (p > 0 ==> |lv[p]| <= |preds|)
    ensures Link(Removed(row, k + 1), lw, p, l)
  {
    var now := Removed(row, k + 1);
    assert Link(row, lv, p, l);
    assert forall r | k < r < |lw| :: lw[r] == lv[r + 1] && now[r] == row[r + 1];
    if l < |preds| {
      var u := preds[l];
      assert LastAt(lv, u, l, k);
      if p == u {
        if l < |lv[k + 1]| {
          assert lv[p][l].span == k + 1 - p;
          assert Link(row, lv, k + 1, l);
        } else if lv[p][l].forward != null {
          var q := p + lv[p][l].span;
          assert q > k + 1 && lw[q - 1] == lv[q] && now[q - 1] == row[q];
        }
      } else {
        assert p < u && lw[p][l] == lv[p][l];
        var q := p + lv[p][l].span;
        assert lv[p][l].forward != null && q <= u;
        assert now[q] == row[q];
      }
    } else {
      assert p == 0 && lv[p][l].forward == null && lw[p][l] == lv[p][l];
    }
  }

  lemma RemoveLinkBehind<K, V>(row: Row<K, V>, lv: Towers<K, V>, lw: Towers<K, V>, preds: seq<nat>, k: nat, p: nat, l: nat)
    requires Linked(row, lv) && RemoveStep(lv, lw, preds, k)
    requires k + 1 < p < |lv| && l < |lv[p]|
    ensures Link(Removed(row, k + 1), lw, p - 1, l)
  {
    var now := Removed(row, k + 1);
    assert Link(row, lv, p, l);
    assert forall r | k < r < |lw| :: lw[r] == lv[r + 1] && now[r] == row[r + 1];
    if lv[p][l].forward != null {
      var q := p + lv[p][l].span;
      assert now[q - 1] == row[q] && lw[q - 1] == lv[q];
    }
  }

  lemma RemoveLinked<K, V>(row: Row<K, V>, lv: Towers<K, V>, lw: Towers<K, V>, preds: seq<nat>, k: nat)
    requires Linked(row, lv) && RemoveStep(lv, lw, preds, k)
    requires forall p | 0 < p < |lv| :: |lv[p]| <= |preds|
    requires forall l | |preds| <= l < |lv[0]| :: lv[0][l].forward == null
    ensures Linked(Removed(row, k + 1), lw)
  {
    var now := Removed(row, k + 1);
    forall p: nat, l: nat | p < |lw| && l < |lw[p]|
      ensures Link(now, lw, p, l)
    {
      if p > k {
        assert lw[p] == lv[p + 1];
        RemoveLinkBehind(row, lv, lw, preds, k, p + 1, l);
      } else {
        RemoveLinkBefore(row, lv, lw, preds, k, p, l);
      }
    }
  }

  ghost predicate SameHeights<K, V>(lv: Towers<K, V>, lw: Towers<K, V>)
  {
    |lv| == |lw| && forall p | 0 <= p < |lv| :: |lv[p]| == |lw[p]|
  }

  /** Spans of links without a forward node do not matter. */
  lemma RespanLinked<K, V>(row: Row<K, V>, lv: Towers<K, V>, lw: Towers<K, V>)
    requires Linked(row, lv) && Respanned(lv, lw)
    ensures Linked(row, lw)
  {
    forall p: nat, l: nat | p < |lw| && l < |lw[p]|
      ensures Link(row, lw, p, l)
    {
      assert Link(row, lv, p, l);
      assert lw[p][l].forward == lv[p][l].forward;
    }
  }

  /** `lw` is `lv` up to spans of links without a forward node. */
  ghost predicate Respanned<K, V>(lv: Towers<K, V>, lw: Towers<K, V>)
  {
    && SameHeights(lv, lw)
    && forall p: nat, l: nat {:trigger lv[p][l]} | p < |lv| && l < |lv[p]| ::
         lw[p][l].forward == lv[p][l].forward && (lv[p][l].forward != null ==> lw[p][l].span == lv[p][l].span)
  }

  lemma RespanOne<K, V>(lv: Towers<K, V>, lw: Towers<K, V>, p: nat, l: nat, span: int)
    requires Respanned(lv, lw) && p < |lv| && l < |lv[p]| && lv[p][l].forward == null
    ensures l < |lw[p]| && Respanned(lv, lw[p := lw[p][l := Level(null, span)]])
  {
  }

  /** Above the highest tower the header precedes every position. */
  lemma RaisePredecessors<K, V>(lv: Towers<K, V>, lw: Towers<K, V>, low: nat, high: nat, rank: seq<nat>, k: nat)
    requires SameHeights(lv, lw) && k < |lv| && low <= high <= |rank| && high <= |lv[0]|
    requires forall p | 0 < p < |lv| :: |lv[p]| <= low
    requires forall l | 0 <= l < low :: LastAt(lv, rank[l], l, k)
    requires forall l | low <= l < high :: rank[l] == 0
    ensures forall l | 0 <= l < high :: LastAt(lw, rank[l], l, k)
  {
    forall l | 0 <= l < high
      ensures LastAt(lw, rank[l], l, k)
    {
      assert l < low ==> LastAt(lv, rank[l], l, k);
    }
  }

  /** The links below `height` have been redirected to the new node. */
  ghost predicate LinkedIn<K, V>(lv: Towers<K, V>, mid: Towers<K, V>, preds: seq<nat>, k: nat, x: SkipNode<K, V>, height: nat)
  {
    && SameHeights(lv, mid) && height <= |preds|
    && forall p: nat, l: nat {:trigger mid[p][l]} | p < |lv| && l < |lv[p]| ::
         mid[p][l] == if l < height && p == preds[l] then Level(x, k + 1 - p) else lv[p][l]
  }

  /** Redirecting one more level. */
  lemma LinkOne<K, V>(lv: Towers<K, V>, mid: Towers<K, V>, preds: seq<nat>, k: nat, x: SkipNode<K, V>, i: nat)
    requires LinkedIn(lv, mid, preds, k, x, i) && i < |preds| && preds[i] < |lv| && i < |lv[preds[i]]|
    ensures |mid[preds[i]]| == |lv[preds[i]]| && mid[preds[i]][i] == lv[preds[i]][i]
    ensures var r := preds[i];
      LinkedIn(lv, mid[r := mid[r][i := Level(x, k + 1 - r)]], preds, k, x, i + 1)
  {
  }

  /** The links of the predecessors on the levels [from, to) have been lengthened by one. */
  ghost predicate Lengthened<K, V>(mid: Towers<K, V>, fin: Towers<K, V>, preds: seq<nat>, from: nat, to: nat)
  {
    && SameHeights(mid, fin) && to <= |preds|
    && forall p: nat, l: nat {:trigger fin[p][l]} | p < |mid| && l < |mid[p]| ::
         fin[p][l] == if from <= l < to && p == preds[l] then Level(mid[p][l].forward, mid[p][l].span + 1) else mid[p][l]
  }

  /** Lengthening one more level. */
  lemma LengthenOne<K, V>(mid: Towers<K, V>, fin: Towers<K, V>, preds: seq<nat>, from: nat, i: nat)
    requires Lengthened(mid, fin, preds, from, i) && from <= i < |preds| && preds[i] < |mid| && i < |mid[preds[i]]|
    ensures |fin[preds[i]]| == |mid[preds[i]]| && fin[preds[i]][i] == mid[preds[i]][i]
    ensures var r := preds[i];
      Lengthened(mid, fin[r := fin[r][i := Level(mid[r][i].forward, mid[r][i].span + 1)]], preds, from, i + 1)
  {
  }

  /** The new node's own tower. */
  ghost predicate TowerIn<K, V>(lv: Towers<K, V>, tower: seq<Level<K, V>>, preds: seq<nat>, k: nat)
  {
    && |tower| <= |preds|
    && forall l | 0 <= l < |tower| ::
         preds[l] < |lv| && l < |lv[preds[l]]| &&
         tower[l] == Level(lv[preds[l]][l].forward, lv[preds[l]][l].span - (k - preds[l]))
  }

  lemma AssembleInsert<K, V>(lv: Towers<K, V>, mid: Towers<K, V>, fin: Towers<K, V>, lw: Towers<K, V>,
                             tower: seq<Level<K, V>>, preds: seq<nat>, k: nat, x: SkipNode<K, V>)
    requires k < |lv| && forall l | 0 <= l < |preds| :: LastAt(lv, preds[l], l, k)
    requires LinkedIn(lv, mid, preds, k, x, |tower|) && Lengthened(mid, fin, preds, |tower|, |preds|)
    requires TowerIn(lv, tower, preds, k)
    requires lw == Inserted(fin, k + 1, tower)
    ensures InsertStep(lv, lw, preds, k, x, |tower|)
  {
    forall p | k < p < |lv|
      ensures lw[p + 1] == lv[p]
    {
      forall l | 0 <= l < |lv[p]|
        ensures fin[p][l] == lv[p][l]
      {
        assert l < |preds| ==> LastAt(lv, preds[l], l, k);
        assert mid[p][l] == lv[p][l];
      }
    }
    forall p: nat, l: nat | p <= k && l < |lv[p]|
      ensures lw[p][l] ==
        if l < |preds| && p == preds[l]
        then if l < |tower| then Level(x, k + 1 - p) else Level(lv[p][l].forward, lv[p][l].span + 1)
        else lv[p][l]
    {
      assert lw[p][l] == fin[p][l];
      assert mid[p][l] == if l < |tower| && p == preds[l] then Level(x, k + 1 - p) else lv[p][l];
    }
  }

  /** The header still leads somewhere on the top level. */
  lemma TopAfterInsert<K, V>(row: Row<K, V>, lv: Towers<K, V>, lw: Towers<K, V>, preds: seq<nat>, k: nat,
                             x: SkipNode<K, V>, height: nat)
    requires Linked(row, lv) && InsertStep(lv, lw, preds, k, x, height)
    requires 0 < |preds| <= |lv[0]|
    requires lv[0][|preds| - 1].forward != null || height == |preds|
    ensures lw[0][|preds| - 1].forward != null
  {
    var top := |preds| - 1;
    assert LastAt(lv, preds[top], top, k);
    assert Link(row, lv, 0, top);
    assert lv[0][top].forward == null ==> preds[top] == 0;
  }

  lemma InsertedDistinct<K, V>(row: Row<K, V>, i: nat, x: SkipNode<K, V>)
    requires Distinct(row) && x !in row && i <= |row|
    ensures Distinct(Inserted(row, i, x))
  {
    var now := Inserted(row, i, x);
    forall p: nat, q: nat | p < q < |now|
      ensures Differ(now, p, q)
    {
      var p' := if p < i then p else p - 1;
      var q' := if q < i then q else q - 1;
      assert p != i && q != i ==> Differ(row, p', q');
    }
  }

  lemma RemovedDistinct<K, V>(row: Row<K, V>, i: nat)
    requires Distinct(row) && i < |row|
    ensures Distinct(Removed(row, i))
  {
    var now := Removed(row, i);
    forall p: nat, q: nat | p < q < |now|
      ensures Differ(now, p, q)
    {
      assert Differ(row, if p < i then p else p + 1, if q < i then q else q + 1);
    }
  }

  lemma InsertedMembers<T>(s: seq<T>, k: nat, x: T)
    requires k <= |s|
    ensures forall e <- Inserted(s, k, x) :: e in s || e == x
    ensures forall e <- s :: e in Inserted(s, k, x)
  {
  }

  /** A row whose towers are linked and do not exceed `level`; the header's tower has every level. */
  ghost predicate Standing<K, V>(row: Row<K, V>, lv: Towers<K, V>, level: nat)
  {
    && Distinct(row) && |row| == |lv| && |row| > 0
    && 1 <= level <= MAX_LEVEL && |lv[0]| == MAX_LEVEL
    && (forall p | 0 < p < |lv| :: 1 <= |lv[p]| <= level)
    && Linked(row, lv)
  }

  lemma NothingAbove<K, V>(row: Row<K, V>, lv: Towers<K, V>, level: nat)
    requires Standing(row, lv, level)
    ensures forall l | level <= l < MAX_LEVEL :: lv[0][l].forward == null
  {
    forall l | level <= l < MAX_LEVEL
      ensures lv[0][l].forward == null
    {
      assert Link(row, lv, 0, l);
    }
  }

  /** Everything that follows from the insertion step. */
  lemma InsertStands<K, V>(row: Row<K, V>, lv: Towers<K, V>, lw: Towers<K, V>, preds: seq<nat>, k: nat,
                           x: SkipNode<K, V>, height: nat)
    requires Standing(row, lv, |preds|) && x !in row
    requires InsertStep(lv, lw, preds, k, x, height) && 1 <= height
    ensures Standing(Inserted(row, k + 1, x), lw, |preds|)
    ensures lv[0][|preds| - 1].forward != null || height == |preds| ==> lw[0][|preds| - 1].forward != null
  {
    NothingAbove(row, lv, |preds|);
    InsertLinked(row, lv, lw, preds, k, x, height);
    InsertedDistinct(row, k + 1, x);
    forall p | 0 < p < |lw|
      ensures 1 <= |lw[p]| <= |preds|
    {
      if p > k + 1 {
        assert lw[p] == lv[p - 1];
      }
    }
    if lv[0][|preds| - 1].forward != null || height == |preds| {
      TopAfterInsert(row, lv, lw, preds, k, x, height);
    }
  }

  ghost function LastOf<K, V>(row: Row<K, V>): SkipNode?<K, V>
  {
    if |row| <= 1 then null else row[|row| - 1]
  }

  /** On level 0 every position leads to the next one. */
  lemma GroundLink<K, V>(row: Row<K, V>, lv: Towers<K, V>, level: nat, p: nat)
    requires Standing(row, lv, level) && p < |row|
    ensures lv[p][0].forward == if p + 1 < |row| then row[p + 1] else null
    ensures p + 1 < |row| ==> lv[p][0].span == 1
  {
    assert Link(row, lv, p, 0);
    assert p + 1 < |row| ==> |lv[p + 1]| >= 1;
  }

  lemma InsertedPlaces<K, V>(row: Row<K, V>, k: nat, x: SkipNode<K, V>)
    requires k < |row|
    ensures var now := Inserted(row, k + 1, x);
      && now[0] == row[0] && now[k] == row[k] && now[k + 1] == x
      && (k + 2 < |now| ==> LastOf(now) == LastOf(row))
      && (forall e <- now :: e in row || e == x)
  {
  }

  // ---- removal --------------------------------------------------------------------------------

  /** The predecessor's link leads to the next position exactly on the levels of that position's tower. */
  lemma PredecessorLink<K, V>(row: Row<K, V>, lv: Towers<K, V>, u: nat, l: nat, k: nat)
    requires Distinct(row) && Linked(row, lv) && LastAt(lv, u, l, k) && k + 1 < |row|
    ensures lv[u][l].forward == row[k + 1] <==> l < |lv[k + 1]|
  {
    assert Link(row, lv, u, l);
    if lv[u][l].forward == row[k + 1] {
      DistinctAt(row, k + 1);
      assert row[u + lv[u][l].span] == row[k + 1];
    }
  }

  /** The links of the predecessors below level `height` no longer lead to `x`, whose tower is `tower`. */
  ghost predicate Unlinked<K, V>(lv: Towers<K, V>, fin: Towers<K, V>, preds: seq<nat>, x: SkipNode<K, V>,
                                 tower: seq<Level<K, V>>, height: nat)
  {
    && SameHeights(lv, fin) && height <= |preds|
    && (forall l | 0 <= l < |preds| :: preds[l] < |lv| && l < |lv[preds[l]]|)
    && (forall l | 0 <= l < |preds| && lv[preds[l]][l].forward == x :: l < |tower|)
    && forall p: nat, l: nat {:trigger fin[p][l]} | p < |lv| && l < |lv[p]| ::
         fin[p][l] ==
           if l < height && p == preds[l]
           then if lv[p][l].forward == x
                then Level(tower[l].forward, lv[p][l].span + (tower[l].span - 1))
                else Level(lv[p][l].forward, lv[p][l].span - 1)
           else lv[p][l]
  }

  /** The link of a predecessor once `x` is gone. */
  ghost function Bypass<K, V>(link: Level<K, V>, x: SkipNode<K, V>, tower: seq<Level<K, V>>, l: nat): Level<K, V>
    requires link.forward == x ==> l < |tower|
  {
    if link.forward == x then Level(tower[l].forward, link.span + (tower[l].span - 1)) else Level(link.forward, link.span - 1)
  }

  /** Taking the node out of one more level. */
  lemma UnlinkOne<K, V>(lv: Towers<K, V>, mid: Towers<K, V>, preds: seq<nat>, x: SkipNode<K, V>, tower: seq<Level<K, V>>, i: nat)
    requires Unlinked(lv, mid, preds, x, tower, i) && i < |preds|
    ensures |mid[preds[i]]| == |lv[preds[i]]| && mid[preds[i]][i] == lv[preds[i]][i]
    ensures var r := preds[i];
      Unlinked(lv, mid[r := mid[r][i := Bypass(lv[r][i], x, tower, i)]], preds, x, tower, i + 1)
  {
  }

  lemma AssembleRemove<K, V>(row: Row<K, V>, lv: Towers<K, V>, fin: Towers<K, V>, preds: seq<nat>, k: nat)
    requires Standing(row, lv, |preds|) && k + 1 < |row|
    requires forall l | 0 <= l < |preds| :: LastAt(lv, preds[l], l, k)
    requires Unlinked(lv, fin, preds, row[k + 1], lv[k + 1], |preds|)
    ensures RemoveStep(lv, Removed(fin, k + 1), preds, k)
  {
    var lw := Removed(fin, k + 1);
    forall p | k + 1 < p < |lv|
      ensures lw[p - 1] == lv[p]
    {
      forall l | 0 <= l < |lv[p]|
        ensures fin[p][l] == lv[p][l]
      {
        assert l < |preds| ==> LastAt(lv, preds[l], l, k);
      }
    }
    forall p: nat, l: nat | p <= k && l < |lv[p]|
      ensures lw[p][l] ==
        if l < |preds| && p == preds[l]
        then if l < |lv[k + 1]|
             then Level(lv[k + 1][l].forward, lv[p][l].span + lv[k + 1][l].span - 1)
             else Level(lv[p][l].forward, lv[p][l].span - 1)
        else lv[p][l]
    {
      assert lw[p][l] == fin[p][l];
      if l < |preds| && p == preds[l] {
        PredecessorLink(row, lv, p, l, k);
      }
    }
  }

  /** Everything that follows from the removal step. */
  lemma RemoveStands<K, V>(row: Row<K, V>, lv: Towers<K, V>, lw: Towers<K, V>, preds: seq<nat>, k: nat)
    requires Standing(row, lv, |preds|) && RemoveStep(lv, lw, preds, k)
    ensures Standing(Removed(row, k + 1), lw, |preds|)
  {
    NothingAbove(row, lv, |preds|);
    RemoveLinked(row, lv, lw, preds, k);
    RemovedDistinct(row, k + 1);
    forall p | 0 < p < |lw|
      ensures 1 <= |lw[p]| <= |preds|
    {
      if p > k {
        assert lw[p] == lv[p + 1];
      }
    }
  }

  /** A top level the header does not use can be given up. */
  lemma LowerStands<K, V>(row: Row<K, V>, lv: Towers<K, V>, level: nat)
    requires Standing(row, lv, level) && level > 1 && lv[0][level - 1].forward == null
    ensures Standing(row, lv, level - 1)
  {
    assert Link(row, lv, 0, level - 1);
  }

  lemma RemovedPlaces<K, V>(row: Row<K, V>, k: nat)
    requires k + 1 < |row|
    ensures var now := Removed(row, k + 1);
      && now[0] == row[0]
      && (k + 2 < |row| ==> LastOf(now) == LastOf(row))
      && (k + 2 == |row| ==> LastOf(now) == if k == 0 then null else row[k])
      && (forall e <- now :: e in row)
  {
  }

  lemma DistinctBeyond<K, V>(row: Row<K, V>, head: SkipNode<K, V>, i: nat)
    requires Distinct(row) && head !in row && i <= |row|
    ensures forall j | i <= j < |row| :: row[j] !in [head] + row[..i]
  {
    forall j | i <= j < |row|
      ensures row[j] !in [head] + row[..i]
    {
      assert row[j] in row;
      forall p: nat | p < i
        ensures row[..i][p] != row[j]
      {
        assert Differ(row, p, j);
      }
    }
  }

  // ---- bulk loading ---------------------------------------------------------------------------

  /** A tower whose links lead nowhere. */
  ghost predicate Bare<K, V>(tower: seq<Level<K, V>>)
  {
    forall l | 0 <= l < |tower| :: tower[l].forward == null
  }

  /** The last positions per level, once position `p` has a tower of `height`. */
  ghost function LastSeen(preds: seq<nat>, height: nat, p: nat): (r: seq<nat>)
    ensures |r| == |preds| && forall l | 0 <= l < |r| :: r[l] == if l < height then p else preds[l]
  {
    seq(|preds|, l requires 0 <= l < |preds| => if l < height then p else preds[l])
  }

  /** Linking a node in at the end of the row. */
  lemma AppendStands<K, V>(row: Row<K, V>, lv: Towers<K, V>, mid: Towers<K, V>, preds: seq<nat>, x: SkipNode<K, V>,
                           tower: seq<Level<K, V>>)
    requires Standing(row, lv, |preds|) && x !in row && 1 <= |tower| && Bare(tower)
    requires forall l | 0 <= l < |preds| :: LastAt(lv, preds[l], l, |row| - 1)
    requires LinkedIn(lv, mid, preds, |row| - 1, x, |tower|)
    ensures Standing(row + [x], mid + [tower], |preds|)
    ensures forall l | 0 <= l < |preds| :: LastAt(mid + [tower], LastSeen(preds, |tower|, |row|)[l], l, |row|)
  {
    var k := |row| - 1;
    var lw := mid + [tower];
    forall l | 0 <= l < |preds|
      ensures LastAt(lv, preds[l], l, k) && lv[preds[l]][l].forward == null
    {
      assert Link(row, lv, preds[l], l);
    }
    forall p: nat, l: nat | p <= k && l < |lv[p]|
      ensures lw[p][l] == if l < |tower| && p == preds[l] then Level(x, k + 1 - p) else lv[p][l]
    {
      assert lw[p][l] == mid[p][l];
    }
    assert InsertStep(lv, lw, preds, k, x, |tower|);
    InsertStands(row, lv, lw, preds, k, x, |tower|);
    assert Inserted(row, k + 1, x) == row + [x];
    forall l | 0 <= l < |preds|
      ensures LastAt(lw, LastSeen(preds, |tower|, |row|)[l], l, |row|)
    {
      assert LastAt(lv, preds[l], l, k);
    }
  }

  /** A level some tower reaches is used by the header. */
  lemma TopUsed<K, V>(row: Row<K, V>, lv: Towers<K, V>, level: nat, p: nat)
    requires Standing(row, lv, level) && 0 < p < |row| && |lv[p]| == level
    ensures lv[0][level - 1].forward != null
  {
    assert Link(row, lv, 0, level - 1);
  }
}
