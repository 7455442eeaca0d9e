/** The span-carrying skip list: nodes linked in place, proved against the sorted list of its entries. */
module SkipLists {
  import opened Basics
  import opened SkipLinks
  import opened Ordered
  import opened Ranges

  ghost function TowersOf<K, V>(row: Row<K, V>): (lv: Towers<K, V>)
    reads row
    ensures |lv| == |row| && forall p | 0 <= p < |row| :: lv[p] == row[p].level
  {
    seq(|row|, p requires 0 <= p < |row| reads row => row[p].level)
  }

  /** The backward link of position `p`: none for the header and the first node. */
  ghost predicate BackAt<K, V>(row: Row<K, V>, p: nat)
    requires p < |row|
    reads row`backward
  {
    row[p].backward == if p <= 1 then null else row[p - 1]
  }

  ghost predicate BacksRight<K, V>(row: Row<K, V>)
    reads row`backward
  {
    forall p: nat {:trigger BackAt(row, p)} | p < |row| :: BackAt(row, p)
  }

  ghost function EntryOf<K, V>(n: SkipNode<K, V>): Entry<K, V>
  {
    Entry(n.key, n.val)
  }

  /** The entries behind the header. */
  ghost function EntriesOf<K, V>(line: Row<K, V>): (s: seq<Entry<K, V>>)
    requires |line| > 0
    ensures |s| == |line| - 1 && forall i | 0 <= i < |s| :: s[i] == EntryOf(line[i + 1])
  {
    seq(|line| - 1, i requires 0 <= i < |line| - 1 => EntryOf(line[i + 1]))
  }

  lemma TowersOfInserted<K, V>(row: Row<K, V>, i: nat, x: SkipNode<K, V>)
    requires i <= |row|
    ensures TowersOf(Inserted(row, i, x)) == Inserted(TowersOf(row), i, x.level)
  {
    var now := Inserted(row, i, x);
    forall p | 0 <= p < |now|
      ensures now[p].level == Inserted(TowersOf(row), i, x.level)[p]
    {
    }
  }

  lemma TowersOfRemoved<K, V>(row: Row<K, V>, i: nat)
    requires i < |row|
    ensures TowersOf(Removed(row, i)) == Removed(TowersOf(row), i)
  {
    var now := Removed(row, i);
    forall p | 0 <= p < |now|
      ensures now[p].level == Removed(TowersOf(row), i)[p]
    {
    }
  }

  lemma EntriesInserted<K, V>(line: Row<K, V>, k: nat, x: SkipNode<K, V>)
    requires k < |line|
    ensures EntriesOf(Inserted(line, k + 1, x)) == Inserted(EntriesOf(line), k, EntryOf(x))
  {
    var now := Inserted(line, k + 1, x);
    forall i | 0 <= i < |line|
      ensures EntryOf(now[i + 1]) == Inserted(EntriesOf(line), k, EntryOf(x))[i]
    {
    }
  }

  lemma EntriesRemoved<K, V>(line: Row<K, V>, k: nat)
    requires k + 1 < |line|
    ensures EntriesOf(Removed(line, k + 1)) == Removed(EntriesOf(line), k)
  {
    var now := Removed(line, k + 1);
    forall i | 0 <= i < |line| - 2
      ensures EntryOf(now[i + 1]) == Removed(EntriesOf(line), k)[i]
    {
    }
  }

  /** The last node seen on a level while bulk loading, with its 0-based index; -1 is the header. */
  datatype Seen<K, V> = Seen(node: SkipNode<K, V>, index: int)

  ghost function PositionsOf<K, V>(lastAt: seq<Seen<K, V>>): (r: seq<nat>)
    requires forall s <- lastAt :: s.index >= -1
    ensures |r| == |lastAt| && forall l | 0 <= l < |r| :: r[l] == lastAt[l].index + 1
  {
    seq(|lastAt|, l requires 0 <= l < |lastAt| => lastAt[l].index + 1)
  }

  class SkipList<K(0, !new), V(0, !new)> {
    const order: Order<K, V>
    const header: SkipNode<K, V>
    var tail: SkipNode?<K, V>
    var length: nat
    var level: nat
    /** The header followed by the nodes in level-0 order. */
    ghost var line: Row<K, V>

    ghost function Entries(): seq<Entry<K, V>>
      reads this`line
      requires |line| > 0
    {
      EntriesOf(line)
    }

    /** Level 0 is the whole line, every higher level a sublist of it, and every span of a link with a forward
        node its exact level-0 distance. */
    ghost predicate Towered()
      reads this`level, this`line, line
    {
      Standing(line, TowersOf(line), level) && line[0] == header
    }

    /** Backward links, tail and length agree with the line. */
    ghost predicate Ended()
      reads this`length, this`tail, this`line, line`backward
    {
      |line| > 0 && length == |line| - 1 && tail == LastOf(line) && BacksRight(line)
    }

    ghost predicate Topped()
      reads this`level, header`level
    {
      |header.level| == MAX_LEVEL && 1 <= level <= MAX_LEVEL && header.level[level - 1].forward != null
    }

    /** No level above the highest tower. */
    ghost predicate Tight()
      reads this`level, header`level
    {
      level == 1 || Topped()
    }

    ghost predicate Valid()
      reads this, header, line
    {
      Towered() && Ended() && Tight() && order.Sorted(Entries())
    }

    constructor (order: Order<K, V>)
      ensures Valid() && fresh(header) && line == [header] && level == 1 && this.order == order
    {
      this.order := order;
      var k: K := *;
      var v: V := *;
      header := new SkipNode(k, v, MAX_LEVEL);
      tail := null;
      length := 0;
      level := 1;
      line := [header];
      new;
      assert forall l | 0 <= l < MAX_LEVEL :: Link(line, TowersOf(line), 0, l);
    }

    /** The first `k` entries satisfy `p`, the others do not. */
    ghost predicate Split(p: Entry<K, V> -> bool, k: nat)
      reads this`line
    {
      && k < |line|
      && (forall q | 0 < q <= k :: p(EntryOf(line[q])))
      && (forall q | k < q < |line| :: !p(EntryOf(line[q])))
    }

    lemma SplitAtLeading(p: Entry<K, V> -> bool)
      requires |line| > 0 && DownClosed(Entries(), p)
      ensures Split(p, Leading(Entries(), p))
    {
      var s := Entries();
      var k := Leading(s, p);
      forall q | 0 < q < |line|
        ensures p(EntryOf(line[q])) <==> q <= k
      {
        assert s[q - 1] == EntryOf(line[q]);
      }
    }

    lemma InsertSplit(e: Entry<K, V>)
      requires |line| > 0 && order.Total() && order.Sorted(Entries())
      ensures Split(Below(order, e), InsertPoint(order, Entries(), e))
    {
      BelowDownClosed(order, Entries(), e);
      SplitAtLeading(Below(order, e));
    }

    // ---- searching ----------------------------------------------------------------------------

    /** Walk right on level `i` while the next entry satisfies `p`. */
    method Walk(start: SkipNode<K, V>, i: nat, from: nat, p: Entry<K, V> -> bool, ghost k: nat)
      returns (x: SkipNode<K, V>, rank: nat)
      requires Towered() && Split(p, k)
      requires from <= k && start == line[from] && i < |start.level|
      ensures rank <= k && x == line[rank] && LastAt(TowersOf(line), rank, i, k)
    {
      ghost var lv: Towers<K, V> := TowersOf(line);
      x, rank := start, from;
      var f := x.level[i].forward;
      while f != null && p(Entry(f.key, f.val))
        invariant rank <= k && x == line[rank] && i < |lv[rank]|
        invariant f == x.level[i].forward
        decreases k - rank
      {
        assert Link(line, lv, rank, i);
        assert p(EntryOf(f));
        rank := rank + x.level[i].span;
        x := f;
        f := x.level[i].forward;
      }
      assert Link(line, lv, rank, i);
      assert f != null ==> !p(EntryOf(f));
    }

    /** Every node stands on level 0. */
    lemma GroundLevel(r: nat, k: nat)
      requires Towered() && LastAt(TowersOf(line), r, 0, k)
      ensures r == k
    {
      assert k > 0 ==> |TowersOf(line)[k]| >= 1;
    }

    /** From level `i` on, `update` holds the last node up to position `k` on each level, `rank` its position. */
    ghost predicate Predecessors(update: seq<SkipNode<K, V>>, rank: seq<nat>, i: nat, k: nat)
      reads this`level, this`line, line
    {
      && |update| == |rank| == level && k < |line|
      && forall l | i <= l < level ::
           rank[l] <= k && update[l] == line[rank[l]] && LastAt(TowersOf(line), rank[l], l, k)
    }

    /** The rightmost node before the target on every level, with its rank. */
    method FindPredecessors(target: Entry<K, V>, ghost k: nat) returns (update: seq<SkipNode<K, V>>, rank: seq<nat>)
      requires Towered() && Split(Below(order, target), k)
      ensures Predecessors(update, rank, 0, k) && rank[0] == k
    {
      update := seq(level, _ => header);
      rank := seq(level, _ => 0);
      var x := header;
      var i := level;
      while i > 0
        invariant 0 <= i <= level == |update| == |rank|
        invariant i == level ==> x == header
        invariant i < level ==> x == update[i]
        invariant Predecessors(update, rank, i, k)
      {
        var from := if i == level then 0 else rank[i];
        assert i < level ==> LastAt(TowersOf(line), rank[i], i, k);
        i := i - 1;
        var y, r := Walk(x, i, from, Below(order, target), k);
        x := y;
        rank := rank[i := r];
        update := update[i := x];
      }
      assert LastAt(TowersOf(line), rank[0], 0, k);
      GroundLevel(rank[0], k);
    }

    /** Down through the levels to the last node whose entry satisfies `p`, with its rank. */
    method Descend(p: Entry<K, V> -> bool, ghost k: nat) returns (x: SkipNode<K, V>, rank: nat)
      requires Towered() && Split(p, k)
      ensures rank == k && x == line[k]
    {
      x, rank := header, 0;
      var i := level;
      while i > 0
        invariant 0 <= i <= level && rank <= k && x == line[rank] && i <= |x.level|
        invariant i == 0 ==> rank == k
      {
        i := i - 1;
        assert |TowersOf(line)[rank]| == |x.level|;
        x, rank := Walk(x, i, rank, p, k);
        if i == 0 {
          GroundLevel(rank, k);
        }
      }
    }

    // ---- insertion ----------------------------------------------------------------------------

    /** The geometric level draw: any level may come out. */
    method RandomLevel() returns (lvl: nat)
      ensures 1 <= lvl <= MAX_LEVEL
    {
      lvl := 1;
      var lucky: bool := *;
      while lucky && lvl < MAX_LEVEL
        invariant 1 <= lvl <= MAX_LEVEL
        decreases MAX_LEVEL - lvl
      {
        lvl := lvl + 1;
        lucky := *;
      }
    }

    /** Open the levels up to `lvl` with the header as predecessor. */
    method RaiseLevel(lvl: nat, update0: seq<SkipNode<K, V>>, rank0: seq<nat>)
      returns (update: seq<SkipNode<K, V>>, rank: seq<nat>)
      requires |update0| == |rank0| == level < lvl <= MAX_LEVEL == |header.level|
      requires forall l | level <= l < lvl :: header.level[l].forward == null
      modifies this`level, header`level
      ensures level == lvl && |update| == |rank| == lvl
      ensures update[..old(level)] == update0 && rank[..old(level)] == rank0
      ensures forall l | old(level) <= l < lvl :: update[l] == header && rank[l] == 0
      ensures |header.level| == MAX_LEVEL && forall l | 0 <= l < MAX_LEVEL ::
                header.level[l].forward == old(header.level)[l].forward &&
                (header.level[l].forward != null ==> header.level[l] == old(header.level)[l])
    {
      update, rank := update0, rank0;
      for i := level to lvl
        invariant level == old(level) && |update| == |rank| == i && |header.level| == MAX_LEVEL
        invariant update[..level] == update0 && rank[..level] == rank0
        invariant forall l | level <= l < i :: update[l] == header && rank[l] == 0
        invariant forall l | 0 <= l < MAX_LEVEL ::
                    header.level[l].forward == old(header.level)[l].forward &&
                    (header.level[l].forward != null ==> header.level[l] == old(header.level)[l])
      {
        rank := rank + [0];
        update := update + [header];
        header.level := header.level[i := Level(header.level[i].forward, length)];
      }
      level := lvl;
    }

    /** The predecessors on all levels up to the drawn one; the lower levels are untouched. */
    method OpenLevels(lvl: nat, update0: seq<SkipNode<K, V>>, rank0: seq<nat>, ghost k: nat)
      returns (update: seq<SkipNode<K, V>>, rank: seq<nat>)
      requires Towered() && 1 <= lvl <= MAX_LEVEL && Predecessors(update0, rank0, 0, k) && rank0[0] == k
      modifies this`level, header`level
      ensures Towered() && lvl <= level && (level == lvl || level == old(level))
      ensures Predecessors(update, rank, 0, k) && rank[0] == k
      ensures level == old(level) ==> header.level == old(header.level)
    {
      update, rank := update0, rank0;
      if lvl > level {
        ghost var lv: Towers<K, V> := TowersOf(line);
        NothingAbove(line, lv, level);
        DistinctAt(line, 0);
        assert lv[0] == header.level;
        assert forall l | 0 <= l < level :: update[l] == line[rank[l]] && LastAt(lv, rank[l], l, k);
        update, rank := RaiseLevel(lvl, update, rank);
        ghost var lw: Towers<K, V> := TowersOf(line);
        assert forall p | 0 < p < |line| :: lw[p] == lv[p];
        RespanLinked(line, lv, lw);
        assert forall l | 0 <= l < old(level) :: rank[l] == rank[..old(level)][l] && update[l] == update[..old(level)][l];
        RaisePredecessors(lv, lw, old(level), lvl, rank, k);
      }
    }

    /** Write one link of the node at position `r`. */
    method SetLink(n: SkipNode<K, V>, i: nat, link: Level<K, V>, ghost r: nat)
      requires Distinct(line) && r < |line| && n == line[r] && i < |n.level|
      modifies n`level
      ensures n.level == old(n.level)[i := link]
      ensures TowersOf(line) == old(TowersOf(line))[r := old(n.level)[i := link]]
    {
      DistinctAt(line, r);
      n.level := n.level[i := link];
    }

    /** Redirect the link of the predecessor on one more level to `x`. */
    method Redirect(n: SkipNode<K, V>, l: nat, link: Level<K, V>, ghost lv: Towers<K, V>, ghost preds: seq<nat>,
                    ghost k: nat, ghost x: SkipNode<K, V>)
      requires Distinct(line) && LinkedIn(lv, TowersOf(line), preds, k, x, l)
      requires l < |preds| && preds[l] < |line| && n == line[preds[l]] && l < |lv[preds[l]]|
      requires link == Level(x, k + 1 - preds[l])
      modifies n`level
      ensures LinkedIn(lv, TowersOf(line), preds, k, x, l + 1)
    {
      LinkOne(lv, TowersOf(line), preds, k, x, l);
      SetLink(n, l, link, preds[l]);
    }

    /** Link `x` in behind position `k` on its own levels. */
    method LinkIn(x: SkipNode<K, V>, update: seq<SkipNode<K, V>>, rank: seq<nat>, ghost k: nat)
      requires Distinct(line) && x !in line && k < |line|
      requires |x.level| <= |update| == |rank| && 0 < |rank| && rank[0] == k
      requires forall l | 0 <= l < |x.level| :: rank[l] <= k && update[l] == line[rank[l]] && l < |update[l].level|
      modifies line`level, x`level
      ensures |x.level| == old(|x.level|)
      ensures LinkedIn(old(TowersOf(line)), TowersOf(line), rank, k, x, |x.level|)
      ensures TowerIn(old(TowersOf(line)), x.level, rank, k)
    {
      ghost var lv: Towers<K, V> := TowersOf(line);
      var lvl := |x.level|;
      for i := 0 to lvl
        invariant |x.level| == lvl
        invariant LinkedIn(lv, TowersOf(line), rank, k, x, i)
        invariant forall l | 0 <= l < i ::
                    x.level[l] == Level(lv[rank[l]][l].forward, lv[rank[l]][l].span - (k - rank[l]))
      {
        ghost var before: Towers<K, V> := TowersOf(line);
        LinkOne(lv, before, rank, k, x, i);
        var link := update[i].level[i];
        x.level := x.level[i := Level(link.forward, link.span - (rank[0] - rank[i]))];
        assert TowersOf(line) == before;
        Redirect(update[i], i, Level(x, rank[0] - rank[i] + 1), lv, rank, k, x);
      }
    }

    /** Lengthen the links that pass over the new node. */
    method PassOver(from: nat, update: seq<SkipNode<K, V>>, rank: seq<nat>)
      requires Distinct(line) && from <= level <= |update| == |rank|
      requires forall l | from <= l < level :: rank[l] < |line| && update[l] == line[rank[l]] && l < |update[l].level|
      modifies line`level
      ensures Lengthened(old(TowersOf(line)), TowersOf(line), rank, from, level)
    {
      ghost var lv: Towers<K, V> := TowersOf(line);
      for i := from to level
        invariant Lengthened(lv, TowersOf(line), rank, from, i)
      {
        ghost var before: Towers<K, V> := TowersOf(line);
        LengthenOne(lv, before, rank, from, i);
        SetLink(update[i], i, Level(update[i].level[i].forward, update[i].level[i].span + 1), rank[i]);
      }
    }

    lemma InsertDone(lv: Towers<K, V>, mid: Towers<K, V>, fin: Towers<K, V>, now: Row<K, V>,
                     tower: seq<Level<K, V>>, preds: seq<nat>, k: nat, x: SkipNode<K, V>)
      requires Standing(line, lv, |preds|) && line[0] == header && x !in line && k < |line| && 1 <= |tower|
      requires forall l | 0 <= l < |preds| :: LastAt(lv, preds[l], l, k)
      requires LinkedIn(lv, mid, preds, k, x, |tower|) && Lengthened(mid, fin, preds, |tower|, |preds|)
      requires TowerIn(lv, tower, preds, k) && now == Inserted(line, k + 1, x)
      requires TowersOf(now) == Inserted(fin, k + 1, tower) && level == |preds|
      requires lv[0][|preds| - 1].forward != null || |tower| == |preds|
      ensures Standing(now, TowersOf(now), level) && Topped()
    {
      AssembleInsert(lv, mid, fin, TowersOf(now), tower, preds, k, x);
      InsertStands(line, lv, TowersOf(now), preds, k, x, |tower|);
    }

    /** Both link passes. */
    method Weave(x: SkipNode<K, V>, update: seq<SkipNode<K, V>>, rank: seq<nat>, ghost k: nat)
      returns (ghost mid: Towers<K, V>)
      requires Distinct(line) && x !in line && k < |line|
      requires |x.level| <= level <= |update| == |rank| && 0 < |rank| && rank[0] == k
      requires forall l | 0 <= l < level :: rank[l] <= k && update[l] == line[rank[l]] && l < |update[l].level|
      modifies line`level, x`level
      ensures |x.level| == old(|x.level|)
      ensures LinkedIn(old(TowersOf(line)), mid, rank, k, x, |x.level|)
      ensures Lengthened(mid, TowersOf(line), rank, |x.level|, level)
      ensures TowerIn(old(TowersOf(line)), x.level, rank, k)
    {
      ghost var lv: Towers<K, V> := TowersOf(line);
      LinkIn(x, update, rank, k);
      mid := TowersOf(line);
      ghost var tower := x.level;
      assert forall l | 0 <= l < level :: |line[rank[l]].level| == |mid[rank[l]]| == |lv[rank[l]]|;
      PassOver(|x.level|, update, rank);
      assert x.level == tower;
    }

    /** Both link passes together let the line stand with the new node in place. */
    method Splice(x: SkipNode<K, V>, update: seq<SkipNode<K, V>>, rank: seq<nat>, ghost k: nat, ghost now: Row<K, V>)
      requires Towered() && x !in line && k < |line| && now == Inserted(line, k + 1, x)
      requires Predecessors(update, rank, 0, k) && 1 <= |x.level| <= level && rank[0] == k
      requires |x.level| == level || Topped()
      modifies line`level, x`level
      ensures Standing(now, TowersOf(now), level) && Topped()
    {
      ghost var lv: Towers<K, V> := TowersOf(line);
      assert lv[0] == header.level;
      assert forall l | 0 <= l < level :: update[l] == line[rank[l]] && LastAt(lv, rank[l], l, k);
      ghost var mid: Towers<K, V> := Weave(x, update, rank, k);
      TowersOfInserted(line, k + 1, x);
      InsertDone(lv, mid, TowersOf(line), now, x.level, rank, k, x);
    }

    /** Inserting leaves every backward link right but those of the new node and its successor. */
    lemma BacksAround(x: SkipNode<K, V>, k: nat, now: Row<K, V>)
      requires k < |line| && BacksRight(line) && now == Inserted(line, k + 1, x)
      ensures forall p: nat {:trigger BackAt(now, p)} | p < |now| && p != k + 1 && p != k + 2 :: BackAt(now, p)
      ensures now[0] == line[0] && now[k] == line[k] && now[k + 1] == x && (k + 2 < |now| ==> LastOf(now) == LastOf(line))
      ensures forall e <- now :: e in line || e == x
    {
      InsertedPlaces(line, k, x);
      forall p: nat | p < |now| && p != k + 1 && p != k + 2
        ensures BackAt(now, p)
      {
        assert BackAt(line, if p <= k then p else p - 1);
      }
    }

    /** Write the backward link of the node at position `i`. */
    method SetBack(n: SkipNode<K, V>, back: SkipNode?<K, V>, ghost now: Row<K, V>, ghost i: nat)
      requires Distinct(now) && i < |now| && n == now[i] && back == if i <= 1 then null else now[i - 1]
      modifies n`backward
      ensures BackAt(now, i)
      ensures forall p: nat {:trigger BackAt(now, p)} | p < |now| && p != i && old(BackAt(now, p)) :: BackAt(now, p)
    {
      DistinctAt(now, i);
      n.backward := back;
      forall p: nat | p < |now| && p != i && old(BackAt(now, p))
        ensures BackAt(now, p)
      {
      }
    }

    /** The backward links of the node at position `k + 1` and of its successor, if it has one. */
    method PointBack(x: SkipNode<K, V>, back: SkipNode?<K, V>, next: SkipNode?<K, V>, ghost k: nat, ghost now: Row<K, V>)
      requires Distinct(now) && k + 1 < |now| && x == now[k + 1]
      requires back == if k == 0 then null else now[k]
      requires next == if k + 2 < |now| then now[k + 2] else null
      requires forall p: nat {:trigger BackAt(now, p)} | p < |now| && p != k + 1 && p != k + 2 :: BackAt(now, p)
      modifies now`backward
      ensures BacksRight(now) && TowersOf(now) == old(TowersOf(now))
    {
      SetBack(x, back, now, k + 1);
      if next != null {
        SetBack(next, x, now, k + 2);
      }
    }

    /** Repair the backward links, the tail and the length around the node at position `k + 1`. */
    method LinkBack(x: SkipNode<K, V>, pred: SkipNode<K, V>, ghost k: nat, ghost now: Row<K, V>)
      requires Standing(now, TowersOf(now), level)
      requires k + 1 < |now| && now[0] == header && pred == now[k] && x == now[k + 1]
      requires forall p: nat {:trigger BackAt(now, p)} | p < |now| && p != k + 1 && p != k + 2 :: BackAt(now, p)
      requires k + 2 < |now| ==> tail == LastOf(now)
      modifies this`tail, this`length, now`backward
      ensures length == old(length) + 1 && tail == LastOf(now)
      ensures BacksRight(now)
      ensures TowersOf(now) == old(TowersOf(now))
    {
      DistinctAt(now, 0);
      GroundLink(now, TowersOf(now), level, k + 1);
      var next := x.level[0].forward;
      PointBack(x, if pred == header then null else pred, next, k, now);
      if next == null {
        tail := x;
      }
      length := length + 1;
    }

    /** The row `now` has the header in front and the first clause of `Towered`, with the ends in order. */
    ghost predicate Ready(now: Row<K, V>)
      reads this`level, this`length, this`tail, now
    {
      && Standing(now, TowersOf(now), level) && now[0] == header
      && length == |now| - 1 && tail == LastOf(now) && BacksRight(now)
    }

    ghost method SetLine(now: Row<K, V>)
      requires Ready(now)
      modifies this`line
      ensures line == now && Towered() && Ended()
      ensures old(Tight()) ==> Tight()
    {
      line := now;
    }

    /** Put the new node in behind position `k` and repair everything around it. */
    method Place(x: SkipNode<K, V>, update: seq<SkipNode<K, V>>, rank: seq<nat>, ghost k: nat, ghost now: Row<K, V>)
      requires Towered() && Ended() && x !in line && k < |line| && now == Inserted(line, k + 1, x)
      requires Predecessors(update, rank, 0, k) && 1 <= |x.level| <= level && rank[0] == k
      requires |x.level| == level || Topped()
      modifies this`tail, this`length, line`level, line`backward, x`level, x`backward
      ensures Ready(now)
      ensures Topped()
    {
      assert update[0] == line[rank[0]];
      BacksAround(x, k, now);
      Splice(x, update, rank, k, now);
      LinkBack(x, update[0], k, now);
    }

    /** The predecessors of the new entry and the height drawn for it. */
    method Prepare(target: Entry<K, V>, ghost k: nat)
      returns (update: seq<SkipNode<K, V>>, rank: seq<nat>, lvl: nat)
      requires Towered() && Ended() && Tight() && Split(Below(order, target), k)
      modifies this`level, header`level
      ensures Towered() && Ended() && Predecessors(update, rank, 0, k) && rank[0] == k
      ensures 1 <= lvl <= level && (lvl == level || Topped())
    {
      update, rank := FindPredecessors(target, k);
      lvl := RandomLevel();
      update, rank := OpenLevels(lvl, update, rank, k);
    }

    /** A new node of the drawn height goes in behind position `k`. */
    method PlaceNew(key: K, val: V, lvl: nat, update: seq<SkipNode<K, V>>, rank: seq<nat>, ghost k: nat)
      returns (x: SkipNode<K, V>, ghost now: Row<K, V>)
      requires Towered() && Ended() && k < |line|
      requires Predecessors(update, rank, 0, k) && rank[0] == k && 1 <= lvl <= level && (lvl == level || Topped())
      modifies this`tail, this`length, line`level, line`backward
      ensures fresh(x) && EntryOf(x) == Entry(key, val) && now == Inserted(line, k + 1, x)
      ensures Ready(now) && Topped()
    {
      x := new SkipNode(key, val, lvl);
      assert Towered() && Predecessors(update, rank, 0, k);
      now := Inserted(line, k + 1, x);
      Place(x, update, rank, k, now);
    }

    /** Insert behind position `k`, the last entry less than the new one. */
    method InsertAt(key: K, val: V, ghost k: nat) returns (x: SkipNode<K, V>)
      requires Towered() && Ended() && Tight() && Split(Below(order, Entry(key, val)), k)
      modifies this, line
      ensures fresh(x) && line == Inserted(old(line), k + 1, x) && EntryOf(x) == Entry(key, val)
      ensures Towered() && Ended() && Tight()
    {
      var update, rank, lvl := Prepare(Entry(key, val), k);
      ghost var now: Row<K, V>;
      x, now := PlaceNew(key, val, lvl, update, rank, k);
      SetLine(now);
    }

    /** Insert an entry at its sorted place; the list stays a valid skip list. */
    method Insert(key: K, val: V) returns (x: SkipNode<K, V>)
      requires Valid() && order.Total()
      modifies this, line
      ensures Valid() && EntryOf(x) == Entry(key, val)
      ensures fresh(x) && line == Inserted(old(line), InsertPoint(order, old(Entries()), Entry(key, val)) + 1, x)
      ensures Entries() == InsertEntry(order, old(Entries()), Entry(key, val))
    {
      ghost var s := Entries();
      ghost var k := InsertPoint(order, s, Entry(key, val));
      InsertSplit(Entry(key, val));
      InsertKeepsSorted(order, s, Entry(key, val));
      ghost var was := line;
      x := InsertAt(key, val, k);
      EntriesInserted(was, k, x);
    }

    // ---- deletion -----------------------------------------------------------------------------

    /** Take `x`, at position `k + 1`, out of the links of its predecessors. */
    method Unlink(x: SkipNode<K, V>, update: seq<SkipNode<K, V>>, ghost rank: seq<nat>, ghost k: nat)
      requires Towered() && k + 1 < |line| && x == line[k + 1] && Predecessors(update, rank, 0, k)
      modifies line`level
      ensures Unlinked(old(TowersOf(line)), TowersOf(line), rank, x, old(x.level), level)
      ensures x.level == old(x.level)
    {
      ghost var lv: Towers<K, V> := TowersOf(line);
      forall l | 0 <= l < level
        ensures rank[l] <= k && update[l] == line[rank[l]] && l < |lv[rank[l]]|
        ensures lv[rank[l]][l].forward == x ==> l < |lv[k + 1]|
      {
        assert LastAt(lv, rank[l], l, k);
        PredecessorLink(line, lv, rank[l], l, k);
      }
      assert lv[k + 1] == x.level;
      DistinctAt(line, k + 1);
      UnlinkLevels(x, update, rank);
    }

    /** The loop of the removal. */
    method UnlinkLevels(x: SkipNode<K, V>, update: seq<SkipNode<K, V>>, ghost rank: seq<nat>)
      requires Distinct(line) && |update| == |rank| == level
      requires forall l | 0 <= l < level :: rank[l] < |line| && update[l] == line[rank[l]] && l < |update[l].level|
      requires forall l | 0 <= l < level :: update[l] != x && (update[l].level[l].forward == x ==> l < |x.level|)
      modifies line`level
      ensures Unlinked(old(TowersOf(line)), TowersOf(line), rank, x, old(x.level), level)
      ensures x.level == old(x.level)
    {
      ghost var lv: Towers<K, V> := TowersOf(line);
      ghost var tower := x.level;
      assert forall l | 0 <= l < level :: lv[rank[l]] == update[l].level;
      for i := 0 to level
        invariant x.level == tower
        invariant Unlinked(lv, TowersOf(line), rank, x, tower, i)
      {
        ghost var before: Towers<K, V> := TowersOf(line);
        UnlinkOne(lv, before, rank, x, tower, i);
        var link := update[i].level[i];
        var next :=
          if link.forward == x then Level(x.level[i].forward, link.span + (x.level[i].span - 1))
          else Level(link.forward, link.span - 1);
        assert next == Bypass(lv[rank[i]][i], x, tower, i);
        SetLink(update[i], i, next, rank[i]);
      }
    }

    lemma CutDone(lv: Towers<K, V>, fin: Towers<K, V>, now: Row<K, V>, preds: seq<nat>, k: nat)
      requires Standing(line, lv, |preds|) && k + 1 < |line|
      requires forall l | 0 <= l < |preds| :: LastAt(lv, preds[l], l, k)
      requires Unlinked(lv, fin, preds, line[k + 1], lv[k + 1], |preds|)
      requires now == Removed(line, k + 1) && TowersOf(now) == Removed(fin, k + 1)
      ensures Standing(now, TowersOf(now), |preds|)
    {
      AssembleRemove(line, lv, fin, preds, k);
      RemoveStands(line, lv, TowersOf(now), preds, k);
    }

    /** The links without `x` let the rest of the line stand. */
    method Cut(x: SkipNode<K, V>, update: seq<SkipNode<K, V>>, ghost rank: seq<nat>, ghost k: nat, ghost now: Row<K, V>)
      requires Towered() && k + 1 < |line| && x == line[k + 1] && Predecessors(update, rank, 0, k)
      requires now == Removed(line, k + 1)
      modifies line`level
      ensures Standing(now, TowersOf(now), level) && x.level == old(x.level)
    {
      ghost var lv: Towers<K, V> := TowersOf(line);
      assert forall l | 0 <= l < level :: LastAt(lv, rank[l], l, k);
      assert lv[k + 1] == x.level;
      Unlink(x, update, rank, k);
      TowersOfRemoved(line, k + 1);
      CutDone(lv, TowersOf(line), now, rank, k);
    }

    /** Removing leaves every backward link right but that of the successor. */
    lemma BacksBeside(k: nat)
      requires k + 1 < |line| && BacksRight(line)
      ensures var now := Removed(line, k + 1);
        forall p: nat {:trigger BackAt(now, p)} | p < |now| && p != k + 1 :: BackAt(now, p)
    {
      var now := Removed(line, k + 1);
      forall p: nat | p < |now| && p != k + 1
        ensures BackAt(now, p)
      {
        assert BackAt(line, if p <= k then p else p + 1);
      }
    }

    /** Repair the backward link behind the removed node, or the tail. */
    method CutBack(x: SkipNode<K, V>, ghost k: nat, ghost now: Row<K, V>)
      requires Distinct(now) && k < |now| && |x.level| > 0
      requires x.backward == if k == 0 then null else now[k]
      requires x.level[0].forward == if k + 1 < |now| then now[k + 1] else null
      requires forall p: nat {:trigger BackAt(now, p)} | p < |now| && p != k + 1 :: BackAt(now, p)
      requires k + 1 < |now| ==> tail == LastOf(now)
      modifies this`tail, now`backward
      ensures tail == LastOf(now) && BacksRight(now)
      ensures TowersOf(now) == old(TowersOf(now))
    {
      if x.level[0].forward != null {
        SetBack(x.level[0].forward, x.backward, now, k + 1);
      } else {
        tail := x.backward;
      }
    }

    /** Give up the top levels the header does not use. */
    method Shrink(ghost now: Row<K, V>)
      requires Standing(now, TowersOf(now), level) && now[0] == header
      modifies this`level
      ensures Standing(now, TowersOf(now), level) && Tight()
    {
      ghost var lv: Towers<K, V> := TowersOf(now);
      while level > 1 && header.level[level - 1].forward == null
        invariant Standing(now, lv, level) && lv[0] == header.level
        decreases level
      {
        LowerStands(now, lv, level);
        level := level - 1;
      }
    }

    /** Lower the top and count the node off. */
    method Finish(ghost now: Row<K, V>)
      requires Standing(now, TowersOf(now), level) && now[0] == header
      requires length == |now| && tail == LastOf(now) && BacksRight(now)
      modifies this`level, this`length, this`line
      ensures Towered() && Ended() && Tight() && line == now
    {
      Shrink(now);
      length := length - 1;
      SetLine(now);
    }

    /** The surroundings of the node to delete, before the links change. */
    lemma Surroundings(k: nat, x: SkipNode<K, V>, now: Row<K, V>)
      requires Towered() && Ended() && k + 1 < |line| && x == line[k + 1] && now == Removed(line, k + 1)
      ensures |x.level| > 0 && now[0] == header && length == |now| && forall n <- now :: n in line
      ensures x.backward == if k == 0 then null else now[k]
      ensures x.level[0].forward == if k + 1 < |now| then now[k + 1] else null
      ensures forall p: nat {:trigger BackAt(now, p)} | p < |now| && p != k + 1 :: BackAt(now, p)
      ensures k + 1 < |now| ==> tail == LastOf(now)
    {
      RemovedPlaces(line, k);
      GroundLink(line, TowersOf(line), level, k + 1);
      assert |TowersOf(line)[k + 1]| > 0;
      assert BackAt(line, k + 1);
      BacksBeside(k);
    }

    /** Take the node at position `k + 1` out of the forward and backward links. */
    method Sever(x: SkipNode<K, V>, update: seq<SkipNode<K, V>>, ghost rank: seq<nat>, ghost k: nat, ghost now: Row<K, V>)
      requires Towered() && Ended() && k + 1 < |line| && x == line[k + 1] && Predecessors(update, rank, 0, k)
      requires now == Removed(line, k + 1)
      modifies this`tail, line`level, line`backward
      ensures Standing(now, TowersOf(now), level) && now[0] == header
      ensures length == |now| && tail == LastOf(now) && BacksRight(now)
    {
      Surroundings(k, x, now);
      Cut(x, update, rank, k, now);
      CutBack(x, k, now);
    }

    /** Remove the node at position `k + 1`. */
    method DeleteNode(x: SkipNode<K, V>, update: seq<SkipNode<K, V>>, ghost rank: seq<nat>, ghost k: nat)
      requires Towered() && Ended() && k + 1 < |line| && x == line[k + 1] && Predecessors(update, rank, 0, k)
      modifies this, line`level, line`backward
      ensures Towered() && Ended() && Tight() && line == Removed(old(line), k + 1)
    {
      ghost var now: Row<K, V> := Removed(line, k + 1);
      Sever(x, update, rank, k, now);
      Finish(now);
    }

    /** Remove the entry at position `k`, the rest being sorted. */
    method Excise(x: SkipNode<K, V>, update: seq<SkipNode<K, V>>, ghost rank: seq<nat>, ghost k: nat)
      requires Valid() && k + 1 < |line| && x == line[k + 1] && Predecessors(update, rank, 0, k)
      requires order.Sorted(Removed(Entries(), k))
      modifies this, line`level, line`backward
      ensures Valid() && line == Removed(old(line), k + 1) && Entries() == Removed(old(Entries()), k)
    {
      EntriesRemoved(line, k);
      DeleteNode(x, update, rank, k);
    }

    /** The predecessors of the target and the node behind them. */
    method Seek(target: Entry<K, V>, ghost k: nat)
      returns (update: seq<SkipNode<K, V>>, rank: seq<nat>, last: SkipNode?<K, V>)
      requires Towered() && Split(Below(order, target), k)
      ensures Predecessors(update, rank, 0, k)
      ensures last == if k + 1 < |line| then line[k + 1] else null
    {
      update, rank := FindPredecessors(target, k);
      GroundLink(line, TowersOf(line), level, k);
      last := update[0].level[0].forward;
    }

    /** Delete an equal entry if there is one; the answer says whether there was. */
    method Delete(key: K, val: V) returns (found: bool)
      requires Valid() && order.Total()
      modifies this, line
      ensures Valid() && found == Contains(order, old(Entries()), Entry(key, val))
      ensures Entries() == DeleteEntry(order, old(Entries()), Entry(key, val))
      ensures !found ==> line == old(line)
      ensures found ==> line == Removed(old(line), InsertPoint(order, old(Entries()), Entry(key, val)) + 1)
    {
      ghost var s := Entries();
      ghost var e := Entry(key, val);
      ghost var k := InsertPoint(order, s, e);
      InsertSplit(e);
      DeleteExact(order, s, e);
      var update, rank, last := Seek(Entry(key, val), k);
      if last != null && order.Same(Entry(last.key, last.val), Entry(key, val)) {
        assert s[k] == EntryOf(last);
        Excise(last, update, rank, k);
        found := true;
      } else {
        found := false;
      }
    }

    // ---- queries ------------------------------------------------------------------------------

    /** The node at 0-based position `i` of the entries, null beyond the end. */
    ghost function NodeAt(i: nat): SkipNode?<K, V>
      reads this`line
    {
      if i + 1 < |line| then line[i + 1] else null
    }

    /** The node behind the leading entries that satisfy `p`. */
    method Behind(p: Entry<K, V> -> bool) returns (n: SkipNode?<K, V>)
      requires Towered() && DownClosed(Entries(), p)
      ensures n == NodeAt(Leading(Entries(), p))
    {
      ghost var k := Leading(Entries(), p);
      SplitAtLeading(p);
      var x, _ := Descend(p, k);
      GroundLink(line, TowersOf(line), level, k);
      n := x.level[0].forward;
    }

    /** The first node with a key at or beyond the bound, or strictly beyond it. */
    method LowerBound(bound: K, strict: bool) returns (n: SkipNode?<K, V>)
      requires Valid() && order.Total()
      ensures n == NodeAt(Leading(Entries(), Short(order, bound, strict)))
    {
      ShortDownClosed(order, Entries(), bound, strict);
      n := Behind(Short(order, bound, strict));
    }

    /** The 0-based rank of an entry, if an equal one is there. */
    method GetRank(key: K, val: V) returns (r: Option<nat>)
      requires Valid() && order.Total()
      ensures r == RankOf(order, Entries(), Entry(key, val))
    {
      ghost var s := Entries();
      ghost var k := Leading(s, UpTo(order, Entry(key, val)));
      UpToDownClosed(order, s, Entry(key, val));
      SplitAtLeading(UpTo(order, Entry(key, val)));
      var x, rank := Descend(UpTo(order, Entry(key, val)), k);
      DistinctAt(line, 0);
      assert k > 0 ==> s[k - 1] == EntryOf(x);
      if x != header && order.Same(Entry(x.key, x.val), Entry(key, val)) {
        r := Some(rank - 1);
      } else {
        r := None;
      }
    }

    /** The entry at a 0-based rank, found by adding up spans. */
    method GetByRank(rank: int) returns (r: Option<Entry<K, V>>)
      requires Valid()
      ensures r == if 0 <= rank < |Entries()| then Some(Entries()[rank]) else None
    {
      if rank < 0 || rank >= length {
        return None;
      }
      ghost var lv: Towers<K, V> := TowersOf(line);
      var target := rank + 1;
      var x, traversed := header, 0;
      var i := level;
      while i > 0
        invariant 0 <= i <= level && 0 <= traversed < target && x == line[traversed] && i <= |x.level|
        invariant i > 0
      {
        i := i - 1;
        x, traversed := Stride(x, traversed, i, target);
        if traversed == target {
          return Some(Entry(x.key, x.val));
        }
        assert i <= |lv[traversed]|;
      }
      return None;
    }

    /** Walk right on level `i` as long as the spans do not lead beyond `target`. */
    method Stride(start: SkipNode<K, V>, from: nat, i: nat, target: nat) returns (x: SkipNode<K, V>, traversed: nat)
      requires Towered() && from <= target < |line| && start == line[from] && i < |start.level|
      ensures traversed <= target && x == line[traversed] && i < |x.level|
      ensures i == 0 ==> traversed == target
    {
      ghost var lv: Towers<K, V> := TowersOf(line);
      x, traversed := start, from;
      var f := x.level[i].forward;
      while f != null && traversed + x.level[i].span <= target
        invariant traversed <= target && x == line[traversed] && i < |x.level| && f == x.level[i].forward
        decreases target - traversed
      {
        assert Link(line, lv, traversed, i);
        traversed := traversed + x.level[i].span;
        assert i < |lv[traversed]|;
        x := f;
        f := x.level[i].forward;
      }
      if i == 0 {
        GroundLink(line, lv, level, traversed);
      }
    }

    /** On level 0 every node leads to the next one. */
    lemma Onward(p: nat)
      requires Towered() && p < |line|
      ensures |line[p].level| > 0 && line[p].level[0].forward == NodeAt(p)
    {
      GroundLink(line, TowersOf(line), level, p);
      assert |TowersOf(line)[p]| > 0;
    }

    /** Every entry in order. */
    method ToArray() returns (out: seq<Entry<K, V>>)
      requires Valid()
      ensures out == Entries()
    {
      ghost var at := 0;
      out := [];
      GroundLink(line, TowersOf(line), level, 0);
      var x := header.level[0].forward;
      while x != null
        invariant at <= |Entries()| && out == Entries()[..at] && x == NodeAt(at)
        decreases |Entries()| - at
      {
        out := out + [Entry(x.key, x.val)];
        Onward(at + 1);
        at := at + 1;
        x := x.level[0].forward;
      }
    }

    /** The node before entry position `i`, null in front of the first. */
    ghost function NodeBefore(i: nat): SkipNode?<K, V>
      reads this`line
      requires i < |line|
    {
      if i == 0 then null else line[i]
    }

    /** Emit a page of the entries from `x` on, up to the first one beyond the upper bounds. */
    method Forward(x0: SkipNode?<K, V>, opts: RangeOptions<K>, ghost start: nat) returns (out: seq<Entry<K, V>>)
      requires Towered() && start <= |Entries()| && x0 == NodeAt(start)
      ensures out == Page(TakeWhile(Entries()[start..], Under(order, opts.bounds)), opts.offset, opts.count)
    {
      ghost var r := Entries()[start..];
      ghost var p := Under(order, opts.bounds);
      ghost var j := 0;
      ghost var left := EverythingLeft(r, p, opts.offset, opts.count);
      ghost var want := left;
      var offset, count := opts.offset, opts.count;
      out := [];
      var x := x0;
      while x != null && UnderUpper(order, opts.bounds, Entry(x.key, x.val)) && (offset > 0 || Wanted(count))
        invariant j <= |r| && x == NodeAt(start + j)
        invariant Left(left, r, p, j, offset, count) && out + left == want
        decreases |r| - j
      {
        assert r[j] == EntryOf(x) && x == line[start + j + 1];
        offset, count, out, left := Emit(Entry(x.key, x.val), offset, count, out, left, r, p, j);
        Onward(start + j + 1);
        j := j + 1;
        x := x.level[0].forward;
      }
      assert x != null ==> r[j] == EntryOf(x);
      NothingLeft(left, r, p, j, offset, count);
    }

    /** Emit a page of the entries back from `x`, down to the first one below the lower bounds. */
    method Backward(x0: SkipNode?<K, V>, opts: RangeOptions<K>, ghost end: nat) returns (out: seq<Entry<K, V>>)
      requires Ended() && end <= |Entries()| && x0 == NodeBefore(end)
      ensures out == Page(TakeWhile(Reversed(Entries()[..end]), Over(order, opts.bounds)), opts.offset, opts.count)
    {
      ghost var r := Reversed(Entries()[..end]);
      ghost var p := Over(order, opts.bounds);
      ghost var j := 0;
      ghost var left := EverythingLeft(r, p, opts.offset, opts.count);
      ghost var want := left;
      var offset, count := opts.offset, opts.count;
      out := [];
      var x := x0;
      while x != null && OverLower(order, opts.bounds, Entry(x.key, x.val)) && (offset > 0 || Wanted(count))
        invariant j <= |r| && x == NodeBefore(end - j)
        invariant Left(left, r, p, j, offset, count) && out + left == want
        decreases |r| - j
      {
        assert r[j] == EntryOf(x);
        offset, count, out, left := Emit(Entry(x.key, x.val), offset, count, out, left, r, p, j);
        assert BackAt(line, end - j);
        j := j + 1;
        x := x.backward;
      }
      assert x != null ==> r[j] == EntryOf(x);
      NothingLeft(left, r, p, j, offset, count);
    }

    /** The node before `after`, or the last one. */
    method Previous(after: SkipNode?<K, V>, ghost end: nat) returns (x: SkipNode?<K, V>)
      requires Ended() && end < |line| && after == NodeAt(end)
      ensures x == NodeBefore(end)
    {
      if after != null {
        assert BackAt(line, end + 1);
        x := after.backward;
      } else {
        x := tail;
      }
    }

    /** Where a reverse scan starts. */
    method LastReached(b: Bounds<K>) returns (x: SkipNode?<K, V>)
      requires Valid() && order.Total()
      ensures x == NodeBefore(Leading(Entries(), Reached(order, b)))
    {
      var after := null;
      if b.lte.Some? {
        after := LowerBound(b.lte.value, true);
      } else if b.lt.Some? {
        after := LowerBound(b.lt.value, false);
      }
      x := Previous(after, Leading(Entries(), Reached(order, b)));
    }

    /** Range scan. */
    method Range(opts: RangeOptions<K>) returns (out: seq<Entry<K, V>>)
      requires Valid() && order.Total()
      ensures out == Page(Scan(order, Entries(), opts.bounds, opts.reverse), opts.offset, opts.count)
      ensures Honoured(order, opts.bounds, opts.reverse) ==>
                out == Page(Selected(order, Entries(), opts.bounds, opts.reverse), opts.offset, opts.count)
    {
      var b := opts.bounds;
      if Honoured(order, b, opts.reverse) {
        ScanSelects(order, Entries(), b, opts.reverse);
      }
      if opts.reverse {
        var x := LastReached(b);
        out := Backward(x, opts, Leading(Entries(), Reached(order, b)));
      } else {
        var x;
        if b.gte.Some? {
          x := LowerBound(b.gte.value, b.gt.Some?);
        } else if b.gt.Some? {
          x := LowerBound(b.gt.value, true);
        } else {
          GroundLink(line, TowersOf(line), level, 0);
          x := header.level[0].forward;
        }
        out := Forward(x, opts, Leading(Entries(), Skipped(order, b)));
      }
    }

    // ---- bulk loading -------------------------------------------------------------------------

    /** The balanced tower of the entry at 0-based position `i`. */
    static method TowerHeight(i: nat) returns (lvl: nat)
      ensures 1 <= lvl <= MAX_LEVEL
    {
      lvl := 1;
      var m := i + 1;
      while m % 4 == 0 && lvl < MAX_LEVEL
        invariant 1 <= lvl <= MAX_LEVEL
        decreases MAX_LEVEL - lvl
      {
        m := m / 4;
        lvl := lvl + 1;
      }
    }

    /** New nodes, not linked to each other, of bearable height. */
    ghost predicate Loose(nodes: Row<K, V>)
      reads nodes`level
    {
      Distinct(nodes) && forall n <- nodes :: Bare(n.level) && 1 <= |n.level| <= MAX_LEVEL
    }

    /** One node per entry that does not repeat the one before it. */
    method MakeNodes(entries: seq<Entry<K, V>>) returns (nodes: Row<K, V>)
      ensures Loose(nodes) && fresh(nodes)
      ensures |nodes| == |Deduped(order, entries)|
      ensures forall i | 0 <= i < |nodes| :: EntryOf(nodes[i]) == Deduped(order, entries)[i]
    {
      nodes := [];
      for i := 0 to |entries|
        invariant Loose(nodes) && fresh(nodes)
        invariant |nodes| == |Deduped(order, entries[..i])|
        invariant forall j | 0 <= j < |nodes| :: EntryOf(nodes[j]) == Deduped(order, entries[..i])[j]
      {
        assert entries[..i + 1][..i] == entries[..i];
        var e := entries[i];
        if |nodes| == 0 || !order.Same(Entry(nodes[|nodes| - 1].key, nodes[|nodes| - 1].val), e) {
          var lvl := TowerHeight(i);
          var x := new SkipNode(e.key, e.val, lvl);
          InsertedDistinct(nodes, |nodes|, x);
          assert Inserted(nodes, |nodes|, x) == nodes + [x];
          nodes := nodes + [x];
        }
      }
      assert entries[..|entries|] == entries;
    }

    /** The level of the highest tower. */
    method RaiseTo(nodes: Row<K, V>) returns (ghost top: nat)
      requires Towered() && line == [header] && level == 1 && |nodes| > 0 && Loose(nodes)
      modifies this`level
      ensures Towered() && forall n <- nodes :: |n.level| <= level
      ensures top < |nodes| && |nodes[top].level| == level
    {
      top := 0;
      for i := 0 to |nodes|
        invariant 1 <= level <= MAX_LEVEL && 0 <= top < |nodes|
        invariant i > 0 ==> |nodes[top].level| == level
        invariant i == 0 ==> level == 1
        invariant forall j | 0 <= j < i :: |nodes[j].level| <= level
      {
        if |nodes[i].level| > level || i == 0 {
          top := i;
        }
        if |nodes[i].level| > level {
          level := |nodes[i].level|;
        }
      }
      assert forall l | 0 <= l < MAX_LEVEL :: Link(line, TowersOf(line), 0, l) by {
        assert forall l | 0 <= l < MAX_LEVEL :: old(Link(line, TowersOf(line), 0, l));
      }
    }

    /** `lastAt` holds the last node of the row on every level. */
    ghost predicate Follows(row: Row<K, V>, lastAt: seq<Seen<K, V>>)
      reads this`level, row
    {
      && |lastAt| == level && (forall s <- lastAt :: s.index >= -1)
      && forall l | 0 <= l < level ::
           PositionsOf(lastAt)[l] < |row| && lastAt[l].node == row[PositionsOf(lastAt)[l]] &&
           LastAt(TowersOf(row), PositionsOf(lastAt)[l], l, |row| - 1)
    }

    ghost predicate Tracking(lastAt: seq<Seen<K, V>>)
      reads this`level, this`line, line
    {
      |line| > 0 && Follows(line, lastAt)
    }

    /** Link `x` behind the last node of each of its levels. */
    method LinkLast(x: SkipNode<K, V>, i: nat, lastAt0: seq<Seen<K, V>>) returns (lastAt: seq<Seen<K, V>>)
      requires Distinct(line) && x !in line && |x.level| <= |lastAt0| && i + 1 == |line|
      requires forall s <- lastAt0 :: s.index >= -1
      requires forall l | 0 <= l < |x.level| ::
                 PositionsOf(lastAt0)[l] < |line| && lastAt0[l].node == line[PositionsOf(lastAt0)[l]] &&
                 l < |lastAt0[l].node.level|
      modifies line`level
      ensures LinkedIn(old(TowersOf(line)), TowersOf(line), PositionsOf(lastAt0), |line| - 1, x, |x.level|)
      ensures |lastAt| == |lastAt0|
      ensures forall l | 0 <= l < |lastAt| :: lastAt[l] == if l < |x.level| then Seen(x, i) else lastAt0[l]
    {
      ghost var lv: Towers<K, V> := TowersOf(line);
      ghost var preds := PositionsOf(lastAt0);
      lastAt := lastAt0;
      for l := 0 to |x.level|
        invariant LinkedIn(lv, TowersOf(line), preds, |line| - 1, x, l)
        invariant |lastAt| == |lastAt0|
        invariant forall m | 0 <= m < |lastAt| :: lastAt[m] == if m < l then Seen(x, i) else lastAt0[m]
      {
        var pred := lastAt[l];
        Redirect(pred.node, l, Level(x, i - pred.index), lv, preds, |line| - 1, x);
        lastAt := lastAt[l := Seen(x, i)];
      }
    }

    lemma AppendDone(lv: Towers<K, V>, preds: seq<nat>, x: SkipNode<K, V>, now: Row<K, V>)
      requires Standing(line, lv, level) && line[0] == header && x !in line && |preds| == level
      requires Bare(x.level) && 1 <= |x.level| <= level && now == line + [x]
      requires forall l | 0 <= l < level :: LastAt(lv, preds[l], l, |line| - 1)
      requires LinkedIn(lv, TowersOf(line), preds, |line| - 1, x, |x.level|)
      ensures Standing(now, TowersOf(now), level)
      ensures forall l | 0 <= l < level :: LastAt(TowersOf(now), LastSeen(preds, |x.level|, |line|)[l], l, |line|)
      ensures SameHeights(lv + [x.level], TowersOf(now))
    {
      AppendStands(line, lv, TowersOf(line), preds, x, x.level);
      assert TowersOf(now) == TowersOf(line) + [x.level];
    }

    lemma FollowOn(now: Row<K, V>, lastAt0: seq<Seen<K, V>>, lastAt: seq<Seen<K, V>>, height: nat, p: nat)
      requires |now| == p + 1 && |lastAt| == |lastAt0| == level && forall s <- lastAt0 :: s.index >= -1
      requires forall l | height <= l < level ::
                 PositionsOf(lastAt0)[l] < |now| && lastAt0[l].node == now[PositionsOf(lastAt0)[l]]
      requires forall l | 0 <= l < level ::
                 lastAt[l] == if l < height then Seen(now[p], p - 1) else lastAt0[l]
      requires forall l | 0 <= l < level ::
                 LastAt(TowersOf(now), LastSeen(PositionsOf(lastAt0), height, p)[l], l, p)
      ensures Follows(now, lastAt)
    {
      assert PositionsOf(lastAt) == LastSeen(PositionsOf(lastAt0), height, p);
    }

    /** The forward links of one node more. */
    method AppendLinks(x: SkipNode<K, V>, i: nat, lastAt0: seq<Seen<K, V>>, ghost now: Row<K, V>)
      returns (lastAt: seq<Seen<K, V>>)
      requires Towered() && Tracking(lastAt0) && x !in line && i + 1 == |line|
      requires Bare(x.level) && 1 <= |x.level| <= level && now == line + [x]
      modifies line`level
      ensures Standing(now, TowersOf(now), level) && Follows(now, lastAt)
      ensures SameHeights(old(TowersOf(line)) + [x.level], TowersOf(now))
    {
      ghost var lv: Towers<K, V> := TowersOf(line);
      ghost var preds := PositionsOf(lastAt0);
      assert forall l | 0 <= l < level :: lastAt0[l].node == line[preds[l]] && LastAt(lv, preds[l], l, |line| - 1);
      lastAt := LinkLast(x, i, lastAt0);
      AppendDone(lv, preds, x, now);
      FollowOn(now, lastAt0, lastAt, |x.level|, |line|);
    }

    /** The backward link of one node more. */
    method AppendBack(x: SkipNode<K, V>, prev: SkipNode?<K, V>, i: nat, ghost now: Row<K, V>)
      requires BacksRight(line) && x !in line && i + 1 == |line| && now == line + [x]
      requires prev == if i == 0 then null else line[i]
      modifies x`backward
      ensures BacksRight(now)
    {
      x.backward := prev;
      forall p: nat | p < |now|
        ensures BackAt(now, p)
      {
        assert p < |line| ==> old(BackAt(line, p));
      }
    }

    /** Append one node, behind `prev`, to the line. */
    method Append(x: SkipNode<K, V>, prev: SkipNode?<K, V>, i: nat, lastAt0: seq<Seen<K, V>>)
      returns (lastAt: seq<Seen<K, V>>)
      requires Towered() && Tracking(lastAt0) && BacksRight(line) && x !in line && i + 1 == |line|
      requires prev == if i == 0 then null else line[i]
      requires Bare(x.level) && 1 <= |x.level| <= level
      modifies this`line, line`level, x`backward
      ensures line == old(line) + [x]
      ensures Towered() && Tracking(lastAt) && BacksRight(line)
      ensures SameHeights(old(TowersOf(line)) + [x.level], TowersOf(line))
    {
      ghost var now: Row<K, V> := line + [x];
      AppendBack(x, prev, i, now);
      assert Towered() && Tracking(lastAt0);
      lastAt := AppendLinks(x, i, lastAt0, now);
      SetRow(now, lastAt);
    }

    ghost method SetRow(now: Row<K, V>, lastAt: seq<Seen<K, V>>)
      requires Standing(now, TowersOf(now), level) && now[0] == header && Follows(now, lastAt) && BacksRight(now)
      modifies this`line
      ensures line == now && Towered() && Tracking(lastAt) && BacksRight(line) && TowersOf(line) == old(TowersOf(now))
    {
      line := now;
    }

    /** The first `i` nodes are in the line. */
    ghost predicate Loading(nodes: Row<K, V>, i: nat, lastAt: seq<Seen<K, V>>)
      reads this`level, this`line, line, line`backward
    {
      i <= |nodes| && line == [header] + nodes[..i] && Towered() && Tracking(lastAt) && BacksRight(line)
    }

    method AppendNext(nodes: Row<K, V>, i: nat, lastAt0: seq<Seen<K, V>>) returns (lastAt: seq<Seen<K, V>>)
      requires Loading(nodes, i, lastAt0) && i < |nodes| && Distinct(nodes) && header !in nodes
      requires Bare(nodes[i].level) && 1 <= |nodes[i].level| <= level
      modifies this`line, header`level, nodes[..i]`level, nodes`backward
      ensures Loading(nodes, i + 1, lastAt)
      ensures SameHeights(old(TowersOf(line)) + [old(nodes[i].level)], TowersOf(line))
    {
      DistinctBeyond(nodes, header, i);
      ghost var was := line;
      lastAt := Append(nodes[i], if i == 0 then null else nodes[i - 1], i, lastAt0);
      assert was + [nodes[i]] == [header] + nodes[..i + 1];
    }

    /** Link the nodes one after the other. */
    method AppendAll(nodes: Row<K, V>, ghost top: nat) returns (lastAt: seq<Seen<K, V>>)
      requires Towered() && BacksRight(line) && line == [header] && |header.level| == MAX_LEVEL
      requires Loose(nodes) && header !in nodes && forall n <- nodes :: |n.level| <= level
      requires top < |nodes| && |nodes[top].level| == level
      modifies this`line, header`level, nodes`level, nodes`backward
      ensures Loading(nodes, |nodes|, lastAt) && |TowersOf(line)[top + 1]| == level
    {
      lastAt := seq(level, _ => Seen(header, -1));
      for i := 0 to |nodes|
        invariant Loading(nodes, i, lastAt)
        invariant forall j | i <= j < |nodes| :: nodes[j].level == old(nodes[j].level)
        invariant top < i ==> |TowersOf(line)[top + 1]| == level
      {
        DistinctBeyond(nodes, header, i);
        lastAt := AppendNext(nodes, i, lastAt);
      }
    }

    /** Write the span of one link without a forward node. */
    method Close(n: SkipNode<K, V>, l: nat, span: int, ghost lv: Towers<K, V>, ghost p: nat)
      requires Distinct(line) && Respanned(lv, TowersOf(line))
      requires p < |line| && n == line[p] && l < |lv[p]| && lv[p][l].forward == null
      modifies n`level
      ensures Respanned(lv, TowersOf(line))
    {
      RespanOne(lv, TowersOf(line), p, l, span);
      SetLink(n, l, Level(null, span), p);
    }

    /** Span 0 behind the last node of each level, the count where the header is the last. */
    method CloseLevels(lastAt: seq<Seen<K, V>>, count: nat)
      requires Towered() && Tracking(lastAt)
      modifies line`level
      ensures Towered() && SameHeights(old(TowersOf(line)), TowersOf(line))
    {
      ghost var lv: Towers<K, V> := TowersOf(line);
      ghost var at := PositionsOf(lastAt);
      forall l | 0 <= l < level
        ensures l < |lv[at[l]]| && lv[at[l]][l].forward == null
      {
        assert LastAt(lv, at[l], l, |line| - 1) && Link(line, lv, at[l], l);
      }
      for l := 0 to level
        invariant Respanned(lv, TowersOf(line))
      {
        var pred := lastAt[l];
        Close(pred.node, l, if pred.index == -1 then count else 0, lv, at[l]);
      }
      RespanLinked(line, lv, TowersOf(line));
      assert |lv[0]| == |TowersOf(line)[0]|;
    }

    /** Link the nodes into the empty list. */
    method FillLinks(nodes: Row<K, V>)
      requires Towered() && BacksRight(line) && line == [header] && level == 1
      requires |nodes| > 0 && Loose(nodes) && header !in nodes
      modifies this`level, this`line, header`level, nodes`level, nodes`backward
      ensures Towered() && Topped() && BacksRight(line)
      ensures line == [header] + nodes
    {
      assert TowersOf(line)[0] == header.level;
      ghost var top := RaiseTo(nodes);
      var lastAt := AppendAll(nodes, top);
      assert line == [header] + nodes;
      CloseLevels(lastAt, |nodes|);
      TopReached(top + 1);
    }

    lemma TopReached(p: nat)
      requires Towered() && 0 < p < |line| && |TowersOf(line)[p]| == level
      ensures Topped()
    {
      TopUsed(line, TowersOf(line), level, p);
      assert TowersOf(line)[0] == header.level;
    }

    /** Fill the empty list with the nodes. */
    method Fill(nodes: Row<K, V>)
      requires Towered() && BacksRight(line) && line == [header] && level == 1
      requires |nodes| > 0 && Loose(nodes) && header !in nodes
      modifies this, header`level, nodes`level, nodes`backward
      ensures Towered() && Ended() && Tight() && line == [header] + nodes
    {
      FillLinks(nodes);
      tail := nodes[|nodes| - 1];
      length := |nodes|;
    }

    /** Load sorted entries into the empty list in one pass, skipping duplicates. */
    method Load(entries: seq<Entry<K, V>>)
      requires order.Total() && order.Sorted(entries) && entries != []
      requires Towered() && BacksRight(line) && line == [header] && level == 1
      modifies this, header`level
      ensures Valid() && line[0] == header && fresh(line[1..]) && Entries() == Deduped(order, entries)
    {
      DedupedExact(order, entries);
      var nodes := MakeNodes(entries);
      Fill(nodes);
      assert line[1..] == nodes;
      assert Entries() == Deduped(order, entries);
    }

    /** A list of sorted entries. */
    static method BulkLoad(entries: seq<Entry<K, V>>, order: Order<K, V>) returns (list: SkipList<K, V>)
      requires order.Total() && order.Sorted(entries)
      ensures fresh(list) && list.order == order
      ensures list.Valid() && list.Entries() == Deduped(order, entries)
      ensures fresh(list.line[0]) && fresh(list.line[1..])
    {
      list := new SkipList(order);
      if |entries| > 0 {
        list.Load(entries);
      }
    }
  }
}
