/** Replaying frames into the store: expired records, batches, and what a later reader sees. */
module Recovery {
  import opened Basics
  import opened Bytes
  import opened Codec
  import B = BatchCodec

  /** A stored record; expiry 0 means none. */
  datatype Rec = Rec(value: Bytes, meta: Option<Bytes>, expireAt: int)

  type Records = map<Bytes, Rec>

  /** A frame unrolled into primitive operations, whatever the time. */
  datatype RawOp = Set(key: Bytes, rec: Rec) | Del(key: Bytes)

  predicate Expired(rec: Rec, now: int)
  {
    rec.expireAt != 0 && rec.expireAt <= now
  }

  function RawOf(op: B.BatchOp): RawOp
  {
    if op.kind == TYPE_SET then Set(op.key, Rec(OrEmpty(op.value), op.meta, op.expireAt)) else Del(op.key)
  }

  function RawBatch(ops: seq<B.BatchOp>): (r: seq<RawOp>)
    ensures |r| == |ops| && forall i | 0 <= i < |r| :: r[i] == RawOf(ops[i])
  {
    seq(|ops|, i requires 0 <= i < |ops| => RawOf(ops[i]))
  }

  /** Batch bodies come from `decode`; a malformed body and an unknown frame type yield nothing at all. */
  type BodyReader = Bytes -> Result<seq<B.BatchOp>, B.BatchError>

  function RawOps(decode: BodyReader, f: Frame): seq<RawOp>
  {
    if f.kind == TYPE_SET then [Set(f.key, Rec(f.value, f.meta, f.expireAt))]
    else if f.kind == TYPE_DEL then [Del(f.key)]
    else if f.kind == TYPE_BATCH then
      match decode(f.value)
      case Err(_) => []
      case Ok(ops) => RawBatch(ops)
    else []
  }

  function AllRawOps(decode: BodyReader, fs: seq<Frame>): seq<RawOp>
  {
    if fs == [] then [] else RawOps(decode, fs[0]) + AllRawOps(decode, fs[1..])
  }

  // ---- the reference: plain last-writer-wins ----------------------------------------------------

  function Apply(s: Records, op: RawOp): Records
  {
    match op
    case Set(key, rec) => s[key := rec]
    case Del(key) => s - {key}
  }

  ghost function Fold(s: Records, ops: seq<RawOp>): Records
  {
    if ops == [] then s else Apply(Fold(s, ops[..|ops| - 1]), ops[|ops| - 1])
  }

  /** What a reader at time `t` sees. */
  ghost function Live(s: Records, t: int): Records
  {
    map k | k in s && !Expired(s[k], t) :: s[k]
  }

  lemma {:induction false} FoldAppend(s: Records, a: seq<RawOp>, b: seq<RawOp>)
    ensures Fold(s, a + b) == Fold(Fold(s, a), b)
  {
    if b == [] {
      assert a + b == a;
    } else {
      var init := b[..|b| - 1];
      assert (a + b)[..|a + b| - 1] == a + init;
      FoldAppend(s, a, init);
    }
  }

  /** The last operation on a key decides. */
  ghost function LastOn(ops: seq<RawOp>, key: Bytes): Option<RawOp>
  {
    if ops == [] then None
    else if ops[|ops| - 1].key == key then Some(ops[|ops| - 1])
    else LastOn(ops[..|ops| - 1], key)
  }

  lemma {:induction false} FoldIsLast(s: Records, ops: seq<RawOp>, key: Bytes)
    ensures var r := Fold(s, ops);
      match LastOn(ops, key)
      case None => (key in r <==> key in s) && (key in s ==> r[key] == s[key])
      case Some(Set(_, rec)) => key in r && r[key] == rec
      case Some(Del(_)) => key !in r
  {
    if ops != [] && ops[|ops| - 1].key != key {
      FoldIsLast(s, ops[..|ops| - 1], key);
    }
  }

  // ---- replay -----------------------------------------------------------------------------------

  /** Replaying at time `now`, a record that has already expired becomes a deletion. */
  function Replayed(op: RawOp, now: int): RawOp
  {
    if op.Set? && Expired(op.rec, now) then Del(op.key) else op
  }

  /** `r` is what replaying made of `s`: at no time from `since` on can a reader tell them apart, and the
      replay invents nothing. */
  ghost predicate Agrees(r: Records, s: Records, since: int)
  {
    && (forall k <- r :: k in s && r[k] == s[k])
    && (forall k <- s :: k !in r ==> Expired(s[k], since))
  }

  lemma AgreesStep(r: Records, s: Records, op: RawOp, since: int, now: int)
    requires Agrees(r, s, since) && since <= now
    ensures Agrees(Apply(r, Replayed(op, now)), Apply(s, op), now)
  {
  }

  /** Agreement means the same live map at every later time. */
  lemma AgreesLive(r: Records, s: Records, since: int, t: int)
    requires Agrees(r, s, since) && since <= t
    ensures Live(r, t) == Live(s, t)
  {
  }

  /** Skipping an expired SET instead of deleting its key goes wrong exactly if the key was live before it and is not
      written again: then the older record comes back. */
  lemma SkippingResurrects(s: Records, before: seq<RawOp>, key: Bytes, late: Rec, after: seq<RawOp>, now: int, t: int)
    requires Expired(late, now) && now <= t && LastOn(after, key).None?
    ensures key !in Live(Fold(s, before + [Set(key, late)] + after), t)
    ensures key !in Fold(s, before + [Replayed(Set(key, late), now)] + after)
    ensures key in Live(Fold(s, before + after), t) <==> key in Live(Fold(s, before), t)
  {
    forall op: RawOp | op.key == key
      ensures Fold(s, before + [op] + after) == Fold(Apply(Fold(s, before), op), after)
    {
      FoldAppend(s, before + [op], after);
      assert (before + [op])[..|before|] == before;
    }
    FoldAppend(s, before, after);
    FoldIsLast(Apply(Fold(s, before), Set(key, late)), after, key);
    FoldIsLast(Apply(Fold(s, before), Del(key)), after, key);
    FoldIsLast(Fold(s, before), after, key);
  }

  class Store {
    var records: Records

    constructor ()
      ensures records == map[]
    {
      records := map[];
    }

    method SetRef(key: Bytes, rec: Rec)
      modifies this
      ensures records == Apply(old(records), Set(key, rec))
    {
      records := records[key := rec];
    }

    method Delete(key: Bytes)
      modifies this
      ensures records == Apply(old(records), Del(key))
    {
      records := records - {key};
    }
  }

  /** A clock that is read again and again and never goes back. */
  method ReadClock(last: int) returns (now: int)
    ensures now >= last
  {
    now := *;
    if now < last {
      now := last;
    }
  }

  /** Apply one frame; the clock is read at every operation. */
  method ApplyFrame(decode: BodyReader, f: Frame, store: Store, last: int, ghost s: Records)
    returns (now: int, corrupt: bool)
    requires Agrees(store.records, s, last)
    modifies store
    ensures now >= last && Agrees(store.records, Fold(s, RawOps(decode, f)), now)
    ensures corrupt <==> f.kind == TYPE_BATCH && decode(f.value).Err?
    ensures corrupt ==> store.records == old(store.records)
  {
    var ops: seq<RawOp> := RawOps(decode, f);
    now, corrupt := last, f.kind == TYPE_BATCH && decode(f.value).Err?;
    for i := 0 to |ops|
      invariant now >= last && Agrees(store.records, Fold(s, ops[..i]), now)
      invariant corrupt ==> store.records == old(store.records)
    {
      var next := ReadClock(now);
      assert ops[..i + 1][..i] == ops[..i];
      AgreesStep(store.records, Fold(s, ops[..i]), ops[i], now, next);
      now := next;
      match Replayed(ops[i], now)
      case Set(key, rec) => store.SetRef(key, rec);
      case Del(key) => store.Delete(key);
    }
    assert ops[..|ops|] == ops;
  }

  ghost function Malformed(decode: BodyReader, fs: seq<Frame>): nat
  {
    if fs == [] then 0
    else (if fs[0].kind == TYPE_BATCH && decode(fs[0].value).Err? then 1 else 0) + Malformed(decode, fs[1..])
  }

  /** Apply recovered frames in order. From the last clock reading on, readers see exactly the plain
      last-writer-wins fold of all the frames, minus what has expired. */
  method ApplyFrames(decode: BodyReader, fs: seq<Frame>, store: Store, last: int, ghost s: Records)
    returns (now: int, corruptBatches: nat)
    requires Agrees(store.records, s, last)
    modifies store
    ensures now >= last && Agrees(store.records, Fold(s, AllRawOps(decode, fs)), now)
    ensures forall t | t >= now :: Live(store.records, t) == Live(Fold(s, AllRawOps(decode, fs)), t)
    ensures corruptBatches == Malformed(decode, fs)
  {
    now, corruptBatches := last, 0;
    ghost var done := s;
    for i := 0 to |fs|
      invariant now >= last && Agrees(store.records, done, now)
      invariant Fold(done, AllRawOps(decode, fs[i..])) == Fold(s, AllRawOps(decode, fs))
      invariant corruptBatches + Malformed(decode, fs[i..]) == Malformed(decode, fs)
    {
      assert fs[i..][1..] == fs[i + 1..];
      FoldAppend(done, RawOps(decode, fs[i]), AllRawOps(decode, fs[i + 1..]));
      var corrupt;
      now, corrupt := ApplyFrame(decode, fs[i], store, now, done);
      done := Fold(done, RawOps(decode, fs[i]));
      if corrupt {
        corruptBatches := corruptBatches + 1;
      }
    }
    forall t | t >= now
      ensures Live(store.records, t) == Live(Fold(s, AllRawOps(decode, fs)), t)
    {
      AgreesLive(store.records, done, now, t);
    }
  }

  /** One recovery pass: the snapshot's frames, then the log's. */
  method RecoverPass(snapshot: seq<Frame>, wal: seq<Frame>, store: Store, start: int) returns (now: int, corruptBatches: nat)
    requires store.records == map[]
    modifies store
    ensures now >= start
    ensures forall t | t >= now ::
              Live(store.records, t) == Live(Fold(map[], AllRawOps(B.Decode, snapshot) + AllRawOps(B.Decode, wal)), t)
    ensures corruptBatches == Malformed(B.Decode, snapshot) + Malformed(B.Decode, wal)
  {
    var mid, inSnapshot := ApplyFrames(B.Decode, snapshot, store, start, map[]);
    var inWal;
    now, inWal := ApplyFrames(B.Decode, wal, store, mid, Fold(map[], AllRawOps(B.Decode, snapshot)));
    FoldAppend(map[], AllRawOps(B.Decode, snapshot), AllRawOps(B.Decode, wal));
    corruptBatches := inSnapshot + inWal;
  }
}
