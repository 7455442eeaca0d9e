/** Posting lists (delta and varint coded), their record frames, and the file a rebuild writes. */
module Postings {
  import opened Basics
  import opened Bytes
  import opened Crc
  import V = Varint

  /** A document and how often it holds the term. */
  datatype Posting = Posting(docId: nat, freq: nat)

  /** A way to write numbers and to read them back. */
  datatype Coder = Coder(write: nat -> Bytes, read: Bytes -> Result<V.Read, V.VarintError>)

  const VARINT: Coder := Coder(V.Encode, V.Decode)

  ghost predicate ReadsNumber(c: Coder, n: nat, rest: Bytes)
  {
    c.read(c.write(n) + rest) == Ok(V.Read(n, |c.write(n)|))
  }

  ghost predicate Inverts(c: Coder)
  {
    forall n: nat, rest {:trigger ReadsNumber(c, n, rest)} | n < V.UINT32 :: ReadsNumber(c, n, rest)
  }

  lemma VarintInverts()
    ensures Inverts(VARINT)
  {
    forall n: nat, rest | n < V.UINT32
      ensures ReadsNumber(VARINT, n, rest)
    {
      V.ReadsBack(n, rest);
    }
  }

  // ---- posting lists ----------------------------------------------------------------------------

  /** 32-bit pairs with ascending documents. */
  ghost predicate Ascending(es: seq<Posting>, prev: nat)
  {
    && (forall i | 0 <= i < |es| :: prev <= es[i].docId < V.UINT32 && es[i].freq < V.UINT32)
    && (forall i, j | 0 <= i < j < |es| :: es[i].docId <= es[j].docId)
  }

  /** The pairs behind document `prev`; deltas are taken modulo 2^32. */
  function Pairs(c: Coder, es: seq<Posting>, prev: nat): Bytes
  {
    if es == [] then []
    else c.write((es[0].docId - prev) % V.UINT32) + c.write(es[0].freq % V.UINT32) + Pairs(c, es[1..], es[0].docId)
  }

  function ListBytes(c: Coder, es: seq<Posting>): Bytes
  {
    c.write(|es| % V.UINT32) + Pairs(c, es, 0)
  }

  /** `n` pairs behind document `prev`; what follows them is not looked at. */
  function DecodePairs(c: Coder, b: Bytes, n: nat, prev: nat): Result<seq<Posting>, V.VarintError>
    decreases n
  {
    if n == 0 then Ok([])
    else
      match c.read(b)
      case Err(e) => Err(e)
      case Ok(d) =>
        if d.len > |b| then Err(V.Truncated)
        else
          match c.read(b[d.len..])
          case Err(e) => Err(e)
          case Ok(f) =>
            if d.len + f.len > |b| then Err(V.Truncated)
            else Follow([Posting(prev + d.value, f.value)], DecodePairs(c, b[d.len + f.len..], n - 1, prev + d.value))
  }

  function Follow(es: seq<Posting>, r: Result<seq<Posting>, V.VarintError>): Result<seq<Posting>, V.VarintError>
  {
    if r.Ok? then Ok(es + r.value) else r
  }

  /** How many of `count` entries a limit lets through. */
  function Limited(count: nat, maxEntries: Option<int>): (n: nat)
    ensures n <= count
  {
    match maxEntries
    case None => count
    case Some(m) => if m < 0 then 0 else if m < count then m else count
  }

  function DecodeList(c: Coder, b: Bytes, maxEntries: Option<int>): Result<seq<Posting>, V.VarintError>
  {
    match c.read(b)
    case Err(e) => Err(e)
    case Ok(k) =>
      if k.len > |b| then Err(V.Truncated) else DecodePairs(c, b[k.len..], Limited(k.value, maxEntries), 0)
  }

  lemma PairReadsBack(c: Coder, d: nat, f: nat, tail: Bytes, n: nat, prev: nat)
    requires Inverts(c) && d < V.UINT32 && f < V.UINT32 && n > 0
    ensures DecodePairs(c, c.write(d) + c.write(f) + tail, n, prev)
         == Follow([Posting(prev + d, f)], DecodePairs(c, tail, n - 1, prev + d))
  {
    var b := c.write(d) + c.write(f) + tail;
    assert b == c.write(d) + (c.write(f) + tail);
    assert ReadsNumber(c, d, c.write(f) + tail);
    assert b[|c.write(d)|..] == c.write(f) + tail;
    assert ReadsNumber(c, f, tail);
    assert b[|c.write(d)| + |c.write(f)|..] == tail;
  }

  lemma Small(n: nat)
    requires n < V.UINT32
    ensures n % V.UINT32 == n
  {
  }

  lemma AscendingTail(es: seq<Posting>, prev: nat)
    requires es != [] && Ascending(es, prev)
    ensures prev <= es[0].docId < V.UINT32 && es[0].freq < V.UINT32 && Ascending(es[1..], es[0].docId)
  {
    var tail := es[1..];
    assert forall i | 0 <= i < |tail| :: tail[i] == es[i + 1];
  }

  lemma PairsCons(c: Coder, es: seq<Posting>, prev: nat)
    requires es != [] && prev <= es[0].docId < V.UINT32 && es[0].freq < V.UINT32
    ensures Pairs(c, es, prev) == c.write(es[0].docId - prev) + c.write(es[0].freq) + Pairs(c, es[1..], es[0].docId)
  {
    Small(es[0].docId - prev);
    Small(es[0].freq);
  }

  lemma {:induction false} PairsReadBack(c: Coder, es: seq<Posting>, prev: nat, rest: Bytes, n: nat)
    requires Inverts(c) && Ascending(es, prev) && n <= |es|
    ensures DecodePairs(c, Pairs(c, es, prev) + rest, n, prev) == Ok(es[..n])
    decreases n
  {
    if n > 0 {
      var d, f, tail := es[0].docId - prev, es[0].freq, Pairs(c, es[1..], es[0].docId);
      AscendingTail(es, prev);
      PairsCons(c, es, prev);
      assert Pairs(c, es, prev) + rest == c.write(d) + c.write(f) + (tail + rest);
      PairsReadBack(c, es[1..], es[0].docId, rest, n - 1);
      PairReadsBack(c, d, f, tail + rest, n, prev);
      assert [es[0]] + es[1..][..n - 1] == es[..n];
    }
  }

  /** Decoding undoes encoding on every ascending list; a limit gives exactly the prefix. */
  lemma ListReadsBack(es: seq<Posting>, rest: Bytes, maxEntries: Option<int>)
    requires Ascending(es, 0) && |es| < V.UINT32
    ensures DecodeList(VARINT, ListBytes(VARINT, es) + rest, maxEntries) == Ok(es[..Limited(|es|, maxEntries)])
  {
    VarintInverts();
    ListInverted(VARINT, es, rest, maxEntries);
  }

  lemma ListInverted(c: Coder, es: seq<Posting>, rest: Bytes, maxEntries: Option<int>)
    requires Inverts(c) && Ascending(es, 0) && |es| < V.UINT32
    ensures DecodeList(c, ListBytes(c, es) + rest, maxEntries) == Ok(es[..Limited(|es|, maxEntries)])
  {
    var head, tail := c.write(|es|), Pairs(c, es, 0) + rest;
    var b := ListBytes(c, es) + rest;
    assert b == head + tail;
    assert ReadsNumber(c, |es|, tail);
    assert b[|head|..] == tail;
    PairsReadBack(c, es, 0, rest, Limited(|es|, maxEntries));
  }

  lemma PairsStep(c: Coder, es: seq<Posting>, i: nat, prev: nat) returns (left: Bytes)
    requires i < |es|
    ensures left == Pairs(c, es[i + 1..], es[i].docId)
    ensures Pairs(c, es[i..], prev) == c.write((es[i].docId - prev) % V.UINT32) + c.write(es[i].freq % V.UINT32) + left
  {
    assert es[i..][1..] == es[i + 1..];
    left := Pairs(c, es[i + 1..], es[i].docId);
  }

  /** Encode a list, entry by entry. */
  method EncodePostingList(es: seq<Posting>) returns (b: Bytes)
    ensures b == ListBytes(VARINT, es)
  {
    b := EncodeEntries(VARINT, es);
  }

  method EncodeEntries(c: Coder, es: seq<Posting>) returns (b: Bytes)
    ensures b == ListBytes(c, es)
  {
    b := c.write(|es| % V.UINT32);
    var prev := 0;
    ghost var left := Pairs(c, es, 0);
    for i := 0 to |es|
      invariant left == Pairs(c, es[i..], prev) && b + left == ListBytes(c, es)
    {
      left := PairsStep(c, es, i, prev);
      b := b + c.write((es[i].docId - prev) % V.UINT32);
      b := b + c.write(es[i].freq % V.UINT32);
      prev := es[i].docId;
    }
  }

  /** Decode a list, stopping after `maxEntries` entries. */
  method DecodePostingList(buf: Bytes, maxEntries: Option<int>) returns (r: Result<seq<Posting>, V.VarintError>)
    ensures r == DecodeList(VARINT, buf, maxEntries)
  {
    var count := V.DecodeAt(buf, 0);
    assert buf[0..] == buf;
    if count.Err? {
      return Err(count.error);
    }
    r := DecodeEntries(VARINT, buf, count.value.len, Limited(count.value.value, maxEntries));
  }

  /** Decode from position `i` on. */
  ghost function PairsAt(c: Coder, buf: Bytes, i: nat, n: nat, prev: nat): Result<seq<Posting>, V.VarintError>
    requires i <= |buf|
  {
    DecodePairs(c, buf[i..], n, prev)
  }

  /** One pair more: what is left to decode, and what it adds up to with what is out. */
  lemma PairOut(c: Coder, buf: Bytes, i: nat, n: nat, prev: nat, out: seq<Posting>, left: Result<seq<Posting>, V.VarintError>)
    returns (rest: Result<seq<Posting>, V.VarintError>)
    requires i <= |buf| && n > 0 && left == PairsAt(c, buf, i, n, prev)
    requires c.read(buf[i..]).Ok? && i + c.read(buf[i..]).value.len <= |buf|
    requires var d := c.read(buf[i..]).value;
      c.read(buf[i + d.len..]).Ok? && i + d.len + c.read(buf[i + d.len..]).value.len <= |buf|
    ensures var d := c.read(buf[i..]).value;
      var f := c.read(buf[i + d.len..]).value;
      && rest == PairsAt(c, buf, i + d.len + f.len, n - 1, prev + d.value)
      && Follow(out, left) == Follow(out + [Posting(prev + d.value, f.value)], rest)
  {
    var d := c.read(buf[i..]).value;
    assert buf[i..][d.len..] == buf[i + d.len..];
    var f := c.read(buf[i + d.len..]).value;
    assert buf[i..][d.len + f.len..] == buf[i + d.len + f.len..];
    rest := DecodePairs(c, buf[i + d.len + f.len..], n - 1, prev + d.value);
    var p := Posting(prev + d.value, f.value);
    assert rest.Ok? ==> out + ([p] + rest.value) == out + [p] + rest.value;
  }

  /** An error in either number of a pair is the error of the whole. */
  lemma PairFails(c: Coder, buf: Bytes, i: nat, n: nat, prev: nat)
    requires i <= |buf| && n > 0
    ensures c.read(buf[i..]).Err? ==> PairsAt(c, buf, i, n, prev) == Err(c.read(buf[i..]).error)
    ensures c.read(buf[i..]).Ok? ==>
              var d := c.read(buf[i..]).value;
              if i + d.len > |buf| then PairsAt(c, buf, i, n, prev) == Err(V.Truncated)
              else match c.read(buf[i + d.len..])
                   case Err(e) => PairsAt(c, buf, i, n, prev) == Err(e)
                   case Ok(f) => i + d.len + f.len > |buf| ==> PairsAt(c, buf, i, n, prev) == Err(V.Truncated)
  {
    if c.read(buf[i..]).Ok? && i + c.read(buf[i..]).value.len <= |buf| {
      assert buf[i..][c.read(buf[i..]).value.len..] == buf[i + c.read(buf[i..]).value.len..];
    }
  }

  method DecodeEntries(c: Coder, buf: Bytes, from: nat, n: nat) returns (r: Result<seq<Posting>, V.VarintError>)
    requires from <= |buf|
    ensures r == DecodePairs(c, buf[from..], n, 0)
  {
    var out: seq<Posting>, prev: nat, i: nat := [], 0, from;
    ghost var whole := DecodePairs(c, buf[from..], n, 0);
    ghost var left := whole;
    assert left.Ok? ==> [] + left.value == left.value;
    for k := 0 to n
      invariant from <= i <= |buf| && left == PairsAt(c, buf, i, n - k, prev)
      invariant Follow(out, left) == whole
    {
      PairFails(c, buf, i, n - k, prev);
      var d := c.read(buf[i..]);
      if d.Err? {
        return Err(d.error);
      }
      if i + d.value.len > |buf| {
        return Err(V.Truncated);
      }
      var f := c.read(buf[i + d.value.len..]);
      if f.Err? {
        return Err(f.error);
      }
      if i + d.value.len + f.value.len > |buf| {
        return Err(V.Truncated);
      }
      left := PairOut(c, buf, i, n - k, prev, out, left);
      prev := prev + d.value.value;
      i := i + d.value.len + f.value.len;
      out := out + [Posting(prev, f.value.value)];
    }
    assert left == Ok([]) && out + [] == out;
    r := Ok(out);
  }
}
