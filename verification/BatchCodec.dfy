/** Batch bodies: a list of SET and DEL operations as the value of one frame. */
module BatchCodec {
  import opened Basics
  import opened Bytes
  import opened Codec

  const SUB_HEADER: nat := 19
  const MAX_OPS: nat := 0xFFFF

  datatype BatchOp = BatchOp(kind: byte, key: Bytes, value: Option<Bytes>, meta: Option<Bytes>, expireAt: int)

  datatype BatchError = BadType | OutOfRange | CountTruncated | HeaderTruncated | PayloadTruncated | TrailingBytes

  predicate KnownType(kind: byte)
  {
    kind == TYPE_SET || kind == TYPE_DEL
  }

  predicate OpFits(op: BatchOp)
  {
    && KnownType(op.kind) && |op.key| <= MAX_KEY_LEN
    && |OrEmpty(op.value)| <= MAX_VAL_LEN && |OrEmpty(op.meta)| <= MAX_VAL_LEN && IsInt64(op.expireAt)
  }

  /** What a reader sees: a missing value is empty, an empty meta is missing. */
  function SeenOp(op: BatchOp): BatchOp
  {
    op.(value := Some(OrEmpty(op.value)), meta := MetaOf(OrEmpty(op.meta)))
  }

  // ---- the format -------------------------------------------------------------------------------

  function SubHeader(op: BatchOp): (b: Bytes)
    requires OpFits(op)
    ensures |b| == SUB_HEADER
  {
    [op.kind] + LE(|op.key|, 2) + LE(|OrEmpty(op.value)|, 4) + LE(|OrEmpty(op.meta)|, 4) + LE64(op.expireAt)
  }

  function OpBytes(op: BatchOp): (b: Bytes)
    requires OpFits(op)
    ensures |b| >= SUB_HEADER
  {
    SubHeader(op) + op.key + OrEmpty(op.value) + OrEmpty(op.meta)
  }

  function OpsBytes(ops: seq<BatchOp>): Bytes
    requires forall op <- ops :: OpFits(op)
  {
    if ops == [] then [] else OpBytes(ops[0]) + OpsBytes(ops[1..])
  }

  predicate BatchFits(ops: seq<BatchOp>)
  {
    |ops| <= MAX_OPS && forall op <- ops :: OpFits(op)
  }

  function Body(ops: seq<BatchOp>): Bytes
    requires BatchFits(ops)
  {
    LE(|ops|, 2) + OpsBytes(ops)
  }

  /** One operation, and the number of bytes it takes. */
  datatype ParsedOp = ParsedOp(op: BatchOp, len: nat)

  datatype SubLayout = SubLayout(keyEnd: nat, valueEnd: nat, metaEnd: nat)

  function SubLayoutOf(b: Bytes): (l: SubLayout)
    requires |b| >= SUB_HEADER
    ensures SUB_HEADER <= l.keyEnd <= l.valueEnd <= l.metaEnd
  {
    var keyEnd := SUB_HEADER + Unsigned(b[1..3]);
    var valueEnd := keyEnd + Unsigned(b[3..7]);
    SubLayout(keyEnd, valueEnd, valueEnd + Unsigned(b[7..11]))
  }

  function OpOf(b: Bytes, l: SubLayout): BatchOp
    requires SUB_HEADER <= l.keyEnd <= l.valueEnd <= l.metaEnd <= |b|
  {
    BatchOp(b[0], b[SUB_HEADER..l.keyEnd], Some(b[l.keyEnd..l.valueEnd]), MetaOf(b[l.valueEnd..l.metaEnd]), Signed64(b[11..19]))
  }

  /** The operation at the front of `b`. */
  function OpFront(b: Bytes): (r: Result<ParsedOp, BatchError>)
    ensures r.Ok? ==> SUB_HEADER <= r.value.len <= |b|
  {
    if |b| < SUB_HEADER then Err(HeaderTruncated)
    else if !KnownType(b[0]) then Err(BadType)
    else
      var l := SubLayoutOf(b);
      if l.metaEnd > |b| then Err(PayloadTruncated) else Ok(ParsedOp(OpOf(b, l), l.metaEnd))
  }

  // ---- one operation ----------------------------------------------------------------------------

  ghost predicate StartsWithOp(b: Bytes, op: BatchOp)
    requires OpFits(op)
  {
    var keyEnd := SUB_HEADER + |op.key|;
    var valueEnd := keyEnd + |OrEmpty(op.value)|;
    var metaEnd := valueEnd + |OrEmpty(op.meta)|;
    && |b| >= metaEnd && b[..SUB_HEADER] == SubHeader(op) && b[SUB_HEADER..keyEnd] == op.key
    && b[keyEnd..valueEnd] == OrEmpty(op.value) && b[valueEnd..metaEnd] == OrEmpty(op.meta)
  }

  lemma OpParts(op: BatchOp, rest: Bytes)
    requires OpFits(op)
    ensures StartsWithOp(OpBytes(op) + rest, op)
  {
    var b := OpBytes(op) + rest;
    var head, value, meta := SubHeader(op), OrEmpty(op.value), OrEmpty(op.meta);
    assert b == head + op.key + (value + meta + rest);
    Middle(b, head, op.key, value + meta + rest);
    assert b == (head + op.key) + value + (meta + rest);
    Middle(b, head + op.key, value, meta + rest);
    assert b == (head + op.key + value) + meta + rest;
    Middle(b, head + op.key + value, meta, rest);
  }

  lemma SubFields(op: BatchOp, b: Bytes)
    requires OpFits(op) && |b| >= SUB_HEADER && b[..SUB_HEADER] == SubHeader(op)
    ensures b[0] == op.kind && Unsigned(b[1..3]) == |op.key| && Unsigned(b[3..7]) == |OrEmpty(op.value)|
    ensures Unsigned(b[7..11]) == |OrEmpty(op.meta)| && Signed64(b[11..19]) == op.expireAt
  {
    var h := SubHeader(op);
    Powers();
    assert b[1..3] == h[1..3] == LE(|op.key|, 2);
    assert b[3..7] == h[3..7] == LE(|OrEmpty(op.value)|, 4);
    assert b[7..11] == h[7..11] == LE(|OrEmpty(op.meta)|, 4);
    assert b[11..19] == h[11..19] == LE64(op.expireAt);
    UnsignedLE(|op.key|, 2);
    UnsignedLE(|OrEmpty(op.value)|, 4);
    UnsignedLE(|OrEmpty(op.meta)|, 4);
    Signed64LE(op.expireAt);
    assert b[0] == h[0];
  }

  /** An operation reads back from its own bytes, whatever follows. */
  lemma OpReadsBack(op: BatchOp, rest: Bytes)
    requires OpFits(op)
    ensures OpFront(OpBytes(op) + rest) == Ok(ParsedOp(SeenOp(op), |OpBytes(op)|))
  {
    OpParts(op, rest);
    OpFrontOf(op, OpBytes(op) + rest);
  }

  lemma OpFrontOf(op: BatchOp, b: Bytes)
    requires OpFits(op) && StartsWithOp(b, op)
    ensures OpFront(b) == Ok(ParsedOp(SeenOp(op), |OpBytes(op)|))
  {
    SubFields(op, b);
    var keyEnd := SUB_HEADER + |op.key|;
    var valueEnd := keyEnd + |OrEmpty(op.value)|;
    var l := SubLayout(keyEnd, valueEnd, valueEnd + |OrEmpty(op.meta)|);
    assert SubLayoutOf(b) == l;
    assert OpOf(b, l) == SeenOp(op);
  }

  /** What was read fits, and writing it gives the very bytes it was read from. */
  lemma OpCanonical(b: Bytes)
    requires OpFront(b).Ok?
    ensures var p := OpFront(b).value;
      OpFits(p.op) && SeenOp(p.op) == p.op && b[..p.len] == OpBytes(p.op)
  {
    var l := SubLayoutOf(b);
    SubHeaderCanonical(b, l, OpOf(b, l));
    assert b[..l.metaEnd] == b[..SUB_HEADER] + b[SUB_HEADER..l.keyEnd] + b[l.keyEnd..l.valueEnd] + b[l.valueEnd..l.metaEnd];
  }

  lemma SubHeaderCanonical(b: Bytes, l: SubLayout, op: BatchOp)
    requires |b| >= SUB_HEADER && KnownType(b[0]) && l == SubLayoutOf(b) && l.metaEnd <= |b|
    requires op.kind == b[0] && |op.key| == l.keyEnd - SUB_HEADER && |OrEmpty(op.value)| == l.valueEnd - l.keyEnd
    requires |OrEmpty(op.meta)| == l.metaEnd - l.valueEnd && op.expireAt == Signed64(b[11..19])
    ensures OpFits(op) && b[..SUB_HEADER] == SubHeader(op)
  {
    Powers();
    UnsignedBound(b[1..3]);
    UnsignedBound(b[3..7]);
    UnsignedBound(b[7..11]);
    LE64Signed(b[11..19]);
    LEUnsigned(b[1..3]);
    LEUnsigned(b[3..7]);
    LEUnsigned(b[7..11]);
    assert b[..SUB_HEADER] == [b[0]] + b[1..3] + b[3..7] + b[7..11] + b[11..19];
  }

  // ---- whole bodies -----------------------------------------------------------------------------

  /** Reads one operation off the front. */
  type OpReader = Bytes -> Result<ParsedOp, BatchError>

  ghost predicate ReadsBack(front: OpReader, op: BatchOp, rest: Bytes)
    requires OpFits(op)
  {
    front(OpBytes(op) + rest) == Ok(ParsedOp(SeenOp(op), |OpBytes(op)|))
  }

  ghost predicate Canonical(b: Bytes, p: ParsedOp)
  {
    OpFits(p.op) && SeenOp(p.op) == p.op && p.len <= |b| && b[..p.len] == OpBytes(p.op)
  }

  /** A reader that inverts `OpBytes` in both directions. */
  ghost predicate Codes(front: OpReader)
  {
    && (forall op, rest {:trigger ReadsBack(front, op, rest)} | OpFits(op) :: ReadsBack(front, op, rest))
    && (forall b {:trigger front(b)} | front(b).Ok? :: Canonical(b, front(b).value))
  }

  lemma OpFrontCodes()
    ensures Codes(OpFront)
  {
    forall op, rest | OpFits(op)
      ensures ReadsBack(OpFront, op, rest)
    {
      OpReadsBack(op, rest);
    }
    forall b | OpFront(b).Ok?
      ensures Canonical(b, OpFront(b).value)
    {
      OpCanonical(b);
    }
  }

  /** `n` operations that take all of `b`. */
  function DecodeOps(front: OpReader, b: Bytes, n: nat): Result<seq<BatchOp>, BatchError>
    decreases n
  {
    if n == 0 then if b == [] then Ok([]) else Err(TrailingBytes)
    else
      match front(b)
      case Err(e) => Err(e)
      case Ok(p) => if p.len > |b| then Err(PayloadTruncated) else Prepend([p.op], DecodeOps(front, b[p.len..], n - 1))
  }

  function Prepend(ops: seq<BatchOp>, r: Result<seq<BatchOp>, BatchError>): Result<seq<BatchOp>, BatchError>
  {
    if r.Ok? then Ok(ops + r.value) else r
  }

  function Decode(body: Bytes): Result<seq<BatchOp>, BatchError>
  {
    if |body| < 2 then Err(CountTruncated) else DecodeOps(OpFront, body[2..], Unsigned(body[..2]))
  }

  function SeenOps(ops: seq<BatchOp>): (r: seq<BatchOp>)
    ensures |r| == |ops| && forall i | 0 <= i < |r| :: r[i] == SeenOp(ops[i])
  {
    seq(|ops|, i requires 0 <= i < |ops| => SeenOp(ops[i]))
  }

  /** Taking an accepted list apart. */
  lemma OpsSplit(front: OpReader, b: Bytes, n: nat) returns (op: BatchOp, rest: Bytes)
    requires Codes(front) && n > 0 && DecodeOps(front, b, n).Ok?
    ensures OpFits(op) && SeenOp(op) == op && b == OpBytes(op) + rest
    ensures DecodeOps(front, rest, n - 1).Ok?
    ensures DecodeOps(front, b, n).value == [op] + DecodeOps(front, rest, n - 1).value
  {
    var p := front(b).value;
    op, rest := p.op, b[p.len..];
    assert b == b[..p.len] + rest;
  }

  lemma OpsJoin(front: OpReader, op: BatchOp, rest: Bytes, n: nat)
    requires Codes(front) && OpFits(op) && n > 0
    ensures DecodeOps(front, OpBytes(op) + rest, n) == Prepend([SeenOp(op)], DecodeOps(front, rest, n - 1))
  {
    assert ReadsBack(front, op, rest);
    assert (OpBytes(op) + rest)[|OpBytes(op)|..] == rest;
  }

  lemma {:induction false} OpsReadBack(front: OpReader, ops: seq<BatchOp>)
    requires Codes(front) && forall op <- ops :: OpFits(op)
    ensures DecodeOps(front, OpsBytes(ops), |ops|) == Ok(SeenOps(ops))
    decreases |ops|
  {
    if ops != [] {
      OpsJoin(front, ops[0], OpsBytes(ops[1..]), |ops|);
      OpsReadBack(front, ops[1..]);
      assert SeenOps(ops) == [SeenOp(ops[0])] + SeenOps(ops[1..]);
    }
  }

  lemma {:induction false} OpsCanonical(front: OpReader, b: Bytes, n: nat)
    requires Codes(front) && DecodeOps(front, b, n).Ok?
    ensures var ops := DecodeOps(front, b, n).value;
      |ops| == n && (forall op <- ops :: OpFits(op)) && SeenOps(ops) == ops && OpsBytes(ops) == b
    decreases n
  {
    if n > 0 {
      var op, rest := OpsSplit(front, b, n);
      OpsCanonical(front, rest, n - 1);
      var ops, tail := DecodeOps(front, b, n).value, DecodeOps(front, rest, n - 1).value;
      assert ops[0] == op && ops[1..] == tail;
    }
  }

  /** What follows the operations is noticed. */
  lemma {:induction false} OpsPrefixFree(front: OpReader, b: Bytes, n: nat, more: Bytes)
    requires Codes(front) && DecodeOps(front, b, n).Ok? && more != []
    ensures DecodeOps(front, b + more, n) == Err(TrailingBytes)
    decreases n
  {
    if n > 0 {
      var op, rest := OpsSplit(front, b, n);
      OpsPrefixFree(front, rest, n - 1, more);
      assert b + more == OpBytes(op) + (rest + more);
      OpsJoin(front, op, rest + more, n);
    }
  }

  /** Decoding undoes encoding on every list of fitting operations. */
  lemma BodyReadsBack(ops: seq<BatchOp>)
    requires BatchFits(ops)
    ensures Decode(Body(ops)) == Ok(SeenOps(ops))
  {
    var body := Body(ops);
    Powers();
    UnsignedLE(|ops|, 2);
    assert body[..2] == LE(|ops|, 2) && body[2..] == OpsBytes(ops);
    OpFrontCodes();
    OpsReadBack(OpFront, ops);
  }

  /** Encoding undoes decoding: every accepted body is the encoding of what it decodes to. */
  lemma BodyCanonical(body: Bytes)
    requires Decode(body).Ok?
    ensures var ops := Decode(body).value;
      BatchFits(ops) && SeenOps(ops) == ops && Body(ops) == body
  {
    OpFrontCodes();
    OpsCanonical(OpFront, body[2..], Unsigned(body[..2]));
    Powers();
    UnsignedBound(body[..2]);
    LEUnsigned(body[..2]);
    assert body == body[..2] + body[2..];
  }

  /** A body with trailing bytes is rejected, and so is every proper prefix of an accepted body. */
  lemma ExactLength(body: Bytes, more: Bytes)
    requires Decode(body).Ok? && more != []
    ensures Decode(body + more) == Err(TrailingBytes)
  {
    assert (body + more)[..2] == body[..2] && (body + more)[2..] == body[2..] + more;
    OpFrontCodes();
    OpsPrefixFree(OpFront, body[2..], Unsigned(body[..2]), more);
  }

  lemma TruncatedRejected(body: Bytes, keep: nat)
    requires Decode(body).Ok? && keep < |body|
    ensures Decode(body[..keep]).Err?
  {
    assert body[..keep] + body[keep..] == body;
    if Decode(body[..keep]).Ok? {
      ExactLength(body[..keep], body[keep..]);
    }
  }

  // ---- the loops --------------------------------------------------------------------------------

  method AllKnown(ops: seq<BatchOp>) returns (known: bool)
    ensures known <==> forall op <- ops :: KnownType(op.kind)
  {
    for i := 0 to |ops|
      invariant forall op <- ops[..i] :: KnownType(op.kind)
    {
      if !KnownType(ops[i].kind) {
        assert ops[i] in ops;
        return false;
      }
    }
    assert ops[..|ops|] == ops;
    known := true;
  }

  /** Encode a batch, or say why it cannot be. */
  method EncodeBatchOps(ops: seq<BatchOp>) returns (r: Result<Bytes, BatchError>)
    ensures r.Ok? <==> BatchFits(ops)
    ensures r.Ok? ==> r.value == Body(ops)
    ensures (exists op <- ops :: !KnownType(op.kind)) ==> r == Err(BadType)
  {
    var known := AllKnown(ops);
    if !known {
      return Err(BadType);
    }
    if |ops| > MAX_OPS {
      return Err(OutOfRange);
    }
    r := PutOps(ops);
    if r.Ok? {
      r := Ok(LE(|ops|, 2) + r.value);
    }
  }

  /** `b` is the encoding of the operations, all of which fit. */
  ghost predicate Encodes(b: Bytes, ops: seq<BatchOp>)
  {
    (forall op <- ops :: OpFits(op)) && b == OpsBytes(ops)
  }

  lemma EncodesMore(b: Bytes, ops: seq<BatchOp>, i: nat)
    requires i < |ops| && Encodes(b, ops[..i]) && OpFits(ops[i])
    ensures Encodes(b + OpBytes(ops[i]), ops[..i + 1])
  {
    OpsBytesSnoc(ops[..i], ops[i]);
    assert ops[..i + 1] == ops[..i] + [ops[i]];
  }

  /** The operations one after the other. */
  method PutOps(ops: seq<BatchOp>) returns (r: Result<Bytes, BatchError>)
    ensures r.Ok? <==> forall op <- ops :: OpFits(op)
    ensures r.Ok? ==> Encodes(r.value, ops)
    ensures r.Err? ==> r.error == OutOfRange
  {
    var body: Bytes := [];
    for i := 0 to |ops|
      invariant Encodes(body, ops[..i])
    {
      if !OpFits(ops[i]) {
        assert ops[i] in ops;
        return Err(OutOfRange);
      }
      EncodesMore(body, ops, i);
      body := body + OpBytes(ops[i]);
    }
    assert ops[..|ops|] == ops;
    r := Ok(body);
  }

  lemma {:induction false} OpsBytesSnoc(ops: seq<BatchOp>, op: BatchOp)
    requires OpFits(op) && forall o <- ops :: OpFits(o)
    ensures OpsBytes(ops + [op]) == OpsBytes(ops) + OpBytes(op)
  {
    if ops == [] {
      assert OpsBytes([op]) == OpBytes(op) + OpsBytes([]);
    } else {
      assert (ops + [op])[1..] == ops[1..] + [op];
      OpsBytesSnoc(ops[1..], op);
    }
  }

  lemma PrependNothing(r: Result<seq<BatchOp>, BatchError>)
    ensures Prepend([], r) == r
  {
    assert r.Ok? ==> [] + r.value == r.value;
  }

  lemma PrependTwice(ops: seq<BatchOp>, op: BatchOp, r: Result<seq<BatchOp>, BatchError>)
    ensures Prepend(ops, Prepend([op], r)) == Prepend(ops + [op], r)
  {
    assert r.Ok? ==> ops + ([op] + r.value) == ops + [op] + r.value;
  }

  /** Read `count` operations from offset 2 on; the first error rejects everything. */
  method DecodeLoop(front: OpReader, body: Bytes, count: nat) returns (r: Result<seq<BatchOp>, BatchError>)
    requires |body| >= 2
    ensures r == DecodeOps(front, body[2..], count)
  {
    var ops: seq<BatchOp> := [];
    var o := 2;
    ghost var left := DecodeOps(front, body[2..], count);
    PrependNothing(left);
    for i := 0 to count
      invariant 2 <= o <= |body| && left == DecodeOps(front, body[o..], count - i)
      invariant Prepend(ops, left) == DecodeOps(front, body[2..], count)
    {
      OpFails(front, body[o..], count - i);
      var next := front(body[o..]);
      if next.Err? {
        return Err(next.error);
      }
      if next.value.len > |body| - o {
        return Err(PayloadTruncated);
      }
      left := OpOut(front, body, o, count - i, ops, left);
      ops := ops + [next.value.op];
      o := o + next.value.len;
    }
    if o != |body| {
      return Err(TrailingBytes);
    }
    assert left == Ok([]) && ops + [] == ops;
    r := Ok(ops);
  }

  /** Decode a whole body or reject it as a whole. */
  method DecodeBatchOps(body: Bytes) returns (r: Result<seq<BatchOp>, BatchError>)
    ensures r == Decode(body)
  {
    if |body| < 2 {
      return Err(CountTruncated);
    }
    r := DecodeLoop(OpFront, body, Unsigned(body[..2]));
  }

  // ---- references -------------------------------------------------------------------------------

  /** An operation whose value stays in the file. */
  datatype OpRef = OpRef(kind: byte, key: Bytes, meta: Option<Bytes>, expireAt: int, valueOff: nat, valLen: nat)

  /** The reference, into a file holding `body` at `bodyOff`, names the operation. */
  ghost predicate NamesOp(ref: OpRef, body: Bytes, bodyOff: nat, op: BatchOp)
  {
    && ref.kind == op.kind && ref.key == op.key && ref.meta == op.meta && ref.expireAt == op.expireAt
    && bodyOff <= ref.valueOff && ref.valueOff - bodyOff + ref.valLen <= |body|
    && op.value == Some(body[ref.valueOff - bodyOff..ref.valueOff - bodyOff + ref.valLen])
  }

  /** The reference for the operation at offset `o`. */
  function RefAt(body: Bytes, bodyOff: nat, o: nat, op: BatchOp): OpRef
  {
    OpRef(op.kind, op.key, op.meta, op.expireAt, bodyOff + o + SUB_HEADER + |op.key|, |OrEmpty(op.value)|)
  }

  lemma RefNames(body: Bytes, bodyOff: nat, o: nat)
    requires o <= |body| && OpFront(body[o..]).Ok?
    ensures NamesOp(RefAt(body, bodyOff, o, OpFront(body[o..]).value.op), body, bodyOff, OpFront(body[o..]).value.op)
  {
    var b := body[o..];
    var l := SubLayoutOf(b);
    assert b[l.keyEnd..l.valueEnd] == body[o + l.keyEnd..o + l.valueEnd];
  }

  ghost predicate AllName(refs: seq<OpRef>, body: Bytes, bodyOff: nat, ops: seq<BatchOp>)
  {
    |refs| == |ops| && forall i | 0 <= i < |refs| :: NamesOp(refs[i], body, bodyOff, ops[i])
  }

  /** Every operation the reader finds gets a reference that names it. */
  ghost predicate RefsRight(front: OpReader, body: Bytes, bodyOff: nat)
  {
    forall o: nat {:trigger front(body[o..])} | o <= |body| && front(body[o..]).Ok? ::
      var p := front(body[o..]).value; p.len <= |body| - o && NamesOp(RefAt(body, bodyOff, o, p.op), body, bodyOff, p.op)
  }

  /** One operation more: what is left, and what it adds up to with what is out. */
  lemma OpOut(front: OpReader, body: Bytes, o: nat, n: nat, ops: seq<BatchOp>, left: Result<seq<BatchOp>, BatchError>)
    returns (rest: Result<seq<BatchOp>, BatchError>)
    requires o <= |body| && n > 0 && left == DecodeOps(front, body[o..], n)
    requires front(body[o..]).Ok? && front(body[o..]).value.len <= |body| - o
    ensures var p := front(body[o..]).value;
      rest == DecodeOps(front, body[o + p.len..], n - 1) && Prepend(ops, left) == Prepend(ops + [p.op], rest)
  {
    var p := front(body[o..]).value;
    assert body[o..][p.len..] == body[o + p.len..];
    rest := DecodeOps(front, body[o + p.len..], n - 1);
    PrependTwice(ops, p.op, rest);
  }

  /** An error in one operation is the error of the whole. */
  lemma OpFails(front: OpReader, b: Bytes, n: nat)
    requires n > 0
    ensures front(b).Err? ==> DecodeOps(front, b, n) == Err(front(b).error)
    ensures front(b).Ok? && front(b).value.len > |b| ==> DecodeOps(front, b, n) == Err(PayloadTruncated)
  {
  }

  method RefLoop(front: OpReader, body: Bytes, bodyOff: nat, count: nat) returns (r: Result<seq<OpRef>, BatchError>)
    requires |body| >= 2 && RefsRight(front, body, bodyOff)
    ensures r.Ok? <==> DecodeOps(front, body[2..], count).Ok?
    ensures r.Err? ==> r.error == DecodeOps(front, body[2..], count).error
    ensures r.Ok? ==> AllName(r.value, body, bodyOff, DecodeOps(front, body[2..], count).value)
  {
    ghost var whole := DecodeOps(front, body[2..], count);
    ghost var ops: seq<BatchOp>, left := [], whole;
    PrependNothing(left);
    var refs: seq<OpRef> := [];
    var o := 2;
    for i := 0 to count
      invariant 2 <= o <= |body| && left == DecodeOps(front, body[o..], count - i)
      invariant Prepend(ops, left) == whole && AllName(refs, body, bodyOff, ops)
    {
      OpFails(front, body[o..], count - i);
      var next := front(body[o..]);
      if next.Err? {
        return Err(next.error);
      }
      left := OpOut(front, body, o, count - i, ops, left);
      ops := ops + [next.value.op];
      refs := refs + [RefAt(body, bodyOff, o, next.value.op)];
      o := o + next.value.len;
    }
    if o != |body| {
      return Err(TrailingBytes);
    }
    r := Ok(refs);
  }

  /** Scan a body for references: accepted and rejected exactly like `DecodeBatchOps`, and the slices the
      references point at are the decoded values. */
  method ScanBatchOpRefs(body: Bytes, bodyOff: nat) returns (r: Result<seq<OpRef>, BatchError>)
    ensures r.Ok? <==> Decode(body).Ok?
    ensures r.Err? ==> r.error == Decode(body).error
    ensures r.Ok? ==> AllName(r.value, body, bodyOff, Decode(body).value)
  {
    if |body| < 2 {
      return Err(CountTruncated);
    }
    forall o: nat | o <= |body| && OpFront(body[o..]).Ok?
      ensures NamesOp(RefAt(body, bodyOff, o, OpFront(body[o..]).value.op), body, bodyOff, OpFront(body[o..]).value.op)
    {
      RefNames(body, bodyOff, o);
    }
    r := RefLoop(OpFront, body, bodyOff, Unsigned(body[..2]));
  }
}
