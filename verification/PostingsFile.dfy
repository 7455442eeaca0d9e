/** Record frames of the postings file, and the rebuild that writes the file in batches. */
module PostingsFiles {
  import opened Basics
  import opened Bytes
  import opened Crc
  import opened Postings
  import V = Varint

  const HEADER_LEN: nat := 10
  const CRC_LEN: nat := 4
  const MAX_TERM: nat := 0xFFFF

  datatype RecordError = TermTooLong | PayloadTooLong | TooShort | CrcMismatch | TermOutOfBounds | PayloadOutOfBounds | NoProgress

  datatype Record = Record(term: Bytes, df: nat, payload: Bytes)

  predicate RecordFits(r: Record)
  {
    |r.term| <= MAX_TERM && r.df < V.UINT32 && |r.payload| < V.UINT32
  }

  function RecordBody(r: Record): Bytes
    requires RecordFits(r)
  {
    LE(|r.term|, 2) + r.term + LE(r.df, 4) + LE(|r.payload|, 4) + r.payload
  }

  function RecordBytes(r: Record): Bytes
    requires RecordFits(r)
  {
    RecordBody(r) + LE(Sum(RecordBody(r)), 4)
  }

  function DecodeRecord(buf: Bytes): Result<Record, RecordError>
  {
    if |buf| < HEADER_LEN + CRC_LEN then Err(TooShort)
    else
      var end := |buf| - CRC_LEN;
      if Unsigned(buf[end..]) != Sum(buf[..end]) then Err(CrcMismatch) else DecodeBody(buf[..end])
  }

  function DecodeBody(body: Bytes): Result<Record, RecordError>
    requires |body| >= HEADER_LEN
  {
    var o := 2 + Unsigned(body[..2]);
    if o + 8 > |body| then Err(TermOutOfBounds)
    else
      var payloadLen := Unsigned(body[o + 4..o + 8]);
      if o + 8 + payloadLen > |body| then Err(PayloadOutOfBounds)
      else Ok(Record(body[2..o], Unsigned(body[o..o + 4]), body[o + 8..o + 8 + payloadLen]))
  }

  ghost predicate HasParts(body: Bytes, r: Record)
    requires RecordFits(r)
  {
    var o := 2 + |r.term|;
    && |body| == o + 8 + |r.payload| && body[..2] == LE(|r.term|, 2) && body[2..o] == r.term
    && body[o..o + 4] == LE(r.df, 4) && body[o + 4..o + 8] == LE(|r.payload|, 4) && body[o + 8..] == r.payload
  }

  lemma BodyParts(r: Record)
    requires RecordFits(r)
    ensures HasParts(RecordBody(r), r)
  {
    var body := RecordBody(r);
    var a, d, p := LE(|r.term|, 2), LE(r.df, 4), LE(|r.payload|, 4);
    assert body == a + r.term + (d + p + r.payload);
    Middle(body, a, r.term, d + p + r.payload);
    assert body == (a + r.term) + d + (p + r.payload);
    Middle(body, a + r.term, d, p + r.payload);
    Middle(body, a + r.term + d, p, r.payload);
  }

  lemma PartsDecode(body: Bytes, r: Record)
    requires RecordFits(r) && HasParts(body, r)
    ensures DecodeBody(body) == Ok(r)
  {
    Powers();
    UnsignedLE(|r.term|, 2);
    UnsignedLE(r.df, 4);
    UnsignedLE(|r.payload|, 4);
    var o := 2 + |r.term|;
    assert body[o + 8..o + 8 + |r.payload|] == body[o + 8..];
  }

  /** A record reads back from its own bytes. */
  lemma RecordReadsBack(r: Record)
    requires RecordFits(r)
    ensures DecodeRecord(RecordBytes(r)) == Ok(r)
  {
    var body, buf := RecordBody(r), RecordBytes(r);
    assert buf[..|body|] == body && buf[|body|..] == LE(Sum(body), 4);
    Powers();
    UnsignedLE(Sum(body), 4);
    BodyParts(r);
    PartsDecode(body, r);
  }

  // ---- the dictionary ---------------------------------------------------------------------------

  datatype TermList = TermList(term: Bytes, entries: seq<Posting>)

  /** Where a term's record lies. */
  datatype Pointer = Pointer(off: nat, len: nat, df: nat)

  function RecordOf(l: TermList): Record
  {
    Record(l.term, |l.entries| % V.UINT32, ListBytes(VARINT, l.entries))
  }

  ghost predicate Points(file: Bytes, p: Pointer, l: TermList)
  {
    && RecordFits(RecordOf(l)) && p.df == |l.entries|
    && p.off + p.len <= |file| && file[p.off..p.off + p.len] == RecordBytes(RecordOf(l))
  }

  /** The last list of a term that is not empty. */
  ghost function LatestList(lists: seq<TermList>, term: Bytes): Option<TermList>
  {
    if lists == [] then None
    else
      var last := lists[|lists| - 1];
      if last.term == term && last.entries != [] then Some(last) else LatestList(lists[..|lists| - 1], term)
  }

  /** The dictionary has exactly the terms with entries, each pointing at the record of its list. */
  ghost predicate Indexes(dict: map<Bytes, Pointer>, lists: seq<TermList>, file: Bytes)
  {
    forall t {:trigger LatestList(lists, t)} ::
      (t in dict <==> LatestList(lists, t).Some?) && (t in dict ==> Points(file, dict[t], LatestList(lists, t).value))
  }

  lemma PointsStill(file: Bytes, more: Bytes, p: Pointer, l: TermList)
    requires Points(file, p, l)
    ensures Points(file + more, p, l)
  {
    assert (file + more)[p.off..p.off + p.len] == file[p.off..p.off + p.len];
  }

  /** One list more: its record goes to the end, its term to the dictionary. */
  lemma IndexesMore(dict: map<Bytes, Pointer>, lists: seq<TermList>, l: TermList, file: Bytes)
    requires Indexes(dict, lists, file) && l.entries != [] && RecordFits(RecordOf(l))
    ensures var rec := RecordBytes(RecordOf(l));
      Indexes(dict[l.term := Pointer(|file|, |rec|, |l.entries|)], lists + [l], file + rec)
  {
    var rec := RecordBytes(RecordOf(l));
    var p := Pointer(|file|, |rec|, |l.entries|);
    assert (file + rec)[|file|..|file| + |rec|] == rec;
    assert (lists + [l])[..|lists|] == lists;
    forall t
      ensures var d := dict[l.term := p];
        && (t in d <==> LatestList(lists + [l], t).Some?)
        && (t in d ==> Points(file + rec, d[t], LatestList(lists + [l], t).value))
    {
      var latest := LatestList(lists, t);
      if t in dict && t != l.term {
        PointsStill(file, rec, dict[t], latest.value);
      }
    }
  }

  lemma IndexesSkip(dict: map<Bytes, Pointer>, lists: seq<TermList>, l: TermList, file: Bytes)
    requires Indexes(dict, lists, file) && l.entries == []
    ensures Indexes(dict, lists + [l], file)
  {
    assert (lists + [l])[..|lists|] == lists;
    forall t
      ensures LatestList(lists + [l], t) == LatestList(lists, t)
    {
    }
  }

  // ---- writing ----------------------------------------------------------------------------------

  /** Write a batch to the end of the file; a write may take fewer bytes than offered, or none. */
  method FlushBatch(file0: Bytes, crc0: bv32, batch: seq<Bytes>) returns (ok: bool, file: Bytes, crc: bv32)
    ensures ok ==> file == file0 + Concat(batch) && crc == Crc32(Concat(batch), crc0)
  {
    var buf := Concat(batch);
    crc := Checksum(buf, crc0);
    file := file0;
    var written := 0;
    while written < |buf|
      invariant written <= |buf| && file == file0 + buf[..written]
    {
      var taken: nat :| taken <= |buf| - written;
      if taken == 0 {
        return false, file, crc;
      }
      assert buf[..written] + buf[written..written + taken] == buf[..written + taken];
      file := file + buf[written..written + taken];
      written := written + taken;
    }
    assert buf[..written] == buf;
    ok := true;
  }

  datatype Built = Built(dict: map<Bytes, Pointer>, bytes: nat, crc: bv32)

  method EncodeRecord(term: Bytes, df: nat, payload: Bytes) returns (r: Result<Bytes, RecordError>)
    ensures r.Ok? <==> RecordFits(Record(term, df % V.UINT32, payload))
    ensures r.Ok? ==> r.value == RecordBytes(Record(term, df % V.UINT32, payload))
  {
    if |term| > MAX_TERM {
      return Err(TermTooLong);
    }
    if |payload| >= V.UINT32 {
      return Err(PayloadTooLong);
    }
    var body := LE(|term|, 2) + term + LE(df % V.UINT32, 4) + LE(|payload|, 4) + payload;
    var c := Checksum(body, 0);
    r := Ok(body + LE(c as int, 4));
  }

  /** Build a fresh postings file. However the records are batched and the writes cut short, the file holds the
      records back to back, the dictionary points at them, and the running checksum is that of the file. */
  method Rebuild(lists: seq<TermList>, flushBytes: nat) returns (r: Result<Built, RecordError>, file: Bytes)
    ensures r.Ok? ==> r.value.bytes == |file| && r.value.crc == Crc32(file, 0) && Indexes(r.value.dict, lists, file)
    ensures (exists l <- lists :: l.entries != [] && |l.term| > MAX_TERM) ==> r.Err?
  {
    var dict: map<Bytes, Pointer> := map[];
    var off, crc, batch, batchBytes := 0, 0 as bv32, [], 0;
    file := [];
    NothingFed(0);
    assert file + Concat(batch) == [];
    for i := 0 to |lists|
      invariant crc == Crc32(file, 0) && off == |file + Concat(batch)|
      invariant Indexes(dict, lists[..i], file + Concat(batch))
      invariant forall j | 0 <= j < i :: lists[j].entries != [] ==> |lists[j].term| <= MAX_TERM
    {
      var l := lists[i];
      ghost var all := file + Concat(batch);
      assert lists[..i + 1] == lists[..i] + [l];
      if |l.entries| == 0 {
        IndexesSkip(dict, lists[..i], l, all);
        continue;
      }
      var payload := EncodePostingList(l.entries);
      var rec := EncodeRecord(l.term, |l.entries|, payload);
      if rec.Err? {
        return Err(rec.error), file;
      }
      IndexesMore(dict, lists[..i], l, all);
      dict := dict[l.term := Pointer(off, |rec.value|, |l.entries|)];
      ConcatSnoc(batch, rec.value);
      assert all + rec.value == file + Concat(batch + [rec.value]);
      batch := batch + [rec.value];
      batchBytes := batchBytes + |rec.value|;
      off := off + |rec.value|;
      if batchBytes >= flushBytes {
        var ok;
        Streaming(file, Concat(batch), 0);
        ok, file, crc := FlushBatch(file, crc, batch);
        if !ok {
          return Err(NoProgress), file;
        }
        batch, batchBytes := [], 0;
        assert file + Concat([]) == file;
      }
    }
    assert lists[..|lists|] == lists;
    Streaming(file, Concat(batch), 0);
    var ok;
    ok, file, crc := FlushBatch(file, crc, batch);
    if !ok {
      return Err(NoProgress), file;
    }
    r := Ok(Built(dict, off, crc));
  }

  /** Reading through a dictionary pointer gives the term's list back, or its prefix. */
  lemma PointerReadsBack(file: Bytes, p: Pointer, l: TermList, maxEntries: Option<int>)
    requires Points(file, p, l) && Ascending(l.entries, 0) && |l.entries| < V.UINT32
    ensures var rec := DecodeRecord(file[p.off..p.off + p.len]);
      && rec.Ok? && rec.value.term == l.term && rec.value.df == p.df
      && DecodeList(VARINT, rec.value.payload, maxEntries) == Ok(l.entries[..Limited(p.df, maxEntries)])
  {
    RecordReadsBack(RecordOf(l));
    Small(|l.entries|);
    var payload := ListBytes(VARINT, l.entries);
    assert payload + [] == payload;
    ListReadsBack(l.entries, [], maxEntries);
  }
}
