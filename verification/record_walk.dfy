/** The aligned, length-prefixed UTF-16 record walk that efk_scanner.py and
    four of the tools each run over a container's bytes: a cursor starting
    after the 4-byte header reads a little-endian 32-bit unit count N, and a
    record of N UTF-16 code units that fits in the buffer and decodes is
    emitted and skipped. The variants differ in which byte orders they try
    and in how far the cursor moves when a plausible record does not decode. */
module RecordWalk {
  import opened Common
  import opened Codecs
  import opened Extensions

  /** A recovered string: the offset of its length prefix, the declared
      length in code units, the decoded text. */
  datatype StringRecord = StringRecord(position: nat, length: nat, text: string)

  /** A decoder for a record's payload: None when the bytes do not decode. */
  type PayloadDecoder = seq<Byte> -> Option<string>

  /** Where the cursor goes after a plausible record that does not decode:
      one byte on, or past the whole record. */
  datatype OnFailure = StepOneByte | SkipRecord

  /** A length prefix at `pos` that is in range and whose record fits. */
  predicate Plausible(c: seq<Byte>, pos: nat, maxUnits: nat)
  {
    pos + 4 <= |c| && 0 < U32LE(c, pos) < maxUnits && pos + 4 + 2 * U32LE(c, pos) <= |c|
  }

  function Payload(c: seq<Byte>, pos: nat, maxUnits: nat): seq<Byte>
    requires Plausible(c, pos, maxUnits)
  {
    c[pos + 4..pos + 4 + 2 * U32LE(c, pos)]
  }

  /** `payload.decode('utf-16-le')`. */
  function LittleEndianPayload(p: seq<Byte>): Option<string>
  {
    DecodeUtf16(p, false)
  }

  /** `payload.decode('utf-16-le')`, and on failure `payload.decode('utf-16-be')`. */
  function EitherEndianPayload(p: seq<Byte>): Option<string>
  {
    match DecodeUtf16(p, false)
    case Some(s) => Some(s)
    case None => DecodeUtf16(p, true)
  }

  /** The offset just past a record. */
  function RecordEnd(r: StringRecord): nat
  {
    r.position + 4 + 2 * r.length
  }

  /** A record that the walk may emit: its prefix is plausible (fewer than
      1000 units, fitting) and its payload decodes to its text. */
  predicate ValidRecord(c: seq<Byte>, r: StringRecord, decode: PayloadDecoder)
  {
    Plausible(c, r.position, 1000) && r.length == U32LE(c, r.position)
    && decode(Payload(c, r.position, 1000)) == Some(r.text)
  }

  /** Records in ascending order with no two overlapping. */
  predicate Ascending(rs: seq<StringRecord>)
  {
    forall i, j :: 0 <= i < j < |rs| ==> RecordEnd(rs[i]) <= rs[j].position
  }

  /** The walk from cursor `pos`, as a function of the bytes. */
  function Walk(c: seq<Byte>, pos: nat, decode: PayloadDecoder, onFail: OnFailure): seq<StringRecord>
    decreases |c| - pos
  {
    if pos >= |c| then []
    else if Plausible(c, pos, 1000) then
      var n := U32LE(c, pos);
      match decode(Payload(c, pos, 1000))
      case Some(s) => [StringRecord(pos, n, s)] + Walk(c, pos + 4 + 2 * n, decode, onFail)
      case None => Walk(c, if onFail == SkipRecord then pos + 4 + 2 * n else pos + 1, decode, onFail)
    else Walk(c, pos + 1, decode, onFail)
  }

  /** Every record of `ws` lies at or after `from` and is valid. */
  ghost predicate AllValid(c: seq<Byte>, ws: seq<StringRecord>, from: nat, decode: PayloadDecoder)
  {
    forall r :: r in ws ==> from <= r.position && ValidRecord(c, r, decode)
  }

  /** Putting a valid record before valid records that start at or after
      its end. */
  lemma ValidCons(c: seq<Byte>, ws: seq<StringRecord>, r: StringRecord, ts: seq<StringRecord>,
                  from: nat, decode: PayloadDecoder)
    requires ws == [r] + ts
    requires from <= r.position && ValidRecord(c, r, decode)
    requires AllValid(c, ts, RecordEnd(r), decode)
    ensures AllValid(c, ws, from, decode)
  {
  }

  /** Valid records at or after `next` are valid records at or after any
      earlier offset. */
  lemma ValidFrom(c: seq<Byte>, ws: seq<StringRecord>, ts: seq<StringRecord>, from: nat, next: nat, decode: PayloadDecoder)
    requires ws == ts && from <= next
    requires AllValid(c, ts, next, decode)
    ensures AllValid(c, ws, from, decode)
  {
  }

  /** Putting a record before ascending records that all start at or after
      its end keeps them ascending. */
  lemma ConsAscending(c: seq<Byte>, ws: seq<StringRecord>, r: StringRecord, ts: seq<StringRecord>, decode: PayloadDecoder)
    requires ws == [r] + ts
    requires Ascending(ts)
    requires AllValid(c, ts, RecordEnd(r), decode)
    ensures Ascending(ws)
  {
    forall i, j | 0 <= i < j < |ws| ensures RecordEnd(ws[i]) <= ws[j].position {
      assert ws[j] == ts[j - 1];
      assert ws[j] in ts;
      if i > 0 { assert ws[i] == ts[i - 1]; }
    }
  }

  /** A plausible record that decodes is emitted and skipped. */
  lemma WalkEmit(c: seq<Byte>, pos: nat, decode: PayloadDecoder, onFail: OnFailure, n: nat, text: string)
    requires Plausible(c, pos, 1000) && n == U32LE(c, pos)
    requires decode(Payload(c, pos, 1000)) == Some(text)
    ensures Walk(c, pos, decode, onFail) == [StringRecord(pos, n, text)] + Walk(c, pos + 4 + 2 * n, decode, onFail)
    ensures ValidRecord(c, StringRecord(pos, n, text), decode)
    ensures RecordEnd(StringRecord(pos, n, text)) == pos + 4 + 2 * n
  {
  }

  /** A plausible record that does not decode is stepped over by one byte or
      skipped whole. */
  lemma WalkMiss(c: seq<Byte>, pos: nat, decode: PayloadDecoder, onFail: OnFailure, n: nat)
    requires Plausible(c, pos, 1000) && n == U32LE(c, pos)
    requires decode(Payload(c, pos, 1000)).None?
    ensures Walk(c, pos, decode, onFail)
      == Walk(c, if onFail == SkipRecord then pos + 4 + 2 * n else pos + 1, decode, onFail)
  {
  }

  /** Anything else moves the cursor one byte on. */
  lemma WalkStep(c: seq<Byte>, pos: nat, decode: PayloadDecoder, onFail: OnFailure)
    requires pos < |c| && !Plausible(c, pos, 1000)
    ensures Walk(c, pos, decode, onFail) == Walk(c, pos + 1, decode, onFail)
  {
  }

  /** Every record of a walk from `pos` lies at or after `pos` and is valid. */
  lemma {:induction false} WalkValid(c: seq<Byte>, pos: nat, decode: PayloadDecoder, onFail: OnFailure)
    ensures AllValid(c, Walk(c, pos, decode, onFail), pos, decode)
    decreases |c| - pos
  {
    if pos >= |c| {
      assert Walk(c, pos, decode, onFail) == [];
    } else if Plausible(c, pos, 1000) {
      var n := U32LE(c, pos);
      var next := pos + 4 + 2 * n;
      var decoded := decode(Payload(c, pos, 1000));
      if decoded.Some? {
        var r := StringRecord(pos, n, decoded.value);
        WalkValid(c, next, decode, onFail);
        WalkEmit(c, pos, decode, onFail, n, decoded.value);
        ValidCons(c, Walk(c, pos, decode, onFail), r, Walk(c, next, decode, onFail), pos, decode);
      } else {
        var skip := if onFail == SkipRecord then next else pos + 1;
        WalkValid(c, skip, decode, onFail);
        WalkMiss(c, pos, decode, onFail, n);
        ValidFrom(c, Walk(c, pos, decode, onFail), Walk(c, skip, decode, onFail), pos, skip, decode);
      }
    } else {
      WalkValid(c, pos + 1, decode, onFail);
      WalkStep(c, pos, decode, onFail);
      ValidFrom(c, Walk(c, pos, decode, onFail), Walk(c, pos + 1, decode, onFail), pos, pos + 1, decode);
    }
  }

  /** The records of a walk are ascending and disjoint. */
  lemma {:induction false} WalkAscending(c: seq<Byte>, pos: nat, decode: PayloadDecoder, onFail: OnFailure)
    ensures Ascending(Walk(c, pos, decode, onFail))
    decreases |c| - pos
  {
    if pos >= |c| {
      assert Walk(c, pos, decode, onFail) == [];
    } else if Plausible(c, pos, 1000) {
      var n := U32LE(c, pos);
      var next := pos + 4 + 2 * n;
      var decoded := decode(Payload(c, pos, 1000));
      if decoded.Some? {
        var r := StringRecord(pos, n, decoded.value);
        WalkAscending(c, next, decode, onFail);
        WalkValid(c, next, decode, onFail);
        WalkEmit(c, pos, decode, onFail, n, decoded.value);
        ConsAscending(c, Walk(c, pos, decode, onFail), r, Walk(c, next, decode, onFail), decode);
      } else {
        WalkAscending(c, if onFail == SkipRecord then next else pos + 1, decode, onFail);
        WalkMiss(c, pos, decode, onFail, n);
      }
    } else {
      WalkAscending(c, pos + 1, decode, onFail);
      WalkStep(c, pos, decode, onFail);
    }
  }

  /** The cursor loop: starts after the 4-byte header and emits exactly the
      records of `Walk`, which are valid, ascending and disjoint. */
  method WalkRecords(c: seq<Byte>, decode: PayloadDecoder, onFail: OnFailure) returns (records: seq<StringRecord>)
    ensures records == Walk(c, 4, decode, onFail)
    ensures forall r :: r in records ==> 4 <= r.position && ValidRecord(c, r, decode)
    ensures Ascending(records)
  {
    var pos := 4;
    records := [];
    while pos < |c|
      invariant records + Walk(c, pos, decode, onFail) == Walk(c, 4, decode, onFail)
      decreases |c| - pos
    {
      if pos + 4 <= |c| {
        var n := U32LE(c, pos);
        if 0 < n < 1000 && pos + 4 + 2 * n <= |c| {
          var decoded := decode(c[pos + 4..pos + 4 + 2 * n]);
          if decoded.Some? {
            WalkEmit(c, pos, decode, onFail, n, decoded.value);
            ConcatAssoc(records, [StringRecord(pos, n, decoded.value)], Walk(c, pos + 4 + 2 * n, decode, onFail));
            records := records + [StringRecord(pos, n, decoded.value)];
            pos := pos + 4 + 2 * n;
            continue;
          }
          WalkMiss(c, pos, decode, onFail, n);
          if onFail == SkipRecord {
            pos := pos + 4 + 2 * n;
            continue;
          }
          pos := pos + 1;
          continue;
        }
      }
      WalkStep(c, pos, decode, onFail);
      pos := pos + 1;
    }
    WalkValid(c, 4, decode, onFail);
    WalkAscending(c, 4, decode, onFail);
  }

  /** Whether a recovered string names a file: it contains one of `exts`
      once lower-cased. The string-table scans pass the nine reference
      extensions, the effect-model scan the thirteen model ones. */
  predicate IsFilePath(r: StringRecord, exts: seq<string>)
  {
    MentionsAny(r.text, exts)
  }

  function FilterRecords(rs: seq<StringRecord>, exts: seq<string>, wanted: bool): (out: seq<StringRecord>)
    ensures |out| <= |rs|
  {
    if rs == [] then []
    else (if IsFilePath(rs[0], exts) == wanted then [rs[0]] else []) + FilterRecords(rs[1..], exts, wanted)
  }

  /** The two halves of a partition together hold every record exactly once. */
  lemma {:induction false} PartitionIsPermutation(rs: seq<StringRecord>, exts: seq<string>)
    ensures multiset(FilterRecords(rs, exts, true)) + multiset(FilterRecords(rs, exts, false)) == multiset(rs)
  {
    if rs != [] {
      var h, t := rs[0], rs[1..];
      PartitionIsPermutation(t, exts);
      assert rs == [h] + t;
      var yes, no := FilterRecords(t, exts, true), FilterRecords(t, exts, false);
      if IsFilePath(h, exts) {
        assert FilterRecords(rs, exts, true) == [h] + yes;
        assert FilterRecords(rs, exts, false) == [] + no;
      } else {
        assert FilterRecords(rs, exts, true) == [] + yes;
        assert FilterRecords(rs, exts, false) == [h] + no;
      }
    }
  }

  /** Each half holds only records of `rs` that the test puts on that side. */
  lemma {:induction false} FilterSound(rs: seq<StringRecord>, exts: seq<string>, wanted: bool)
    ensures forall r :: r in FilterRecords(rs, exts, wanted) ==> r in rs && IsFilePath(r, exts) == wanted
  {
    if rs != [] {
      FilterSound(rs[1..], exts, wanted);
      assert forall r :: r in rs[1..] ==> r in rs;
    }
  }

  /** The filter over `rs[i..]` takes or drops `rs[i]` and goes on. */
  lemma FilterStep(rs: seq<StringRecord>, exts: seq<string>, i: nat, wanted: bool)
    requires i < |rs|
    ensures FilterRecords(rs[i..], exts, wanted)
      == (if IsFilePath(rs[i], exts) == wanted then [rs[i]] else []) + FilterRecords(rs[i + 1..], exts, wanted)
  {
    assert rs[i..][0] == rs[i] && rs[i..][1..] == rs[i + 1..];
  }

  /** Moving the record the filter takes at `i` into the output keeps the
      output followed by the rest equal to the whole filter. */
  lemma FilterTake(rs: seq<StringRecord>, exts: seq<string>, i: nat, wanted: bool, out: seq<StringRecord>)
    requires i < |rs| && IsFilePath(rs[i], exts) == wanted
    requires out + FilterRecords(rs[i..], exts, wanted) == FilterRecords(rs, exts, wanted)
    ensures (out + [rs[i]]) + FilterRecords(rs[i + 1..], exts, wanted) == FilterRecords(rs, exts, wanted)
  {
    FilterStep(rs, exts, i, wanted);
    ConcatAssoc(out, [rs[i]], FilterRecords(rs[i + 1..], exts, wanted));
  }

  /** A record the filter drops at `i` leaves the output as it is. */
  lemma FilterSkip(rs: seq<StringRecord>, exts: seq<string>, i: nat, wanted: bool, out: seq<StringRecord>)
    requires i < |rs| && IsFilePath(rs[i], exts) != wanted
    requires out + FilterRecords(rs[i..], exts, wanted) == FilterRecords(rs, exts, wanted)
    ensures out + FilterRecords(rs[i + 1..], exts, wanted) == FilterRecords(rs, exts, wanted)
  {
    FilterStep(rs, exts, i, wanted);
    assert [] + FilterRecords(rs[i + 1..], exts, wanted) == FilterRecords(rs[i + 1..], exts, wanted);
  }

  /** The loop that sorts recovered strings into file paths and the rest,
      keeping their order. */
  method Partition(rs: seq<StringRecord>, exts: seq<string>) returns (filePaths: seq<StringRecord>, others: seq<StringRecord>)
    ensures filePaths == FilterRecords(rs, exts, true) && others == FilterRecords(rs, exts, false)
    ensures multiset(filePaths) + multiset(others) == multiset(rs)
    ensures forall r :: r in filePaths ==> IsFilePath(r, exts)
    ensures forall r :: r in others ==> !IsFilePath(r, exts)
  {
    filePaths, others := [], [];
    var i := 0;
    while i < |rs|
      invariant 0 <= i <= |rs|
      invariant filePaths + FilterRecords(rs[i..], exts, true) == FilterRecords(rs, exts, true)
      invariant others + FilterRecords(rs[i..], exts, false) == FilterRecords(rs, exts, false)
    {
      if IsFilePath(rs[i], exts) {
        FilterTake(rs, exts, i, true, filePaths);
        FilterSkip(rs, exts, i, false, others);
        filePaths := filePaths + [rs[i]];
      } else {
        FilterSkip(rs, exts, i, true, filePaths);
        FilterTake(rs, exts, i, false, others);
        others := others + [rs[i]];
      }
      i := i + 1;
    }
    assert rs[i..] == [];
    PartitionIsPermutation(rs, exts);
    FilterSound(rs, exts, true);
    FilterSound(rs, exts, false);
  }
}
