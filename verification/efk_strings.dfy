/** The string-table recovery of efk_scanner.py (`_parse_utf16_strings`):
    three heuristics run over the same buffer one after the other, and their
    results are deduplicated by text, the first occurrence winning. */
module EfkStrings {
  import opened Common
  import opened Codecs
  import opened RecordWalk
  import opened ByteRuns

  /** Some character of `s` is printable. */
  predicate HasPrintable(s: string)
  {
    s != [] && (IsPrintable(s[0]) || HasPrintable(s[1..]))
  }

  /** The first of the little- and big-endian decodings that succeeds and
      holds a printable character. */
  function FirstPrintableDecode(p: seq<Byte>): Option<string>
  {
    var le := DecodeUtf16(p, false);
    if le.Some? && HasPrintable(le.value) then le
    else
      var be := DecodeUtf16(p, true);
      if be.Some? && HasPrintable(be.value) then be else None
  }

  /** The chosen decoding holds a printable character and is one of the two
      byte orders; little-endian wins whenever it qualifies; there is no
      result only when neither qualifies. */
  lemma FirstPrintableDecodeFacts(p: seq<Byte>)
    ensures var r := FirstPrintableDecode(p);
      && (r.Some? ==> HasPrintable(r.value) && (DecodeUtf16(p, false) == r || DecodeUtf16(p, true) == r))
      && (DecodeUtf16(p, false).Some? && HasPrintable(DecodeUtf16(p, false).value) ==> r == DecodeUtf16(p, false))
      && (r.None? <==>
           (DecodeUtf16(p, false).None? || !HasPrintable(DecodeUtf16(p, false).value))
           && (DecodeUtf16(p, true).None? || !HasPrintable(DecodeUtf16(p, true).value)))
  {
  }

  /** The record the unaligned pass takes at offset `i`, if any: a length
      prefix in 1..499 whose record fits and whose payload `decode` accepts;
      the pass itself decodes with `FirstPrintableDecode`. */
  function UnalignedAt(c: seq<Byte>, i: nat, decode: PayloadDecoder): (r: Option<StringRecord>)
    requires i + 4 <= |c|
    ensures r.Some? ==> r.value.position == i
  {
    if Plausible(c, i, 500) then
      match decode(Payload(c, i, 500))
      case Some(s) => Some(StringRecord(i, U32LE(c, i), s))
      case None => None
    else None
  }

  /** The unaligned pass from offset `i`: every even offset below `|c| - 4`. */
  function UnalignedFrom(c: seq<Byte>, i: nat, decode: PayloadDecoder): seq<StringRecord>
    decreases |c| - i
  {
    if i + 4 >= |c| then []
    else
      (match UnalignedAt(c, i, decode) case Some(r) => [r] case None => []) + UnalignedFrom(c, i + 2, decode)
  }

  /** Every record of `rs` is the one the pass takes at its own offset, an
      even offset at or after `i` and below `|c| - 4`. */
  ghost predicate TakenFrom(c: seq<Byte>, rs: seq<StringRecord>, i: nat, decode: PayloadDecoder)
  {
    forall x :: x in rs ==>
      i <= x.position && x.position % 2 == 0 && x.position + 4 < |c| && UnalignedAt(c, x.position, decode) == Some(x)
  }

  /** The records of `rs` have strictly ascending offsets. */
  predicate PositionsAscending(rs: seq<StringRecord>)
  {
    forall a, b :: 0 <= a < b < |rs| ==> rs[a].position < rs[b].position
  }

  /** One offset of the pass: the record taken at `i`, if any, then the rest. */
  lemma UnalignedStep(c: seq<Byte>, i: nat, decode: PayloadDecoder, r: Option<StringRecord>)
    requires i + 4 < |c| && r == UnalignedAt(c, i, decode)
    ensures UnalignedFrom(c, i, decode) == (if r.Some? then [r.value] else []) + UnalignedFrom(c, i + 2, decode)
  {
  }

  lemma TakenCons(c: seq<Byte>, ws: seq<StringRecord>, i: nat, decode: PayloadDecoder,
                  r: Option<StringRecord>, rest: seq<StringRecord>)
    requires i % 2 == 0 && i + 4 < |c| && r == UnalignedAt(c, i, decode)
    requires ws == (if r.Some? then [r.value] else []) + rest
    requires TakenFrom(c, rest, i + 2, decode)
    ensures TakenFrom(c, ws, i, decode)
  {
  }

  lemma TakenAfter(c: seq<Byte>, rs: seq<StringRecord>, i: nat, decode: PayloadDecoder)
    requires TakenFrom(c, rs, i, decode)
    ensures forall x :: x in rs ==> i <= x.position
  {
  }

  lemma AscendingCons(ws: seq<StringRecord>, i: nat, r: Option<StringRecord>, rest: seq<StringRecord>)
    requires r.Some? ==> r.value.position == i
    requires ws == (if r.Some? then [r.value] else []) + rest
    requires (forall x :: x in rest ==> i + 2 <= x.position) && PositionsAscending(rest)
    ensures PositionsAscending(ws)
  {
    forall a, b | 0 <= a < b < |ws| ensures ws[a].position < ws[b].position {
      if r.None? {
        assert ws[a] == rest[a] && ws[b] == rest[b];
      } else {
        assert ws[b] == rest[b - 1] && ws[b] in rest;
        if a > 0 { assert ws[a] == rest[a - 1]; }
      }
    }
  }

  /** Every record of the unaligned pass from `i` is the one it takes at its
      own offset, an offset at or after `i` and below `|c| - 4`. */
  lemma {:induction false} UnalignedMembers(c: seq<Byte>, i: nat, decode: PayloadDecoder)
    requires i % 2 == 0
    ensures TakenFrom(c, UnalignedFrom(c, i, decode), i, decode)
    decreases |c| - i
  {
    if i + 4 < |c| {
      var r := UnalignedAt(c, i, decode);
      UnalignedMembers(c, i + 2, decode);
      UnalignedStep(c, i, decode, r);
      TakenCons(c, UnalignedFrom(c, i, decode), i, decode, r, UnalignedFrom(c, i + 2, decode));
    } else {
      assert UnalignedFrom(c, i, decode) == [];
    }
  }

  /** The unaligned pass emits at most one record per offset, in ascending
      order. */
  lemma {:induction false} UnalignedAscending(c: seq<Byte>, i: nat, decode: PayloadDecoder)
    requires i % 2 == 0
    ensures PositionsAscending(UnalignedFrom(c, i, decode))
    decreases |c| - i
  {
    if i + 4 < |c| {
      var r := UnalignedAt(c, i, decode);
      UnalignedAscending(c, i + 2, decode);
      UnalignedMembers(c, i + 2, decode);
      UnalignedStep(c, i, decode, r);
      TakenAfter(c, UnalignedFrom(c, i + 2, decode), i + 2, decode);
      AscendingCons(UnalignedFrom(c, i, decode), i, r, UnalignedFrom(c, i + 2, decode));
    } else {
      assert UnalignedFrom(c, i, decode) == [];
    }
  }

  /** One offset of the unaligned pass: read the length prefix and, when it
      is plausible, try little-endian and then big-endian decoding. */
  method TryUnalignedAt(c: seq<Byte>, i: nat) returns (r: Option<StringRecord>)
    requires i + 4 <= |c|
    ensures r == UnalignedAt(c, i, FirstPrintableDecode)
  {
    r := None;
    var n := U32LE(c, i);
    if 0 < n < 500 && i + 4 + n * 2 <= |c| {
      var data := c[i + 4..i + 4 + n * 2];
      var le := DecodeUtf16(data, false);
      if le.Some? && HasPrintable(le.value) {
        r := Some(StringRecord(i, n, le.value));
      } else {
        var be := DecodeUtf16(data, true);
        if be.Some? && HasPrintable(be.value) {
          r := Some(StringRecord(i, n, be.value));
        }
      }
    }
  }

  /** The unaligned pass's loop: offsets 0, 2, 4, ... while below `|c| - 4`. */
  method UnalignedPass(c: seq<Byte>) returns (records: seq<StringRecord>)
    ensures records == UnalignedFrom(c, 0, FirstPrintableDecode)
  {
    records := [];
    var i := 0;
    while i < |c| - 4
      invariant records + UnalignedFrom(c, i, FirstPrintableDecode) == UnalignedFrom(c, 0, FirstPrintableDecode)
      decreases |c| - i
    {
      var r := TryUnalignedAt(c, i);
      UnalignedStep(c, i, FirstPrintableDecode, r);
      if r.Some? {
        ConcatAssoc(records, [r.value], UnalignedFrom(c, i + 2, FirstPrintableDecode));
        records := records + [r.value];
      } else {
        assert [] + UnalignedFrom(c, i + 2, FirstPrintableDecode) == UnalignedFrom(c, i + 2, FirstPrintableDecode);
      }
      i := i + 2;
    }
    assert UnalignedFrom(c, i, FirstPrintableDecode) == [];
    assert records + [] == records;
  }

  /** A printable run as a string record; its length is its character count. */
  function RunRecords(runs: seq<TextRun>): (r: seq<StringRecord>)
    ensures |r| == |runs|
    ensures forall k :: 0 <= k < |runs| ==>
      r[k] == StringRecord(runs[k].position, |runs[k].text|, runs[k].text)
  {
    if runs == [] then []
    else [StringRecord(runs[0].position, |runs[0].text|, runs[0].text)] + RunRecords(runs[1..])
  }

  /** The ASCII pass: every maximal run of at least four printable bytes. */
  method AsciiPass(c: seq<Byte>) returns (records: seq<StringRecord>)
    ensures records == RunRecords(TextRuns(c, SpansFrom(c, 0, 4, PrintableAscii)))
    ensures forall k :: 0 <= k < |records| ==>
      var sp := SpansFrom(c, 0, 4, PrintableAscii)[k];
      MaximalRun(c, sp.start, sp.end, PrintableAscii) && sp.end - sp.start >= 4
      && records[k] == StringRecord(sp.start, sp.end - sp.start, Latin1Chars(c[sp.start..sp.end]))
  {
    var runs := PrintableRuns(c, 4);
    records := RunRecords(runs);
    SpansMaximal(c, 0, 4, PrintableAscii);
    ghost var spans := SpansFrom(c, 0, 4, PrintableAscii);
    forall k | 0 <= k < |records|
      ensures records[k] == StringRecord(spans[k].start, spans[k].end - spans[k].start,
        Latin1Chars(c[spans[k].start..spans[k].end]))
    {
      TextRunsAt(c, spans, k);
      assert spans[k] in spans;
    }
  }

  /** Whether record `k` is the first one carrying its text. */
  predicate FirstOfText(rs: seq<StringRecord>, k: nat)
    requires k < |rs|
  {
    forall j :: 0 <= j < k ==> rs[j].text != rs[k].text
  }

  /** The deduplication: keep a record when its text has not been seen and
      is longer than two characters. */
  function DedupFrom(rs: seq<StringRecord>, seen: set<string>): seq<StringRecord>
  {
    if rs == [] then []
    else if rs[0].text !in seen && |rs[0].text| > 2 then [rs[0]] + DedupFrom(rs[1..], seen + {rs[0].text})
    else DedupFrom(rs[1..], seen)
  }

  predicate DistinctTexts(rs: seq<StringRecord>)
  {
    forall a, b :: 0 <= a < b < |rs| ==> rs[a].text != rs[b].text
  }

  /** Deduplication keeps only records whose text is unseen and longer than
      two characters, each the first record carrying its text. */
  lemma {:induction false} DedupSound(rs: seq<StringRecord>, seen: set<string>)
    ensures forall r :: r in DedupFrom(rs, seen) ==>
      |r.text| > 2 && r.text !in seen && exists k :: 0 <= k < |rs| && rs[k] == r && FirstOfText(rs, k)
  {
    if rs != [] {
      var keep := rs[0].text !in seen && |rs[0].text| > 2;
      var seen' := if keep then seen + {rs[0].text} else seen;
      var tail := rs[1..];
      DedupSound(tail, seen');
      forall r | r in DedupFrom(rs, seen)
        ensures |r.text| > 2 && r.text !in seen && exists k :: 0 <= k < |rs| && rs[k] == r && FirstOfText(rs, k)
      {
        if keep && r == rs[0] {
          assert FirstOfText(rs, 0);
        } else {
          assert r in DedupFrom(tail, seen');
          var k' :| 0 <= k' < |tail| && tail[k'] == r && FirstOfText(tail, k');
          assert rs[k' + 1] == r;
          forall j | 0 <= j < k' + 1 ensures rs[j].text != r.text {
            if j > 0 { assert rs[j] == tail[j - 1]; }
          }
          assert FirstOfText(rs, k' + 1);
        }
      }
    }
  }

  /** Deduplication keeps the first record of every unseen text longer than
      two characters. */
  lemma {:induction false} DedupComplete(rs: seq<StringRecord>, seen: set<string>)
    ensures forall k :: 0 <= k < |rs| && |rs[k].text| > 2 && rs[k].text !in seen && FirstOfText(rs, k) ==>
      rs[k] in DedupFrom(rs, seen)
  {
    if rs != [] {
      var keep := rs[0].text !in seen && |rs[0].text| > 2;
      var seen' := if keep then seen + {rs[0].text} else seen;
      var tail := rs[1..];
      DedupComplete(tail, seen');
      forall k | 0 <= k < |rs| && |rs[k].text| > 2 && rs[k].text !in seen && FirstOfText(rs, k)
        ensures rs[k] in DedupFrom(rs, seen)
      {
        if k > 0 {
          assert rs[k] == tail[k - 1];
          assert rs[0].text != rs[k].text;
          forall j | 0 <= j < k - 1 ensures tail[j].text != tail[k - 1].text {
            assert tail[j] == rs[j + 1];
          }
          assert FirstOfText(tail, k - 1);
          assert rs[k] in DedupFrom(tail, seen');
        }
      }
    }
  }

  /** No kept record carries a text seen before the deduplication starts. */
  lemma {:induction false} DedupUnseen(rs: seq<StringRecord>, seen: set<string>)
    ensures forall r :: r in DedupFrom(rs, seen) ==> r.text !in seen
  {
    if rs != [] {
      var keep := rs[0].text !in seen && |rs[0].text| > 2;
      DedupUnseen(rs[1..], if keep then seen + {rs[0].text} else seen);
    }
  }

  lemma DistinctCons(out: seq<StringRecord>, h: StringRecord, rest: seq<StringRecord>)
    requires out == [h] + rest
    requires DistinctTexts(rest)
    requires forall r :: r in rest ==> r.text != h.text
    ensures DistinctTexts(out)
  {
    forall a, b | 0 <= a < b < |out| ensures out[a].text != out[b].text {
      assert out[b] == rest[b - 1] && out[b] in rest;
      if a > 0 { assert out[a] == rest[a - 1]; }
    }
  }

  /** No two kept records share a text. */
  lemma {:induction false} DedupDistinct(rs: seq<StringRecord>, seen: set<string>)
    ensures DistinctTexts(DedupFrom(rs, seen))
  {
    if rs != [] {
      var h := rs[0];
      if h.text !in seen && |h.text| > 2 {
        var seen' := seen + {h.text};
        var rest := DedupFrom(rs[1..], seen');
        DedupDistinct(rs[1..], seen');
        DedupUnseen(rs[1..], seen');
        DistinctCons(DedupFrom(rs, seen), h, rest);
      } else {
        DedupDistinct(rs[1..], seen);
      }
    }
  }

  /** The deduplication loop, with the texts seen so far in a set. */
  method Dedup(rs: seq<StringRecord>) returns (unique: seq<StringRecord>)
    ensures unique == DedupFrom(rs, {})
  {
    unique := [];
    var seen: set<string> := {};
    for i := 0 to |rs|
      invariant unique + DedupFrom(rs[i..], seen) == DedupFrom(rs, {})
    {
      assert rs[i..][1..] == rs[i + 1..];
      if rs[i].text !in seen && |rs[i].text| > 2 {
        unique := unique + [rs[i]];
        seen := seen + {rs[i].text};
      }
    }
  }

  /** All three passes, before deduplication. */
  function AllPasses(c: seq<Byte>): seq<StringRecord>
  {
    Walk(c, 4, LittleEndianPayload, StepOneByte) + UnalignedFrom(c, 0, FirstPrintableDecode)
      + RunRecords(TextRuns(c, SpansFrom(c, 0, 4, PrintableAscii)))
  }

  /** `_parse_utf16_strings`: the aligned walk, the unaligned pass and the
      ASCII pass, deduplicated by text. No two results share a text, every
      text is longer than two characters, and each result is the first
      record with its text among all passes' records. */
  method ParseUtf16Strings(c: seq<Byte>) returns (strings: seq<StringRecord>)
    ensures strings == DedupFrom(AllPasses(c), {})
    ensures DistinctTexts(strings)
    ensures forall r :: r in strings ==>
      |r.text| > 2 && exists k :: 0 <= k < |AllPasses(c)| && AllPasses(c)[k] == r && FirstOfText(AllPasses(c), k)
    ensures forall k :: 0 <= k < |AllPasses(c)| && |AllPasses(c)[k].text| > 2 && FirstOfText(AllPasses(c), k) ==>
      AllPasses(c)[k] in strings
  {
    var aligned := WalkRecords(c, LittleEndianPayload, StepOneByte);
    var unaligned := UnalignedPass(c);
    var ascii := AsciiPass(c);
    strings := Dedup(aligned + unaligned + ascii);
    DedupSound(AllPasses(c), {});
    DedupComplete(AllPasses(c), {});
    DedupDistinct(AllPasses(c), {});
  }
}
