/** The string extractor (`tools/extract_efk_strings.py`): a record walk
    that tries UTF-16LE and then UTF-16BE, and skips the whole record
    whether or not either decode succeeds. */
module ExtractEfkStrings {
  import opened Common
  import opened Extensions
  import opened RecordWalk

  /** `extract_utf16_strings`. */
  method ExtractUtf16Strings(c: seq<Byte>) returns (strings: seq<StringRecord>)
    ensures strings == Walk(c, 4, EitherEndianPayload, SkipRecord)
    ensures forall r :: r in strings ==> 4 <= r.position && ValidRecord(c, r, EitherEndianPayload)
    ensures Ascending(strings)
  {
    strings := WalkRecords(c, EitherEndianPayload, SkipRecord);
  }

  /** `analyze_efk_file`: the extracted strings split into file paths and the rest. */
  method AnalyzeEfkFile(c: seq<Byte>) returns (filePaths: seq<StringRecord>, otherStrings: seq<StringRecord>, strings: seq<StringRecord>)
    ensures strings == Walk(c, 4, EitherEndianPayload, SkipRecord)
    ensures filePaths == FilterRecords(strings, ReferenceExtensions, true)
    ensures otherStrings == FilterRecords(strings, ReferenceExtensions, false)
    ensures multiset(filePaths) + multiset(otherStrings) == multiset(strings)
    ensures forall r :: r in filePaths ==> MentionsAny(r.text, ReferenceExtensions)
    ensures forall r :: r in otherStrings ==> !MentionsAny(r.text, ReferenceExtensions)
  {
    strings := ExtractUtf16Strings(c);
    filePaths, otherStrings := Partition(strings, ReferenceExtensions);
  }

  /** With whole records skipped, the cursor visits the same offsets
      whichever decoder is used, so the big-endian fallback only adds
      strings: every record the little-endian walk finds, this one finds too. */
  lemma {:induction false} FallbackKeepsLittleEndian(c: seq<Byte>, pos: nat, r: StringRecord)
    requires r in Walk(c, pos, LittleEndianPayload, SkipRecord)
    ensures r in Walk(c, pos, EitherEndianPayload, SkipRecord)
    decreases |c| - pos
  {
    if pos < |c| {
      if Plausible(c, pos, 1000) {
        var n := U32LE(c, pos);
        var p := Payload(c, pos, 1000);
        match LittleEndianPayload(p)
        case Some(s) =>
          assert EitherEndianPayload(p) == Some(s);
          if r != StringRecord(pos, n, s) {
            FallbackKeepsLittleEndian(c, pos + 4 + 2 * n, r);
          }
        case None =>
          FallbackKeepsLittleEndian(c, pos + 4 + 2 * n, r);
          match EitherEndianPayload(p)
          case Some(s) =>
            assert Walk(c, pos, EitherEndianPayload, SkipRecord)
              == [StringRecord(pos, n, s)] + Walk(c, pos + 4 + 2 * n, EitherEndianPayload, SkipRecord);
          case None =>
      } else {
        FallbackKeepsLittleEndian(c, pos + 1, r);
      }
    }
  }
}
