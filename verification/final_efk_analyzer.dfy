/** The final EFK analyzer (`tools/final_efk_analyzer.py`): the
    little-endian record walk that steps one byte past a failed decode,
    and the split of its strings into file paths and the rest. Its
    `parse_efk_strings_correctly` repeats the loop of
    `CorrectEfkParser.ParseEfkStrings`, so it is `RecordWalk.WalkRecords`
    with the same decoder and the same step. */
module FinalEfkAnalyzer {
  import opened Common
  import opened Extensions
  import opened RecordWalk

  /** `analyze_efk_file_final`: every string lands in exactly one of the
      two lists, in the order the walk found it. */
  method AnalyzeEfkFileFinal(c: seq<Byte>) returns (filePaths: seq<StringRecord>, otherStrings: seq<StringRecord>, allStrings: seq<StringRecord>)
    ensures allStrings == Walk(c, 4, LittleEndianPayload, StepOneByte)
    ensures filePaths == FilterRecords(allStrings, ReferenceExtensions, true)
    ensures otherStrings == FilterRecords(allStrings, ReferenceExtensions, false)
    ensures multiset(filePaths) + multiset(otherStrings) == multiset(allStrings)
    ensures forall r :: r in filePaths ==> MentionsAny(r.text, ReferenceExtensions)
    ensures forall r :: r in otherStrings ==> !MentionsAny(r.text, ReferenceExtensions)
  {
    allStrings := WalkRecords(c, LittleEndianPayload, StepOneByte);
    filePaths, otherStrings := Partition(allStrings, ReferenceExtensions);
  }
}
