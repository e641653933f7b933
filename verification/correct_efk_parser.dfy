/** The "correct" EFK parser (`tools/correct_efk_parser.py`): two record
    walks over the same bytes that differ only in what they do after a
    payload that is not valid UTF-16LE. */
module CorrectEfkParser {
  import opened Common
  import opened Extensions
  import opened RecordWalk

  /** `parse_efk_strings`: a failed decode moves the cursor one byte on. */
  method ParseEfkStrings(c: seq<Byte>) returns (strings: seq<StringRecord>)
    ensures strings == Walk(c, 4, LittleEndianPayload, StepOneByte)
    ensures forall r :: r in strings ==> 4 <= r.position && ValidRecord(c, r, LittleEndianPayload)
    ensures Ascending(strings)
  {
    strings := WalkRecords(c, LittleEndianPayload, StepOneByte);
  }

  /** `analyze_efk_structure`: a failed decode still skips the whole
      record, and the sections are then split by whether their text
      mentions a reference extension. */
  method AnalyzeEfkStructure(c: seq<Byte>) returns (sections: seq<StringRecord>, filePaths: seq<StringRecord>, otherStrings: seq<StringRecord>)
    ensures sections == Walk(c, 4, LittleEndianPayload, SkipRecord)
    ensures forall r :: r in sections ==> 4 <= r.position && ValidRecord(c, r, LittleEndianPayload)
    ensures Ascending(sections)
    ensures filePaths == FilterRecords(sections, ReferenceExtensions, true)
    ensures otherStrings == FilterRecords(sections, ReferenceExtensions, false)
    ensures multiset(filePaths) + multiset(otherStrings) == multiset(sections)
  {
    sections := WalkRecords(c, LittleEndianPayload, SkipRecord);
    filePaths, otherStrings := Partition(sections, ReferenceExtensions);
  }
}
