/** The analyzer object of the EFK analysis tool (tools/analyze_efk.py): it
    holds the content of one file and records the result of each pass. */
module AnalyzeEfk {
  import opened Common
  import opened Codecs
  import opened AnalyzeEfkBinary
  import opened AnalyzeEfkRefs

  /** One entry of `text_analysis`. */
  datatype TextEntry = TextEntry(encoding: string, content: string, length: nat, readableChars: nat)

  /** The number of printable characters of `s`. */
  function Readable(s: string): (n: nat)
    ensures n <= |s|
  {
    if s == [] then 0 else (if IsPrintable(s[0]) then 1 else 0) + Readable(s[1..])
  }

  /** The count is additive, so it counts each printable character of `s`
      once: it is the length exactly when every character is printable and
      zero exactly when none is. */
  lemma {:induction false} ReadableFacts(s: string, t: string)
    ensures Readable(s + t) == Readable(s) + Readable(t)
    ensures Readable(s) == |s| <==> forall i :: 0 <= i < |s| ==> IsPrintable(s[i])
    ensures Readable(s) == 0 <==> forall i :: 0 <= i < |s| ==> !IsPrintable(s[i])
  {
    if s != [] {
      ReadableFacts(s[1..], t);
      assert (s + t)[1..] == s[1..] + t;
      forall i | 1 <= i < |s| ensures s[i] == s[1..][i - 1] {
      }
      if forall i :: 1 <= i < |s| ==> IsPrintable(s[i]) {
        assert forall i :: 0 <= i < |s[1..]| ==> IsPrintable(s[1..][i]) by {
          forall i | 0 <= i < |s[1..]| ensures IsPrintable(s[1..][i]) {
            assert s[1..][i] == s[i + 1];
          }
        }
      }
      if forall i :: 1 <= i < |s| ==> !IsPrintable(s[i]) {
        assert forall i :: 0 <= i < |s[1..]| ==> !IsPrintable(s[1..][i]) by {
          forall i | 0 <= i < |s[1..]| ensures !IsPrintable(s[1..][i]) {
            assert s[1..][i] == s[i + 1];
          }
        }
      }
    } else {
      assert s + t == t;
    }
  }

  /** The path finder used for binary pattern hits, with the extension
      alternatives in the order the pattern of analyze_efk.py:354 writes
      them. */
  function ContentLocator(c: seq<Byte>): Locator
  {
    (p: nat) => PathAtPosition(c, p, PathAlternatives)
  }

  class EfkAnalyzer {
    var fileContent: seq<Byte>
    var textAnalysis: seq<TextEntry>
    var foundPaths: seq<TextPath>
    var mostCommonBytes: seq<(Byte, nat)>
    var signatures: seq<string>
    var patternHits: seq<PatternHit>
    var nullRuns: Option<seq<NullRun>>
    var referencedFiles: seq<FileRef>

    constructor(content: seq<Byte>)
      ensures fileContent == content
      ensures textAnalysis == [] && foundPaths == [] && mostCommonBytes == []
      ensures signatures == [] && patternHits == [] && nullRuns.None? && referencedFiles == []
    {
      fileContent := content;
      textAnalysis := [];
      foundPaths := [];
      mostCommonBytes := [];
      signatures := [];
      patternHits := [];
      nullRuns := None;
      referencedFiles := [];
    }

    /** `_analyze_text_content`: decoding with errors ignored cannot fail,
        so the first encoding, `utf-8`, is the only one recorded. `found` are
        the paths the regex passes find in that text. */
    method AnalyzeTextContent(found: seq<TextPath>)
      modifies this
      ensures |textAnalysis| == 1 && textAnalysis[0].encoding == "utf-8"
      ensures textAnalysis[0].content == DecodeUtf8Ignore(fileContent)
      ensures textAnalysis[0].length == |textAnalysis[0].content| <= |fileContent|
      ensures textAnalysis[0].readableChars == Readable(textAnalysis[0].content) <= textAnalysis[0].length
      ensures foundPaths == found
      ensures fileContent == old(fileContent) && mostCommonBytes == old(mostCommonBytes)
      ensures signatures == old(signatures) && patternHits == old(patternHits)
      ensures nullRuns == old(nullRuns) && referencedFiles == old(referencedFiles)
    {
      var encodings := ["utf-8", "utf-16", "utf-16le", "utf-16be", "latin-1", "cp1252"];
      textAnalysis := [];
      for i := 0 to |encodings|
        invariant textAnalysis == []
      {
        var textContent := DecodeUtf8Ignore(fileContent);
        textAnalysis := [TextEntry(encodings[i], textContent, |textContent|, Readable(textContent))];
        break;
      }
      foundPaths := found;
    }

    /** `_analyze_binary_content`, `_find_binary_patterns` and
        `_analyze_binary_structure`. */
    method AnalyzeBinaryContent()
      modifies this
      ensures mostCommonBytes == MostCommon(Histogram(FirstSeen(fileContent), multiset(fileContent)))
      ensures signatures == SignatureFlags(fileContent, FileSignatures)
      ensures patternHits == PatternHits(fileContent, TextPatterns)
      ensures nullRuns.None? <==> ZeroPositions(fileContent, 0) == []
      ensures nullRuns.Some? ==> Describes(nullRuns.value, ByteRuns.SpansFrom(fileContent, 0, 2, ByteRuns.Zero))
      ensures fileContent == old(fileContent) && textAnalysis == old(textAnalysis)
      ensures foundPaths == old(foundPaths) && referencedFiles == old(referencedFiles)
    {
      mostCommonBytes := MostCommonBytes(fileContent);
      signatures := CheckSignatures(fileContent, FileSignatures);
      patternHits := SearchPatterns(fileContent, TextPatterns);
      nullRuns := NullRuns(fileContent);
    }

    /** `_extract_referenced_files`. */
    method ExtractReferencedFiles()
      modifies this
      ensures referencedFiles == UniqueFiles(TextRefs(foundPaths) + BinaryRefs(patternHits, ContentLocator(fileContent)))
      ensures fileContent == old(fileContent) && textAnalysis == old(textAnalysis)
      ensures foundPaths == old(foundPaths) && mostCommonBytes == old(mostCommonBytes)
      ensures signatures == old(signatures) && patternHits == old(patternHits) && nullRuns == old(nullRuns)
    {
      referencedFiles := ReferencedFiles(foundPaths, patternHits, ContentLocator(fileContent));
    }

    /** `analyze`: the text pass, the binary passes, then the references. */
    method Analyze(found: seq<TextPath>)
      modifies this
      ensures fileContent == old(fileContent) && foundPaths == found
      ensures textAnalysis == [TextEntry("utf-8", DecodeUtf8Ignore(fileContent),
        |DecodeUtf8Ignore(fileContent)|, Readable(DecodeUtf8Ignore(fileContent)))]
      ensures mostCommonBytes == MostCommon(Histogram(FirstSeen(fileContent), multiset(fileContent)))
      ensures signatures == SignatureFlags(fileContent, FileSignatures)
      ensures patternHits == PatternHits(fileContent, TextPatterns)
      ensures nullRuns.None? <==> ZeroPositions(fileContent, 0) == []
      ensures nullRuns.Some? ==> Describes(nullRuns.value, ByteRuns.SpansFrom(fileContent, 0, 2, ByteRuns.Zero))
      ensures referencedFiles == UniqueFiles(TextRefs(found) + BinaryRefs(patternHits, ContentLocator(fileContent)))
    {
      AnalyzeTextContent(found);
      AnalyzeBinaryContent();
      ExtractReferencedFiles();
    }
  }
}
