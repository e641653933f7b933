/** The deep EFK analyzer (`tools/deep_efk_analyzer.py`): the header check,
    the section walk, the printable-ASCII string table and the file
    references found in it, each filling one part of the analysis result. */
module DeepEfk {
  import opened Common
  import opened Codecs
  import opened ByteRuns
  import opened PathTokens
  import opened PreciseEfkParser

  // ---------------------------------------------------------------- header

  datatype Header = Header(headerHex: string, headerAscii: string, headerSize: nat, isEfk: bool)

  function HexDigit(d: nat): char
    requires d < 16
  {
    if d < 10 then ('0' as int + d) as char else ('a' as int + d - 10) as char
  }

  /** `binascii.hexlify(b).decode('ascii')`: two lower-case hex digits per byte. */
  function Hex(b: seq<Byte>): (r: string)
    ensures |r| == 2 * |b|
  {
    if b == [] then [] else [HexDigit(b[0] / 16), HexDigit(b[0] % 16)] + Hex(b[1..])
  }

  /** `_analyze_header`: nothing for a buffer shorter than four bytes;
      otherwise the first four bytes, read as ASCII with undecodable bytes
      dropped, and whether they spell `EFKS`. */
  function HeaderOf(c: seq<Byte>): Option<Header>
  {
    if |c| < 4 then None
    else
      var ascii := DecodeAsciiIgnore(c[..4]);
      Some(Header(Hex(c[..4]), ascii, 4, ascii == "EFKS"))
  }

  /** A buffer is recognised as an EFK file exactly when its first four
      bytes are `E`, `F`, `K`, `S`. */
  lemma HeaderIsEfk(c: seq<Byte>)
    ensures HeaderOf(c).None? <==> |c| < 4
    ensures |c| >= 4 ==> (HeaderOf(c).value.isEfk <==> c[..4] == [69, 70, 75, 83])
  {
    if |c| >= 4 {
      var h := c[..4];
      if DecodeAsciiIgnore(h) == "EFKS" {
        assert DecodeAscii(h).Some?;
        AsciiIgnoreAgrees(h);
        assert forall i :: 0 <= i < 4 ==> h[i] == "EFKS"[i] as int;
      }
      if h == [69, 70, 75, 83] {
        assert DecodeAscii(h).Some?;
        AsciiIgnoreAgrees(h);
        assert AsciiChars(h) == "EFKS";
      }
    }
  }

  // -------------------------------------------------------------- sections

  datatype Section = Section(startPos: nat, endPos: nat, length: nat, data: seq<Byte>)

  function Min(a: int, b: int): int { if a < b then a else b }

  /** The first zero byte in `[from, limit)`. */
  function FirstNul(c: seq<Byte>, from: nat, limit: nat): (r: Option<nat>)
    requires limit <= |c|
    ensures r.Some? ==> from <= r.value < limit && c[r.value] == 0
    decreases limit - from
  {
    if from >= limit then None else if c[from] == 0 then Some(from) else FirstNul(c, from + 1, limit)
  }

  lemma {:induction false} FirstNulFirst(c: seq<Byte>, from: nat, limit: nat)
    requires limit <= |c|
    ensures FirstNul(c, from, limit).Some? ==> (forall k :: from <= k < FirstNul(c, from, limit).value ==> c[k] != 0)
    ensures FirstNul(c, from, limit).None? ==> (forall k :: from <= k < limit ==> c[k] != 0)
    decreases limit - from
  {
    if from < limit && c[from] != 0 {
      FirstNulFirst(c, from + 1, limit);
    }
  }

  /** A little-endian length `0 < L < 1000000` whose section fits. */
  predicate LengthPrefixed(c: seq<Byte>, start: nat)
  {
    start + 4 <= |c| && 0 < U32LE(c, start) < 1000000 && start + 4 + U32LE(c, start) <= |c|
  }

  /** `_analyze_section_at`: a length-prefixed section, or else the bytes up
      to the first zero byte among the next 99. */
  function SectionAt(c: seq<Byte>, start: nat): (r: Option<Section>)
    ensures r.Some? ==> r.value.startPos == start < r.value.endPos <= |c|
  {
    if start >= |c| then None
    else if LengthPrefixed(c, start) then
      var n := U32LE(c, start);
      Some(Section(start, start + 4 + n, n, c[start + 4..start + 4 + n]))
    else
      match FirstNul(c, start + 1, Min(start + 100, |c|))
      case Some(i) => Some(Section(start, i, i - start, c[start..i]))
      case None => None
  }

  /** The length-prefixed branch: accepted exactly when the length is in
      range and fits, and the section then spans `4 + L` bytes. */
  lemma SectionAtPrefixed(c: seq<Byte>, start: nat)
    requires start < |c| && LengthPrefixed(c, start)
    ensures SectionAt(c, start).Some?
    ensures SectionAt(c, start).value.endPos == start + 4 + U32LE(c, start)
    ensures SectionAt(c, start).value.data == c[start + 4..start + 4 + U32LE(c, start)]
  {
  }

  /** The fallback branch: the section ends at the first zero byte after
      `start` and less than 100 bytes on, and there is none when no such
      byte exists. */
  lemma SectionAtFallback(c: seq<Byte>, start: nat)
    requires start < |c| && !LengthPrefixed(c, start)
    ensures SectionAt(c, start).Some? ==>
      var s := SectionAt(c, start).value;
      s.endPos < start + 100 && c[s.endPos] == 0 && s.data == c[start..s.endPos] && s.length == |s.data|
      && (forall k :: start < k < s.endPos ==> c[k] != 0)
    ensures SectionAt(c, start).None? <==> (forall k :: start < k < Min(start + 100, |c|) ==> c[k] != 0)
  {
    FirstNulFirst(c, start + 1, Min(start + 100, |c|));
  }

  /** The section probe, with its search loop for a zero byte. */
  method AnalyzeSectionAt(c: seq<Byte>, start: nat) returns (section: Option<Section>)
    ensures section == SectionAt(c, start)
  {
    if start >= |c| {
      return None;
    }
    if start + 4 <= |c| {
      var n := U32LE(c, start);
      if 0 < n < 1000000 && start + 4 + n <= |c| {
        return Some(Section(start, start + 4 + n, n, c[start + 4..start + 4 + n]));
      }
    }
    var limit := Min(start + 100, |c|);
    for i := start + 1 to limit
      invariant FirstNul(c, i, limit) == FirstNul(c, start + 1, limit)
    {
      if c[i] == 0 {
        return Some(Section(start, i, i - start, c[start..i]));
      }
    }
    return None;
  }

  /** `_analyze_structure`'s walk from cursor `pos`. */
  function Sections(c: seq<Byte>, pos: nat): seq<Section>
    decreases |c| - pos
  {
    if pos >= |c| then []
    else match SectionAt(c, pos)
      case Some(s) => [s] + Sections(c, s.endPos)
      case None => Sections(c, pos + 1)
  }

  /** Every section lies at or after `from`. */
  predicate StartsFrom(ss: seq<Section>, from: nat)
  {
    forall s :: s in ss ==> from <= s.startPos
  }

  /** Every section is what the probe finds at its start. */
  ghost predicate Probed(c: seq<Byte>, ss: seq<Section>)
  {
    forall s :: s in ss ==> SectionAt(c, s.startPos) == Some(s)
  }

  /** Sections in ascending order with no two overlapping. */
  predicate Disjoint(ss: seq<Section>)
  {
    forall i, j :: 0 <= i < j < |ss| ==> ss[i].endPos <= ss[j].startPos
  }

  lemma SectionsHit(c: seq<Byte>, pos: nat, s: Section)
    requires pos < |c| && SectionAt(c, pos) == Some(s)
    ensures Sections(c, pos) == [s] + Sections(c, s.endPos)
  {
  }

  lemma SectionsMiss(c: seq<Byte>, pos: nat)
    requires pos < |c| && SectionAt(c, pos).None?
    ensures Sections(c, pos) == Sections(c, pos + 1)
  {
  }

  lemma DisjointCons(ws: seq<Section>, s: Section, ts: seq<Section>, from: nat)
    requires ws == [s] + ts
    requires from <= s.startPos <= s.endPos
    requires StartsFrom(ts, s.endPos) && Disjoint(ts)
    ensures StartsFrom(ws, from) && Disjoint(ws)
  {
    forall i, j | 0 <= i < j < |ws| ensures ws[i].endPos <= ws[j].startPos {
      assert ws[j] == ts[j - 1] && ws[j] in ts;
      if i > 0 { assert ws[i] == ts[i - 1]; }
    }
  }

  lemma ProbedCons(c: seq<Byte>, ws: seq<Section>, s: Section, ts: seq<Section>)
    requires ws == [s] + ts
    requires SectionAt(c, s.startPos) == Some(s)
    requires Probed(c, ts)
    ensures Probed(c, ws)
  {
  }

  /** The walk's sections lie at or after `pos`, ascending and disjoint. */
  lemma {:induction false} SectionsDisjoint(c: seq<Byte>, pos: nat)
    ensures StartsFrom(Sections(c, pos), pos) && Disjoint(Sections(c, pos))
    decreases |c| - pos
  {
    if pos >= |c| {
      assert Sections(c, pos) == [];
    } else {
      match SectionAt(c, pos)
      case Some(s) =>
        SectionsDisjoint(c, s.endPos);
        SectionsHit(c, pos, s);
        DisjointCons(Sections(c, pos), s, Sections(c, s.endPos), pos);
      case None =>
        SectionsDisjoint(c, pos + 1);
        SectionsMiss(c, pos);
    }
  }

  /** Each section of the walk is what the probe finds at its start. */
  lemma {:induction false} SectionsProbed(c: seq<Byte>, pos: nat)
    ensures Probed(c, Sections(c, pos))
    decreases |c| - pos
  {
    if pos >= |c| {
      assert Sections(c, pos) == [];
    } else {
      match SectionAt(c, pos)
      case Some(s) =>
        SectionsProbed(c, s.endPos);
        SectionsHit(c, pos, s);
        ProbedCons(c, Sections(c, pos), s, Sections(c, s.endPos));
      case None =>
        SectionsProbed(c, pos + 1);
        SectionsMiss(c, pos);
    }
  }

  /** The section loop: starts after the header and jumps to the end of
      each section found. */
  method AnalyzeStructure(c: seq<Byte>) returns (sections: seq<Section>)
    ensures sections == Sections(c, 4)
    ensures StartsFrom(sections, 4) && Disjoint(sections) && Probed(c, sections)
  {
    sections := [];
    var pos := 4;
    while pos < |c|
      invariant sections + Sections(c, pos) == Sections(c, 4)
      decreases |c| - pos
    {
      var info := AnalyzeSectionAt(c, pos);
      if info.Some? {
        SectionsHit(c, pos, info.value);
        ConcatAssoc(sections, [info.value], Sections(c, info.value.endPos));
        sections := sections + [info.value];
        pos := info.value.endPos;
      } else {
        SectionsMiss(c, pos);
        pos := pos + 1;
      }
    }
    SectionsDisjoint(c, 4);
    SectionsProbed(c, 4);
  }

  // ---------------------------------------------------------- string table

  /** `_extract_string_table`: the maximal runs of at least three printable
      ASCII bytes, each at its start offset. */
  method ExtractStringTable(c: seq<Byte>) returns (strings: seq<TextRun>)
    ensures strings == TextRuns(c, SpansFrom(c, 0, 3, PrintableAscii))
    ensures forall k :: 0 <= k < |strings| ==>
      var sp := SpansFrom(c, 0, 3, PrintableAscii)[k];
      MaximalRun(c, sp.start, sp.end, PrintableAscii) && sp.end - sp.start >= 3
      && strings[k] == TextRun(sp.start, Latin1Chars(c[sp.start..sp.end]))
  {
    strings := PrintableRuns(c, 3);
    SpansMaximal(c, 0, 3, PrintableAscii);
    ghost var spans := SpansFrom(c, 0, 3, PrintableAscii);
    forall k | 0 <= k < |strings|
      ensures strings[k] == TextRun(spans[k].start, Latin1Chars(c[spans[k].start..spans[k].end]))
    {
      TextRunsAt(c, spans, k);
      assert spans[k] in spans;
    }
  }

  // ------------------------------------------------------------ references

  /** The fourteen extensions `_analyze_references` looks for, in order. */
  const DeepExtensions: seq<string> :=
    [".efk", ".efkmat", ".efkmodel", ".png", ".jpg", ".jpeg", ".tga", ".dds", ".bmp",
     ".tiff", ".tif", ".webp", ".ktx", ".pvr"]

  /** `_extract_file_path`: the token around the first occurrence of `ext`,
      kept only when it still ends with `ext`. */
  function FilePathIn(content: string, ext: string): Option<string>
  {
    match FindFrom(content, ext, 0)
    case None => None
    case Some(p) =>
      var t := Window(content, p, ext);
      if |t| >= |ext| && EndsWith(t, ext) then Some(t) else None
  }

  method ExtractFilePath(content: string, ext: string) returns (path: Option<string>)
    ensures path == FilePathIn(content, ext)
  {
    var found := FindFrom(content, ext, 0);
    if found.None? {
      return None;
    }
    var filePath := TokenAt(content, found.value, ext);
    if |filePath| >= |ext| && EndsWith(filePath, ext) {
      return Some(filePath);
    }
    return None;
  }

  /** A path is found only for an extension the content contains, which
      is why the `ext in content` test before the search changes nothing. */
  lemma FilePathInPresent(content: string, ext: string)
    ensures FilePathIn(content, ext).Some? ==> Contains(content, ext)
  {
    if FindFrom(content, ext, 0).Some? {
      var p := FindFrom(content, ext, 0).value;
      assert OccursAt(content, ext, p);
    }
  }

  /** A found path is the token around the first occurrence, ends with the
      extension and has no separator when the extension has none. */
  lemma FilePathInShape(content: string, ext: string, t: string)
    requires FilePathIn(content, ext) == Some(t)
    ensures EndsWith(t, ext)
    ensures exists p: nat ::
      OccursAt(content, ext, p) && t == Window(content, p, ext) && (forall q: nat :: q < p ==> !OccursAt(content, ext, q))
    ensures NoSeparator(ext) ==> NoSeparator(t)
  {
    var p := FindFrom(content, ext, 0).value;
    FindFromFirst(content, ext, 0);
    if NoSeparator(ext) {
      WindowFacts(content, p, ext);
    }
  }

  /** When the first occurrence is not followed by a token character the
      path is found. */
  lemma FilePathInTight(content: string, ext: string, p: nat)
    requires FindFrom(content, ext, 0) == Some(p)
    requires p + |ext| == |content| || !NameChar(content[p + |ext|], false)
    ensures FilePathIn(content, ext) == Some(Window(content, p, ext))
  {
    var l := LeftEdge(content, p, false);
    var t := Window(content, p, ext);
    assert RightEdge(content, p + |ext|, false) == p + |ext|;
    assert t == content[l..p + |ext|];
    OccursAtSlice(content, ext, p);
    assert t[|t| - |ext|..] == content[p..p + |ext|];
  }

  datatype Reference = Reference(path: string, sourceString: string, position: nat, extension: string)

  /** The reference a string yields: from the first extension, in list
      order, for which a path is found in the lower-cased text. */
  function FirstReference(run: TextRun, exts: seq<string>, k: nat): Option<Reference>
    decreases |exts| - k
  {
    if k >= |exts| then None
    else match FilePathIn(Lower(run.text), exts[k])
      case Some(p) => Some(Reference(p, run.text, run.position, exts[k]))
      case None => FirstReference(run, exts, k + 1)
  }

  /** A string's reference comes from the first extension, in list order,
      that yields a path. */
  lemma {:induction false} FirstReferenceAt(run: TextRun, exts: seq<string>, k: nat, j: nat)
    requires k <= j < |exts| && FilePathIn(Lower(run.text), exts[j]).Some?
    requires forall i :: k <= i < j ==> FilePathIn(Lower(run.text), exts[i]).None?
    ensures FirstReference(run, exts, k)
      == Some(Reference(FilePathIn(Lower(run.text), exts[j]).value, run.text, run.position, exts[j]))
    decreases j - k
  {
    if k < j {
      FirstReferenceAt(run, exts, k + 1, j);
    }
  }

  /** A string yields no reference when no extension yields a path. */
  lemma {:induction false} FirstReferenceNone(run: TextRun, exts: seq<string>, k: nat)
    requires forall i :: k <= i < |exts| ==> FilePathIn(Lower(run.text), exts[i]).None?
    ensures FirstReference(run, exts, k).None?
    decreases |exts| - k
  {
    if k < |exts| {
      FirstReferenceNone(run, exts, k + 1);
    }
  }

  function AsList(r: Option<Reference>): seq<Reference>
  {
    if r.Some? then [r.value] else []
  }

  /** At most one reference per string, in string order. */
  function ReferencesOf(runs: seq<TextRun>, exts: seq<string>): (refs: seq<Reference>)
    ensures |refs| <= |runs|
  {
    if runs == [] then [] else AsList(FirstReference(runs[0], exts, 0)) + ReferencesOf(runs[1..], exts)
  }

  /** The dictionary keyed by path: the first reference to each path, in
      the order first seen. */
  function DedupPaths(refs: seq<Reference>, seen: set<string>): seq<Reference>
  {
    if refs == [] then []
    else if refs[0].path in seen then DedupPaths(refs[1..], seen)
    else [refs[0]] + DedupPaths(refs[1..], seen + {refs[0].path})
  }

  predicate FirstOfPath(refs: seq<Reference>, k: nat)
    requires k < |refs|
  {
    forall j :: 0 <= j < k ==> refs[j].path != refs[k].path
  }

  predicate DistinctPaths(refs: seq<Reference>)
  {
    forall a, b :: 0 <= a < b < |refs| ==> refs[a].path != refs[b].path
  }

  /** Every kept reference is the first one to its path, and its path was
      not seen before. */
  lemma {:induction false} DedupPathsSound(refs: seq<Reference>, seen: set<string>)
    ensures forall r :: r in DedupPaths(refs, seen) ==>
      r.path !in seen && exists k :: 0 <= k < |refs| && refs[k] == r && FirstOfPath(refs, k)
  {
    if refs != [] {
      var keep := refs[0].path !in seen;
      var seen' := if keep then seen + {refs[0].path} else seen;
      var tail := refs[1..];
      DedupPathsSound(tail, seen');
      forall r | r in DedupPaths(refs, seen)
        ensures r.path !in seen && exists k :: 0 <= k < |refs| && refs[k] == r && FirstOfPath(refs, k)
      {
        if keep && r == refs[0] {
          assert FirstOfPath(refs, 0);
        } else {
          assert r in DedupPaths(tail, seen');
          var k' :| 0 <= k' < |tail| && tail[k'] == r && FirstOfPath(tail, k');
          assert refs[k' + 1] == r;
          forall j | 0 <= j < k' + 1 ensures refs[j].path != r.path {
            if j > 0 { assert refs[j] == tail[j - 1]; }
          }
          assert FirstOfPath(refs, k' + 1);
        }
      }
    }
  }

  /** The first reference to every unseen path is kept. */
  lemma {:induction false} DedupPathsComplete(refs: seq<Reference>, seen: set<string>)
    ensures forall k :: 0 <= k < |refs| && refs[k].path !in seen && FirstOfPath(refs, k) ==>
      refs[k] in DedupPaths(refs, seen)
  {
    if refs != [] {
      var keep := refs[0].path !in seen;
      var seen' := if keep then seen + {refs[0].path} else seen;
      var tail := refs[1..];
      DedupPathsComplete(tail, seen');
      forall k | 0 <= k < |refs| && refs[k].path !in seen && FirstOfPath(refs, k)
        ensures refs[k] in DedupPaths(refs, seen)
      {
        if k > 0 {
          assert refs[k] == tail[k - 1];
          assert refs[0].path != refs[k].path;
          forall j | 0 <= j < k - 1 ensures tail[j].path != tail[k - 1].path {
            assert tail[j] == refs[j + 1];
          }
          assert FirstOfPath(tail, k - 1);
          assert refs[k] in DedupPaths(tail, seen');
        }
      }
    }
  }

  lemma {:induction false} DedupPathsUnseen(refs: seq<Reference>, seen: set<string>)
    ensures forall r :: r in DedupPaths(refs, seen) ==> r.path !in seen
  {
    if refs != [] {
      DedupPathsUnseen(refs[1..], if refs[0].path in seen then seen else seen + {refs[0].path});
    }
  }

  /** No two kept references share a path. */
  lemma {:induction false} DedupPathsDistinct(refs: seq<Reference>, seen: set<string>)
    ensures DistinctPaths(DedupPaths(refs, seen))
  {
    if refs != [] {
      var h := refs[0];
      if h.path !in seen {
        var seen' := seen + {h.path};
        var rest := DedupPaths(refs[1..], seen');
        DedupPathsDistinct(refs[1..], seen');
        DedupPathsUnseen(refs[1..], seen');
        var out := DedupPaths(refs, seen);
        assert out == [h] + rest;
        forall a, b | 0 <= a < b < |out| ensures out[a].path != out[b].path {
          assert out[b] == rest[b - 1] && out[b] in rest;
          if a > 0 { assert out[a] == rest[a - 1]; }
        }
      } else {
        DedupPathsDistinct(refs[1..], seen);
      }
    }
  }

  /** The per-string loop over the extensions, stopping at the first path found. */
  method ReferenceOf(run: TextRun, exts: seq<string>) returns (ref: Option<Reference>)
    ensures ref == FirstReference(run, exts, 0)
  {
    var content := Lower(run.text);
    for k := 0 to |exts|
      invariant FirstReference(run, exts, k) == FirstReference(run, exts, 0)
    {
      var ext := exts[k];
      if Contains(content, ext) {
        var filePath := ExtractFilePath(content, ext);
        if filePath.Some? {
          return Some(Reference(filePath.value, run.text, run.position, ext));
        }
      } else {
        FilePathInPresent(content, ext);
      }
    }
    return None;
  }

  lemma ReferencesStep(runs: seq<TextRun>, exts: seq<string>, i: nat, ref: Option<Reference>)
    requires i < |runs| && ref == FirstReference(runs[i], exts, 0)
    ensures ReferencesOf(runs[i..], exts) == AsList(ref) + ReferencesOf(runs[i + 1..], exts)
  {
    assert runs[i..][1..] == runs[i + 1..];
  }

  /** The loop over the string table, one reference at most per string. */
  method CollectReferences(runs: seq<TextRun>, exts: seq<string>) returns (refs: seq<Reference>)
    ensures refs == ReferencesOf(runs, exts)
  {
    refs := [];
    for i := 0 to |runs|
      invariant refs + ReferencesOf(runs[i..], exts) == ReferencesOf(runs, exts)
    {
      var ref := ReferenceOf(runs[i], exts);
      ReferencesStep(runs, exts, i, ref);
      ConcatAssoc(refs, AsList(ref), ReferencesOf(runs[i + 1..], exts));
      refs := refs + AsList(ref);
    }
    assert runs[|runs|..] == [];
  }

  /** The dictionary loop: a reference is kept when its path is new. */
  method UniqueByPath(refs: seq<Reference>) returns (unique: seq<Reference>)
    ensures unique == DedupPaths(refs, {})
  {
    unique := [];
    var seen: set<string> := {};
    for i := 0 to |refs|
      invariant unique + DedupPaths(refs[i..], seen) == DedupPaths(refs, {})
    {
      assert refs[i..][1..] == refs[i + 1..];
      if refs[i].path !in seen {
        unique := unique + [refs[i]];
        seen := seen + {refs[i].path};
      }
    }
  }

  /** `_analyze_references` over any extension list. */
  method FindReferences(runs: seq<TextRun>, exts: seq<string>) returns (referencedFiles: seq<Reference>)
    ensures referencedFiles == DedupPaths(ReferencesOf(runs, exts), {})
  {
    var refs := CollectReferences(runs, exts);
    referencedFiles := UniqueByPath(refs);
  }

  // -------------------------------------------------------------- analyzer

  /** The analyzer and its result, filled in one part per step. */
  class DeepEfkAnalyzer {
    var fileContent: seq<Byte>
    var headerAnalysis: Option<Header>
    var sections: seq<Section>
    var strings: seq<TextRun>
    var referencedFiles: seq<Reference>

    /** The file's bytes stand for `_read_file_content`. */
    constructor (content: seq<Byte>)
      ensures fileContent == content && headerAnalysis.None?
      ensures sections == [] && strings == [] && referencedFiles == []
    {
      fileContent := content;
      headerAnalysis := None;
      sections := [];
      strings := [];
      referencedFiles := [];
    }

    method AnalyzeHeader()
      modifies this
      ensures headerAnalysis == (if |fileContent| < 4 then old(headerAnalysis) else HeaderOf(fileContent))
      ensures fileContent == old(fileContent) && sections == old(sections)
      ensures strings == old(strings) && referencedFiles == old(referencedFiles)
    {
      if |fileContent| >= 4 {
        headerAnalysis := HeaderOf(fileContent);
      }
    }

    method AnalyzeStructureStep()
      modifies this
      ensures sections == Sections(fileContent, 4)
      ensures fileContent == old(fileContent) && headerAnalysis == old(headerAnalysis)
      ensures strings == old(strings) && referencedFiles == old(referencedFiles)
    {
      sections := AnalyzeStructure(fileContent);
    }

    method ExtractStringTableStep()
      modifies this
      ensures strings == TextRuns(fileContent, SpansFrom(fileContent, 0, 3, PrintableAscii))
      ensures fileContent == old(fileContent) && headerAnalysis == old(headerAnalysis)
      ensures sections == old(sections) && referencedFiles == old(referencedFiles)
    {
      strings := ExtractStringTable(fileContent);
    }

    /** `_analyze_references` reads the string table the previous step stored. */
    method AnalyzeReferences()
      modifies this
      ensures referencedFiles == DedupPaths(ReferencesOf(strings, DeepExtensions), {})
      ensures fileContent == old(fileContent) && headerAnalysis == old(headerAnalysis)
      ensures sections == old(sections) && strings == old(strings)
    {
      referencedFiles := FindReferences(strings, DeepExtensions);
    }

    /** `analyze`: header, structure, string table, references, in that order. */
    method Analyze()
      modifies this
      ensures fileContent == old(fileContent)
      ensures headerAnalysis == (if |fileContent| < 4 then old(headerAnalysis) else HeaderOf(fileContent))
      ensures sections == Sections(fileContent, 4)
      ensures strings == TextRuns(fileContent, SpansFrom(fileContent, 0, 3, PrintableAscii))
      ensures referencedFiles == DedupPaths(ReferencesOf(strings, DeepExtensions), {})
    {
      AnalyzeHeader();
      AnalyzeStructureStep();
      ExtractStringTableStep();
      AnalyzeReferences();
    }
  }
}
