/** The three content parsers of efk_scanner.py (`_parse_efk_content`,
    `_parse_efkmat_content`, `_parse_efkmodel_content`): the recovered
    strings that mention an extension contribute the paths extracted from
    them, the material and model parsers add their binary searches, and the
    collected paths are deduplicated with `list(set(...))`. */
module EfkContent {
  import opened Common
  import opened Extensions
  import opened RecordWalk
  import opened EfkStrings
  import opened PathTokens
  import opened EfkByteSearch
  import opened EfkModelRefs

  /** `list(set(xs))`: each element once. Python leaves the order to the
      set's hashing; the model keeps first occurrences in order. */
  function Distinct(xs: seq<string>): (r: seq<string>)
    ensures NoDuplicates(r) && forall x :: x in r <==> x in xs
  {
    AppendNewFacts([], xs);
    AppendNew([], xs)
  }

  /** What one recovered text contributes. */
  type TextPaths = string -> seq<string>

  /** The paths a text contributes when matched against `exts`. */
  function Mentioned(exts: seq<string>): (f: TextPaths)
    ensures forall s :: f(s) == MentionedPaths(s, exts)
  {
    (s: string) => MentionedPaths(s, exts)
  }

  /** What the strings `rs` contribute, in order. */
  function Gather(rs: seq<StringRecord>, f: TextPaths): seq<string>
  {
    if rs == [] then [] else Gather(rs[..|rs| - 1], f) + f(rs[|rs| - 1].text)
  }

  /** A path is gathered exactly when one of the strings contributes it. */
  lemma {:induction false} GatherIff(rs: seq<StringRecord>, f: TextPaths, t: string)
    ensures t in Gather(rs, f) <==> exists k :: 0 <= k < |rs| && t in f(rs[k].text)
  {
    if rs != [] {
      var n := |rs| - 1;
      GatherIff(rs[..n], f, t);
      if t in Gather(rs[..n], f) {
        var k :| 0 <= k < n && t in f(rs[..n][k].text);
        assert rs[..n][k] == rs[k];
      }
      if k :| 0 <= k < n && t in f(rs[k].text) {
        assert rs[..n][k] == rs[k];
      }
    }
  }

  /** The paths the strings `rs` contribute when matched against `exts`. */
  function StringRefs(rs: seq<StringRecord>, exts: seq<string>): seq<string>
  {
    Gather(rs, Mentioned(exts))
  }

  /** Every path comes from a string that mentions an extension and is among
      the tokens collected from that string. */
  lemma StringRefsSound(rs: seq<StringRecord>, exts: seq<string>, t: string)
    requires t in StringRefs(rs, exts)
    ensures exists k :: 0 <= k < |rs| && MentionsAny(rs[k].text, exts) && t in Candidates(rs[k].text)
  {
    GatherIff(rs, Mentioned(exts), t);
    var k :| 0 <= k < |rs| && t in Mentioned(exts)(rs[k].text);
    MentionedPathsFacts(rs[k].text, exts, t);
  }

  /** Every token collected from a string that mentions an extension is kept. */
  lemma StringRefsComplete(rs: seq<StringRecord>, exts: seq<string>, k: nat, t: string)
    requires k < |rs| && MentionsAny(rs[k].text, exts) && t in Candidates(rs[k].text)
    ensures t in StringRefs(rs, exts)
  {
    MentionedPathsFacts(rs[k].text, exts, t);
    GatherIff(rs, Mentioned(exts), t);
  }

  /** Every path the strings contribute passes the filter. */
  lemma StringRefsValid(rs: seq<StringRecord>, exts: seq<string>)
    ensures forall t :: t in StringRefs(rs, exts) ==> IsValidFilePath(t)
  {
    forall t | t in StringRefs(rs, exts) ensures IsValidFilePath(t) {
      StringRefsSound(rs, exts, t);
      var k :| 0 <= k < |rs| && MentionsAny(rs[k].text, exts) && t in Candidates(rs[k].text);
      CandidatesValid(rs[k].text);
    }
  }

  /** A string that mentions one of the nine reference extensions mentions
      one of the thirteen model extensions, which begin with those nine. */
  lemma ReferenceMentionIsModelMention(s: string)
    requires MentionsAny(s, ReferenceExtensions)
    ensures MentionsAny(s, ModelReferenceExtensions)
  {
    MentionsFromIff(s, ReferenceExtensions, 0);
    MentionsFromIff(s, ModelReferenceExtensions, 0);
    var j :| 0 <= j < |ReferenceExtensions| && Contains(Lower(s), ReferenceExtensions[j]);
    assert ModelReferenceExtensions[j] == ReferenceExtensions[j];
  }

  /** The test and extraction for one recovered text (efk_scanner.py:295-299). */
  method TextRefs(s: string, exts: seq<string>) returns (found: seq<string>)
    ensures found == MentionedPaths(s, exts)
  {
    found := [];
    if MentionsAny(s, exts) {
      found := ExtractFilePathsFromString(s);
    }
  }

  /** The loop over the recovered strings (efk_scanner.py:291-299). */
  method CollectStringRefs(rs: seq<StringRecord>, exts: seq<string>) returns (refs: seq<string>)
    ensures refs == StringRefs(rs, exts)
  {
    ghost var f := Mentioned(exts);
    refs := [];
    for i := 0 to |rs|
      invariant refs == Gather(rs[..i], f)
    {
      var found := TextRefs(rs[i].text, exts);
      assert found == f(rs[i].text);
      assert rs[..i + 1][..i] == rs[..i];
      refs := refs + found;
    }
    assert rs[..|rs|] == rs;
  }

  /** The raw matches of a regular-expression search over the decoded
      content, before the path filter. */
  type MatchFinder = seq<Byte> -> seq<string>

  /** The regular-expression searches: that of `_search_binary_patterns`
      (efk_scanner.py:611-643) and the first half of
      `_search_binary_patterns_improved` (efk_scanner.py:656-681). */
  datatype PatternSearches = PatternSearches(binary: MatchFinder, improved: MatchFinder)

  /** The per-match filter of a regular-expression search. */
  method FilterValid(ms: seq<string>) returns (kept: seq<string>)
    ensures kept == KeepValidAll(ms)
  {
    kept := [];
    for i := 0 to |ms|
      invariant kept + KeepValidAll(ms[i..]) == KeepValidAll(ms)
    {
      assert ms[i..] == [ms[i]] + ms[i + 1..];
      KeepValidStep(ms[i], ms[i + 1..]);
      ConcatAssoc(kept, KeepValid(ms[i]), KeepValidAll(ms[i + 1..]));
      kept := kept + KeepValid(ms[i]);
    }
  }

  /** The strings `_parse_utf16_strings` recovers. */
  function Strings(c: seq<Byte>): seq<StringRecord>
  {
    DedupFrom(AllPasses(c), {})
  }

  /** What `_search_binary_patterns_improved` returns: the filtered regular
      expression matches, then the byte search for the nineteen path
      extensions. */
  function ImprovedRefs(c: seq<Byte>, m: PatternSearches): seq<string>
  {
    PathExtensionShape();
    KeepValidAll(m.improved(c)) + BytePass(c, PathExtensions, 0)
  }

  /** The references of an effect (.efk) container. */
  function EfkRefs(c: seq<Byte>): seq<string>
  {
    Distinct(StringRefs(Strings(c), ReferenceExtensions))
  }

  /** The references of a material (.efkmat) container. */
  function EfkmatRefs(c: seq<Byte>, m: PatternSearches): seq<string>
  {
    Distinct(StringRefs(Strings(c), ReferenceExtensions) + KeepValidAll(m.binary(c)))
  }

  /** The references of a model (.efkmodel) container. */
  function EfkmodelRefs(c: seq<Byte>, m: PatternSearches): seq<string>
  {
    Distinct(StringRefs(Strings(c), ModelReferenceExtensions) + ImprovedRefs(c, m)
      + ModelRefsFrom(c, 0, ModelDecoders, ModelReferenceExtensions))
  }

  /** Every path of the improved search passes the filter. */
  lemma ImprovedRefsValid(c: seq<Byte>, m: PatternSearches)
    ensures forall t :: t in ImprovedRefs(c, m) ==> IsValidFilePath(t)
  {
    PathExtensionShape();
    KeepValidAllSound(m.improved(c));
    BytePassShape(c, PathExtensions, 0);
  }

  /** Every path of the record search passes the filter. */
  lemma ModelRefsValid(c: seq<Byte>)
    ensures forall t :: t in ModelRefsFrom(c, 0, ModelDecoders, ModelReferenceExtensions) ==> IsValidFilePath(t)
  {
    forall t | t in ModelRefsFrom(c, 0, ModelDecoders, ModelReferenceExtensions) ensures IsValidFilePath(t) {
      ModelRefsSound(c, 0, ModelDecoders, ModelReferenceExtensions, t);
      var q :| 0 <= q < |c| && t in RecordRefs(c, q, ModelDecoders, ModelReferenceExtensions);
      RecordRefsFacts(c, q, ModelDecoders, ModelReferenceExtensions, t);
    }
  }

  /** Each container's references are distinct and every one passes the
      path filter. */
  lemma ContentRefsValid(c: seq<Byte>, m: PatternSearches)
    ensures NoDuplicates(EfkRefs(c)) && forall t :: t in EfkRefs(c) ==> IsValidFilePath(t)
    ensures NoDuplicates(EfkmatRefs(c, m)) && forall t :: t in EfkmatRefs(c, m) ==> IsValidFilePath(t)
    ensures NoDuplicates(EfkmodelRefs(c, m)) && forall t :: t in EfkmodelRefs(c, m) ==> IsValidFilePath(t)
  {
    StringRefsValid(Strings(c), ReferenceExtensions);
    StringRefsValid(Strings(c), ModelReferenceExtensions);
    KeepValidAllSound(m.binary(c));
    ImprovedRefsValid(c, m);
    ModelRefsValid(c);
  }

  /** A material or model container reports every path an effect container
      with the same bytes reports: the material parser only adds a search,
      and the model parser tests a longer extension list. */
  lemma EfkRefsIncluded(c: seq<Byte>, m: PatternSearches, t: string)
    requires t in EfkRefs(c)
    ensures t in EfkmatRefs(c, m) && t in EfkmodelRefs(c, m)
  {
    var rs := Strings(c);
    StringRefsSound(rs, ReferenceExtensions, t);
    var k :| 0 <= k < |rs| && MentionsAny(rs[k].text, ReferenceExtensions) && t in Candidates(rs[k].text);
    ReferenceMentionIsModelMention(rs[k].text);
    StringRefsComplete(rs, ModelReferenceExtensions, k, t);
  }

  /** `_parse_efk_content`. */
  method ParseEfkContent(c: seq<Byte>) returns (refs: seq<string>)
    ensures refs == EfkRefs(c)
  {
    var strings := ParseUtf16Strings(c);
    var found := CollectStringRefs(strings, ReferenceExtensions);
    refs := Distinct(found);
  }

  /** `_parse_efkmat_content`. */
  method ParseEfkmatContent(c: seq<Byte>, m: PatternSearches) returns (refs: seq<string>)
    ensures refs == EfkmatRefs(c, m)
  {
    var strings := ParseUtf16Strings(c);
    var found := CollectStringRefs(strings, ReferenceExtensions);
    var binary := FilterValid(m.binary(c));
    refs := Distinct(found + binary);
  }

  /** `_search_binary_patterns_improved`. */
  method SearchBinaryPatternsImproved(c: seq<Byte>, m: PatternSearches) returns (paths: seq<string>)
    ensures paths == ImprovedRefs(c, m)
  {
    PathExtensionShape();
    var matched := FilterValid(m.improved(c));
    var bytes := ByteSearches(c, PathExtensions);
    paths := matched + bytes;
  }

  /** `_parse_efkmodel_content`. */
  method ParseEfkmodelContent(c: seq<Byte>, m: PatternSearches) returns (refs: seq<string>)
    ensures refs == EfkmodelRefs(c, m)
  {
    var strings := ParseUtf16Strings(c);
    var found := CollectStringRefs(strings, ModelReferenceExtensions);
    var improved := SearchBinaryPatternsImproved(c, m);
    var records := SearchEfkmodelReferences(c);
    refs := Distinct(found + improved + records);
  }
}
