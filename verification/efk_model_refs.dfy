/** `_search_efkmodel_references` (efk_scanner.py:718-764): every offset of
    an effect-model container is read as a little-endian 32-bit byte count;
    a count in 1..999 whose payload fits is decoded with the first of UTF-8,
    UTF-16LE and ASCII that succeeds with a printable character, and a text
    that mentions one of the thirteen model extensions contributes the paths
    extracted from it. */
module EfkModelRefs {
  import opened Common
  import opened Codecs
  import opened Extensions
  import opened RecordWalk
  import opened EfkStrings
  import opened PathTokens

  /** The decodings tried, in order (efk_scanner.py:736). */
  const ModelDecoders: seq<PayloadDecoder> := [DecodeUtf8, LittleEndianPayload, DecodeAscii]

  /** A decoding that succeeded with a printable character. */
  predicate Qualifies(d: Option<string>)
  {
    d.Some? && HasPrintable(d.value)
  }

  /** The first of `ds[k..]` whose decoding of `p` qualifies. */
  function FirstQualifying(p: seq<Byte>, ds: seq<PayloadDecoder>, k: nat): Option<string>
    decreases |ds| - k
  {
    if k >= |ds| then None
    else if Qualifies(ds[k](p)) then ds[k](p)
    else FirstQualifying(p, ds, k + 1)
  }

  /** There is a text exactly when some decoder qualifies, and then it is the
      text of a qualifying decoder before which none qualifies. */
  lemma {:induction false} FirstQualifyingFacts(p: seq<Byte>, ds: seq<PayloadDecoder>, k: nat)
    ensures FirstQualifying(p, ds, k).Some? <==> exists j :: k <= j < |ds| && Qualifies(ds[j](p))
    ensures FirstQualifying(p, ds, k).Some? ==>
      exists j :: k <= j < |ds| && ds[j](p) == FirstQualifying(p, ds, k) && Qualifies(ds[j](p))
        && forall i :: k <= i < j ==> !Qualifies(ds[i](p))
    decreases |ds| - k
  {
    if k < |ds| && !Qualifies(ds[k](p)) {
      FirstQualifyingFacts(p, ds, k + 1);
      var r := FirstQualifying(p, ds, k);
      if r.Some? {
        var j :| k + 1 <= j < |ds| && ds[j](p) == r && Qualifies(ds[j](p))
          && forall i :: k + 1 <= i < j ==> !Qualifies(ds[i](p));
        assert forall i :: k <= i < j ==> !Qualifies(ds[i](p));
      }
    }
  }

  /** The encoding loop (efk_scanner.py:736-747): a decoding that fails or
      has no printable character moves on to the next encoding. */
  method TryDecoders(p: seq<Byte>, ds: seq<PayloadDecoder>) returns (text: Option<string>)
    ensures text == FirstQualifying(p, ds, 0)
  {
    text := None;
    var k := 0;
    while k < |ds|
      invariant k <= |ds| && FirstQualifying(p, ds, k) == FirstQualifying(p, ds, 0)
    {
      var d := ds[k](p);
      if d.Some? && HasPrintable(d.value) {
        text := d;
        break;
      }
      k := k + 1;
    }
  }

  /** ASCII is tried only after UTF-8 failed to qualify, and then it cannot
      qualify either: the third encoding never decides the outcome. */
  lemma AsciiNeverDecides(p: seq<Byte>)
    ensures FirstQualifying(p, ModelDecoders, 0) == FirstQualifying(p, [DecodeUtf8, LittleEndianPayload], 0)
  {
    var two: seq<PayloadDecoder> := [DecodeUtf8, LittleEndianPayload];
    if forall i :: 0 <= i < |p| ==> p[i] < 128 {
      AsciiIsUtf8(p, 0);
      assert p[0..] == p;
    }
    assert !Qualifies(DecodeUtf8(p)) ==> !Qualifies(DecodeAscii(p));
    assert FirstQualifying(p, ModelDecoders, 2) == if Qualifies(DecodeAscii(p)) then DecodeAscii(p) else None;
    assert FirstQualifying(p, two, 2) == None;
  }

  /** A byte count at `pos` in 1..999 whose payload fits (efk_scanner.py:731-733). */
  predicate ModelPlausible(c: seq<Byte>, pos: nat)
  {
    pos + 4 <= |c| && 0 < U32LE(c, pos) < 1000 && pos + 4 + U32LE(c, pos) <= |c|
  }

  function ModelPayload(c: seq<Byte>, pos: nat): seq<Byte>
    requires ModelPlausible(c, pos)
  {
    c[pos + 4..pos + 4 + U32LE(c, pos)]
  }

  /** The text decoded at `pos`, if the count is plausible and some decoder qualifies. */
  function RecordText(c: seq<Byte>, pos: nat, ds: seq<PayloadDecoder>): Option<string>
  {
    if ModelPlausible(c, pos) then FirstQualifying(ModelPayload(c, pos), ds, 0) else None
  }

  /** What the offset `pos` contributes. */
  function RecordRefs(c: seq<Byte>, pos: nat, ds: seq<PayloadDecoder>, exts: seq<string>): seq<string>
  {
    match RecordText(c, pos, ds)
    case None => []
    case Some(s) => MentionedPaths(s, exts)
  }

  /** A path comes from offset `pos` exactly when a text was decoded there
      that mentions an extension and the path is among the tokens collected
      from it; every such path passes the path filter and is longer than
      three characters. */
  lemma RecordRefsFacts(c: seq<Byte>, pos: nat, ds: seq<PayloadDecoder>, exts: seq<string>, t: string)
    ensures t in RecordRefs(c, pos, ds, exts) <==>
      RecordText(c, pos, ds).Some? && MentionsAny(RecordText(c, pos, ds).value, exts)
      && t in Candidates(RecordText(c, pos, ds).value)
    ensures t in RecordRefs(c, pos, ds, exts) ==> IsValidFilePath(t) && |t| > 3
  {
    if RecordText(c, pos, ds).Some? {
      MentionedPathsFacts(RecordText(c, pos, ds).value, exts, t);
    }
  }

  /** What the offsets from `pos` on contribute, in order. */
  function ModelRefsFrom(c: seq<Byte>, pos: nat, ds: seq<PayloadDecoder>, exts: seq<string>): seq<string>
    decreases |c| - pos
  {
    if pos >= |c| then [] else RecordRefs(c, pos, ds, exts) + ModelRefsFrom(c, pos + 1, ds, exts)
  }

  /** Every path comes from some offset at `pos` or later. */
  lemma {:induction false} ModelRefsSound(c: seq<Byte>, pos: nat, ds: seq<PayloadDecoder>, exts: seq<string>, t: string)
    requires t in ModelRefsFrom(c, pos, ds, exts)
    ensures exists q :: pos <= q < |c| && t in RecordRefs(c, q, ds, exts)
    decreases |c| - pos
  {
    if t !in RecordRefs(c, pos, ds, exts) {
      ModelRefsSound(c, pos + 1, ds, exts, t);
    }
  }

  /** Every offset at `pos` or later is tried, overlapping counts included. */
  lemma {:induction false} ModelRefsComplete(c: seq<Byte>, pos: nat, ds: seq<PayloadDecoder>, exts: seq<string>, q: nat, t: string)
    requires pos <= q < |c| && t in RecordRefs(c, q, ds, exts)
    ensures t in ModelRefsFrom(c, pos, ds, exts)
    decreases |c| - pos
  {
    if q != pos {
      ModelRefsComplete(c, pos + 1, ds, exts, q, t);
    }
  }

  /** The search loop has collected `found` for the offsets before `pos`. */
  ghost predicate CollectedTo(c: seq<Byte>, ds: seq<PayloadDecoder>, exts: seq<string>, pos: nat, found: seq<string>)
  {
    found + ModelRefsFrom(c, pos, ds, exts) == ModelRefsFrom(c, 0, ds, exts)
  }

  lemma CollectStep(c: seq<Byte>, ds: seq<PayloadDecoder>, exts: seq<string>, pos: nat, found: seq<string>)
    requires pos < |c| && CollectedTo(c, ds, exts, pos, found)
    ensures CollectedTo(c, ds, exts, pos + 1, found + RecordRefs(c, pos, ds, exts))
  {
    ConcatAssoc(found, RecordRefs(c, pos, ds, exts), ModelRefsFrom(c, pos + 1, ds, exts));
  }

  /** The body of the search loop for offset `pos` (efk_scanner.py:729-747). */
  method RecordRefsAt(c: seq<Byte>, pos: nat, ds: seq<PayloadDecoder>, exts: seq<string>) returns (found: seq<string>)
    ensures found == RecordRefs(c, pos, ds, exts)
  {
    var text := None;
    if pos + 4 <= |c| {
      var length := U32LE(c, pos);
      if 0 < length < 1000 && pos + 4 + length <= |c| {
        text := TryDecoders(c[pos + 4..pos + 4 + length], ds);
      }
    }
    assert text == RecordText(c, pos, ds);
    found := [];
    if text.Some? && MentionsAny(text.value, exts) {
      found := ExtractFilePathsFromString(text.value);
    }
  }

  /** The search loop over every offset, with the decoders and the
      extensions as parameters. */
  method SearchRecords(c: seq<Byte>, ds: seq<PayloadDecoder>, exts: seq<string>) returns (refs: seq<string>)
    ensures refs == ModelRefsFrom(c, 0, ds, exts)
  {
    refs := [];
    var pos := 0;
    while pos < |c|
      invariant pos <= |c| && CollectedTo(c, ds, exts, pos, refs)
    {
      var found := RecordRefsAt(c, pos, ds, exts);
      CollectStep(c, ds, exts, pos, refs);
      refs := refs + found;
      pos := pos + 1;
    }
  }

  /** `_search_efkmodel_references`: exactly the paths extracted from a text
      that some offset decodes and that mentions a model extension; each
      passes the path filter and is longer than three characters. */
  method SearchEfkmodelReferences(c: seq<Byte>) returns (refs: seq<string>)
    ensures refs == ModelRefsFrom(c, 0, ModelDecoders, ModelReferenceExtensions)
    ensures forall t :: t in refs ==> IsValidFilePath(t) && |t| > 3
  {
    refs := SearchRecords(c, ModelDecoders, ModelReferenceExtensions);
    forall t | t in refs ensures IsValidFilePath(t) && |t| > 3 {
      ModelRefsSound(c, 0, ModelDecoders, ModelReferenceExtensions, t);
      var q :| 0 <= q < |c| && t in RecordRefs(c, q, ModelDecoders, ModelReferenceExtensions);
      RecordRefsFacts(c, q, ModelDecoders, ModelReferenceExtensions, t);
    }
  }
}
