/** The reference passes of the EFK analysis tool (tools/analyze_efk.py): the
    path found around a pattern position, the merge of `referenced_files` by
    path, and the analyzer object that records every result. */
module AnalyzeEfkRefs {
  import opened Common
  import opened Codecs
  import opened ByteRuns
  import opened AnalyzeEfkBinary

  // ------------------------------------------------- the path around a hit

  predicate Quote(ch: char) { ch == '"' || ch == '\'' }

  /** The lower-case word `a` occurs in `s` at `j`, ignoring ASCII case. */
  predicate CiOccursAt(s: string, a: string, j: nat)
  {
    j + |a| <= |s| && forall k :: 0 <= k < |a| ==> LowerChar(s[j + k]) == a[k]
  }

  /** The extension group `(?:efk|efkmat|efkmodel|png|jpg|jpeg|tga|dds|bmp|tiff?|webp|ktx|pvr)`
      of the path pattern, alternative by alternative in the order it tries
      them (`tiff?` tries `tiff` before `tif`). */
  const PathAlternatives: seq<string> :=
    ["efk", "efkmat", "efkmodel", "png", "jpg", "jpeg", "tga", "dds", "bmp", "tiff", "tif", "webp", "ktx", "pvr"]

  /** The same alternatives, longest first. */
  const LongestFirstAlternatives: seq<string> :=
    ["efkmodel", "efkmat", "jpeg", "tiff", "webp", "efk", "png", "jpg", "tga", "dds", "bmp", "tif", "ktx", "pvr"]

  /** The alternative the group picks at `j`: the first in list order that matches. */
  function FirstAlternative(s: string, j: nat, alts: seq<string>): (r: Option<string>)
    ensures r.Some? ==> r.value in alts && CiOccursAt(s, r.value, j)
  {
    if alts == [] then None
    else if CiOccursAt(s, alts[0], j) then Some(alts[0])
    else FirstAlternative(s, j, alts[1..])
  }

  /** The group fails only where no alternative matches. */
  lemma {:induction false} FirstAlternativeComplete(s: string, j: nat, alts: seq<string>, a: string)
    requires a in alts && CiOccursAt(s, a, j)
    ensures FirstAlternative(s, j, alts).Some?
  {
    if alts[0] != a {
      FirstAlternativeComplete(s, j, alts[1..], a);
    }
  }

  predicate LengthDescending(alts: seq<string>)
  {
    forall i, j :: 0 <= i < j < |alts| ==> |alts[i]| >= |alts[j]|
  }

  /** With the alternatives longest first, the group picks the longest one
      that matches. */
  lemma {:induction false} LongestAlternativeWins(s: string, j: nat, alts: seq<string>, b: string)
    requires LengthDescending(alts) && b in alts && CiOccursAt(s, b, j)
    ensures FirstAlternative(s, j, alts).Some? && |b| <= |FirstAlternative(s, j, alts).value|
  {
    if !CiOccursAt(s, alts[0], j) {
      assert LengthDescending(alts[1..]) by {
        forall x, y | 0 <= x < y < |alts[1..]| ensures |alts[1..][x]| >= |alts[1..][y]| {
          assert alts[1..][x] == alts[x + 1] && alts[1..][y] == alts[y + 1];
        }
      }
      LongestAlternativeWins(s, j, alts[1..], b);
    }
  }

  lemma LongestFirstIsDescending()
    ensures LengthDescending(LongestFirstAlternatives)
    ensures forall a :: a in PathAlternatives <==> a in LongestFirstAlternatives
  {
  }

  /** The end of the quote-free stretch starting at `i`. */
  function QuoteEnd(s: string, i: nat): (e: nat)
    requires i <= |s|
    ensures i <= e <= |s|
    ensures forall k :: i <= k < e ==> !Quote(s[k])
    ensures e < |s| ==> Quote(s[e])
    decreases |s| - i
  {
    if i == |s| || Quote(s[i]) then i else QuoteEnd(s, i + 1)
  }

  /** How the greedy `[^"']*\.` backtracks inside `[i, e)`: the last dot that
      an alternative follows, with that alternative. */
  function LastDot(s: string, i: nat, e: nat, alts: seq<string>): (r: Option<(nat, string)>)
    requires e <= |s|
    ensures r.Some? ==>
      i <= r.value.0 < e && s[r.value.0] == '.' && FirstAlternative(s, r.value.0 + 1, alts) == Some(r.value.1)
    decreases e
  {
    if e <= i then None
    else if s[e - 1] == '.' && FirstAlternative(s, e, alts).Some? then Some((e - 1, FirstAlternative(s, e, alts).value))
    else LastDot(s, i, e - 1, alts)
  }

  /** A dot that an alternative follows is found, and no later one is skipped. */
  lemma {:induction false} LastDotFinds(s: string, i: nat, e: nat, alts: seq<string>, d: nat)
    requires i <= d < e <= |s| && s[d] == '.' && FirstAlternative(s, d + 1, alts).Some?
    ensures LastDot(s, i, e, alts).Some? && d <= LastDot(s, i, e, alts).value.0
    decreases e
  {
    if !(s[e - 1] == '.' && FirstAlternative(s, e, alts).Some?) {
      LastDotFinds(s, i, e - 1, alts, d);
    }
  }

  /** `re.search` of `[^"']*\.(?:…)` (ignoring case) from `i`: the match
      starts where the first quote-free stretch holding a dot and an
      alternative starts, and runs to the last such dot and its alternative. */
  function FirstPathMatch(s: string, i: nat, alts: seq<string>): (r: Option<string>)
    requires i <= |s|
    decreases |s| - i
  {
    if i == |s| then None
    else
      var e := QuoteEnd(s, i);
      var hit := LastDot(s, i, e, alts);
      if hit.Some? then Some(s[i..hit.value.0 + 1 + |hit.value.1|])
      else if e == |s| then None
      else FirstPathMatch(s, e + 1, alts)
  }

  /** A dot followed by an alternative ending the text, with no quote before it. */
  predicate PathShaped(t: string, alts: seq<string>)
  {
    exists a :: a in alts && |a| < |t| && t[|t| - |a| - 1] == '.' && CiOccursAt(t, a, |t| - |a|)
      && forall k :: 0 <= k < |t| - |a| ==> !Quote(t[k])
  }

  lemma ShapedSlice(s: string, i: nat, e: nat, d: nat, a: string, alts: seq<string>)
    requires i <= d < e <= |s| && d + 1 + |a| <= |s| && s[d] == '.'
    requires a in alts && CiOccursAt(s, a, d + 1)
    requires forall k :: i <= k < e ==> !Quote(s[k])
    ensures PathShaped(s[i..d + 1 + |a|], alts)
  {
    var t := s[i..d + 1 + |a|];
    assert t[|t| - |a| - 1] == s[d];
    forall k | 0 <= k < |a| ensures LowerChar(t[|t| - |a| + k]) == a[k] {
      assert t[|t| - |a| + k] == s[d + 1 + k];
    }
    forall k | 0 <= k < |t| - |a| ensures !Quote(t[k]) {
      assert t[k] == s[i + k];
    }
  }

  /** A match found in the first stretch has the shape of a path. */
  lemma MatchHereShape(s: string, i: nat, alts: seq<string>)
    requires i < |s| && LastDot(s, i, QuoteEnd(s, i), alts).Some?
    ensures FirstPathMatch(s, i, alts).Some? && PathShaped(FirstPathMatch(s, i, alts).value, alts)
  {
    var e := QuoteEnd(s, i);
    var hit := LastDot(s, i, e, alts).value;
    assert FirstPathMatch(s, i, alts) == Some(s[i..hit.0 + 1 + |hit.1|]);
    ShapedSlice(s, i, e, hit.0, hit.1, alts);
  }

  /** Every match is a quote-free run ending in a dot and an alternative. */
  lemma {:induction false} FirstPathMatchShape(s: string, i: nat, alts: seq<string>)
    requires i <= |s|
    ensures FirstPathMatch(s, i, alts).Some? ==> PathShaped(FirstPathMatch(s, i, alts).value, alts)
    decreases |s| - i
  {
    if i < |s| {
      var e := QuoteEnd(s, i);
      if LastDot(s, i, e, alts).Some? {
        MatchHereShape(s, i, alts);
      } else if e < |s| {
        assert FirstPathMatch(s, i, alts) == FirstPathMatch(s, e + 1, alts);
        FirstPathMatchShape(s, e + 1, alts);
      }
    }
  }

  /** The search succeeds whenever some dot at or after `i` is followed by an alternative. */
  lemma {:induction false} FirstPathMatchFound(s: string, i: nat, alts: seq<string>, d: nat, a: string)
    requires i <= d < |s| && s[d] == '.' && a in alts && CiOccursAt(s, a, d + 1)
    ensures FirstPathMatch(s, i, alts).Some?
    decreases |s| - i
  {
    var e := QuoteEnd(s, i);
    FirstAlternativeComplete(s, d + 1, alts, a);
    if d < e {
      LastDotFinds(s, i, e, alts, d);
    } else {
      if LastDot(s, i, e, alts).None? {
        FirstPathMatchFound(s, e + 1, alts, d, a);
      }
    }
  }

  /** A position that is not a dot is passed over by the backtracking. */
  lemma LastDotSkip(s: string, i: nat, e: nat, alts: seq<string>)
    requires i < e <= |s| && s[e - 1] != '.'
    ensures LastDot(s, i, e, alts) == LastDot(s, i, e - 1, alts)
  {
  }

  /** A text with no quote is one stretch. */
  lemma {:induction false} QuoteEndAll(s: string, i: nat)
    requires i <= |s| && forall k :: i <= k < |s| ==> !Quote(s[k])
    ensures QuoteEnd(s, i) == |s|
    decreases |s| - i
  {
    if i < |s| {
      QuoteEndAll(s, i + 1);
    }
  }

  /** `a.efkmat` has no quote and no dot after position 1. */
  lemma EfkmatOneDot(s: string, alts: seq<string>)
    requires s == "a.efkmat"
    ensures QuoteEnd(s, 0) == 8
    ensures LastDot(s, 0, 8, alts) == LastDot(s, 0, 2, alts)
  {
    LastDotSkip(s, 0, 8, alts);
    LastDotSkip(s, 0, 7, alts);
    LastDotSkip(s, 0, 6, alts);
    LastDotSkip(s, 0, 5, alts);
    LastDotSkip(s, 0, 4, alts);
    LastDotSkip(s, 0, 3, alts);
    QuoteEndAll(s, 0);
  }

  /** In `a.efkmat` the match is decided by the alternative chosen after the dot. */
  lemma EfkmatMatch(s: string, alts: seq<string>, a: string)
    requires s == "a.efkmat" && FirstAlternative(s, 2, alts) == Some(a)
    ensures FirstPathMatch(s, 0, alts) == Some(s[..2 + |a|])
  {
    EfkmatOneDot(s, alts);
    assert s[1] == '.';
    assert LastDot(s, 0, 2, alts) == Some((1, a));
    assert FirstPathMatch(s, 0, alts) == Some(s[0..1 + 1 + |a|]);
  }

  lemma EfkmatPicksEfk(s: string)
    requires s == "a.efkmat"
    ensures FirstAlternative(s, 2, PathAlternatives) == Some("efk")
  {
    assert CiOccursAt(s, "efk", 2) by {
      assert LowerChar(s[2]) == 'e' && LowerChar(s[3]) == 'f' && LowerChar(s[4]) == 'k';
    }
    assert PathAlternatives[0] == "efk";
  }

  lemma EfkmatPicksEfkmat(s: string)
    requires s == "a.efkmat"
    ensures FirstAlternative(s, 2, LongestFirstAlternatives) == Some("efkmat")
  {
    var alts := LongestFirstAlternatives;
    assert !CiOccursAt(s, alts[0], 2);
    assert CiOccursAt(s, alts[1..][0], 2) by {
      assert alts[1..][0] == "efkmat";
      assert LowerChar(s[2]) == 'e' && LowerChar(s[3]) == 'f' && LowerChar(s[4]) == 'k';
      assert LowerChar(s[5]) == 'm' && LowerChar(s[6]) == 'a' && LowerChar(s[7]) == 't';
    }
  }

  /** With the extension group as written, `a.efkmat` is matched as `a.efk`:
      `efk` is tried first and matches the start of `efkmat`. */
  lemma EfkmatTruncated(s: string)
    requires s == "a.efkmat"
    ensures FirstPathMatch(s, 0, PathAlternatives) == Some("a.efk")
  {
    EfkmatPicksEfk(s);
    EfkmatMatch(s, PathAlternatives, "efk");
    assert s[..5] == "a.efk";
  }

  /** With the alternatives longest first, `a.efkmat` is matched whole. */
  lemma EfkmatKept(s: string)
    requires s == "a.efkmat"
    ensures FirstPathMatch(s, 0, LongestFirstAlternatives) == Some(s)
  {
    EfkmatPicksEfkmat(s);
    EfkmatMatch(s, LongestFirstAlternatives, "efkmat");
    assert s[..8] == s;
  }

  /** The window `[max(0, p - 200), min(len, p + 200))` around a position. */
  function SegmentStart(position: nat): nat
  {
    if position >= 200 then position - 200 else 0
  }

  function SegmentEnd(c: seq<Byte>, position: nat): nat
  {
    if position + 200 <= |c| then position + 200 else |c|
  }

  /** `_extract_path_at_position`: None past the end of the content,
      otherwise the first path match in the UTF-8 text (errors ignored) of
      the window around the position. */
  function PathAtPosition(c: seq<Byte>, position: nat, alts: seq<string>): (r: Option<string>)
    ensures position >= |c| ==> r.None?
  {
    if position >= |c| then None
    else FirstPathMatch(DecodeUtf8Ignore(c[SegmentStart(position)..SegmentEnd(c, position)]), 0, alts)
  }

  /** Only the 400-byte window around the position matters: contents of the
      same length that agree there give the same path. */
  lemma PathAtPositionLocal(c: seq<Byte>, d: seq<Byte>, position: nat, alts: seq<string>)
    requires |c| == |d|
    requires position < |c| ==> c[SegmentStart(position)..SegmentEnd(c, position)] == d[SegmentStart(position)..SegmentEnd(d, position)]
    ensures PathAtPosition(c, position, alts) == PathAtPosition(d, position, alts)
  {
  }

  /** A path found at a position lies inside the content and has the shape
      of a path match. */
  lemma PathAtPositionShape(c: seq<Byte>, position: nat, alts: seq<string>)
    requires PathAtPosition(c, position, alts).Some?
    ensures position < |c|
    ensures SegmentStart(position) <= position < SegmentEnd(c, position) <= |c|
    ensures SegmentEnd(c, position) - SegmentStart(position) <= 400
    ensures PathShaped(PathAtPosition(c, position, alts).value, alts)
  {
    FirstPathMatchShape(DecodeUtf8Ignore(c[SegmentStart(position)..SegmentEnd(c, position)]), 0, alts);
  }

  // ------------------------------------------------------- referenced files

  /** One `referenced_files` entry. */
  datatype FileRef = FileRef(path: string, source: string, position: nat)

  function PathsOf(rs: seq<FileRef>): (ps: seq<string>)
    ensures |ps| == |rs|
    ensures forall k :: 0 <= k < |rs| ==> ps[k] == rs[k].path
  {
    if rs == [] then [] else PathsOf(rs[..|rs| - 1]) + [rs[|rs| - 1].path]
  }

  /** The sources of the entries for `p`, in order. */
  function SourcesFor(rs: seq<FileRef>, p: string): seq<string>
  {
    if rs == [] then []
    else SourcesFor(rs[..|rs| - 1], p) + (if rs[|rs| - 1].path == p then [rs[|rs| - 1].source] else [])
  }

  /** The sources joined with `", "`. */
  function JoinSources(xs: seq<string>): string
  {
    if xs == [] then ""
    else if |xs| == 1 then xs[0]
    else JoinSources(xs[..|xs| - 1]) + ", " + xs[|xs| - 1]
  }

  /** The first entry for `p`. */
  function FirstFor(rs: seq<FileRef>, p: string): (r: FileRef)
    requires p in PathsOf(rs)
    ensures r in rs && r.path == p
  {
    var init := rs[..|rs| - 1];
    if p in PathsOf(init) then FirstFor(init, p) else rs[|rs| - 1]
  }

  /** `FirstFor` is the entry at the first index with that path. */
  lemma {:induction false} FirstForAt(rs: seq<FileRef>, p: string, k: nat)
    requires k < |rs| && rs[k].path == p
    requires forall j :: 0 <= j < k ==> rs[j].path != p
    ensures p in PathsOf(rs) && FirstFor(rs, p) == rs[k]
  {
    assert PathsOf(rs)[k] == p;
    var init := rs[..|rs| - 1];
    if k < |rs| - 1 {
      assert init[k] == rs[k];
      forall j | 0 <= j < k ensures init[j].path != p {
        assert init[j] == rs[j];
      }
      FirstForAt(init, p, k);
    } else {
      forall j | 0 <= j < |init| ensures PathsOf(init)[j] != p {
        assert init[j] == rs[j];
      }
    }
  }

  /** The kept entry for `p`: the first one, with every source for `p` joined. */
  function Merged(rs: seq<FileRef>, p: string): FileRef
    requires p in PathsOf(rs)
  {
    FirstFor(rs, p).(source := JoinSources(SourcesFor(rs, p)))
  }

  function MergedAll(rs: seq<FileRef>, keys: seq<string>): (r: seq<FileRef>)
    requires forall p :: p in keys ==> p in PathsOf(rs)
    ensures |r| == |keys|
    ensures forall k :: 0 <= k < |keys| ==> r[k] == Merged(rs, keys[k])
  {
    if keys == [] then [] else [Merged(rs, keys[0])] + MergedAll(rs, keys[1..])
  }

  /** The deduplicated `referenced_files`: one merged entry per path, in
      order of first appearance. */
  function UniqueFiles(rs: seq<FileRef>): seq<FileRef>
  {
    FirstSeenFacts(PathsOf(rs));
    MergedAll(rs, FirstSeen(PathsOf(rs)))
  }

  /** One entry per path, for every path of the input, in order of first
      appearance, each with its first entry's position and all its sources. */
  lemma UniqueFilesFacts(rs: seq<FileRef>)
    ensures NoDuplicates(PathsOf(UniqueFiles(rs)))
    ensures forall p :: p in PathsOf(UniqueFiles(rs)) <==> p in PathsOf(rs)
    ensures forall k :: 0 <= k < |UniqueFiles(rs)| ==>
      UniqueFiles(rs)[k].position == FirstFor(rs, UniqueFiles(rs)[k].path).position
      && UniqueFiles(rs)[k].source == JoinSources(SourcesFor(rs, UniqueFiles(rs)[k].path))
  {
    var keys := FirstSeen(PathsOf(rs));
    FirstSeenFacts(PathsOf(rs));
    var u := UniqueFiles(rs);
    assert PathsOf(u) == keys;
  }

  lemma PathsOfSnoc(rs: seq<FileRef>, r: FileRef)
    ensures PathsOf(rs + [r]) == PathsOf(rs) + [r.path]
  {
    assert (rs + [r])[..|rs|] == rs;
  }

  lemma SourcesForSnoc(rs: seq<FileRef>, r: FileRef, p: string)
    ensures SourcesFor(rs + [r], p) == SourcesFor(rs, p) + (if r.path == p then [r.source] else [])
  {
    assert (rs + [r])[..|rs|] == rs;
  }

  lemma JoinSourcesSnoc(xs: seq<string>, x: string)
    requires xs != []
    ensures JoinSources(xs + [x]) == JoinSources(xs) + ", " + x
  {
    assert (xs + [x])[..|xs|] == xs;
  }

  lemma FirstSeenSnoc<T>(xs: seq<T>, x: T)
    ensures FirstSeen(xs + [x]) == if x in FirstSeen(xs) then FirstSeen(xs) else FirstSeen(xs) + [x]
  {
    assert (xs + [x])[..|xs|] == xs;
  }

  lemma {:induction false} SourcesForAbsent(rs: seq<FileRef>, p: string)
    requires p !in PathsOf(rs)
    ensures SourcesFor(rs, p) == []
  {
    if rs != [] {
      var init := rs[..|rs| - 1];
      forall j | 0 <= j < |init| ensures PathsOf(init)[j] != p {
        assert init[j] == rs[j];
      }
      SourcesForAbsent(init, p);
    }
  }

  lemma {:induction false} SourcesForPresent(rs: seq<FileRef>, p: string)
    requires p in PathsOf(rs)
    ensures SourcesFor(rs, p) != []
  {
    var init := rs[..|rs| - 1];
    if rs[|rs| - 1].path != p {
      var k :| 0 <= k < |rs| && PathsOf(rs)[k] == p;
      assert init[k] == rs[k];
      SourcesForPresent(init, p);
    }
  }

  /** A later entry for a known path only adds its source. */
  lemma MergedSame(pre: seq<FileRef>, r: FileRef)
    requires r.path in PathsOf(pre)
    ensures r.path in PathsOf(pre + [r])
    ensures Merged(pre + [r], r.path) == Merged(pre, r.path).(source := Merged(pre, r.path).source + ", " + r.source)
  {
    PathsOfSnoc(pre, r);
    SourcesForSnoc(pre, r, r.path);
    SourcesForPresent(pre, r.path);
    JoinSourcesSnoc(SourcesFor(pre, r.path), r.source);
    assert (pre + [r])[..|pre|] == pre;
  }

  /** The first entry for a path is kept as it is. */
  lemma MergedNew(pre: seq<FileRef>, r: FileRef)
    requires r.path !in PathsOf(pre)
    ensures r.path in PathsOf(pre + [r])
    ensures Merged(pre + [r], r.path) == r
  {
    PathsOfSnoc(pre, r);
    SourcesForSnoc(pre, r, r.path);
    SourcesForAbsent(pre, r.path);
    assert (pre + [r])[..|pre|] == pre;
  }

  /** An entry for another path changes nothing. */
  lemma MergedOther(pre: seq<FileRef>, r: FileRef, p: string)
    requires p in PathsOf(pre) && p != r.path
    ensures p in PathsOf(pre + [r])
    ensures Merged(pre + [r], p) == Merged(pre, p)
  {
    PathsOfSnoc(pre, r);
    SourcesForSnoc(pre, r, p);
    var all := pre + [r];
    assert all[..|all| - 1] == pre;
    assert SourcesFor(all, p) == SourcesFor(pre, p);
    assert FirstFor(all, p) == FirstFor(pre, p);
  }

  /** The state of the merge loop after the entries `pre`. */
  ghost predicate MergeState(pre: seq<FileRef>, keys: seq<string>, unique: map<string, FileRef>)
  {
    keys == FirstSeen(PathsOf(pre))
    && (forall p :: p in unique <==> p in PathsOf(pre))
    && (forall p :: p in unique ==> p in PathsOf(pre) && unique[p] == Merged(pre, p))
  }

  lemma MergeStep(pre: seq<FileRef>, r: FileRef, keys: seq<string>, unique: map<string, FileRef>)
    requires MergeState(pre, keys, unique)
    ensures MergeState(pre + [r],
      if r.path in unique then keys else keys + [r.path],
      if r.path in unique then unique[r.path := unique[r.path].(source := unique[r.path].source + ", " + r.source)]
      else unique[r.path := r])
  {
    PathsOfSnoc(pre, r);
    FirstSeenFacts(PathsOf(pre));
    FirstSeenSnoc(PathsOf(pre), r.path);
    var unique' := if r.path in unique then unique[r.path := unique[r.path].(source := unique[r.path].source + ", " + r.source)]
      else unique[r.path := r];
    forall p | p in unique' ensures p in PathsOf(pre + [r]) && unique'[p] == Merged(pre + [r], p) {
      if p == r.path {
        if r.path in unique {
          MergedSame(pre, r);
        } else {
          MergedNew(pre, r);
        }
      } else {
        MergedOther(pre, r, p);
      }
    }
  }

  /** The merge loop of `_extract_referenced_files`: the first entry for each
      path is kept and the source of every later entry is appended to it. */
  method GroupByPath(rs: seq<FileRef>) returns (keys: seq<string>, unique: map<string, FileRef>)
    ensures MergeState(rs, keys, unique)
  {
    keys := [];
    unique := map[];
    for i := 0 to |rs|
      invariant MergeState(rs[..i], keys, unique)
    {
      MergeStep(rs[..i], rs[i], keys, unique);
      assert rs[..i + 1] == rs[..i] + [rs[i]];
      var fileInfo := rs[i];
      var path := fileInfo.path;
      if path !in unique {
        keys := keys + [path];
        unique := unique[path := fileInfo];
      } else {
        unique := unique[path := unique[path].(source := unique[path].source + ", " + fileInfo.source)];
      }
    }
    assert rs[..|rs|] == rs;
  }

  /** The values listed in key order are the deduplicated entries. */
  lemma MergeStateValues(rs: seq<FileRef>, keys: seq<string>, unique: map<string, FileRef>, files: seq<FileRef>)
    requires MergeState(rs, keys, unique)
    requires |files| == |keys| && forall j :: 0 <= j < |keys| ==> keys[j] in unique && files[j] == unique[keys[j]]
    ensures files == UniqueFiles(rs)
  {
    FirstSeenFacts(PathsOf(rs));
  }

  /** The deduplication of `_extract_referenced_files`. */
  method MergeByPath(rs: seq<FileRef>) returns (files: seq<FileRef>)
    ensures files == UniqueFiles(rs)
  {
    var keys, unique := GroupByPath(rs);
    FirstSeenFacts(PathsOf(rs));
    files := ListValues(keys, unique);
    MergeStateValues(rs, keys, unique, files);
  }

  /** `list(unique_files.values())`: the values in key order. */
  method ListValues(keys: seq<string>, unique: map<string, FileRef>) returns (files: seq<FileRef>)
    requires forall p :: p in keys ==> p in unique
    ensures |files| == |keys|
    ensures forall j :: 0 <= j < |keys| ==> files[j] == unique[keys[j]]
  {
    files := [];
    for k := 0 to |keys|
      invariant |files| == k
      invariant forall j :: 0 <= j < k ==> files[j] == unique[keys[j]]
    {
      files := files + [unique[keys[k]]];
    }
  }

  /** A path found in the decoded text by the regex passes, with its position. */
  datatype TextPath = TextPath(path: string, position: nat)

  /** The entries from the text analysis; only the `utf-8` entry exists. */
  function TextRefs(found: seq<TextPath>): (r: seq<FileRef>)
    ensures |r| == |found|
    ensures forall k :: 0 <= k < |r| ==>
      r[k] == FileRef(found[k].path, "text_analysis_utf-8", found[k].position)
  {
    if found == [] then [] else [FileRef(found[0].path, "text_analysis_utf-8", found[0].position)] + TextRefs(found[1..])
  }

  /** The source name of a pattern entry: `binary_analysis_text_.png` and the like. */
  function PatternSource(pattern: seq<Byte>): string
  {
    "binary_analysis_text_" + DecodeAsciiIgnore(pattern)
  }

  /** What `_extract_path_at_position` gives for a position. */
  type Locator = nat -> Option<string>

  /** The entries from the positions of one pattern, from `k` on: those
      positions where a non-empty path is found. */
  function HitRefs(h: PatternHit, k: nat, locate: Locator): seq<FileRef>
    decreases |h.positions| - k
  {
    if k >= |h.positions| then []
    else
      var found := locate(h.positions[k]);
      (if found.Some? && found.value != "" then [FileRef(found.value, PatternSource(h.pattern), h.positions[k])] else [])
      + HitRefs(h, k + 1, locate)
  }

  function BinaryRefs(hits: seq<PatternHit>, locate: Locator): seq<FileRef>
  {
    if hits == [] then [] else HitRefs(hits[0], 0, locate) + BinaryRefs(hits[1..], locate)
  }

  /** Every binary entry is the path found at a position of its pattern. */
  lemma {:induction false} HitRefsSound(h: PatternHit, k: nat, locate: Locator, r: FileRef)
    requires r in HitRefs(h, k, locate)
    ensures r.position in h.positions && r.source == PatternSource(h.pattern)
    ensures locate(r.position) == Some(r.path) && r.path != ""
    decreases |h.positions| - k
  {
    var found := locate(h.positions[k]);
    if !(found.Some? && found.value != "" && r == FileRef(found.value, PatternSource(h.pattern), h.positions[k])) {
      HitRefsSound(h, k + 1, locate, r);
    }
  }

  /** Every position of a pattern where a path is found gives an entry. */
  lemma {:induction false} HitRefsComplete(h: PatternHit, k: nat, locate: Locator, j: nat, t: string)
    requires k <= j < |h.positions| && locate(h.positions[j]) == Some(t) && t != ""
    ensures FileRef(t, PatternSource(h.pattern), h.positions[j]) in HitRefs(h, k, locate)
    decreases |h.positions| - k
  {
    if j > k {
      HitRefsComplete(h, k + 1, locate, j, t);
    }
  }

  /** The positions loop for one pattern. */
  method PathsOfHit(h: PatternHit, locate: Locator) returns (refs: seq<FileRef>)
    ensures refs == HitRefs(h, 0, locate)
  {
    refs := [];
    for k := 0 to |h.positions|
      invariant refs + HitRefs(h, k, locate) == HitRefs(h, 0, locate)
    {
      var pos := h.positions[k];
      var extractedPath := locate(pos);
      if extractedPath.Some? && extractedPath.value != "" {
        ConcatAssoc(refs, [FileRef(extractedPath.value, PatternSource(h.pattern), pos)], HitRefs(h, k + 1, locate));
        refs := refs + [FileRef(extractedPath.value, PatternSource(h.pattern), pos)];
      }
    }
  }

  /** The loop over the text analysis' `found_paths`. */
  method TextEntries(found: seq<TextPath>) returns (refs: seq<FileRef>)
    ensures refs == TextRefs(found)
  {
    refs := [];
    for k := 0 to |found|
      invariant |refs| == k
      invariant forall j :: 0 <= j < k ==> refs[j] == FileRef(found[j].path, "text_analysis_utf-8", found[j].position)
    {
      refs := refs + [FileRef(found[k].path, "text_analysis_utf-8", found[k].position)];
    }
  }

  /** The loop over the `text_` entries of `found_patterns`. */
  method BinaryEntries(hits: seq<PatternHit>, locate: Locator) returns (refs: seq<FileRef>)
    ensures refs == BinaryRefs(hits, locate)
  {
    refs := [];
    for i := 0 to |hits|
      invariant refs + BinaryRefs(hits[i..], locate) == BinaryRefs(hits, locate)
    {
      assert hits[i..][1..] == hits[i + 1..];
      var more := PathsOfHit(hits[i], locate);
      ConcatAssoc(refs, more, BinaryRefs(hits[i + 1..], locate));
      refs := refs + more;
    }
  }

  /** `_extract_referenced_files`: the text entries, then the binary ones
      pattern by pattern, merged by path. */
  method ReferencedFiles(found: seq<TextPath>, hits: seq<PatternHit>, locate: Locator)
    returns (files: seq<FileRef>)
    ensures files == UniqueFiles(TextRefs(found) + BinaryRefs(hits, locate))
  {
    var fromText := TextEntries(found);
    var fromBinary := BinaryEntries(hits, locate);
    files := MergeByPath(fromText + fromBinary);
  }
}
