/** The precise EFK parser (`tools/precise_efk_parser.py`): the splitter
    that cuts file paths out of a string whose paths run together, and the
    analysis that applies it to every record naming a file. Its record loop
    `parse_efk_file_precisely` repeats the loop of
    `CorrectEfkParser.ParseEfkStrings`, the little-endian walk that steps
    one byte past a failed decode, so it is `RecordWalk.WalkRecords` with
    that decoder and that step. */
module PreciseEfkParser {
  import opened Common
  import opened Extensions
  import opened RecordWalk
  import opened PathTokens

  /** The token around an occurrence of `ext` at `pos`: widened left from
      `pos` and right from the end of the extension over letters, digits,
      `.`, `_` and `-`. */
  function Window(s: string, pos: nat, ext: string): string
    requires pos + |ext| <= |s|
  {
    s[LeftEdge(s, pos, false)..RightEdge(s, pos + |ext|, false)]
  }

  /** The tokens of every occurrence of `ext` at or after `start`, the search
      restarting one character after each hit. */
  function Windows(s: string, ext: string, start: nat): seq<string>
    decreases |s| + 1 - start
  {
    match FindFrom(s, ext, start)
    case None => []
    case Some(p) => [Window(s, p, ext)] + Windows(s, ext, p + 1)
  }

  /** The tokens for each extension from the `k`-th on, in list order. */
  function TokensFrom(s: string, exts: seq<string>, k: nat): seq<string>
    decreases |exts| - k
  {
    if k >= |exts| then [] else Windows(s, exts[k], 0) + TokensFrom(s, exts, k + 1)
  }

  /** No character of `x` is a path separator. */
  predicate NoSeparator(x: string)
  {
    forall j :: 0 <= j < |x| ==> !IsSep(x[j])
  }

  /** A token holds its extension occurrence, has no separator when the
      extension has none, and cannot be widened on either side. */
  lemma WindowFacts(s: string, pos: nat, ext: string)
    requires OccursAt(s, ext, pos) && NoSeparator(ext)
    ensures LeftEdge(s, pos, false) <= pos
    ensures OccursAt(Window(s, pos, ext), ext, pos - LeftEdge(s, pos, false))
    ensures NoSeparator(Window(s, pos, ext))
    ensures LeftEdge(s, pos, false) == 0 || !NameChar(s[LeftEdge(s, pos, false) - 1], false)
    ensures RightEdge(s, pos + |ext|, false) == |s| || !NameChar(s[RightEdge(s, pos + |ext|, false)], false)
  {
    var l, r := LeftEdge(s, pos, false), RightEdge(s, pos + |ext|, false);
    LeftEdgeFacts(s, pos, false);
    RightEdgeFacts(s, pos + |ext|, false);
    var t := s[l..r];
    MatchesFromIff(s, ext, pos, 0);
    MatchesFromIff(t, ext, pos - l, 0);
    forall j | 0 <= j < |t| ensures !IsSep(t[j]) {
      assert t[j] == s[l + j];
      if l + j < pos {
        assert NameChar(s[l + j], false);
      } else if l + j < pos + |ext| {
        assert s[l + j] == ext[l + j - pos];
      } else {
        assert NameChar(s[l + j], false);
      }
    }
  }

  /** `t` is the token around some occurrence of `ext` in `s`. */
  ghost predicate WindowOf(s: string, ext: string, t: string)
  {
    exists p: nat :: OccursAt(s, ext, p) && t == Window(s, p, ext)
  }

  /** Every token in `Windows` comes from an occurrence at or after `start`. */
  lemma {:induction false} WindowsSound(s: string, ext: string, start: nat, t: string)
    requires t in Windows(s, ext, start)
    ensures exists p: nat :: start <= p && OccursAt(s, ext, p) && t == Window(s, p, ext)
    decreases |s| + 1 - start
  {
    match FindFrom(s, ext, start)
    case Some(p) =>
      if t != Window(s, p, ext) {
        WindowsSound(s, ext, p + 1, t);
      }
  }

  /** Every occurrence at or after `start` contributes its token. */
  lemma {:induction false} WindowsComplete(s: string, ext: string, start: nat, p: nat)
    requires start <= p && OccursAt(s, ext, p)
    ensures Window(s, p, ext) in Windows(s, ext, start)
    decreases |s| + 1 - start
  {
    FindFromFirst(s, ext, start);
    match FindFrom(s, ext, start)
    case Some(q) =>
      if q != p {
        WindowsComplete(s, ext, q + 1, p);
      }
  }

  /** The search for one extension yields exactly the tokens of its occurrences. */
  lemma WindowsIff(s: string, ext: string, t: string)
    ensures t in Windows(s, ext, 0) <==> WindowOf(s, ext, t)
  {
    if t in Windows(s, ext, 0) {
      WindowsSound(s, ext, 0, t);
    }
    if WindowOf(s, ext, t) {
      var p: nat :| OccursAt(s, ext, p) && t == Window(s, p, ext);
      WindowsComplete(s, ext, 0, p);
    }
  }

  /** Every token in `TokensFrom` is the window of an occurrence of one
      of the extensions from the `k`-th on. */
  lemma {:induction false} TokensFromSound(s: string, exts: seq<string>, k: nat, t: string)
    requires t in TokensFrom(s, exts, k)
    ensures exists j :: k <= j < |exts| && WindowOf(s, exts[j], t)
    decreases |exts| - k
  {
    TokensStep(s, exts, k);
    if t in Windows(s, exts[k], 0) {
      WindowsIff(s, exts[k], t);
    } else {
      TokensFromSound(s, exts, k + 1, t);
    }
  }

  /** The window of every occurrence of the `j`-th extension is in `TokensFrom`. */
  lemma {:induction false} TokensFromComplete(s: string, exts: seq<string>, k: nat, j: nat, t: string)
    requires k <= j < |exts| && WindowOf(s, exts[j], t)
    ensures t in TokensFrom(s, exts, k)
    decreases |exts| - k
  {
    TokensStep(s, exts, k);
    if j == k {
      WindowsIff(s, exts[k], t);
    } else {
      TokensFromComplete(s, exts, k + 1, j, t);
    }
  }

  /** One pass of the search loop for `ext`: the hit at `p` emits its
      token and the search resumes at `p + 1`. */
  lemma WindowsHit(s: string, ext: string, start: nat, p: nat)
    requires FindFrom(s, ext, start) == Some(p)
    ensures Windows(s, ext, start) == [Window(s, p, ext)] + Windows(s, ext, p + 1)
  {
  }

  lemma WindowsDone(s: string, ext: string, start: nat)
    requires FindFrom(s, ext, start).None?
    ensures Windows(s, ext, start) == []
  {
  }

  lemma TokensStep(s: string, exts: seq<string>, k: nat)
    requires k < |exts|
    ensures TokensFrom(s, exts, k) == Windows(s, exts[k], 0) + TokensFrom(s, exts, k + 1)
  {
  }

  /** Appending the head of a list as the `if x not in paths` test does. */
  lemma AppendNewCons<T>(acc: seq<T>, xs: seq<T>, x: T, rest: seq<T>)
    requires xs == [x] + rest
    ensures AppendNew(acc, xs) == AppendNew(if x in acc then acc else acc + [x], rest)
  {
    assert xs[0] == x && xs[1..] == rest;
  }

  /** Appending two lists in turn is appending their concatenation. */
  lemma {:induction false} AppendNewConcat<T>(acc: seq<T>, xs: seq<T>, ys: seq<T>)
    ensures AppendNew(AppendNew(acc, xs), ys) == AppendNew(acc, xs + ys)
    decreases |xs|
  {
    if xs != [] {
      assert (xs + ys)[0] == xs[0] && (xs + ys)[1..] == xs[1..] + ys;
      AppendNewConcat(if xs[0] in acc then acc else acc + [xs[0]], xs[1..], ys);
    } else {
      assert xs + ys == ys;
    }
  }

  /** The two expansion loops around one hit. */
  method TokenAt(s: string, pos: nat, ext: string) returns (filePath: string)
    requires pos + |ext| <= |s|
    ensures filePath == Window(s, pos, ext)
  {
    var fileStart := ExpandLeft(s, pos, false);
    var fileEnd := ExpandRight(s, pos + |ext|, false);
    filePath := s[fileStart..fileEnd];
  }

  /** The search loop for one extension: each hit's token is appended
      unless already listed, and the search resumes one past the hit. */
  method SplitOne(s: string, ext: string, paths0: seq<string>) returns (paths: seq<string>)
    ensures paths == AppendNew(paths0, Windows(s, ext, 0))
  {
    paths := paths0;
    var start := 0;
    while true
      invariant start <= |s| + 1
      invariant AppendNew(paths, Windows(s, ext, start)) == AppendNew(paths0, Windows(s, ext, 0))
      decreases |s| + 1 - start
    {
      var found := FindFrom(s, ext, start);
      if found.None? {
        WindowsDone(s, ext, start);
        break;
      }
      var pos := found.value;
      var filePath := TokenAt(s, pos, ext);
      WindowsHit(s, ext, start, pos);
      AppendNewCons(paths, Windows(s, ext, start), filePath, Windows(s, ext, pos + 1));
      if filePath !in paths {
        paths := paths + [filePath];
      }
      start := pos + 1;
    }
  }

  /** The splitter over any list of extensions, taken in list order. */
  method SplitPaths(s: string, exts: seq<string>) returns (paths: seq<string>)
    ensures paths == AppendNew([], TokensFrom(s, exts, 0))
  {
    paths := [];
    var k := 0;
    while k < |exts|
      invariant k <= |exts|
      invariant AppendNew(paths, TokensFrom(s, exts, k)) == AppendNew([], TokensFrom(s, exts, 0))
      decreases |exts| - k
    {
      TokensStep(s, exts, k);
      AppendNewConcat(paths, Windows(s, exts[k], 0), TokensFrom(s, exts, k + 1));
      paths := SplitOne(s, exts[k], paths);
      k := k + 1;
    }
  }

  /** `extract_file_paths_from_string` with its nine reference extensions. */
  method ExtractFilePathsFromString(s: string) returns (paths: seq<string>)
    ensures paths == AppendNew([], TokensFrom(s, ReferenceExtensions, 0))
  {
    paths := SplitPaths(s, ReferenceExtensions);
  }

  /** The splitter's result lists each token once, and holds exactly the
      windows of the occurrences of the extensions. */
  lemma SplitPathsFacts(s: string, exts: seq<string>, t: string)
    ensures NoDuplicates(AppendNew([], TokensFrom(s, exts, 0)))
    ensures t in AppendNew([], TokensFrom(s, exts, 0)) <==> exists j :: 0 <= j < |exts| && WindowOf(s, exts[j], t)
  {
    AppendNewFacts([], TokensFrom(s, exts, 0));
    if t in TokensFrom(s, exts, 0) {
      TokensFromSound(s, exts, 0, t);
    }
    if exists j :: 0 <= j < |exts| && WindowOf(s, exts[j], t) {
      var j :| 0 <= j < |exts| && WindowOf(s, exts[j], t);
      TokensFromComplete(s, exts, 0, j, t);
    }
  }

  /** Every path the splitter returns holds one of the extensions and,
      when no extension contains a separator, contains none. */
  lemma SplitPathShape(s: string, exts: seq<string>, t: string)
    requires forall j :: 0 <= j < |exts| ==> NoSeparator(exts[j])
    requires t in AppendNew([], TokensFrom(s, exts, 0))
    ensures exists j, i: nat :: 0 <= j < |exts| && OccursAt(t, exts[j], i)
    ensures NoSeparator(t)
  {
    SplitPathsFacts(s, exts, t);
    var j :| 0 <= j < |exts| && WindowOf(s, exts[j], t);
    var p: nat :| OccursAt(s, exts[j], p) && t == Window(s, p, exts[j]);
    WindowFacts(s, p, exts[j]);
  }

  /** No reference extension contains a separator. */
  lemma ReferenceExtensionsHaveNoSeparator()
    ensures forall j :: 0 <= j < |ReferenceExtensions| ==> NoSeparator(ReferenceExtensions[j])
  {
  }

  // ----- analyze_efk_file_precisely -----

  /** One entry of `file_paths`: the record's position, its whole string
      and one path extracted from it. */
  datatype PathEntry = PathEntry(position: nat, originalString: string, extractedPath: string)

  /** What the splitter returns for `s`. */
  function SplitResult(s: string, exts: seq<string>): seq<string>
  {
    AppendNew([], TokensFrom(s, exts, 0))
  }

  /** One entry per path in `ps`, in order, each with the record's position
      and string. */
  function EntriesFor(r: StringRecord, ps: seq<string>): (es: seq<PathEntry>)
    ensures |es| == |ps|
    ensures forall i :: 0 <= i < |ps| ==> es[i] == PathEntry(r.position, r.text, ps[i])
  {
    if ps == [] then [] else [PathEntry(r.position, r.text, ps[0])] + EntriesFor(r, ps[1..])
  }

  /** What one record contributes to `file_paths`: one entry per path the
      splitter cuts out of its string when its lower-cased string holds one
      of the nine extensions, none otherwise. */
  function RecordEntries(r: StringRecord, exts: seq<string>): seq<PathEntry>
  {
    if IsFilePath(r, exts) then EntriesFor(r, SplitResult(r.text, exts)) else []
  }

  /** The entries of `file_paths` for the records `rs`, record by record. */
  function PathEntries(rs: seq<StringRecord>, exts: seq<string>): seq<PathEntry>
  {
    if rs == [] then [] else RecordEntries(rs[0], exts) + PathEntries(rs[1..], exts)
  }

  /** `e` is an entry for the record `r`. */
  predicate EntryOf(r: StringRecord, exts: seq<string>, e: PathEntry)
  {
    IsFilePath(r, exts) && e.position == r.position &&
    e.originalString == r.text && e.extractedPath in SplitResult(r.text, exts)
  }

  /** An entry is listed exactly when it names a record that mentions an
      extension, with that record's position and string, and a path the
      splitter cuts out of that string. */
  lemma {:induction false} PathEntriesIff(rs: seq<StringRecord>, exts: seq<string>, e: PathEntry)
    ensures e in PathEntries(rs, exts) <==> exists k :: 0 <= k < |rs| && EntryOf(rs[k], exts, e)
  {
    if rs != [] {
      PathEntriesIff(rs[1..], exts, e);
      assert e in RecordEntries(rs[0], exts) <==> EntryOf(rs[0], exts, e) by {
        var head := RecordEntries(rs[0], exts);
        if e in head {
          var i :| 0 <= i < |head| && head[i] == e;
          assert e.extractedPath == SplitResult(rs[0].text, exts)[i];
        }
        if EntryOf(rs[0], exts, e) {
          var ps := SplitResult(rs[0].text, exts);
          var i :| 0 <= i < |ps| && ps[i] == e.extractedPath;
          assert head[i] == e;
        }
      }
      if exists k :: 1 <= k < |rs| && EntryOf(rs[k], exts, e) {
        var k :| 1 <= k < |rs| && EntryOf(rs[k], exts, e);
        assert rs[1..][k - 1] == rs[k];
      }
      if exists k :: 0 <= k < |rs[1..]| && EntryOf(rs[1..][k], exts, e) {
        var k :| 0 <= k < |rs[1..]| && EntryOf(rs[1..][k], exts, e);
        assert rs[1..][k] == rs[k + 1];
      }
    }
  }

  /** Every extracted path holds one of the nine extensions and no
      separator, and the entries of one record are distinct. */
  lemma PathEntryShape(rs: seq<StringRecord>, e: PathEntry)
    requires e in PathEntries(rs, ReferenceExtensions)
    ensures exists j, i: nat :: 0 <= j < |ReferenceExtensions| && OccursAt(e.extractedPath, ReferenceExtensions[j], i)
    ensures NoSeparator(e.extractedPath)
  {
    PathEntriesIff(rs, ReferenceExtensions, e);
    var k :| 0 <= k < |rs| && EntryOf(rs[k], ReferenceExtensions, e);
    ReferenceExtensionsHaveNoSeparator();
    SplitPathShape(rs[k].text, ReferenceExtensions, e.extractedPath);
  }

  lemma EntriesForSnoc(r: StringRecord, ps: seq<string>, j: nat)
    requires j < |ps|
    ensures EntriesFor(r, ps[..j + 1]) == EntriesFor(r, ps[..j]) + [PathEntry(r.position, r.text, ps[j])]
  {
  }

  lemma PathEntriesStep(rs: seq<StringRecord>, exts: seq<string>, i: nat)
    requires i < |rs|
    ensures PathEntries(rs[i..], exts) == RecordEntries(rs[i], exts) + PathEntries(rs[i + 1..], exts)
  {
    assert rs[i..][1..] == rs[i + 1..];
  }

  /** The inner loop: one entry per extracted path, appended in order. */
  method AppendEntries(r: StringRecord, paths: seq<string>, entries0: seq<PathEntry>) returns (entries: seq<PathEntry>)
    ensures entries == entries0 + EntriesFor(r, paths)
  {
    entries := entries0;
    for j := 0 to |paths|
      invariant entries == entries0 + EntriesFor(r, paths[..j])
    {
      EntriesForSnoc(r, paths, j);
      entries := entries + [PathEntry(r.position, r.text, paths[j])];
    }
    assert paths[..|paths|] == paths;
  }

  /** The loop of `analyze_efk_file_precisely` over the recovered records,
      for the extension list `exts`: a record whose lower-cased string
      holds one of them contributes one entry per path the splitter cuts
      out of it; every other record is kept, in order. */
  method SplitRecords(rs: seq<StringRecord>, exts: seq<string>)
    returns (filePaths: seq<PathEntry>, otherStrings: seq<StringRecord>)
    ensures filePaths == PathEntries(rs, exts)
    ensures otherStrings == FilterRecords(rs, exts, false)
  {
    filePaths := [];
    otherStrings := [];
    for i := 0 to |rs|
      invariant filePaths + PathEntries(rs[i..], exts) == PathEntries(rs, exts)
      invariant otherStrings + FilterRecords(rs[i..], exts, false) == FilterRecords(rs, exts, false)
    {
      var r := rs[i];
      PathEntriesStep(rs, exts, i);
      if MentionsAny(r.text, exts) {
        FilterSkip(rs, exts, i, false, otherStrings);
        var paths := SplitPaths(r.text, exts);
        ConcatAssoc(filePaths, EntriesFor(r, paths), PathEntries(rs[i + 1..], exts));
        filePaths := AppendEntries(r, paths, filePaths);
      } else {
        FilterTake(rs, exts, i, false, otherStrings);
        otherStrings := otherStrings + [r];
      }
    }
    assert rs[|rs|..] == [];
  }

  /** `analyze_efk_file_precisely`: the little-endian record walk, then the
      split of its records with the nine reference extensions. Every
      record left in `other_strings` is a recovered record that names no
      file. */
  method AnalyzeEfkFilePrecisely(c: seq<Byte>)
    returns (filePaths: seq<PathEntry>, otherStrings: seq<StringRecord>, allStrings: seq<StringRecord>)
    ensures allStrings == Walk(c, 4, LittleEndianPayload, StepOneByte)
    ensures filePaths == PathEntries(allStrings, ReferenceExtensions)
    ensures otherStrings == FilterRecords(allStrings, ReferenceExtensions, false)
    ensures forall r :: r in otherStrings ==> r in allStrings && !MentionsAny(r.text, ReferenceExtensions)
  {
    allStrings := WalkRecords(c, LittleEndianPayload, StepOneByte);
    filePaths, otherStrings := SplitRecords(allStrings, ReferenceExtensions);
    FilterSound(allStrings, ReferenceExtensions, false);
  }
}
