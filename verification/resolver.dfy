/** Reference resolution of main_window.py (`_find_file_path_in_directory`
    and `_find_file_path`, which differ only in the directory they are
    given): a reference string found in a container is turned into a file
    of the project by five tiers tried in order, an absolute path, the
    reference joined to the directory, a structured suffix match, a
    file-name match with a tie-break on shared directories, and a match on
    stem and extension. The file system is the list of its files in the
    order `os.walk` visits them; a path exists when its normal form is one
    of them. */
module Resolver {
  import opened Common
  import opened Paths
  import opened Extensions
  import opened DirScope

  /** The files of the file system, in walk order. */
  type FileIndex = seq<Path>

  /** `os.path.exists` for a file. */
  predicate Exists(fs: FileIndex, p: Path) { Normalize(p) in fs }

  /** `f` lies below `dir`. */
  predicate Below(dir: Path, f: Path) { |dir| < |f| && f[..|dir|] == dir }

  /** `os.walk(dir)`: the files below `dir`, in walk order. */
  function Walk(fs: FileIndex, dir: Path): (ws: seq<Path>)
    ensures forall k :: 0 <= k < |ws| ==> Below(dir, ws[k]) && ws[k] in fs
  {
    if fs == [] then []
    else Walk(fs[..|fs| - 1], dir) + if Below(dir, fs[|fs| - 1]) then [fs[|fs| - 1]] else []
  }

  /** The walk is the files below the directory, each kept in its place. */
  lemma {:induction false} WalkIff(fs: FileIndex, dir: Path, f: Path)
    ensures f in Walk(fs, dir) <==> f in fs && Below(dir, f)
  {
    if fs != [] {
      WalkIff(fs[..|fs| - 1], dir, f);
      assert fs == fs[..|fs| - 1] + [fs[|fs| - 1]];
    }
  }

  /** `os.path.relpath(f, dir)` for a file below `dir`, as components. */
  function Rel(f: Path, dir: Path): Path
  {
    if |dir| <= |f| then f[|dir|..] else f
  }

  /** The reference's components, either separator counting. */
  function RefParts(ref: string): seq<string>
  {
    Split(Slashes(ref), '/')
  }

  /** `'/' in file_name or '\\' in file_name`. */
  predicate HasSep(ref: string) { exists i :: 0 <= i < |ref| && IsSep(ref[i]) }

  /** `os.path.isabs`: the reference starts with a separator. */
  predicate IsAbsRef(ref: string) { ref != [] && IsSep(ref[0]) }

  /** An absolute reference as a path from the root. */
  function AbsPath(ref: string): Path
  {
    RefParts(ref)[1..]
  }

  /** `os.path.join(dir, ref)`: an absolute reference replaces the
      directory. */
  function JoinRef(dir: Path, ref: string): Path
  {
    if IsAbsRef(ref) then AbsPath(ref) else dir + RefParts(ref)
  }

  /** `s.strip('/')`: leading slashes removed, then trailing ones. */
  function StripSlash(s: string): (r: string)
    ensures |r| <= |s|
    ensures r != [] ==> r[0] != '/' && r[|r| - 1] != '/'
    decreases |s|
  {
    if s != [] && s[0] == '/' then StripSlash(s[1..])
    else if s != [] && s[|s| - 1] == '/' then StripSlash(s[..|s| - 1])
    else s
  }

  /** `file_name.replace('\\', '/').strip('/')`. */
  function CleanName(ref: string): string
  {
    StripSlash(Slashes(ref))
  }

  function LowerEach(parts: seq<string>): (low: seq<string>)
    ensures |low| == |parts| && forall k :: 0 <= k < |parts| ==> low[k] == Lower(parts[k])
  {
    seq(|parts|, k requires 0 <= k < |parts| => Lower(parts[k]))
  }

  /** `rel_parts[-len(parts):] == [p.lower() for p in parts]`: the trailing
      relative components, as they are, equal the lower-cased reference
      components. */
  predicate TrailingParts(relParts: seq<string>, parts: seq<string>)
  {
    |parts| <= |relParts| && relParts[|relParts| - |parts|..] == LowerEach(parts)
  }

  /** The structured tier's test of one walked file: its relative path
      equals the cleaned reference, case ignored, or ends with it and has
      matching trailing components. */
  predicate StructuredMatch(rel: Path, clean: string)
  {
    var relNorm := Join(rel, '/');
    Lower(relNorm) == Lower(clean) ||
    (EndsWith(Lower(relNorm), Lower(clean)) && TrailingParts(Split(relNorm, '/'), Split(clean, '/')))
  }

  function Structured(dir: Path, clean: string): (p: Path -> bool)
    ensures forall f :: p(f) == StructuredMatch(Rel(f, dir), clean)
  {
    f => StructuredMatch(Rel(f, dir), clean)
  }

  /** The first of `ws` that satisfies `p`. */
  function FirstWhere(ws: seq<Path>, p: Path -> bool): Option<Path>
  {
    if ws == [] then None else if p(ws[0]) then Some(ws[0]) else FirstWhere(ws[1..], p)
  }

  /** `FirstWhere` finds nothing exactly when nothing satisfies `p`, and
      otherwise the earliest element that does. */
  lemma {:induction false} FirstWhereFacts(ws: seq<Path>, p: Path -> bool)
    ensures FirstWhere(ws, p).None? <==> forall k :: 0 <= k < |ws| ==> !p(ws[k])
    ensures FirstWhere(ws, p).Some? ==>
      exists k :: 0 <= k < |ws| && ws[k] == FirstWhere(ws, p).value && p(ws[k]) && forall j :: 0 <= j < k ==> !p(ws[j])
  {
    if ws != [] && !p(ws[0]) {
      FirstWhereFacts(ws[1..], p);
      if FirstWhere(ws[1..], p).Some? {
        var k :| 0 <= k < |ws| - 1 && ws[1..][k] == FirstWhere(ws[1..], p).value &&
          p(ws[1..][k]) && forall j :: 0 <= j < k ==> !p(ws[1..][j]);
        assert ws[k + 1] == ws[1..][k];
        forall j | 0 <= j < k + 1 ensures !p(ws[j]) {
          if j > 0 {
            assert ws[j] == ws[1..][j - 1];
          }
        }
      }
      forall k | 1 <= k < |ws| ensures ws[k] == ws[1..][k - 1] {
      }
    }
  }

  /** The walk loop of a tier: the first file that passes, else none. */
  method FindFirst(ws: seq<Path>, p: Path -> bool) returns (r: Option<Path>)
    ensures r == FirstWhere(ws, p)
  {
    for i := 0 to |ws|
      invariant FirstWhere(ws[i..], p) == FirstWhere(ws, p)
    {
      assert ws[i..][1..] == ws[i + 1..];
      if p(ws[i]) {
        return Some(ws[i]);
      }
    }
    return None;
  }

  /** The files of the walk whose lower-cased name is `target`, in walk
      order. */
  function NameMatches(ws: seq<Path>, target: string): seq<Path>
  {
    if ws == [] then []
    else
      var f := ws[|ws| - 1];
      NameMatches(ws[..|ws| - 1], target) + if f != [] && Lower(f[|f| - 1]) == target then [f] else []
  }

  lemma {:induction false} NameMatchesIff(ws: seq<Path>, target: string, f: Path)
    ensures f in NameMatches(ws, target) <==> f in ws && f != [] && Lower(f[|f| - 1]) == target
  {
    if ws != [] {
      NameMatchesIff(ws[..|ws| - 1], target, f);
      assert ws == ws[..|ws| - 1] + [ws[|ws| - 1]];
    }
  }

  method CollectMatches(ws: seq<Path>, target: string) returns (ms: seq<Path>)
    ensures ms == NameMatches(ws, target)
  {
    ms := [];
    for i := 0 to |ws|
      invariant ms == NameMatches(ws[..i], target)
    {
      assert ws[..i + 1][..i] == ws[..i];
      var f := ws[i];
      if f != [] && Lower(f[|f| - 1]) == target {
        ms := ms + [f];
      }
    }
    assert ws[..|ws|] == ws;
  }

  /** The `j`-th components from the end of `a` and `b` agree, case
      ignored. */
  predicate TailAgrees(a: seq<string>, b: seq<string>, j: nat)
    requires j < |a| && j < |b|
  {
    SameName(a[|a| - 1 - j], b[|b| - 1 - j])
  }

  /** The number of trailing components `a` and `b` share, case ignored,
      counted from the end inward and stopping at the first mismatch. */
  function CommonTail(a: seq<string>, b: seq<string>, i: nat): (c: nat)
    requires i <= |a| && i <= |b|
    ensures i <= c <= |a| && c <= |b|
    decreases |a| - i
  {
    if i < |a| && i < |b| && TailAgrees(a, b, i) then CommonTail(a, b, i + 1) else i
  }

  /** The count covers agreeing components only, and stops at a mismatch or
      at the end of the shorter list. */
  lemma {:induction false} CommonTailFacts(a: seq<string>, b: seq<string>, i: nat)
    requires i <= |a| && i <= |b|
    ensures forall j :: i <= j < CommonTail(a, b, i) ==> TailAgrees(a, b, j)
    ensures CommonTail(a, b, i) < |a| && CommonTail(a, b, i) < |b| ==> !TailAgrees(a, b, CommonTail(a, b, i))
    decreases |a| - i
  {
    if i < |a| && i < |b| && TailAgrees(a, b, i) {
      CommonTailFacts(a, b, i + 1);
    }
  }

  /** The loop that counts `common_parts`. */
  method CountCommonTail(a: seq<string>, b: seq<string>) returns (c: nat)
    ensures c == CommonTail(a, b, 0)
  {
    c := 0;
    var minLen := if |a| < |b| then |a| else |b|;
    for i := 0 to minLen
      invariant c == i
      invariant CommonTail(a, b, i) == CommonTail(a, b, 0)
    {
      if Lower(a[|a| - 1 - i]) == Lower(b[|b| - 1 - i]) {
        assert TailAgrees(a, b, i);
        c := c + 1;
      } else {
        return;
      }
    }
  }

  /** Every component of a split path but the last: the directories. */
  function DirsOf(parts: seq<string>): seq<string>
    requires |parts| >= 1
  {
    parts[..|parts| - 1]
  }

  /** `file_name.replace('\\', '/').split('/')[:-1]`. */
  function FileDirParts(ref: string): seq<string>
  {
    DirsOf(RefParts(ref))
  }

  /** `match_rel.replace('\\', '/').split('/')[:-1]` for a match below
      `dir`. */
  function MatchDirParts(m: Path, dir: Path): seq<string>
  {
    DirsOf(Split(Join(Rel(m, dir), '/'), '/'))
  }

  function MatchDirs(dir: Path): (dirs: Path -> seq<string>)
    ensures forall m :: dirs(m) == MatchDirParts(m, dir)
  {
    m => MatchDirParts(m, dir)
  }

  /** `common_parts` of one match. */
  function Score(fileDirs: seq<string>, dirs: Path -> seq<string>): (score: Path -> nat)
    ensures forall m :: score(m) == CommonTail(fileDirs, dirs(m), 0)
  {
    m => CommonTail(fileDirs, dirs(m), 0)
  }

  /** `best_match` and `max_common_parts` after the loop over `ms`: a match
      replaces the best only with a strictly greater count. */
  datatype Best = Best(best: Option<Path>, count: nat)

  /** One match of the loop: it replaces the best with a strictly greater
      count. */
  function BestStep(b: Best, m: Path, count: nat): Best
  {
    if count > b.count then Best(Some(m), count) else b
  }

  function BestOf(ms: seq<Path>, score: Path -> nat): Best
  {
    if ms == [] then Best(None, 0)
    else BestStep(BestOf(ms[..|ms| - 1], score), ms[|ms| - 1], score(ms[|ms| - 1]))
  }

  lemma BestOfPrefix(ms: seq<Path>, score: Path -> nat, i: nat)
    requires i < |ms|
    ensures BestOf(ms[..i + 1], score) == BestStep(BestOf(ms[..i], score), ms[i], score(ms[i]))
  {
    assert ms[..i + 1][..i] == ms[..i];
  }

  /** The tie-break keeps no match exactly when every count is 0, and
      otherwise the first match with the greatest count. */
  lemma {:induction false} BestOfFacts(ms: seq<Path>, score: Path -> nat)
    ensures BestOf(ms, score).best.None? <==> forall k :: 0 <= k < |ms| ==> score(ms[k]) == 0
    ensures BestOf(ms, score).best.None? ==> BestOf(ms, score).count == 0
    ensures forall k :: 0 <= k < |ms| ==> score(ms[k]) <= BestOf(ms, score).count
    ensures BestOf(ms, score).best.Some? ==>
      exists k :: 0 <= k < |ms| && ms[k] == BestOf(ms, score).best.value &&
        score(ms[k]) == BestOf(ms, score).count && forall j :: 0 <= j < k ==> score(ms[j]) < BestOf(ms, score).count
  {
    if ms != [] {
      var init := ms[..|ms| - 1];
      var m := ms[|ms| - 1];
      BestOfFacts(init, score);
      var b := BestOf(init, score);
      forall k | 0 <= k < |init| ensures ms[k] == init[k] {
      }
      if score(m) > b.count {
        assert ms[|ms| - 1] == m;
      } else if b.best.Some? {
        var k :| 0 <= k < |init| && init[k] == b.best.value && score(init[k]) == b.count &&
          forall j :: 0 <= j < k ==> score(init[j]) < b.count;
        assert ms[k] == init[k];
      }
    }
  }

  /** The loop over the matches, with the count of each. */
  method PickBest(ms: seq<Path>, fileDirs: seq<string>, dirs: Path -> seq<string>) returns (best: Option<Path>)
    ensures best == BestOf(ms, Score(fileDirs, dirs)).best
  {
    ghost var score := Score(fileDirs, dirs);
    best := None;
    var maxCommon := 0;
    for i := 0 to |ms|
      invariant Best(best, maxCommon) == BestOf(ms[..i], score)
    {
      BestOfPrefix(ms, score, i);
      var common := CountCommonTail(fileDirs, dirs(ms[i]));
      if common > maxCommon {
        maxCommon := common;
        best := Some(ms[i]);
      }
    }
    assert ms[..|ms|] == ms;
  }

  /** The structured tier, for a reference with a separator: the first
      walked file whose relative path matches the cleaned reference. */
  function StructuredTier(ws: seq<Path>, dir: Path, ref: string): Option<Path>
  {
    if HasSep(ref) then FirstWhere(ws, Structured(dir, CleanName(ref))) else None
  }

  method FindStructured(ws: seq<Path>, dir: Path, ref: string) returns (r: Option<Path>)
    ensures r == StructuredTier(ws, dir, ref)
  {
    r := None;
    if HasSep(ref) {
      var clean := CleanName(ref);
      r := FindFirst(ws, Structured(dir, clean));
    }
  }

  /** The tie-break over several matches. */
  function TieBreak(ms: seq<Path>, dir: Path, ref: string): Best
  {
    BestOf(ms, Score(FileDirParts(ref), MatchDirs(dir)))
  }

  /** What the file-name tier makes of its matches: a single match is the
      answer; with several and a separator in the reference the tie-break
      decides; and otherwise the first match. */
  function PickMatch(ms: seq<Path>, sep: bool, score: Path -> nat): Option<Path>
  {
    if |ms| == 1 then Some(ms[0])
    else if |ms| > 1 && sep && BestOf(ms, score).best.Some? then BestOf(ms, score).best
    else if ms != [] then Some(ms[0])
    else None
  }

  /** The tier answers exactly when there is a match, with one of the
      matches, and under the tie-break with one that scores highest. */
  lemma PickMatchFacts(ms: seq<Path>, sep: bool, score: Path -> nat)
    ensures PickMatch(ms, sep, score).None? <==> ms == []
    ensures PickMatch(ms, sep, score).Some? ==> PickMatch(ms, sep, score).value in ms
    ensures sep && |ms| > 1 ==> forall k :: 0 <= k < |ms| ==> score(ms[k]) <= score(PickMatch(ms, sep, score).value)
  {
    BestOfFacts(ms, score);
    if sep && |ms| > 1 && BestOf(ms, score).best.None? {
      assert score(ms[0]) == 0;
    }
  }

  /** The file-name tier, when the extension of the lower-cased base name
      is one of the target extensions: the matches are the walked files of
      that name, case ignored. */
  function FilenameTier(ws: seq<Path>, dir: Path, ref: string): Option<Path>
  {
    var target := Lower(Basename(ref));
    if Ext(target) !in TargetExtensions then None
    else PickMatch(NameMatches(ws, target), HasSep(ref), Score(FileDirParts(ref), MatchDirs(dir)))
  }

  method FindByName(ws: seq<Path>, dir: Path, ref: string) returns (r: Option<Path>)
    ensures r == FilenameTier(ws, dir, ref)
  {
    var target := Lower(Basename(ref));
    if Ext(target) !in TargetExtensions {
      return None;
    }
    var ms := CollectMatches(ws, target);
    r := PickAmong(ms, HasSep(ref), FileDirParts(ref), MatchDirs(dir));
  }

  method PickAmong(ms: seq<Path>, sep: bool, fileDirs: seq<string>, dirs: Path -> seq<string>) returns (r: Option<Path>)
    ensures r == PickMatch(ms, sep, Score(fileDirs, dirs))
  {
    if |ms| == 1 {
      return Some(ms[0]);
    }
    if |ms| > 1 && sep {
      var best := PickBest(ms, fileDirs, dirs);
      if best.Some? {
        return best;
      }
    }
    if ms != [] {
      return Some(ms[0]);
    }
    return None;
  }

  /** The fuzzy tier's test: the same lower-cased stem and extension. */
  function Fuzzy(stem: string, ext: string): (p: Path -> bool)
    ensures forall f :: p(f) == (f != [] && Lower(Ext(f[|f| - 1])) == ext && Lower(Root(f[|f| - 1])) == stem)
  {
    f => f != [] && Lower(Ext(f[|f| - 1])) == ext && Lower(Root(f[|f| - 1])) == stem
  }

  /** The fuzzy tier: a stem longer than two characters and a target
      extension, then the first walked file with the same stem and
      extension, case ignored. */
  function FuzzyTier(ws: seq<Path>, ref: string): Option<Path>
  {
    var stem := Lower(Root(Basename(ref)));
    var ext := Lower(Ext(Basename(ref)));
    if ext in TargetExtensions && |stem| > 2 then FirstWhere(ws, Fuzzy(stem, ext)) else None
  }

  method FindFuzzy(ws: seq<Path>, ref: string) returns (r: Option<Path>)
    ensures r == FuzzyTier(ws, ref)
  {
    var stem := Lower(Root(Basename(ref)));
    var ext := Lower(Ext(Basename(ref)));
    r := None;
    if ext in TargetExtensions && |stem| > 2 {
      r := FindFirst(ws, Fuzzy(stem, ext));
    }
  }

  /** The first two tiers: an absolute reference that exists, then the
      reference joined to the directory. */
  function DirectTier(fs: FileIndex, dir: Path, ref: string): (r: Option<Path>)
    ensures r == if Exists(fs, JoinRef(dir, ref)) then Some(JoinRef(dir, ref)) else None
  {
    if IsAbsRef(ref) && Exists(fs, AbsPath(ref)) then Some(AbsPath(ref))
    else if Exists(fs, JoinRef(dir, ref)) then Some(JoinRef(dir, ref))
    else None
  }

  /** The first of two tiers that finds a file. */
  function OrElse(a: Option<Path>, b: Option<Path>): Option<Path>
  {
    if a.Some? then a else b
  }

  /** The resolver: the tiers in order, the first that finds a file
      deciding. */
  function Resolve(fs: FileIndex, dir: Path, ref: string): Option<Path>
  {
    var ws := Walk(fs, dir);
    OrElse(DirectTier(fs, dir, ref), OrElse(StructuredTier(ws, dir, ref),
      OrElse(FilenameTier(ws, dir, ref), FuzzyTier(ws, ref))))
  }

  /** `_find_file_path_in_directory` (and `_find_file_path`, the same code
      over the project directory). */
  method FindFilePath(fs: FileIndex, dir: Path, ref: string) returns (r: Option<Path>)
    ensures r == Resolve(fs, dir, ref)
  {
    if IsAbsRef(ref) && Exists(fs, AbsPath(ref)) {
      return Some(AbsPath(ref));
    }
    var joined := JoinRef(dir, ref);
    if Exists(fs, joined) {
      return Some(joined);
    }
    var ws := Walk(fs, dir);
    r := FindStructured(ws, dir, ref);
    if r.Some? {
      return;
    }
    r := FindByName(ws, dir, ref);
    if r.Some? {
      return;
    }
    r := FindFuzzy(ws, ref);
  }

  /** Every walk-tier answer is a walked file. */
  lemma WalkTiersWalked(ws: seq<Path>, dir: Path, ref: string)
    ensures StructuredTier(ws, dir, ref).Some? ==> StructuredTier(ws, dir, ref).value in ws
    ensures FuzzyTier(ws, ref).Some? ==> FuzzyTier(ws, ref).value in ws
  {
    if HasSep(ref) {
      FirstWhereFacts(ws, Structured(dir, CleanName(ref)));
    }
    var stem := Lower(Root(Basename(ref)));
    var ext := Lower(Ext(Basename(ref)));
    FirstWhereFacts(ws, Fuzzy(stem, ext));
  }

  /** The file-name tier answers with a walked file whose name is the
      reference's base name, case ignored; with several such files and a
      separator in the reference, one that shares the most trailing
      directories with it. */
  lemma FilenameTierFacts(ws: seq<Path>, dir: Path, ref: string)
    ensures FilenameTier(ws, dir, ref).Some? ==>
      var f := FilenameTier(ws, dir, ref).value;
      f in ws && f != [] && Lower(f[|f| - 1]) == Lower(Basename(ref))
    ensures FilenameTier(ws, dir, ref).Some? && HasSep(ref) && |NameMatches(ws, Lower(Basename(ref)))| > 1 ==>
      var ms := NameMatches(ws, Lower(Basename(ref)));
      var score := Score(FileDirParts(ref), MatchDirs(dir));
      forall k :: 0 <= k < |ms| ==> score(ms[k]) <= score(FilenameTier(ws, dir, ref).value)
  {
    var target := Lower(Basename(ref));
    var ms := NameMatches(ws, target);
    var score := Score(FileDirParts(ref), MatchDirs(dir));
    PickMatchFacts(ms, HasSep(ref), score);
    if FilenameTier(ws, dir, ref).Some? {
      NameMatchesIff(ws, target, FilenameTier(ws, dir, ref).value);
    }
  }

  /** Files with the same stem and extension, case ignored, have the same
      name, case ignored, and lower-casing keeps the extension. */
  lemma SameStemAndExt(name: string, b: string)
    requires Lower(Ext(name)) == Lower(Ext(b)) && Lower(Root(name)) == Lower(Root(b))
    ensures Lower(name) == Lower(b) && Ext(Lower(b)) == Lower(Ext(b))
  {
    SplitExtFacts(name);
    SplitExtFacts(b);
    LowerAppend(Root(name), Ext(name));
    LowerAppend(Root(b), Ext(b));
    LowerSplitExt(b);
  }

  /** The fuzzy tier never decides: a file with the reference's stem and
      extension, case ignored, has its name, so the file-name tier has
      already found a file. */
  lemma FuzzyTierUnreachable(ws: seq<Path>, dir: Path, ref: string)
    ensures FilenameTier(ws, dir, ref).None? ==> FuzzyTier(ws, ref).None?
  {
    var b := Basename(ref);
    var stem := Lower(Root(b));
    var ext := Lower(Ext(b));
    if ext in TargetExtensions && |stem| > 2 && FuzzyTier(ws, ref).Some? {
      var p := Fuzzy(stem, ext);
      FirstWhereFacts(ws, p);
      var f := FuzzyTier(ws, ref).value;
      assert f in ws && p(f);
      SameStemAndExt(f[|f| - 1], b);
      NameMatchesIff(ws, Lower(b), f);
      PickMatchFacts(NameMatches(ws, Lower(b)), HasSep(ref), Score(FileDirParts(ref), MatchDirs(dir)));
    }
  }

  /** The suffix branch of the structured test holds only when the trailing
      components of the walked file are already lower case: an upper-case
      file name written with its own case is left to the file-name tier. */
  lemma StructuredSuffixLowercase(rel: Path, clean: string)
    ensures StructuredMatch(rel, clean) && Lower(Join(rel, '/')) != Lower(clean) ==>
      var relParts := Split(Join(rel, '/'), '/');
      var parts := Split(clean, '/');
      forall k :: |relParts| - |parts| <= k < |relParts| ==> Lower(relParts[k]) == relParts[k]
  {
    var relParts := Split(Join(rel, '/'), '/');
    var parts := Split(clean, '/');
    if StructuredMatch(rel, clean) && Lower(Join(rel, '/')) != Lower(clean) {
      assert TrailingParts(relParts, parts);
      forall k | |relParts| - |parts| <= k < |relParts| ensures Lower(relParts[k]) == relParts[k] {
        var j := k - (|relParts| - |parts|);
        assert relParts[k] == relParts[|relParts| - |parts|..][j] == LowerEach(parts)[j] == Lower(parts[j]);
        LowerIdempotent(parts[j]);
      }
    }
  }

  lemma LowerIdempotent(s: string)
    ensures Lower(Lower(s)) == Lower(s)
  {
  }

  /** With every file of the file system in normal form, the resolver
      answers only with a path that exists. */
  lemma ResolvedExists(fs: FileIndex, dir: Path, ref: string)
    requires forall k :: 0 <= k < |fs| ==> NormalPath(fs[k])
    ensures Resolve(fs, dir, ref).Some? ==> Exists(fs, Resolve(fs, dir, ref).value)
  {
    var ws := Walk(fs, dir);
    var r := Resolve(fs, dir, ref);
    if r.Some? && DirectTier(fs, dir, ref).None? {
      WalkTiersWalked(ws, dir, ref);
      FilenameTierFacts(ws, dir, ref);
      assert r.value in ws;
      WalkIff(fs, dir, r.value);
      NormalizeNormal(r.value);
    }
  }

  /** An answer of the walk tiers lies below the searched directory. */
  lemma ResolvedBelow(fs: FileIndex, dir: Path, ref: string)
    ensures Resolve(fs, dir, ref).Some? && DirectTier(fs, dir, ref).None? ==> Below(dir, Resolve(fs, dir, ref).value)
  {
    var ws := Walk(fs, dir);
    var r := Resolve(fs, dir, ref);
    if r.Some? && DirectTier(fs, dir, ref).None? {
      WalkTiersWalked(ws, dir, ref);
      FilenameTierFacts(ws, dir, ref);
      assert r.value in ws;
      WalkIff(fs, dir, r.value);
    }
  }
}
