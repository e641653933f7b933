/** The Lua side of unused-image detection (lua_analyzer.py): the image
    names that string literals of the code project's Lua files mention, and
    the test that decides whether an unused image is referenced by them.
    What the two regular expressions capture from a file's text is not
    interpreted: the strings they capture, both patterns one after the
    other, are a parameter. */
module LuaAnalyzer {
  import opened Common
  import opened Paths
  import opened ScanResults

  /** `image_extensions`; the source keeps them in a set, and only whether a
      string ends with one of them matters. */
  const ImageExtensions: seq<string> := [".png", ".jpg", ".jpeg", ".bmp", ".tga", ".gif"]

  predicate IsQuote(ch: char) { ch == '\'' || ch == '"' }

  /** The shape of an image extension: a dot and at least three more
      characters, none of them a quote or a separator. */
  predicate ExtensionShape(e: string)
  {
    |e| >= 4 && e[0] == '.' && forall j :: 0 <= j < |e| ==> !IsQuote(e[j]) && !IsSep(e[j])
  }

  lemma ImageExtensionShape()
    ensures forall k :: 0 <= k < |ImageExtensions| ==> ExtensionShape(ImageExtensions[k])
  {
  }

  /** Does `s` end with one of `exts`? */
  predicate EndsWithAny(s: string, exts: seq<string>)
  {
    exists k :: 0 <= k < |exts| && EndsWith(s, exts[k])
  }

  /** `_is_image_reference`: a string of at least three characters whose
      lower-case form ends with an image extension. */
  predicate IsImageReference(s: string)
  {
    if s == [] || |s| < 3 then false
    else EndsWithAny(Lower(s), ImageExtensions)
  }

  /** The length guard never decides: every extension is longer than three
      characters, so a string that ends with one is long enough anyway. */
  lemma ImageReferenceIff(s: string)
    ensures IsImageReference(s) <==> EndsWithAny(Lower(s), ImageExtensions)
  {
    if EndsWithAny(Lower(s), ImageExtensions) {
      ImageExtensionShape();
      var k :| 0 <= k < |ImageExtensions| && EndsWith(Lower(s), ImageExtensions[k]);
      assert ExtensionShape(ImageExtensions[k]);
    }
  }

  /** `s.strip('\'"')`: quotes removed from the front, then from the back. */
  function StripQuotes(s: string): (r: string)
    ensures |r| <= |s|
    decreases |s|
  {
    if s != [] && IsQuote(s[0]) then StripQuotes(s[1..])
    else if s != [] && IsQuote(s[|s| - 1]) then StripQuotes(s[..|s| - 1])
    else s
  }

  /** `r` is the slice of `s` from `i` with only quotes around it. */
  predicate QuotedSlice(s: string, i: nat, r: string)
  {
    i + |r| <= |s| && r == s[i..i + |r|] &&
    (forall k :: 0 <= k < i ==> IsQuote(s[k])) &&
    (forall k :: i + |r| <= k < |s| ==> IsQuote(s[k]))
  }

  /** Dropping a leading quote keeps a quoted slice one place on. */
  lemma QuotedSliceFront(s: string, j: nat, r: string)
    requires s != [] && IsQuote(s[0]) && QuotedSlice(s[1..], j, r)
    ensures QuotedSlice(s, j + 1, r)
  {
    assert s[1..][j..j + |r|] == s[j + 1..j + 1 + |r|];
  }

  /** Dropping a trailing quote keeps a quoted slice in place. */
  lemma QuotedSliceBack(s: string, i: nat, r: string)
    requires s != [] && IsQuote(s[|s| - 1]) && QuotedSlice(s[..|s| - 1], i, r)
    ensures QuotedSlice(s, i, r)
  {
    assert s[..|s| - 1][i..i + |r|] == s[i..i + |r|];
  }

  /** What the strip keeps: the slice of `s` from `i` with only quotes
      around it, which neither starts nor ends with a quote. */
  lemma {:induction false} StripQuotesSlice(s: string) returns (i: nat)
    ensures QuotedSlice(s, i, StripQuotes(s))
    ensures StripQuotes(s) != [] ==> !IsQuote(StripQuotes(s)[0]) && !IsQuote(StripQuotes(s)[|StripQuotes(s)| - 1])
    decreases |s|
  {
    if s != [] && IsQuote(s[0]) {
      var j := StripQuotesSlice(s[1..]);
      QuotedSliceFront(s, j, StripQuotes(s[1..]));
      i := j + 1;
    } else if s != [] && IsQuote(s[|s| - 1]) {
      i := StripQuotesSlice(s[..|s| - 1]);
      QuotedSliceBack(s, i, StripQuotes(s[..|s| - 1]));
    } else {
      i := 0;
      assert s[0..|s|] == s;
    }
  }

  /** `_extract_image_filename`: the quotes stripped, the backslashes
      turned into slashes, and the last slash-separated part kept when it
      holds a dot. */
  function ExtractImageFilename(p: string): Option<string>
  {
    if p == [] then None
    else
      var parts := Split(Slashes(StripQuotes(p)), '/');
      var name := Last(parts);
      if name != [] && '.' in name then Some(name) else None
  }

  /** The last part of a split, one character at a time. */
  lemma SplitLastUnfold(s: string, sep: char)
    requires |s| > 0
    ensures Last(Split(s, sep)) ==
      if s[0] != sep && |Split(s[1..], sep)| == 1 then [s[0]] + Split(s[1..], sep)[0]
      else Last(Split(s[1..], sep))
  {
    var rest := Split(s[1..], sep);
    var parts := Split(s, sep);
    if s[0] == sep {
      assert parts == [""] + rest;
      assert Last(parts) == parts[|rest|] == rest[|rest| - 1];
    } else {
      assert parts == [[s[0]] + rest[0]] + rest[1..];
      assert |parts| == |rest|;
    }
  }

  /** A split into several parts leaves a last part shorter than the
      string. */
  lemma SplitSeveralLast(s: string, sep: char)
    requires |Split(s, sep)| >= 2
    requires SuffixAfterSep(s, Last(Split(s, sep)), sep)
    ensures |Last(Split(s, sep))| < |s|
  {
    var parts := Split(s, sep);
    var l := Last(parts);
    JoinSplit(s, sep);
    assert s == parts[0] + [sep] + Join(parts[1..], sep);
    assert s[|parts[0]|] == sep;
    assert forall i :: 0 <= i < |l| ==> l[i] != sep;
  }

  /** `l` ends `s`, and is all of it or has the separator before it. */
  predicate SuffixAfterSep(s: string, l: string, sep: char)
  {
    |l| <= |s| && l == s[|s| - |l|..] && (|l| < |s| ==> s[|s| - |l| - 1] == sep)
  }

  /** A suffix of `s[1..]` that has the separator before it, or is all of
      `s[1..]` after a separator, is a suffix of `s` with the same. */
  lemma SuffixFromTail(s: string, sep: char, l: string)
    requires |s| > 0 && SuffixAfterSep(s[1..], l, sep)
    requires |l| == |s| - 1 ==> s[0] == sep
    ensures SuffixAfterSep(s, l, sep)
  {
    assert s[1..][|s| - 1 - |l|..] == s[|s| - |l|..];
  }

  /** The last part of a split is the suffix after the last separator. */
  lemma {:induction false} SplitLastSuffix(s: string, sep: char)
    ensures SuffixAfterSep(s, Last(Split(s, sep)), sep)
    decreases |s|
  {
    if |s| > 0 {
      var t := s[1..];
      var rest := Split(t, sep);
      SplitLastSuffix(t, sep);
      SplitLastUnfold(s, sep);
      if s[0] != sep && |rest| == 1 {
        JoinSplit(t, sep);
        assert rest[0] == t;
        assert [s[0]] + t == s;
      } else {
        if s[0] != sep {
          SplitSeveralLast(t, sep);
        }
        SuffixFromTail(s, sep, Last(rest));
      }
    }
  }

  /** Splitting on slashes after turning backslashes into slashes finds the
      base name that `os.path.basename` finds, both separators counting. */
  lemma SplitLastIsBasename(s: string)
    ensures Last(Split(Slashes(s), '/')) == Basename(s)
  {
    var t := Slashes(s);
    var l := Last(Split(t, '/'));
    SplitLastSuffix(t, '/');
    var m := |t| - |l|;
    forall j | m <= j < |s| ensures !IsSep(s[j]) && t[j] == s[j] {
      assert l[j - m] == t[j];
    }
    assert l == s[m..];
    LastSepFacts(s, |s|);
    if m > 0 {
      assert t[m - 1] == '/';
      assert IsSep(s[m - 1]);
    }
  }

  /** The reference definition: the base name of the stripped path, kept
      when it holds a dot. */
  lemma ExtractIsBasename(p: string)
    ensures ExtractImageFilename(p) ==
      if p != [] && '.' in Basename(StripQuotes(p)) then Some(Basename(StripQuotes(p))) else None
  {
    SplitLastIsBasename(StripQuotes(p));
  }

  /** The last `|e|` characters of `s` are `e` once lower-cased. */
  lemma EndingAt(s: string, e: string, j: nat)
    requires EndsWith(Lower(s), e) && j < |e|
    ensures LowerChar(s[|s| - |e| + j]) == e[j]
  {
    assert Lower(s)[|s| - |e|..][j] == e[j];
  }

  /** A slice of `s` with only quotes around it keeps an ending `e` of
      `s` that holds no quote. */
  lemma QuotedSliceEnding(s: string, e: string, i: nat, r: string)
    requires e != [] && EndsWith(Lower(s), e)
    requires forall j :: 0 <= j < |e| ==> !IsQuote(e[j])
    requires QuotedSlice(s, i, r)
    ensures EndsWith(Lower(r), e)
  {
    var n := |s| - |e|;
    EndingAt(s, e, |e| - 1);
    EndingAt(s, e, 0);
    assert !IsQuote(s[|s| - 1]);
    assert !IsQuote(s[n]);
    assert i + |r| == |s|;
    LowerSlice(s, i, |s|);
    assert Lower(r)[|r| - |e|..] == Lower(s)[n..];
  }

  /** A string that ends with `e`, which holds no quote, still ends with
      `e` once its quotes are stripped. */
  lemma StripKeepsEnding(s: string, e: string)
    requires e != [] && EndsWith(Lower(s), e)
    requires forall j :: 0 <= j < |e| ==> !IsQuote(e[j])
    ensures EndsWith(Lower(StripQuotes(s)), e)
  {
    var i := StripQuotesSlice(s);
    QuotedSliceEnding(s, e, i, StripQuotes(s));
  }

  /** A suffix of `s` that starts after position `b`, which comes before
      the ending `e` of `s`, ends with `e` too. */
  lemma SuffixKeepsEnding(s: string, e: string, b: int)
    requires EndsWith(Lower(s), e)
    requires -1 <= b < |s| - |e|
    ensures EndsWith(Lower(s[b + 1..]), e)
  {
    LowerSlice(s, b + 1, |s|);
    assert Lower(s[b + 1..])[|s| - (b + 1) - |e|..] == Lower(s)[|s| - |e|..];
  }

  /** A string that ends with `e`, which holds no separator, has a base
      name that ends with `e`. */
  lemma BasenameKeepsEnding(s: string, e: string)
    requires EndsWith(Lower(s), e)
    requires forall j :: 0 <= j < |e| ==> !IsSep(e[j])
    ensures EndsWith(Lower(Basename(s)), e)
  {
    var n := |s| - |e|;
    forall j | n <= j < |s| ensures !IsSep(s[j]) {
      EndingAt(s, e, j - n);
    }
    LastSepFacts(s, |s|);
    var b := LastSep(s, |s|);
    SuffixKeepsEnding(s, e, b);
  }

  /** The base name of a stripped string that ends with an extension-shaped
      `e` ends with `e` too, and holds a dot where `e` starts. */
  lemma EndingName(s: string, e: string)
    requires ExtensionShape(e) && EndsWith(Lower(s), e)
    ensures EndsWith(Lower(Basename(StripQuotes(s))), e)
    ensures '.' in Basename(StripQuotes(s))
  {
    StripKeepsEnding(s, e);
    BasenameKeepsEnding(StripQuotes(s), e);
    var name := Basename(StripQuotes(s));
    EndingAt(name, e, 0);
    assert name[|name| - |e|] == '.';
  }

  /** Every string that passes `_is_image_reference` gives a name, the base
      name of the stripped string, and that name is itself an image
      reference without a separator: the dot test of
      `_extract_image_filename` never fails after the extension test has
      passed. */
  lemma ImageReferenceName(s: string)
    requires IsImageReference(s)
    ensures ExtractImageFilename(s) == Some(Basename(StripQuotes(s)))
    ensures RecordedName(Basename(StripQuotes(s)))
  {
    ImageExtensionShape();
    var k :| 0 <= k < |ImageExtensions| && EndsWith(Lower(s), ImageExtensions[k]);
    var e := ImageExtensions[k];
    assert ExtensionShape(e);
    EndingName(s, e);
    var name := Basename(StripQuotes(s));
    assert EndsWith(Lower(name), ImageExtensions[k]);
    BasenameFacts(StripQuotes(s));
    ExtractIsBasename(s);
  }

  /** `_path_matches`: with a separator in the reference, the full path
      ends with it or holds its last two parts, and otherwise the base
      names are equal, case ignored on both sides. */
  predicate PathMatches(full: string, ref: string)
  {
    var f := Slashes(full);
    var r := Slashes(ref);
    if '/' in r then
      EndsWith(Lower(f), Lower(r)) ||
      (var parts := Split(r, '/');
       |parts| >= 2 && Contains(Lower(f), Lower(Join(parts[|parts| - 2..], '/'))))
    else Lower(Basename(f)) == Lower(r)
  }

  /** A string without `from` is left alone by the replacement. */
  lemma ReplaceAbsent(s: string, a: char, b: char)
    requires a !in s
    ensures ReplaceChar(s, a, b) == s
  {
  }

  lemma {:induction false} SlashesLastSep(s: string, n: nat)
    requires n <= |s|
    ensures LastSep(Slashes(s), n) == LastSep(s, n)
  {
    if n > 0 {
      SlashesLastSep(s, n - 1);
    }
  }

  /** Turning backslashes into slashes does not move the base name. */
  lemma SlashesBasename(s: string)
    ensures Basename(Slashes(s)) == Basename(s)
  {
    SlashesLastSep(s, |s|);
    LastSepFacts(s, |s|);
  }

  /** A reference without a separator matches exactly the paths whose base
      name equals it, case ignored. */
  lemma PathMatchesPlain(full: string, ref: string)
    requires forall j :: 0 <= j < |ref| ==> !IsSep(ref[j])
    ensures PathMatches(full, ref) <==> Lower(Basename(full)) == Lower(ref)
  {
    ReplaceAbsent(ref, '\\', '/');
    SlashesBasename(full);
  }

  /** A string with a separator splits into at least two parts. */
  lemma {:induction false} SplitSeveral(s: string, sep: char)
    requires sep in s
    ensures |Split(s, sep)| >= 2
    decreases |s|
  {
    if s[0] != sep {
      SplitSeveral(s[1..], sep);
    }
  }

  /** The join of a tail of the parts ends the join of all of them. */
  lemma {:induction false} JoinTail(parts: seq<string>, sep: char, k: nat)
    requires k < |parts|
    ensures EndsWith(Join(parts, sep), Join(parts[k..], sep))
  {
    if k > 0 {
      JoinTail(parts[1..], sep, k - 1);
      assert parts[1..][k - 1..] == parts[k..];
      var whole := Join(parts, sep);
      var tail := Join(parts[1..], sep);
      assert whole == parts[0] + [sep] + tail;
      assert whole[|whole| - |tail|..] == tail;
    } else {
      assert parts[0..] == parts;
    }
  }

  /** The last two parts of a path with a separator, joined again. */
  function LastTwoParts(r: string): string
  {
    var parts := Split(r, '/');
    if |parts| >= 2 then Join(parts[|parts| - 2..], '/') else r
  }

  lemma EndsWithTrans<T>(a: seq<T>, b: seq<T>, c: seq<T>)
    requires EndsWith(a, b) && EndsWith(b, c)
    ensures EndsWith(a, c)
  {
    assert a[|a| - |c|..] == b[|b| - |c|..];
  }

  lemma LowerEndsWith(a: string, b: string)
    requires EndsWith(a, b)
    ensures EndsWith(Lower(a), Lower(b))
  {
    LowerSlice(a, |a| - |b|, |a|);
  }

  lemma EndsWithContains<T>(a: seq<T>, b: seq<T>)
    requires EndsWith(a, b)
    ensures Contains(a, b)
  {
    OccursAtSlice(a, b, |a| - |b|);
  }

  /** A reference with a separator matches exactly the paths that hold its
      last two parts, case ignored: the length test on the parts never
      fails, and the ending test never decides, since a path that ends with
      the reference holds its last two parts too. */
  lemma PathMatchesSeparated(full: string, ref: string)
    requires exists j :: 0 <= j < |ref| && IsSep(ref[j])
    ensures PathMatches(full, ref) <==> Contains(Lower(Slashes(full)), Lower(LastTwoParts(Slashes(ref))))
  {
    var f := Slashes(full);
    var r := Slashes(ref);
    var j :| 0 <= j < |ref| && IsSep(ref[j]);
    assert r[j] == '/';
    var parts := Split(r, '/');
    SplitSeveral(r, '/');
    var two := LastTwoParts(r);
    JoinSplit(r, '/');
    JoinTail(parts, '/', |parts| - 2);
    assert EndsWith(r, two);
    if EndsWith(Lower(f), Lower(r)) {
      LowerEndsWith(r, two);
      EndsWithTrans(Lower(f), Lower(r), Lower(two));
      EndsWithContains(Lower(f), Lower(two));
    }
  }

  /** The lower-case forms of the references. */
  function LowerAll(refs: set<string>): (lows: set<string>)
    ensures forall r :: r in refs ==> Lower(r) in lows
    ensures forall q :: q in lows ==> exists r :: r in refs && Lower(r) == q
  {
    set r | r in refs :: Lower(r)
  }

  /** `check_if_file_referenced_in_lua` over the recorded references: the
      image's base name is among them, case ignored, or some reference
      matches the unused file's path. */
  predicate ReferencedInLua(refs: set<string>, imageFilename: string, unusedPath: string)
  {
    Lower(Basename(imageFilename)) in LowerAll(refs) ||
    exists r :: r in refs && PathMatches(unusedPath, r)
  }

  /** A name recorded from Lua: a separator-free image reference. */
  predicate RecordedName(n: string)
  {
    IsImageReference(n) && forall j :: 0 <= j < |n| ==> !IsSep(n[j])
  }

  /** Over names the analyzer records, which hold no separator, the path
      test reduces to a base-name test: an unused image counts as referenced
      exactly when its own base name or the base name of its path is a
      recorded name, case ignored. */
  lemma ReferencedInLuaRecorded(refs: set<string>, imageFilename: string, unusedPath: string)
    requires forall r :: r in refs ==> RecordedName(r)
    ensures ReferencedInLua(refs, imageFilename, unusedPath) <==>
      Lower(Basename(imageFilename)) in LowerAll(refs) || Lower(Basename(unusedPath)) in LowerAll(refs)
  {
    forall r | r in refs
      ensures PathMatches(unusedPath, r) <==> Lower(Basename(unusedPath)) == Lower(r)
    {
      PathMatchesPlain(unusedPath, r);
    }
  }

  /** The name a captured string adds to `image_references`, if any. */
  function NameOf(v: string): (ns: set<string>)
    ensures |ns| <= 1
  {
    if IsImageReference(v) then
      match ExtractImageFilename(v)
      case Some(n) => {n}
      case None => {}
    else {}
  }

  /** What one string, or one file, adds to `image_references`. */
  type Adds = string -> set<string>

  /** What each of `xs` adds, taken one after another. */
  function UnionOf(xs: seq<string>, add: Adds): set<string>
  {
    if xs == [] then {} else UnionOf(xs[..|xs| - 1], add) + add(xs[|xs| - 1])
  }

  lemma UnionOfSnoc(xs: seq<string>, add: Adds, i: nat)
    requires i < |xs|
    ensures UnionOf(xs[..i + 1], add) == UnionOf(xs[..i], add) + add(xs[i])
  {
    assert xs[..i + 1][..i] == xs[..i];
  }

  /** An element is added exactly when one of `xs` adds it. */
  lemma {:induction false} UnionOfIff(xs: seq<string>, add: Adds, n: string)
    ensures n in UnionOf(xs, add) <==> exists k :: 0 <= k < |xs| && n in add(xs[k])
  {
    if xs != [] {
      var init := xs[..|xs| - 1];
      UnionOfIff(init, add, n);
      if n in UnionOf(init, add) {
        var k :| 0 <= k < |init| && n in add(init[k]);
        assert xs[k] == init[k];
      }
      if exists k :: 0 <= k < |xs| && n in add(xs[k]) {
        var k :| 0 <= k < |xs| && n in add(xs[k]);
        if k < |init| {
          assert init[k] == xs[k];
        }
      }
    }
  }

  /** When each adds at most one element, the union has at most one per
      element of `xs`. */
  lemma {:induction false} UnionOfBound(xs: seq<string>, add: Adds)
    requires forall x :: |add(x)| <= 1
    ensures |UnionOf(xs, add)| <= |xs|
  {
    if xs != [] {
      UnionOfBound(xs[..|xs| - 1], add);
      SetUnionBound(UnionOf(xs[..|xs| - 1], add), add(xs[|xs| - 1]));
    }
  }

  lemma SetUnionBound<T>(a: set<T>, b: set<T>)
    ensures |a + b| <= |a| + |b|
  {
    assert a + b == a + (b - a);
    assert |a + (b - a)| == |a| + |b - a|;
    assert b - a <= b;
  }

  function Names(): (add: Adds)
    ensures forall v :: add(v) == NameOf(v)
  {
    v => NameOf(v)
  }

  /** The names the captured strings of one file add. */
  function ImageNames(values: seq<string>): set<string>
  {
    UnionOf(values, Names())
  }

  /** A captured string adds a name exactly when it passes
      `_is_image_reference` and extracts to it; the name is then the base
      name of the string without its quotes, and a recorded name. */
  lemma NameOfIff(v: string, n: string)
    ensures n in NameOf(v) <==> IsImageReference(v) && ExtractImageFilename(v) == Some(n)
    ensures n in NameOf(v) ==> n == Basename(StripQuotes(v)) && RecordedName(n)
  {
    if IsImageReference(v) {
      ImageReferenceName(v);
    }
  }

  /** A name is added exactly when some captured string passes
      `_is_image_reference` and extracts to it, and it is then a recorded
      name. */
  lemma ImageNamesIff(values: seq<string>, n: string)
    ensures n in ImageNames(values) <==>
      exists k :: 0 <= k < |values| && IsImageReference(values[k]) && ExtractImageFilename(values[k]) == Some(n)
    ensures n in ImageNames(values) ==> RecordedName(n)
  {
    UnionOfIff(values, Names(), n);
    forall k | 0 <= k < |values|
      ensures n in NameOf(values[k]) <==> IsImageReference(values[k]) && ExtractImageFilename(values[k]) == Some(n)
      ensures n in NameOf(values[k]) ==> RecordedName(n)
    {
      NameOfIff(values[k], n);
    }
  }

  /** At most one name per captured string. */
  lemma ImageNamesCount(values: seq<string>)
    ensures |ImageNames(values)| <= |values|
  {
    UnionOfBound(values, Names());
  }

  /** The strings the regular expressions capture from a Lua file, given
      its path. */
  type LuaStrings = string -> seq<string>

  function FileNames(captured: LuaStrings): (add: Adds)
    ensures forall f :: add(f) == ImageNames(captured(f))
  {
    f => ImageNames(captured(f))
  }

  /** The names a scan of the files adds, file after file. */
  function ScanNames(files: seq<string>, captured: LuaStrings): set<string>
  {
    UnionOf(files, FileNames(captured))
  }

  /** A scan adds exactly the names some string of some file adds, and
      every one of them is a recorded name. */
  lemma ScanNamesIff(files: seq<string>, captured: LuaStrings, n: string)
    ensures n in ScanNames(files, captured) <==> exists k :: 0 <= k < |files| && n in ImageNames(captured(files[k]))
    ensures n in ScanNames(files, captured) ==> RecordedName(n)
  {
    UnionOfIff(files, FileNames(captured), n);
    if n in ScanNames(files, captured) {
      var k :| 0 <= k < |files| && n in ImageNames(captured(files[k]));
      ImageNamesIff(captured(files[k]), n);
    }
  }

  /** `_find_all_lua_files`: the walked files whose lower-case name ends
      with `.lua`, in walk order. */
  function LuaPaths(walk: seq<WalkedFile>): seq<string>
  {
    if walk == [] then []
    else
      var f := walk[|walk| - 1];
      LuaPaths(walk[..|walk| - 1]) + if EndsWith(Lower(f.name), ".lua") then [f.path] else []
  }

  lemma {:induction false} LuaPathsIff(walk: seq<WalkedFile>, p: string)
    ensures p in LuaPaths(walk) <==> exists k :: 0 <= k < |walk| && walk[k].path == p && EndsWith(Lower(walk[k].name), ".lua")
  {
    if walk != [] {
      var init := walk[..|walk| - 1];
      LuaPathsIff(init, p);
      if exists k :: 0 <= k < |init| && init[k].path == p && EndsWith(Lower(init[k].name), ".lua") {
        var k :| 0 <= k < |init| && init[k].path == p && EndsWith(Lower(init[k].name), ".lua");
        assert walk[k] == init[k];
      }
      if exists k :: 0 <= k < |walk| && walk[k].path == p && EndsWith(Lower(walk[k].name), ".lua") {
        var k :| 0 <= k < |walk| && walk[k].path == p && EndsWith(Lower(walk[k].name), ".lua");
        if k < |init| {
          assert init[k] == walk[k];
        }
      }
    }
  }

  datatype LuaStatistics = LuaStatistics(totalLuaFiles: nat, totalImageReferences: nat)

  /** `LuaAnalyzer`: the Lua files found and the image names their strings
      mention. */
  class LuaAnalyzer {
    var luaFiles: seq<string>
    var imageReferences: set<string>

    /** Only recorded names are ever kept. */
    ghost predicate Valid()
      reads this
    {
      forall n :: n in imageReferences ==> RecordedName(n)
    }

    constructor()
      ensures luaFiles == [] && imageReferences == {}
      ensures Valid()
    {
      luaFiles := [];
      imageReferences := {};
    }

    method FindAllLuaFiles(walk: seq<WalkedFile>)
      modifies this
      ensures luaFiles == LuaPaths(walk)
      ensures imageReferences == old(imageReferences)
    {
      luaFiles := [];
      for i := 0 to |walk|
        invariant luaFiles == LuaPaths(walk[..i])
        invariant imageReferences == old(imageReferences)
      {
        assert walk[..i + 1][..i] == walk[..i];
        if EndsWith(Lower(walk[i].name), ".lua") {
          luaFiles := luaFiles + [walk[i].path];
        }
      }
      assert walk[..|walk|] == walk;
    }

    /** One captured string of `_analyze_lua_file`: its name is added
        when it is an image reference and the extraction gives one. */
    method AddString(v: string)
      requires Valid()
      modifies this
      ensures Valid()
      ensures imageReferences == old(imageReferences) + NameOf(v)
      ensures luaFiles == old(luaFiles)
    {
      if IsImageReference(v) {
        var name := ExtractImageFilename(v);
        ImageReferenceName(v);
        if name.Some? {
          imageReferences := imageReferences + {name.value};
        }
      }
    }

    /** The loop of `_analyze_lua_file` over the captured strings. */
    method AddStrings(values: seq<string>)
      requires Valid()
      modifies this
      ensures Valid()
      ensures imageReferences == old(imageReferences) + ImageNames(values)
      ensures luaFiles == old(luaFiles)
    {
      ghost var add := Names();
      for i := 0 to |values|
        invariant imageReferences == old(imageReferences) + UnionOf(values[..i], add)
        invariant luaFiles == old(luaFiles)
        invariant Valid()
      {
        UnionOfSnoc(values, add, i);
        AddString(values[i]);
        assert add(values[i]) == NameOf(values[i]);
      }
      assert values[..|values|] == values;
    }

    /** `scan_lua_files`: find the Lua files of the walk, then add the names
        each one's strings mention. */
    method ScanLuaFiles(walk: seq<WalkedFile>, captured: LuaStrings) returns (refs: set<string>)
      requires Valid()
      modifies this
      ensures Valid()
      ensures luaFiles == LuaPaths(walk)
      ensures imageReferences == old(imageReferences) + ScanNames(luaFiles, captured)
      ensures refs == imageReferences
    {
      FindAllLuaFiles(walk);
      if luaFiles == [] {
        return imageReferences;
      }
      ghost var start := imageReferences;
      ghost var add := FileNames(captured);
      var files := luaFiles;
      for i := 0 to |files|
        invariant imageReferences == start + UnionOf(files[..i], add)
        invariant luaFiles == files
        invariant Valid()
      {
        UnionOfSnoc(files, add, i);
        AddStrings(captured(files[i]));
        assert add(files[i]) == ImageNames(captured(files[i]));
      }
      assert files[..|files|] == files;
      refs := imageReferences;
    }

    /** `check_if_file_referenced_in_lua`. */
    predicate CheckIfFileReferenced(imageFilename: string, unusedPath: string)
      reads this
    {
      ReferencedInLua(imageReferences, imageFilename, unusedPath)
    }

    /** `get_statistics`. */
    function GetStatistics(): (s: LuaStatistics)
      reads this
      ensures s.totalLuaFiles == |luaFiles| && s.totalImageReferences == |imageReferences|
    {
      LuaStatistics(|luaFiles|, |imageReferences|)
    }
  }

  /** A scan records no more names than the strings its files capture. */
  lemma {:induction false} ScanNamesCount(files: seq<string>, captured: LuaStrings)
    ensures |ScanNames(files, captured)| <= CapturedCount(files, captured)
  {
    if files != [] {
      var init := files[..|files| - 1];
      ScanNamesCount(init, captured);
      ImageNamesCount(captured(files[|files| - 1]));
      SetUnionBound(ScanNames(init, captured), ImageNames(captured(files[|files| - 1])));
    }
  }

  /** The number of strings captured from the files. */
  function CapturedCount(files: seq<string>, captured: LuaStrings): nat
  {
    if files == [] then 0 else CapturedCount(files[..|files| - 1], captured) + |captured(files[|files| - 1])|
  }
}
