/** Path-token extraction from a decoded string (efk_scanner.py,
    `_extract_file_paths_from_string`) and the noise filter applied to each
    token (`_is_valid_file_path`). Three searches run over the string for
    each of the nineteen path extensions: a pattern match over runs of path
    characters, a direct search for the extension, and a search for the
    extension with a NUL after its dot; the surviving tokens are then
    deduplicated, dropping any of three characters or fewer. */
module PathTokens {
  import opened Common
  import opened Paths
  import opened Extensions

  predicate ForbiddenChar(ch: char)
  {
    ch == '<' || ch == '>' || ch == ':' || ch == '"' || ch == '|' || ch == '?' || ch == '*'
  }

  /** No character of `p` is one of `<>:"|?*`. */
  predicate NoForbiddenChar(p: string)
  {
    p == [] || (!ForbiddenChar(p[0]) && NoForbiddenChar(p[1..]))
  }

  lemma {:induction false} NoForbiddenCharIff(p: string)
    ensures NoForbiddenChar(p) <==> forall j :: 0 <= j < |p| ==> !ForbiddenChar(p[j])
  {
    if p != [] {
      NoForbiddenCharIff(p[1..]);
      assert forall j :: 1 <= j < |p| ==> p[j] == p[1..][j - 1];
    }
  }

  /** `_is_valid_file_path`: the lower-cased `splitext` extension is one of
      the nineteen, no character is one of `<>:"|?*`, and the path is at most
      260 characters long. */
  predicate IsValidFilePath(p: string)
  {
    Listed(Lower(Ext(p)), PathExtensions) && NoForbiddenChar(p) && |p| <= 260
  }

  /** A lower-case ASCII letter or a digit. */
  predicate LowerAlnum(ch: char)
  {
    IsAlnum(ch) && !('A' <= ch <= 'Z')
  }

  /** Every character of `x` from `i` on is one. */
  predicate LowerAlnumsFrom(x: string, i: nat)
    decreases |x| - i
  {
    i >= |x| || (LowerAlnum(x[i]) && LowerAlnumsFrom(x, i + 1))
  }

  /** A dot followed by at least three lower-case ASCII letters or digits. */
  predicate ExtShape(e: string)
  {
    |e| >= 4 && e[0] == '.' && LowerAlnumsFrom(e, 1)
  }

  lemma {:induction false} LowerAlnumsFromIff(x: string, i: nat)
    ensures LowerAlnumsFrom(x, i) <==> forall j :: i <= j < |x| ==> LowerAlnum(x[j])
    decreases |x| - i
  {
    if i < |x| {
      LowerAlnumsFromIff(x, i + 1);
    }
  }

  /** The characters of such an extension after its dot. */
  lemma ExtShapeChars(e: string)
    requires ExtShape(e)
    ensures forall j :: 1 <= j < |e| ==> LowerAlnum(e[j])
  {
    LowerAlnumsFromIff(e, 1);
  }

  /** Every path extension has that shape. */
  lemma PathExtensionShape()
    ensures ExtShapes(PathExtensions)
  {
    assert ExtShape(".png"); assert ExtShape(".jpg"); assert ExtShape(".jpeg"); assert ExtShape(".tga");
    assert ExtShape(".dds"); assert ExtShape(".bmp"); assert ExtShape(".efk"); assert ExtShape(".efkmat");
    assert ExtShape(".efkmodel"); assert ExtShape(".obj"); assert ExtShape(".fbx"); assert ExtShape(".3ds");
    assert ExtShape(".dae"); assert ExtShape(".blend"); assert ExtShape(".mtl"); assert ExtShape(".mat");
    assert ExtShape(".material"); assert ExtShape(".mesh"); assert ExtShape(".model");
  }

  /** A valid path is at least five characters long: a four-character
      extension and something other than a dot before it. So the final
      filter's `len(path) > 3` never drops a valid token. */
  lemma ValidPathIsLong(p: string)
    requires IsValidFilePath(p)
    ensures |p| >= 5
  {
    SplitExtFacts(p);
    PathExtensionShape();
    ListedIsIn(Lower(Ext(p)), PathExtensions);
    assert |Ext(p)| >= 4;
    assert |Root(p)| >= 1;
  }

  /** The characters a token grows over: ASCII letters and digits, `.`, `_`,
      `-`, and, when `space` is set, the space character. */
  predicate NameChar(ch: char, space: bool)
  {
    IsAlnum(ch) || ch == '.' || ch == '_' || ch == '-' || (space && ch == ' ')
  }

  /** How far left of `pos` a token reaches. */
  function LeftEdge(s: string, pos: nat, space: bool): (k: nat)
    requires pos <= |s|
    ensures k <= pos
    decreases pos
  {
    if pos > 0 && NameChar(s[pos - 1], space) then LeftEdge(s, pos - 1, space) else pos
  }

  /** The left edge passes only token characters and stops at the start of
      the string or after a character that is not one. */
  lemma {:induction false} LeftEdgeFacts(s: string, pos: nat, space: bool)
    requires pos <= |s|
    ensures forall j :: LeftEdge(s, pos, space) <= j < pos ==> NameChar(s[j], space)
    ensures LeftEdge(s, pos, space) == 0 || !NameChar(s[LeftEdge(s, pos, space) - 1], space)
    decreases pos
  {
    if pos > 0 && NameChar(s[pos - 1], space) {
      LeftEdgeFacts(s, pos - 1, space);
    }
  }

  /** How far right of `end` a token reaches. */
  function RightEdge(s: string, end: nat, space: bool): (k: nat)
    requires end <= |s|
    ensures end <= k <= |s|
    decreases |s| - end
  {
    if end < |s| && NameChar(s[end], space) then RightEdge(s, end + 1, space) else end
  }

  /** The right edge passes only token characters and stops at the end of
      the string or at a character that is not one. */
  lemma {:induction false} RightEdgeFacts(s: string, end: nat, space: bool)
    requires end <= |s|
    ensures forall j :: end <= j < RightEdge(s, end, space) ==> NameChar(s[j], space)
    ensures RightEdge(s, end, space) == |s| || !NameChar(s[RightEdge(s, end, space)], space)
    decreases |s| - end
  {
    if end < |s| && NameChar(s[end], space) {
      RightEdgeFacts(s, end + 1, space);
    }
  }

  /** The left-expansion loop: step left while the previous character is
      neither a separator nor outside the token characters. (The UTF-16
      search also stops at a NUL, which is never a token character.) */
  method ExpandLeft(s: string, pos: nat, space: bool) returns (fileStart: nat)
    requires pos <= |s|
    ensures fileStart == LeftEdge(s, pos, space)
  {
    fileStart := pos;
    while fileStart > 0
      invariant fileStart <= pos
      invariant LeftEdge(s, fileStart, space) == LeftEdge(s, pos, space)
    {
      var ch := s[fileStart - 1];
      if IsSep(ch) {
        break;
      }
      if !NameChar(ch, space) {
        break;
      }
      fileStart := fileStart - 1;
    }
  }

  /** The right-expansion loop of the two-sided extractors. */
  method ExpandRight(s: string, end: nat, space: bool) returns (fileEnd: nat)
    requires end <= |s|
    ensures fileEnd == RightEdge(s, end, space)
  {
    fileEnd := end;
    while fileEnd < |s|
      invariant end <= fileEnd <= |s|
      invariant RightEdge(s, fileEnd, space) == RightEdge(s, end, space)
      decreases |s| - fileEnd
    {
      var ch := s[fileEnd];
      if IsSep(ch) {
        break;
      }
      if !NameChar(ch, space) {
        break;
      }
      fileEnd := fileEnd + 1;
    }
  }

  /** `[t]` when `t` is non-empty and passes the filter, else `[]`. */
  function KeepValid(t: string): seq<string>
  {
    if t != [] && IsValidFilePath(t) then [t] else []
  }

  /** The tokens of `ts` that are non-empty and pass the filter, in order. */
  function KeepValidAll(ts: seq<string>): seq<string>
  {
    if ts == [] then [] else KeepValid(ts[0]) + KeepValidAll(ts[1..])
  }

  lemma KeepValidStep(t: string, ts: seq<string>)
    ensures KeepValidAll([t] + ts) == KeepValid(t) + KeepValidAll(ts)
  {
    assert ([t] + ts)[1..] == ts;
  }

  /** The filter keeps only members of its input that pass it. */
  lemma {:induction false} KeepValidAllSound(ts: seq<string>)
    ensures forall t :: t in KeepValidAll(ts) ==> t in ts && t != [] && IsValidFilePath(t)
  {
    if ts != [] {
      KeepValidAllSound(ts[1..]);
    }
  }

  /** Every character of a stripped string comes from the string. */
  lemma StripChars(u: string)
    ensures forall j :: 0 <= j < |Strip(u)| ==> Strip(u)[j] in u
  {
    StripSlice(u);
  }

  // ----- the direct search -----

  /** The window of the direct search for an occurrence at `pos`: from the
      left edge to the end of the extension, stripped. */
  function DirectToken(s: string, pos: nat, ext: string): string
    requires pos + |ext| <= |s|
  {
    Strip(s[LeftEdge(s, pos, true)..pos + |ext|])
  }

  /** The windows of the direct search for `ext` from offset `start`,
      case-sensitive, resuming after each occurrence. */
  function DirectWindows(s: string, ext: string, start: nat): seq<string>
    requires |ext| > 0
    decreases |s| - start
  {
    match FindFrom(s, ext, start)
    case None => []
    case Some(pos) => [DirectToken(s, pos, ext)] + DirectWindows(s, ext, pos + |ext|)
  }

  /** The tokens the direct search keeps. */
  function DirectTokens(s: string, ext: string): seq<string>
    requires |ext| > 0
  {
    KeepValidAll(DirectWindows(s, ext, 0))
  }

  /** One round of the direct search: the window at the first occurrence,
      then the search after it. */
  lemma DirectStep(s: string, ext: string, start: nat, pos: nat, next: nat, t: string)
    requires |ext| > 0 && FindFrom(s, ext, start) == Some(pos)
    requires next == pos + |ext| && next <= |s| && t == DirectToken(s, pos, ext)
    ensures DirectWindows(s, ext, start) == [t] + DirectWindows(s, ext, next)
  {
  }

  /** The token the direct search takes at `pos`: expand left, then strip. */
  method DirectTokenAt(s: string, pos: nat, ext: string) returns (filePath: string)
    requires pos + |ext| <= |s|
    ensures filePath == DirectToken(s, pos, ext)
  {
    var fileStart := ExpandLeft(s, pos, true);
    filePath := Strip(s[fileStart..pos + |ext|]);
  }

  /** Kept tokens accumulate: if `found` followed by `all` is `target`, and
      `all` is `kept` followed by `rest`, then `found + kept` followed by
      `rest` is `target`. */
  lemma Accumulate(found: seq<string>, kept: seq<string>, rest: seq<string>, all: seq<string>, target: seq<string>)
    requires all == kept + rest && found + all == target
    ensures found + kept + rest == target
  {
  }

  /** The kept tokens of the direct search from `start`: what the filter
      makes of the token `t` at the first occurrence, then the kept tokens
      from `next`, after it. */
  lemma DirectKeptStep(s: string, ext: string, start: nat, pos: nat, next: nat, t: string)
    requires |ext| > 0 && FindFrom(s, ext, start) == Some(pos)
    requires next == pos + |ext| && t == DirectToken(s, pos, ext)
    ensures start < next <= |s|
    ensures KeepValidAll(DirectWindows(s, ext, start)) == KeepValid(t) + KeepValidAll(DirectWindows(s, ext, next))
  {
    DirectStep(s, ext, start, pos, next, t);
    KeepValidStep(t, DirectWindows(s, ext, next));
  }

  /** The body of the direct search's loop for the occurrence at `pos`:
      the token there is appended when it passes the filter, which keeps
      the loop's invariant. */
  method DirectRound(s: string, ext: string, start: nat, pos: nat, found: seq<string>)
    returns (found': seq<string>, next: nat)
    requires |ext| > 0 && FindFrom(s, ext, start) == Some(pos)
    requires found + KeepValidAll(DirectWindows(s, ext, start)) == DirectTokens(s, ext)
    ensures next == pos + |ext| && start < next <= |s|
    ensures found' + KeepValidAll(DirectWindows(s, ext, next)) == DirectTokens(s, ext)
  {
    next := pos + |ext|;
    var filePath := DirectTokenAt(s, pos, ext);
    DirectKeptStep(s, ext, start, pos, next, filePath);
    Accumulate(found, KeepValid(filePath), KeepValidAll(DirectWindows(s, ext, next)), KeepValidAll(DirectWindows(s, ext, start)), DirectTokens(s, ext));
    found' := found + KeepValid(filePath);
  }

  /** The direct search's loop for one extension. */
  method DirectSearch(s: string, ext: string) returns (found: seq<string>)
    requires |ext| > 0
    ensures found == DirectTokens(s, ext)
  {
    found := [];
    var start := 0;
    while true
      invariant start <= |s|
      invariant found + KeepValidAll(DirectWindows(s, ext, start)) == DirectTokens(s, ext)
      decreases |s| - start
    {
      var pos := FindFrom(s, ext, start);
      if pos.None? {
        break;
      }
      found, start := DirectRound(s, ext, start, pos.value, found);
    }
  }

  /** The window from the left edge to `pos` holds only token
      characters. */
  lemma LeftWindowChars(s: string, pos: nat)
    requires pos <= |s|
    ensures forall j :: 0 <= j < |s[LeftEdge(s, pos, true)..pos]| ==> NameChar(s[LeftEdge(s, pos, true)..pos][j], true)
  {
    LeftEdgeFacts(s, pos, true);
  }

  /** Every character of `t` is a token character of the path searches. */
  predicate TokenChars(t: string)
  {
    TokenCharsFrom(t, 0)
  }

  predicate TokenCharsFrom(t: string, i: nat)
    decreases |t| - i
  {
    i >= |t| || (NameChar(t[i], true) && TokenCharsFrom(t, i + 1))
  }

  lemma {:induction false} TokenCharsFromIff(t: string, i: nat)
    ensures TokenCharsFrom(t, i) <==> forall j :: i <= j < |t| ==> NameChar(t[j], true)
    decreases |t| - i
  {
    if i < |t| {
      TokenCharsFromIff(t, i + 1);
    }
  }

  lemma TokenCharsIff(t: string)
    ensures TokenChars(t) <==> forall j :: 0 <= j < |t| ==> NameChar(t[j], true)
  {
    TokenCharsFromIff(t, 0);
  }

  /** A window of a search: it ends with `suffix` and holds only token
      characters. */
  predicate WindowShape(t: string, suffix: string)
  {
    EndsWith(t, suffix) && TokenChars(t)
  }

  /** Every window of `ts` has that shape. */
  predicate AllWindowShape(ts: seq<string>, suffix: string)
    decreases |ts|
  {
    ts == [] || (WindowShape(ts[0], suffix) && AllWindowShape(ts[1..], suffix))
  }

  lemma AllWindowShapeCons(ws: seq<string>, t: string, ts: seq<string>, suffix: string)
    requires ws == [t] + ts
    requires WindowShape(t, suffix)
    requires AllWindowShape(ts, suffix)
    ensures AllWindowShape(ws, suffix)
  {
    assert ws[1..] == ts;
  }

  lemma {:induction false} AllWindowShapeMembers(ts: seq<string>, suffix: string)
    requires AllWindowShape(ts, suffix)
    ensures forall t :: t in ts ==> WindowShape(t, suffix)
    decreases |ts|
  {
    if ts != [] {
      AllWindowShapeMembers(ts[1..], suffix);
      assert forall t :: t in ts ==> t == ts[0] || t in ts[1..];
    }
  }

  /** A string of token characters stays one when stripped. */
  lemma StripTokenChars(u: string)
    requires forall j :: 0 <= j < |u| ==> NameChar(u[j], true)
    ensures TokenChars(Strip(u))
  {
    StripChars(u);
    TokenCharsIff(Strip(u));
  }

  /** Token characters followed by `d`, stripped, where `d` starts and
      ends with a character other than white space, have the shape of a
      window ending with `d`. */
  lemma StripWindowShape(x: string, d: string)
    requires |d| > 0 && !IsSpace(d[0]) && !IsSpace(d[|d| - 1])
    requires forall j :: 0 <= j < |x| ==> NameChar(x[j], true)
    requires forall j :: 0 <= j < |d| ==> NameChar(d[j], true)
    ensures WindowShape(Strip(x + d), d)
  {
    var u := x + d;
    assert u[|u| - |d|..] == d;
    StripKeepsSuffix(u, d);
    forall j | 0 <= j < |u| ensures NameChar(u[j], true) {
      if j >= |x| {
        assert u[j] == d[j - |x|];
      }
    }
    StripTokenChars(u);
  }

  /** The first `n` characters of a path extension are token characters
      and start and end with a character other than white space. */
  lemma ExtPrefixChars(ext: string, n: nat)
    requires ExtShape(ext) && 1 <= n <= |ext|
    ensures forall j :: 0 <= j < |ext[..n]| ==> NameChar(ext[..n][j], true)
    ensures !IsSpace(ext[..n][0]) && !IsSpace(ext[..n][n - 1])
  {
    ExtShapeChars(ext);
  }

  /** A direct-search window ends with the extension occurrence that
      produced it and holds only token characters (so no separator). */
  lemma DirectTokenShape(s: string, pos: nat, ext: string)
    requires ExtShape(ext) && OccursAt(s, ext, pos)
    ensures WindowShape(DirectToken(s, pos, ext), ext)
  {
    var lo := LeftEdge(s, pos, true);
    var x := s[lo..pos];
    OccursAtSlice(s, ext, pos);
    assert s[lo..pos + |ext|] == x + ext;
    LeftWindowChars(s, pos);
    ExtPrefixChars(ext, |ext|);
    assert ext[..|ext|] == ext;
    StripWindowShape(x, ext);
  }

  lemma {:induction false} DirectWindowsShape(s: string, ext: string, start: nat)
    requires ExtShape(ext)
    ensures AllWindowShape(DirectWindows(s, ext, start), ext)
    decreases |s| - start
  {
    match FindFrom(s, ext, start)
    case None =>
    case Some(pos) =>
      DirectWindowsShape(s, ext, pos + |ext|);
      DirectWindowShapeStep(s, ext, start, pos);
  }

  lemma DirectWindowShapeStep(s: string, ext: string, start: nat, pos: nat)
    requires ExtShape(ext) && FindFrom(s, ext, start) == Some(pos)
    requires AllWindowShape(DirectWindows(s, ext, pos + |ext|), ext)
    ensures AllWindowShape(DirectWindows(s, ext, start), ext)
  {
    var t := DirectToken(s, pos, ext);
    DirectStep(s, ext, start, pos, pos + |ext|, t);
    DirectTokenShape(s, pos, ext);
    AllWindowShapeCons(DirectWindows(s, ext, start), t, DirectWindows(s, ext, pos + |ext|), ext);
  }

  /** Every direct-search token passes the filter, ends with the extension
      and holds only token characters. */
  lemma DirectTokensShape(s: string, ext: string)
    requires ExtShape(ext)
    ensures forall t :: t in DirectTokens(s, ext) ==>
      IsValidFilePath(t) && EndsWith(t, ext) && forall j :: 0 <= j < |t| ==> NameChar(t[j], true)
  {
    var ws := DirectWindows(s, ext, 0);
    DirectWindowsShape(s, ext, 0);
    AllWindowShapeMembers(ws, ext);
    KeepValidAllSound(ws);
    forall t | t in DirectTokens(s, ext)
      ensures IsValidFilePath(t) && EndsWith(t, ext) && forall j :: 0 <= j < |t| ==> NameChar(t[j], true)
    {
      TokenCharsIff(t);
    }
  }

  // ----- the search with a NUL after the dot -----

  /** `ext.replace('.', '.\x00')`. */
  function Utf16Pattern(ext: string): (pat: string)
    ensures |pat| >= |ext|
  {
    Utf16PatternFrom(ext, 0)
  }

  /** The pattern for `ext[i..]`. */
  function Utf16PatternFrom(ext: string, i: nat): (pat: string)
    ensures |pat| >= |ext| - i
    decreases |ext| - i
  {
    if i >= |ext| then []
    else (if ext[i] == '.' then ['.', '\0'] else [ext[i]]) + Utf16PatternFrom(ext, i + 1)
  }

  lemma {:induction false} Utf16PatternNoDot(x: string, i: nat)
    requires i <= |x|
    requires forall j :: i <= j < |x| ==> x[j] != '.'
    ensures Utf16PatternFrom(x, i) == x[i..]
    decreases |x| - i
  {
    if i < |x| {
      Utf16PatternNoDot(x, i + 1);
      assert x[i..] == [x[i]] + x[i + 1..];
    }
  }

  /** For an extension of the path shape the pattern is the dot, a NUL, then
      the rest of the extension. */
  lemma Utf16PatternOfExtension(ext: string)
    requires ExtShape(ext)
    ensures Utf16Pattern(ext) == ['.', '\0'] + ext[1..]
  {
    ExtShapeChars(ext);
    Utf16PatternNoDot(ext, 1);
  }

  /** Where the UTF-16 search's window ends, counted from the match: as
      written it ends `len(ext)` characters on, one short of the pattern,
      which is one character longer than the extension; the intended
      window covers the whole matched pattern. */
  datatype WindowEnd = ExtensionLength | PatternLength

  function WindowWidth(ext: string, w: WindowEnd): (n: nat)
    ensures n <= |Utf16Pattern(ext)|
  {
    match w
    case ExtensionLength => |ext|
    case PatternLength => |Utf16Pattern(ext)|
  }

  /** The token the UTF-16 search takes for a match at `pos`: from the left
      edge to `width` characters past `pos`, NULs removed, stripped. */
  function Utf16Token(s: string, pos: nat, width: nat): string
    requires pos + width <= |s|
  {
    Strip(RemoveNuls(s[LeftEdge(s, pos, true)..pos + width]))
  }

  /** The windows of the UTF-16 search for `ext` from offset `from`,
      resuming `len(ext)` characters after each match. */
  function Utf16Windows(s: string, ext: string, w: WindowEnd, from: nat): seq<string>
    requires |ext| > 0
    decreases |s| - from
  {
    match FindFrom(s, Utf16Pattern(ext), from)
    case None => []
    case Some(pos) => [Utf16Token(s, pos, WindowWidth(ext, w))] + Utf16Windows(s, ext, w, pos + |ext|)
  }

  /** The tokens the UTF-16 search keeps. */
  function Utf16Tokens(s: string, ext: string, w: WindowEnd): seq<string>
    requires |ext| > 0
  {
    KeepValidAll(Utf16Windows(s, ext, w, 0))
  }

  /** One round of the UTF-16 search: the window at the first match, then the
      search after it. */
  lemma Utf16Step(s: string, ext: string, w: WindowEnd, from: nat, pos: nat, next: nat, t: string)
    requires |ext| > 0 && FindFrom(s, Utf16Pattern(ext), from) == Some(pos)
    requires next == pos + |ext| && pos + WindowWidth(ext, w) <= |s| && t == Utf16Token(s, pos, WindowWidth(ext, w))
    ensures Utf16Windows(s, ext, w, from) == [t] + Utf16Windows(s, ext, w, next)
  {
  }

  /** The kept tokens of the UTF-16 search from `from`: what the filter
      makes of the token `t` at the first match, then the kept tokens from
      `next`, `len(ext)` characters after it. */
  lemma Utf16KeptStep(s: string, ext: string, w: WindowEnd, from: nat, pos: nat, next: nat, t: string)
    requires |ext| > 0 && FindFrom(s, Utf16Pattern(ext), from) == Some(pos)
    requires next == pos + |ext| && pos + WindowWidth(ext, w) <= |s| && t == Utf16Token(s, pos, WindowWidth(ext, w))
    ensures from < next <= |s|
    ensures KeepValidAll(Utf16Windows(s, ext, w, from)) == KeepValid(t) + KeepValidAll(Utf16Windows(s, ext, w, next))
  {
    Utf16Step(s, ext, w, from, pos, next, t);
    KeepValidStep(t, Utf16Windows(s, ext, w, next));
  }

  /** The token the UTF-16 search takes at `pos`: expand left (stopping at a
      separator, a NUL or any other non-token character), cut, drop the NULs,
      strip. */
  method Utf16TokenAt(s: string, pos: nat, width: nat) returns (filePath: string)
    requires pos + width <= |s|
    ensures filePath == Utf16Token(s, pos, width)
  {
    var fileStart := ExpandLeft(s, pos, true);
    filePath := Strip(RemoveNuls(s[fileStart..pos + width]));
  }

  /** The body of the UTF-16 search's loop for the match at `pos`: the
      token there is appended when it passes the filter, which keeps the
      loop's invariant. */
  method Utf16Round(s: string, ext: string, w: WindowEnd, from: nat, pos: nat, found: seq<string>)
    returns (found': seq<string>, next: nat)
    requires |ext| > 0 && FindFrom(s, Utf16Pattern(ext), from) == Some(pos)
    requires found + KeepValidAll(Utf16Windows(s, ext, w, from)) == Utf16Tokens(s, ext, w)
    ensures next == pos + |ext| && from < next <= |s|
    ensures found' + KeepValidAll(Utf16Windows(s, ext, w, next)) == Utf16Tokens(s, ext, w)
  {
    next := pos + |ext|;
    var filePath := Utf16TokenAt(s, pos, WindowWidth(ext, w));
    Utf16KeptStep(s, ext, w, from, pos, next, filePath);
    Accumulate(found, KeepValid(filePath), KeepValidAll(Utf16Windows(s, ext, w, next)), KeepValidAll(Utf16Windows(s, ext, w, from)), Utf16Tokens(s, ext, w));
    found' := found + KeepValid(filePath);
  }

  /** The UTF-16 search's loop for one extension, with the window end `w`. */
  method Utf16Search(s: string, ext: string, w: WindowEnd) returns (found: seq<string>)
    requires |ext| > 0
    ensures found == Utf16Tokens(s, ext, w)
  {
    found := [];
    var pattern := Utf16Pattern(ext);
    var pos := 0;
    while true
      invariant pos <= |s|
      invariant found + KeepValidAll(Utf16Windows(s, ext, w, pos)) == Utf16Tokens(s, ext, w)
      decreases |s| - pos
    {
      var next := FindFrom(s, pattern, pos);
      if next.None? {
        break;
      }
      found, pos := Utf16Round(s, ext, w, pos, next.value, found);
    }
  }

  /** The first `n` characters of an occurrence of `p` are `p`'s first `n`. */
  lemma OccurrencePrefix(s: string, p: string, pos: nat, n: nat)
    requires OccursAt(s, p, pos) && n <= |p|
    ensures s[pos..pos + n] == p[..n]
  {
    OccursAtSlice(s, p, pos);
    assert s[pos..pos + n] == s[pos..pos + |p|][..n];
  }

  /** The pattern's first `width` characters: the dot, the NUL, then the
      extension's characters after its dot. */
  lemma Utf16PatternPrefix(ext: string, width: nat)
    requires ExtShape(ext) && 2 <= width <= |ext| + 1
    ensures Utf16Pattern(ext)[..width] == ['.', '\0'] + ext[1..width - 1]
  {
    Utf16PatternOfExtension(ext);
    assert (['.', '\0'] + ext[1..])[..width] == ['.', '\0'] + ext[1..width - 1];
  }

  /** Removing the NULs from text around a dot and NUL that holds no other
      NUL leaves the dot. */
  lemma RemoveDotNul(x: string, tail: string)
    requires forall j :: 0 <= j < |x| ==> x[j] != '\0'
    requires forall j :: 0 <= j < |tail| ==> tail[j] != '\0'
    ensures RemoveNuls(x + (['.', '\0'] + tail)) == x + (['.'] + tail)
  {
    RemoveNulsNone(x);
    RemoveNulsAppend(x, ['.', '\0'] + tail);
    RemoveNulsDotNul(tail);
  }

  lemma RemoveNulsDotNul(tail: string)
    requires forall j :: 0 <= j < |tail| ==> tail[j] != '\0'
    ensures RemoveNuls(['.', '\0'] + tail) == ['.'] + tail
  {
    var v := ['\0'] + tail;
    assert ['.', '\0'] + tail == ['.'] + v;
    RemoveNulsCons(['.', '\0'] + tail, '.', v);
    RemoveNulsCons(v, '\0', tail);
    RemoveNulsNone(tail);
  }

  /** Removing the NULs from the text up to `width` characters past a match
      leaves the token characters before it and the extension's first
      `width - 1` characters. */
  lemma Utf16Unnul(s: string, pos: nat, ext: string, width: nat)
    requires ExtShape(ext) && OccursAt(s, Utf16Pattern(ext), pos) && 2 <= width <= |ext| + 1
    ensures RemoveNuls(s[LeftEdge(s, pos, true)..pos + width]) == s[LeftEdge(s, pos, true)..pos] + ext[..width - 1]
  {
    var x := s[LeftEdge(s, pos, true)..pos];
    var tail := ext[1..width - 1];
    assert s[pos..pos + width] == ['.', '\0'] + tail by {
      OccurrencePrefix(s, Utf16Pattern(ext), pos, width);
      Utf16PatternPrefix(ext, width);
    }
    assert s[LeftEdge(s, pos, true)..pos + width] == x + (['.', '\0'] + tail);
    assert forall j :: 0 <= j < |x| ==> x[j] != '\0' by {
      LeftWindowChars(s, pos);
    }
    assert forall j :: 0 <= j < |tail| ==> tail[j] != '\0' by {
      ExtShapeChars(ext);
      assert forall j :: 0 <= j < |tail| ==> tail[j] == ext[j + 1];
    }
    RemoveDotNul(x, tail);
    assert ['.'] + tail == ext[..width - 1];
  }

  /** A UTF-16 token ends with the first `width - 1` characters of the
      extension and holds only token characters (so neither a NUL nor a
      separator). */
  lemma Utf16TokenShape(s: string, pos: nat, ext: string, width: nat, d: string)
    requires ExtShape(ext) && OccursAt(s, Utf16Pattern(ext), pos) && 2 <= width <= |ext| + 1
    requires ext[..width - 1] == d
    ensures WindowShape(Utf16Token(s, pos, width), d)
  {
    var x := s[LeftEdge(s, pos, true)..pos];
    Utf16Unnul(s, pos, ext, width);
    LeftWindowChars(s, pos);
    ExtPrefixChars(ext, width - 1);
    StripWindowShape(x, d);
  }

  /** What a window keeps of the extension. */
  function KeptSuffix(ext: string, w: WindowEnd): string
    requires |ext| > 0
  {
    match w
    case ExtensionLength => ext[..|ext| - 1]
    case PatternLength => ext
  }

  /** Either window end keeps the dot and at least one more character, and
      what it keeps is the extension's first `width - 1` characters. */
  lemma KeptSuffixWidth(ext: string, w: WindowEnd)
    requires ExtShape(ext)
    ensures 2 <= WindowWidth(ext, w) <= |ext| + 1
    ensures ext[..WindowWidth(ext, w) - 1] == KeptSuffix(ext, w)
  {
    Utf16PatternOfExtension(ext);
  }

  /** Every UTF-16 window ends with what its end keeps of the extension and
      holds only token characters. */
  lemma {:induction false} Utf16WindowsShape(s: string, ext: string, w: WindowEnd, from: nat)
    requires ExtShape(ext)
    ensures AllWindowShape(Utf16Windows(s, ext, w, from), KeptSuffix(ext, w))
    decreases |s| - from
  {
    match FindFrom(s, Utf16Pattern(ext), from)
    case None =>
    case Some(pos) =>
      Utf16WindowsShape(s, ext, w, pos + |ext|);
      Utf16WindowShapeStep(s, ext, w, from, pos);
  }

  lemma Utf16WindowShapeStep(s: string, ext: string, w: WindowEnd, from: nat, pos: nat)
    requires ExtShape(ext) && FindFrom(s, Utf16Pattern(ext), from) == Some(pos)
    requires AllWindowShape(Utf16Windows(s, ext, w, pos + |ext|), KeptSuffix(ext, w))
    ensures AllWindowShape(Utf16Windows(s, ext, w, from), KeptSuffix(ext, w))
  {
    var t := Utf16Token(s, pos, WindowWidth(ext, w));
    Utf16WindowHead(s, ext, w, pos, t);
    Utf16Step(s, ext, w, from, pos, pos + |ext|, t);
    AllWindowShapeCons(Utf16Windows(s, ext, w, from), t, Utf16Windows(s, ext, w, pos + |ext|), KeptSuffix(ext, w));
  }

  /** The window at a match has the shape of every UTF-16 window. */
  lemma Utf16WindowHead(s: string, ext: string, w: WindowEnd, pos: nat, t: string)
    requires ExtShape(ext) && OccursAt(s, Utf16Pattern(ext), pos) && pos + WindowWidth(ext, w) <= |s|
    requires t == Utf16Token(s, pos, WindowWidth(ext, w))
    ensures WindowShape(t, KeptSuffix(ext, w))
  {
    KeptSuffixWidth(ext, w);
    Utf16TokenShape(s, pos, ext, WindowWidth(ext, w), KeptSuffix(ext, w));
  }

  /** A string ending in a dot and lower-case letters or digits has either no
      extension or exactly that ending as its extension. */
  lemma ExtOfDottedSuffix(t: string, d: string)
    requires |d| >= 1 && d[0] == '.' && EndsWith(t, d)
    requires forall j :: 1 <= j < |d| ==> d[j] != '.' && !IsSep(d[j])
    ensures Ext(t) == [] || Ext(t) == d
  {
    var k := ExtStart(t);
    ExtStartFacts(t);
    var at := |t| - |d|;
    assert forall j :: at <= j < |t| ==> t[j] == d[j - at];
    if k < |t| {
      assert k == at;
    }
  }

  /** No path extension cut short by its last character is itself a path
      extension. */
  lemma TruncatedExtensionIsNotExtension(k: nat)
    requires k < |PathExtensions|
    ensures PathExtensions[k][..|PathExtensions[k]| - 1] !in PathExtensions
  {
    var e := PathExtensions[k];
    var d := e[..|e| - 1];
    if |e| == 4 {
      assert |d| == 3;
    } else if e == ".jpeg" {
      assert d == ".jpe";
    } else if e == ".mesh" {
      assert d == ".mes";
    } else if e == ".blend" {
      assert d == ".blen";
    } else if e == ".model" {
      assert d == ".mode";
    } else if e == ".efkmat" {
      assert d == ".efkma";
    } else {
      assert |d| == 8;
    }
  }

  lemma LowerOfLowercase(x: string)
    requires forall j :: 0 <= j < |x| ==> !('A' <= x[j] <= 'Z')
    ensures Lower(x) == x
  {
  }

  /** A token ending in a path extension minus its last character never
      passes the filter. */
  lemma TruncatedTokenInvalid(t: string, k: nat)
    requires k < |PathExtensions| && EndsWith(t, PathExtensions[k][..|PathExtensions[k]| - 1])
    ensures !IsValidFilePath(t)
  {
    var ext := PathExtensions[k];
    PathExtensionShape();
    assert ExtShape(ext);
    TruncatedExtensionIsNotExtension(k);
    var d := ext[..|ext| - 1];
    TruncatedExtensionChars(ext, d);
    ExtOfDottedSuffix(t, d);
    LowerOfLowercase(d);
    assert Lower([]) == [];
    ListedIsIn(Lower(Ext(t)), PathExtensions);
  }

  /** A path extension without its last character is a dot followed by
      lower-case letters and digits. */
  lemma TruncatedExtensionChars(ext: string, d: string)
    requires ExtShape(ext) && d == ext[..|ext| - 1]
    ensures |d| >= 1 && d[0] == '.'
    ensures forall j :: 1 <= j < |d| ==> d[j] != '.' && !IsSep(d[j])
    ensures forall j :: 0 <= j < |d| ==> !('A' <= d[j] <= 'Z')
  {
    ExtShapeChars(ext);
  }

  /** The filter drops a list of which no member passes it. */
  lemma {:induction false} KeepValidAllNone(ts: seq<string>)
    requires forall t :: t in ts ==> !IsValidFilePath(t)
    ensures KeepValidAll(ts) == []
  {
    if ts != [] {
      assert ts[0] in ts;
      KeepValidAllNone(ts[1..]);
    }
  }

  /** The UTF-16 search as written never yields a token: its window drops the
      last character of the extension, and the filter then rejects every
      token. */
  lemma Utf16AsWrittenYieldsNothing(s: string, k: nat)
    requires k < |PathExtensions|
    ensures Utf16Tokens(s, PathExtensions[k], ExtensionLength) == []
  {
    var ext := PathExtensions[k];
    PathExtensionShape();
    assert ExtShape(ext);
    var ws := Utf16Windows(s, ext, ExtensionLength, 0);
    Utf16WindowsShape(s, ext, ExtensionLength, 0);
    AllWindowShapeMembers(ws, KeptSuffix(ext, ExtensionLength));
    forall t | t in ws ensures !IsValidFilePath(t) {
      TruncatedTokenInvalid(t, k);
    }
    KeepValidAllNone(ws);
  }

  /** With the whole pattern in the window, every UTF-16 token passes the
      filter, ends with the extension and holds only token characters, so
      no NUL. */
  lemma Utf16TokensShape(s: string, ext: string)
    requires ExtShape(ext)
    ensures forall t :: t in Utf16Tokens(s, ext, PatternLength) ==>
      IsValidFilePath(t) && EndsWith(t, ext) && forall j :: 0 <= j < |t| ==> NameChar(t[j], true)
  {
    var ws := Utf16Windows(s, ext, PatternLength, 0);
    Utf16WindowsShape(s, ext, PatternLength, 0);
    AllWindowShapeMembers(ws, ext);
    KeepValidAllSound(ws);
    forall t | t in Utf16Tokens(s, ext, PatternLength)
      ensures IsValidFilePath(t) && EndsWith(t, ext) && forall j :: 0 <= j < |t| ==> NameChar(t[j], true)
    {
      TokenCharsIff(t);
    }
  }

  // ----- the pattern match -----

  /** The character class `[a-zA-Z0-9_\-\.\\\/\s]`. */
  predicate PatternChar(ch: char)
  {
    IsAlnum(ch) || ch == '_' || ch == '-' || ch == '.' || IsSep(ch) || IsSpace(ch)
  }

  /** The end of the run of class characters starting at `i`. */
  function ClassEnd(s: string, i: nat): (e: nat)
    requires i <= |s|
    ensures i <= e <= |s|
    decreases |s| - i
  {
    if i < |s| && PatternChar(s[i]) then ClassEnd(s, i + 1) else i
  }

  /** The run holds only class characters and ends at the end of the string
      or at a character outside the class. */
  lemma {:induction false} ClassEndFacts(s: string, i: nat)
    requires i <= |s|
    ensures forall j :: i <= j < ClassEnd(s, i) ==> PatternChar(s[j])
    ensures ClassEnd(s, i) < |s| ==> !PatternChar(s[ClassEnd(s, i)])
    decreases |s| - i
  {
    if i < |s| && PatternChar(s[i]) {
      ClassEndFacts(s, i + 1);
    }
  }

  /** `ext[k..]` matches `s` from `q + k` on, ignoring the case of ASCII
      letters. */
  predicate CiMatchesFrom(s: string, ext: string, q: nat, k: nat)
    requires q + |ext| <= |s|
    decreases |ext| - k
  {
    k >= |ext| || (LowerChar(s[q + k]) == ext[k] && CiMatchesFrom(s, ext, q, k + 1))
  }

  /** `ext` occurs at `q` ignoring the case of ASCII letters. */
  predicate CiOccursAt(s: string, ext: string, q: nat)
  {
    q + |ext| <= |s| && CiMatchesFrom(s, ext, q, 0)
  }

  lemma {:induction false} CiMatchesFromIff(s: string, ext: string, q: nat, k: nat)
    requires q + |ext| <= |s|
    ensures CiMatchesFrom(s, ext, q, k) <==> forall j :: k <= j < |ext| ==> LowerChar(s[q + j]) == ext[j]
    decreases |ext| - k
  {
    if k < |ext| {
      CiMatchesFromIff(s, ext, q, k + 1);
    }
  }

  /** Such an occurrence is a slice that lower-cases to `ext`. */
  lemma CiOccursAtSlice(s: string, ext: string, q: nat)
    ensures CiOccursAt(s, ext, q) <==> q + |ext| <= |s| && Lower(s[q..q + |ext|]) == ext
  {
    if q + |ext| <= |s| {
      CiMatchesFromIff(s, ext, q, 0);
      var w := s[q..q + |ext|];
      assert forall j :: 0 <= j < |ext| ==> Lower(w)[j] == LowerChar(s[q + j]);
    }
  }

  /** The largest `q` in `[lo, hi]` at which `ext` occurs, ignoring case. */
  function LastCiOccurrence(s: string, ext: string, lo: nat, hi: int): (r: Option<nat>)
    ensures r.Some? ==> lo <= r.value <= hi && CiOccursAt(s, ext, r.value)
    decreases hi - lo
  {
    if hi < lo then None
    else if CiOccursAt(s, ext, hi) then Some(hi)
    else LastCiOccurrence(s, ext, lo, hi - 1)
  }

  /** The occurrence found is the last one in the range, and none is found
      only when there is none. */
  lemma {:induction false} LastCiOccurrenceFacts(s: string, ext: string, lo: nat, hi: int)
    ensures LastCiOccurrence(s, ext, lo, hi).Some? ==>
      forall q :: LastCiOccurrence(s, ext, lo, hi).value < q <= hi ==> !CiOccursAt(s, ext, q)
    ensures LastCiOccurrence(s, ext, lo, hi).None? ==> forall q :: lo <= q <= hi ==> !CiOccursAt(s, ext, q)
    decreases hi - lo
  {
    if lo <= hi && !CiOccursAt(s, ext, hi) {
      LastCiOccurrenceFacts(s, ext, lo, hi - 1);
    }
  }

  /** `re.findall('[class]+' + re.escape(ext), s, re.IGNORECASE)` from `i`:
      the leftmost start in a class run is taken; the greedy `+` then backs
      off to the last case-insensitive occurrence of `ext` after at least one
      class character; the search resumes after the match, and a start with
      no such occurrence is abandoned for the next position. */
  function PatternMatches(s: string, ext: string, i: nat): (r: seq<string>)
    decreases |s| - i
  {
    if i >= |s| then []
    else if !PatternChar(s[i]) then PatternMatches(s, ext, i + 1)
    else
      match LastCiOccurrence(s, ext, i + 1, ClassEnd(s, i))
      case Some(q) => [s[i..q + |ext|]] + PatternMatches(s, ext, q + |ext|)
      case None => PatternMatches(s, ext, i + 1)
  }

  /** A match: at least one character, then the extension in any case. */
  predicate MatchShape(m: string, ext: string)
  {
    |m| > |ext| && Lower(m[|m| - |ext|..]) == ext
  }

  /** Every match is at least one class character followed by the
      extension, in any case. */
  lemma {:induction false} PatternMatchesFacts(s: string, ext: string, i: nat)
    ensures forall m :: m in PatternMatches(s, ext, i) ==> MatchShape(m, ext)
    decreases |s| - i
  {
    if i < |s| {
      if !PatternChar(s[i]) {
        PatternMatchesFacts(s, ext, i + 1);
      } else {
        match LastCiOccurrence(s, ext, i + 1, ClassEnd(s, i))
        case Some(q) =>
          PatternMatchesFacts(s, ext, q + |ext|);
          PatternMatchesStep(s, ext, i, q);
        case None =>
          PatternMatchesFacts(s, ext, i + 1);
      }
    }
  }

  /** A match found at `i` is followed by the matches after it, and has the
      shape of a match. */
  lemma PatternMatchesStep(s: string, ext: string, i: nat, q: nat)
    requires i < |s| && PatternChar(s[i]) && LastCiOccurrence(s, ext, i + 1, ClassEnd(s, i)) == Some(q)
    requires forall m :: m in PatternMatches(s, ext, q + |ext|) ==> MatchShape(m, ext)
    ensures forall m :: m in PatternMatches(s, ext, i) ==> MatchShape(m, ext)
  {
    var m := s[i..q + |ext|];
    assert PatternMatches(s, ext, i) == [m] + PatternMatches(s, ext, q + |ext|);
    CiOccursAtSlice(s, ext, q);
    assert m[|m| - |ext|..] == s[q..q + |ext|];
  }

  /** The matches, stripped, that pass the filter. */
  function CleanValid(ms: seq<string>): seq<string>
  {
    if ms == [] then [] else KeepValid(Strip(ms[0])) + CleanValid(ms[1..])
  }

  /** The cleaned matches from the `j`-th: what the filter makes of the
      `j`-th match, stripped, then the rest. */
  lemma CleanStep(ms: seq<string>, j: nat, t: string)
    requires j < |ms| && t == Strip(ms[j])
    ensures CleanValid(ms[j..]) == KeepValid(t) + CleanValid(ms[j + 1..])
  {
    assert ms[j..][1..] == ms[j + 1..];
  }

  lemma {:induction false} CleanValidSound(ms: seq<string>)
    ensures forall t :: t in CleanValid(ms) ==> t != [] && IsValidFilePath(t)
  {
    if ms != [] {
      CleanValidSound(ms[1..]);
    }
  }

  // ----- the three searches over all extensions, and the final filter -----

  /** Every extension of `exts` has the shape of the extensions searched for. */
  predicate ExtShapes(exts: seq<string>)
  {
    forall k :: 0 <= k < |exts| ==> ExtShape(exts[k])
  }

  function PatternPass(s: string, exts: seq<string>, k: nat): seq<string>
    requires k <= |exts|
    decreases |exts| - k
  {
    if k == |exts| then []
    else CleanValid(PatternMatches(s, exts[k], 0)) + PatternPass(s, exts, k + 1)
  }

  function DirectPass(s: string, exts: seq<string>, k: nat): seq<string>
    requires k <= |exts| && ExtShapes(exts)
    decreases |exts| - k
  {
    if k == |exts| then []
    else DirectTokens(s, exts[k]) + DirectPass(s, exts, k + 1)
  }

  /** Method 3 for the extensions from `k` on, with the window ending at
      `w`. */
  function Utf16Pass(s: string, exts: seq<string>, k: nat, w: WindowEnd): seq<string>
    requires k <= |exts| && ExtShapes(exts)
    decreases |exts| - k
  {
    if k == |exts| then []
    else Utf16Tokens(s, exts[k], w) + Utf16Pass(s, exts, k + 1, w)
  }

  /** Every token the three searches collect, in collection order, the
      third search with its window as written (efk_scanner.py:596). */
  function Candidates(s: string): seq<string>
  {
    FirstTwoPasses(s) + Utf16Pass(s, PathExtensions, 0, ExtensionLength)
  }

  /** The tokens of the first two searches, in collection order. */
  function FirstTwoPasses(s: string): seq<string>
  {
    PatternPass(s, PathExtensions, 0) + DirectPass(s, PathExtensions, 0)
  }

  /** The tokens longer than three characters. */
  function LongOnly(ps: seq<string>): seq<string>
  {
    if ps == [] then [] else (if |ps[0]| > 3 then [ps[0]] else []) + LongOnly(ps[1..])
  }

  /** What `_extract_file_paths_from_string` returns for `s`: the collected
      tokens longer than three characters, each once, in first-seen order. */
  function ExtractedPaths(s: string): seq<string>
  {
    AppendNew([], LongOnly(Candidates(s)))
  }

  /** The paths a recovered text contributes: those extracted from it when
      its lower-cased form contains one of `exts`, else none
      (efk_scanner.py:295-299, :331-335, :370-374, :748-751). */
  function MentionedPaths(s: string, exts: seq<string>): seq<string>
  {
    if MentionsAny(s, exts) then ExtractedPaths(s) else []
  }

  /** Every collected token passes the filter. */
  lemma {:induction false} CandidatesValid(s: string)
    ensures forall t :: t in Candidates(s) ==> IsValidFilePath(t)
  {
    PathExtensionShape();
    PatternPassValid(s, PathExtensions, 0);
    DirectPassValid(s, PathExtensions, 0);
    Utf16AddsNothing(s);
  }

  /** As written, the third search adds nothing: the collected tokens are
      those of the first two searches alone. */
  lemma Utf16AddsNothing(s: string)
    ensures Utf16Pass(s, PathExtensions, 0, ExtensionLength) == []
    ensures Candidates(s) == FirstTwoPasses(s)
  {
    PathExtensionShape();
    Utf16PassAsWritten(s, 0);
  }

  lemma {:induction false} Utf16PassAsWritten(s: string, k: nat)
    requires k <= |PathExtensions| && ExtShapes(PathExtensions)
    ensures Utf16Pass(s, PathExtensions, k, ExtensionLength) == []
    decreases |PathExtensions| - k
  {
    if k < |PathExtensions| {
      Utf16AsWrittenYieldsNothing(s, k);
      Utf16PassAsWritten(s, k + 1);
    }
  }

  lemma {:induction false} PatternPassValid(s: string, exts: seq<string>, k: nat)
    requires k <= |exts|
    ensures forall t :: t in PatternPass(s, exts, k) ==> IsValidFilePath(t)
    decreases |exts| - k
  {
    if k < |exts| {
      CleanValidSound(PatternMatches(s, exts[k], 0));
      PatternPassValid(s, exts, k + 1);
    }
  }

  lemma {:induction false} DirectPassValid(s: string, exts: seq<string>, k: nat)
    requires k <= |exts| && ExtShapes(exts)
    ensures forall t :: t in DirectPass(s, exts, k) ==> IsValidFilePath(t)
    decreases |exts| - k
  {
    if k < |exts| {
      DirectTokensShape(s, exts[k]);
      DirectPassValid(s, exts, k + 1);
    }
  }


  /** The intended half: with the whole pattern in the window, every token
      of the third search passes the filter. */
  lemma {:induction false} Utf16PassValid(s: string, exts: seq<string>, k: nat)
    requires k <= |exts| && ExtShapes(exts)
    ensures forall t :: t in Utf16Pass(s, exts, k, PatternLength) ==> IsValidFilePath(t)
    decreases |exts| - k
  {
    if k < |exts| {
      Utf16TokensShape(s, exts[k]);
      Utf16PassValid(s, exts, k + 1);
    }
  }


  /** Since every collected token is valid, hence longer than four
      characters, the length filter keeps them all. */
  lemma {:induction false} LengthFilterKeepsValid(ps: seq<string>)
    requires forall t :: t in ps ==> IsValidFilePath(t)
    ensures LongOnly(ps) == ps
  {
    if ps != [] {
      ValidPathIsLong(ps[0]);
      LengthFilterKeepsValid(ps[1..]);
    }
  }

  /** No search finds anything in an empty string. */
  lemma {:induction false} PassesOfEmpty(exts: seq<string>, k: nat)
    requires k <= |exts| && ExtShapes(exts)
    ensures PatternPass("", exts, k) == [] && DirectPass("", exts, k) == []
    ensures forall w :: Utf16Pass("", exts, k, w) == []
    decreases |exts| - k
  {
    if k < |exts| {
      PassesOfEmpty(exts, k + 1);
      SearchesOfEmpty(exts[k]);
    }
  }


  lemma SearchesOfEmpty(ext: string)
    requires ExtShape(ext)
    ensures PatternMatches("", ext, 0) == []
    ensures DirectWindows("", ext, 0) == [] && forall w :: Utf16Windows("", ext, w, 0) == []
  {
    assert FindFrom("", ext, 0) == None;
    assert FindFrom("", Utf16Pattern(ext), 0) == None;
  }

  /** An empty string yields no candidates. */
  lemma EmptyStringHasNoCandidates()
    ensures Candidates("") == []
  {
    PathExtensionShape();
    PassesOfEmpty(PathExtensions, 0);
  }

  /** The final loop: keep each path not yet kept and longer than three
      characters. */
  method KeepDistinctLong(paths: seq<string>) returns (unique: seq<string>)
    ensures unique == AppendNew([], LongOnly(paths))
  {
    unique := [];
    for i := 0 to |paths|
      invariant AppendNew(unique, LongOnly(paths[i..])) == AppendNew([], LongOnly(paths))
    {
      var rest := paths[i + 1..];
      assert paths[i..][1..] == rest;
      if |paths[i]| > 3 {
        assert LongOnly(paths[i..]) == [paths[i]] + LongOnly(rest);
        assert ([paths[i]] + LongOnly(rest))[1..] == LongOnly(rest);
      } else {
        assert LongOnly(paths[i..]) == LongOnly(rest);
      }
      if paths[i] !in unique && |paths[i]| > 3 {
        unique := unique + [paths[i]];
      }
    }
    assert paths[|paths|..] == [];
  }

  /** The pattern search for one extension: strip every match and keep it
      when it passes the filter. */
  method PatternSearch(s: string, ext: string) returns (found: seq<string>)
    ensures found == CleanValid(PatternMatches(s, ext, 0))
  {
    var matches := PatternMatches(s, ext, 0);
    found := [];
    for j := 0 to |matches|
      invariant found + CleanValid(matches[j..]) == CleanValid(matches)
    {
      found := CleanRound(matches, j, found);
    }
    assert matches[|matches|..] == [];
  }

  /** The body of the pattern search's loop for the `j`-th match: the match,
      stripped, is appended when it passes the filter, which keeps the loop's
      invariant. */
  method CleanRound(matches: seq<string>, j: nat, found: seq<string>) returns (found': seq<string>)
    requires j < |matches|
    requires found + CleanValid(matches[j..]) == CleanValid(matches)
    ensures found' + CleanValid(matches[j + 1..]) == CleanValid(matches)
  {
    var cleaned := Strip(matches[j]);
    CleanStep(matches, j, cleaned);
    Accumulate(found, KeepValid(cleaned), CleanValid(matches[j + 1..]), CleanValid(matches[j..]), CleanValid(matches));
    found' := found + KeepValid(cleaned);
  }

  /** Method 1 for every extension in turn. */
  method PatternSearches(s: string, exts: seq<string>) returns (paths: seq<string>)
    ensures paths == PatternPass(s, exts, 0)
  {
    paths := [];
    for k := 0 to |exts|
      invariant paths + PatternPass(s, exts, k) == PatternPass(s, exts, 0)
    {
      var found := PatternSearch(s, exts[k]);
      ConcatAssoc(paths, found, PatternPass(s, exts, k + 1));
      paths := paths + found;
    }
  }

  /** Method 2 for every extension in turn. */
  method DirectSearches(s: string, exts: seq<string>) returns (paths: seq<string>)
    requires ExtShapes(exts)
    ensures paths == DirectPass(s, exts, 0)
  {
    paths := [];
    for k := 0 to |exts|
      invariant paths + DirectPass(s, exts, k) == DirectPass(s, exts, 0)
    {
      var found := DirectSearch(s, exts[k]);
      ConcatAssoc(paths, found, DirectPass(s, exts, k + 1));
      paths := paths + found;
    }
  }

  /** Method 3 for every extension in turn, with the window ending at
      `w`. */
  method Utf16Searches(s: string, exts: seq<string>, w: WindowEnd) returns (paths: seq<string>)
    requires ExtShapes(exts)
    ensures paths == Utf16Pass(s, exts, 0, w)
  {
    paths := [];
    for k := 0 to |exts|
      invariant paths + Utf16Pass(s, exts, k, w) == Utf16Pass(s, exts, 0, w)
    {
      var found := Utf16Search(s, exts[k], w);
      ConcatAssoc(paths, found, Utf16Pass(s, exts, k + 1, w));
      paths := paths + found;
    }
  }

  /** What the final filter makes of the collected tokens: no duplicates,
      exactly the collected tokens, each valid and longer than three
      characters, and nothing for an empty string. */
  lemma ExtractFacts(s: string)
    ensures NoDuplicates(AppendNew([], LongOnly(Candidates(s))))
    ensures forall p :: p in AppendNew([], LongOnly(Candidates(s))) <==> p in Candidates(s)
    ensures forall p :: p in AppendNew([], LongOnly(Candidates(s))) ==> IsValidFilePath(p) && |p| > 3
    ensures s == [] ==> AppendNew([], LongOnly(Candidates(s))) == []
  {
    CandidatesValid(s);
    LengthFilterKeepsValid(Candidates(s));
    AppendNewFacts([], LongOnly(Candidates(s)));
    forall p | p in Candidates(s) ensures |p| > 3 {
      ValidPathIsLong(p);
    }
    if s == [] {
      EmptyStringHasNoCandidates();
    }
  }

  /** A text contributes a path exactly when it mentions an extension and
      the path is among the tokens collected from it; each contributed path
      passes the filter and is longer than three characters. */
  lemma MentionedPathsFacts(s: string, exts: seq<string>, t: string)
    ensures t in MentionedPaths(s, exts) <==> MentionsAny(s, exts) && t in Candidates(s)
    ensures t in MentionedPaths(s, exts) ==> IsValidFilePath(t) && |t| > 3
  {
    ExtractFacts(s);
  }

  /** `_extract_file_paths_from_string`: the three searches for every
      extension, the third with its window as written, then the final
      filter. The result has no duplicates, every element passes the filter
      and is longer than three characters, the result holds exactly the
      tokens of the first two searches, and an empty string gives an empty
      result. */
  method ExtractFilePathsFromString(s: string) returns (unique: seq<string>)
    ensures unique == ExtractedPaths(s)
    ensures NoDuplicates(unique)
    ensures forall p :: p in unique <==> p in Candidates(s)
    ensures forall p :: p in unique <==> p in FirstTwoPasses(s)
    ensures forall p :: p in unique ==> IsValidFilePath(p) && |p| > 3
    ensures s == [] ==> unique == []
  {
    PathExtensionShape();
    var byPattern := PatternSearches(s, PathExtensions);
    var direct := DirectSearches(s, PathExtensions);
    var utf16 := Utf16Searches(s, PathExtensions, ExtensionLength);
    var paths := byPattern + direct + utf16;
    unique := KeepDistinctLong(paths);
    ExtractFacts(s);
    FirstTwoSearches(s, unique);
  }

  /** A list holding exactly the collected tokens holds exactly those of the
      first two searches. */
  lemma FirstTwoSearches(s: string, ps: seq<string>)
    requires forall p :: p in ps <==> p in Candidates(s)
    ensures forall p :: p in ps <==> p in FirstTwoPasses(s)
  {
    Utf16AddsNothing(s);
  }
}
