/** The byte half of `_search_binary_patterns_improved` (efk_scanner.py:
    683-711): every occurrence of each extension's bytes in the raw content
    is widened to the left over printable bytes up to a path separator, and
    the window, decoded as ASCII, is kept when it passes the path filter. */
module EfkByteSearch {
  import opened Common
  import opened Codecs
  import opened PathTokens

  predicate IsAscii(e: string)
  {
    forall i :: 0 <= i < |e| ==> e[i] as int < 128
  }

  /** `e.encode()` for a string of ASCII characters: one byte per character. */
  function AsciiBytes(e: string): (b: seq<Byte>)
    requires IsAscii(e)
    ensures |b| == |e| && forall i :: 0 <= i < |e| ==> b[i] == e[i] as int
  {
    seq(|e|, i requires 0 <= i < |e| => e[i] as int)
  }

  /** `p` is the byte encoding of the ASCII string `e`. */
  predicate Encodes(p: seq<Byte>, e: string)
  {
    |p| == |e| && forall i :: 0 <= i < |e| ==> p[i] == e[i] as int
  }

  /** The filter a kept window must pass (`_is_valid_file_path`). */
  type PathFilter = string -> bool

  /** A character that may appear in a path token: printable and not a separator. */
  predicate TokenChar(ch: char)
  {
    IsPrintable(ch) && ch != '\\' && ch != '/'
  }

  /** The characters of an extension are ASCII and may appear in a token. */
  lemma ExtShapeAscii(e: string)
    requires ExtShape(e)
    ensures IsAscii(e) && forall i :: 0 <= i < |e| ==> TokenChar(e[i])
  {
    ExtShapeChars(e);
  }

  /** A byte the left widening steps over: printable (32..126) and neither
      `\` nor `/`. */
  predicate BackByte(b: Byte)
  {
    b != 92 && b != 47 && 32 <= b <= 126
  }

  /** Where the left widening from `pos` stops. */
  function BackStart(c: seq<Byte>, pos: nat): (k: nat)
    requires pos <= |c|
    ensures k <= pos
  {
    if pos > 0 && BackByte(c[pos - 1]) then BackStart(c, pos - 1) else pos
  }

  /** The widening steps over widening bytes only and stops at the start of
      the content or before a byte it may not step over. */
  lemma {:induction false} BackStartFacts(c: seq<Byte>, pos: nat)
    requires pos <= |c|
    ensures forall j :: BackStart(c, pos) <= j < pos ==> BackByte(c[j])
    ensures BackStart(c, pos) == 0 || !BackByte(c[BackStart(c, pos) - 1])
  {
    if pos > 0 && BackByte(c[pos - 1]) {
      BackStartFacts(c, pos - 1);
    }
  }

  /** The widening loop (efk_scanner.py:693-700). */
  method ExpandBack(c: seq<Byte>, pos: nat) returns (start: nat)
    requires pos <= |c|
    ensures start == BackStart(c, pos)
  {
    start := pos;
    while start > 0
      invariant start <= pos && BackStart(c, start) == BackStart(c, pos)
    {
      var ch := c[start - 1];
      if ch == 92 || ch == 47 {
        break;
      }
      if !(32 <= ch <= 126) {
        break;
      }
      start := start - 1;
    }
  }

  /** What the occurrence of `p` at `pos` contributes. */
  function ByteHit(c: seq<Byte>, p: seq<Byte>, pos: nat, valid: PathFilter): seq<string>
  {
    if pos + |p| > |c| then []
    else
      var start := BackStart(c, pos);
      if start < pos then
        var filename := DecodeAsciiIgnore(c[start..pos + |p|]);
        if valid(filename) then [filename] else []
      else []
  }

  /** What each position contributes, as a function of the position. */
  type HitFn = nat -> seq<string>

  function ByteHits(c: seq<Byte>, p: seq<Byte>, valid: PathFilter): (h: HitFn)
    ensures forall q :: h(q) == ByteHit(c, p, q, valid)
  {
    (q: nat) => ByteHit(c, p, q, valid)
  }

  /** What the occurrences of `p` at `start` or later contribute, in order. */
  function HitsFrom(c: seq<Byte>, p: seq<Byte>, start: nat, hit: HitFn): seq<string>
    decreases |c| + 1 - start
  {
    match FindFrom(c, p, start)
    case None => []
    case Some(q) => hit(q) + HitsFrom(c, p, q + 1, hit)
  }

  /** The tokens the search for `p` keeps. */
  function ByteSearchFrom(c: seq<Byte>, p: seq<Byte>, start: nat, valid: PathFilter): seq<string>
  {
    HitsFrom(c, p, start, ByteHits(c, p, valid))
  }

  /** The shape of every kept token: it passes the path filter, ends with
      the extension after at least one more character, and is printable
      with no path separator. */
  predicate ByteTokenShape(t: string, e: string, valid: PathFilter)
  {
    valid(t) && |t| > |e| && EndsWith(t, e) && forall i :: 0 <= i < |t| ==> TokenChar(t[i])
  }

  /** A window of widening bytes followed by the bytes of an extension
      decodes to a token that ends with the extension and holds only token
      characters. */
  lemma TokenOfWindow(w: seq<Byte>, n: nat, e: string)
    requires n + |e| == |w|
    requires forall i :: 0 <= i < n ==> BackByte(w[i])
    requires forall j :: 0 <= j < |e| ==> w[n + j] == e[j] as int
    requires IsAscii(e) && forall j :: 0 <= j < |e| ==> TokenChar(e[j])
    ensures |DecodeAsciiIgnore(w)| == |w| && EndsWith(DecodeAsciiIgnore(w), e)
    ensures forall i :: 0 <= i < |w| ==> TokenChar(DecodeAsciiIgnore(w)[i])
  {
    assert forall i :: 0 <= i < |w| ==> w[i] < 128 by {
      forall i | 0 <= i < |w| ensures w[i] < 128 {
        if i >= n {
          assert w[n + (i - n)] == e[i - n] as int;
        }
      }
    }
    AsciiIgnoreAgrees(w);
    var t := AsciiChars(w);
    assert t[n..] == e by {
      forall j | 0 <= j < |e| ensures t[n..][j] == e[j] {
        assert t[n + j] as int == w[n + j];
      }
    }
    forall i | 0 <= i < |w| ensures TokenChar(t[i]) {
      if i >= n {
        assert t[i] == e[i - n] by {
          assert t[n..][i - n] == t[i];
        }
      } else {
        assert t[i] as int == w[i];
      }
    }
  }

  lemma ByteHitShape(c: seq<Byte>, p: seq<Byte>, e: string, pos: nat, valid: PathFilter)
    requires ExtShape(e) && Encodes(p, e)
    requires OccursAt(c, p, pos)
    ensures forall t :: t in ByteHit(c, p, pos, valid) ==> ByteTokenShape(t, e, valid)
  {
    var start := BackStart(c, pos);
    if start < pos {
      ExtShapeAscii(e);
      BackStartFacts(c, pos);
      MatchesFromIff(c, p, pos, 0);
      var w := c[start..pos + |p|];
      var n := pos - start;
      forall i | 0 <= i < n ensures BackByte(w[i]) {
        assert w[i] == c[start + i];
      }
      forall j | 0 <= j < |e| ensures w[n + j] == e[j] as int {
        assert w[n + j] == c[pos + j] == p[j];
      }
      TokenOfWindow(w, n, e);
    }
  }

  /** Every contribution comes from an occurrence at `start` or later. */
  lemma {:induction false} HitsSound(c: seq<Byte>, p: seq<Byte>, start: nat, hit: HitFn, t: string)
    requires t in HitsFrom(c, p, start, hit)
    ensures exists q :: start <= q && OccursAt(c, p, q) && t in hit(q)
    decreases |c| + 1 - start
  {
    var q := FindFrom(c, p, start).value;
    if t !in hit(q) {
      HitsSound(c, p, q + 1, hit, t);
    }
  }

  /** Every occurrence at `start` or later contributes, overlapping ones included. */
  lemma {:induction false} HitsComplete(c: seq<Byte>, p: seq<Byte>, start: nat, hit: HitFn, q: nat, t: string)
    requires start <= q && OccursAt(c, p, q) && t in hit(q)
    ensures t in HitsFrom(c, p, start, hit)
    decreases |c| + 1 - start
  {
    FindFromFirst(c, p, start);
    var r := FindFrom(c, p, start).value;
    if q != r {
      HitsComplete(c, p, r + 1, hit, q, t);
    }
  }

  /** Every token comes from an occurrence at `start` or later. */
  lemma ByteSearchSound(c: seq<Byte>, p: seq<Byte>, start: nat, valid: PathFilter, t: string)
    requires t in ByteSearchFrom(c, p, start, valid)
    ensures exists q :: start <= q && OccursAt(c, p, q) && t in ByteHit(c, p, q, valid)
  {
    HitsSound(c, p, start, ByteHits(c, p, valid), t);
  }

  /** Every occurrence at `start` or later is considered, overlapping ones included. */
  lemma ByteSearchComplete(c: seq<Byte>, p: seq<Byte>, start: nat, valid: PathFilter, q: nat, t: string)
    requires start <= q && OccursAt(c, p, q) && t in ByteHit(c, p, q, valid)
    ensures t in ByteSearchFrom(c, p, start, valid)
  {
    HitsComplete(c, p, start, ByteHits(c, p, valid), q, t);
  }

  /** Every token of the search has that shape. */
  lemma ByteSearchShape(c: seq<Byte>, p: seq<Byte>, e: string, start: nat, valid: PathFilter)
    requires ExtShape(e) && Encodes(p, e)
    ensures forall t :: t in ByteSearchFrom(c, p, start, valid) ==> ByteTokenShape(t, e, valid)
  {
    forall t | t in ByteSearchFrom(c, p, start, valid) ensures ByteTokenShape(t, e, valid) {
      ByteSearchSound(c, p, start, valid, t);
      var q :| start <= q && OccursAt(c, p, q) && t in ByteHit(c, p, q, valid);
      ByteHitShape(c, p, e, q, valid);
    }
  }

  /** The search loop has kept `found` for the occurrences before `pos`. */
  ghost predicate SearchedTo(c: seq<Byte>, p: seq<Byte>, hit: HitFn, pos: nat, found: seq<string>)
  {
    found + HitsFrom(c, p, pos, hit) == HitsFrom(c, p, 0, hit)
  }

  /** One round of the search loop. */
  lemma HitsStep(c: seq<Byte>, p: seq<Byte>, hit: HitFn, pos: nat, q: nat, found: seq<string>)
    requires FindFrom(c, p, pos) == Some(q)
    requires SearchedTo(c, p, hit, pos, found)
    ensures SearchedTo(c, p, hit, q + 1, found + hit(q))
  {
    ConcatAssoc(found, hit(q), HitsFrom(c, p, q + 1, hit));
  }

  /** The body of the search loop for the occurrence at `pos`
      (efk_scanner.py:690-707). */
  method WidenHit(c: seq<Byte>, p: seq<Byte>, pos: nat, valid: PathFilter) returns (kept: seq<string>)
    requires OccursAt(c, p, pos)
    ensures kept == ByteHit(c, p, pos, valid)
  {
    var start := ExpandBack(c, pos);
    kept := [];
    if start < pos {
      var filename := DecodeAsciiIgnore(c[start..pos + |p|]);
      if valid(filename) {
        kept := [filename];
      }
    }
  }

  /** The search loop for one extension (efk_scanner.py:683-711), with the
      filter as a parameter. */
  method SearchPattern(c: seq<Byte>, pattern: seq<Byte>, valid: PathFilter) returns (paths: seq<string>)
    ensures paths == ByteSearchFrom(c, pattern, 0, valid)
  {
    ghost var hit := ByteHits(c, pattern, valid);
    paths := [];
    var pos := 0;
    while true
      invariant pos <= |c| + 1
      invariant SearchedTo(c, pattern, hit, pos, paths)
      decreases |c| + 1 - pos
    {
      var found := FindFrom(c, pattern, pos);
      if found.None? {
        break;
      }
      var q := found.value;
      HitsStep(c, pattern, hit, pos, q, paths);
      var kept := WidenHit(c, pattern, q, valid);
      assert kept == hit(q);
      paths := paths + kept;
      pos := q + 1;
    }
  }

  /** The search for one extension: every token passes the path filter, ends
      with the extension and is printable without a separator. */
  method ByteSearch(c: seq<Byte>, e: string) returns (paths: seq<string>)
    requires ExtShape(e) && IsAscii(e)
    ensures paths == ByteSearchFrom(c, AsciiBytes(e), 0, IsValidFilePath)
    ensures forall t :: t in paths ==> ByteTokenShape(t, e, IsValidFilePath)
  {
    ExtShapeAscii(e);
    paths := SearchPattern(c, AsciiBytes(e), IsValidFilePath);
    ByteSearchShape(c, AsciiBytes(e), e, 0, IsValidFilePath);
  }

  /** The searches for `exts[k..]`, one after another. */
  function BytePass(c: seq<Byte>, exts: seq<string>, k: nat): seq<string>
    requires ExtShapes(exts)
    decreases |exts| - k
  {
    if k >= |exts| then []
    else
      ExtShapeAscii(exts[k]);
      ByteSearchFrom(c, AsciiBytes(exts[k]), 0, IsValidFilePath) + BytePass(c, exts, k + 1)
  }

  /** Every token of the pass is printable, separator-free, passes the path
      filter, and ends with one of the extensions searched for. */
  lemma {:induction false} BytePassShape(c: seq<Byte>, exts: seq<string>, k: nat)
    requires ExtShapes(exts)
    ensures forall t :: t in BytePass(c, exts, k) ==> exists j :: k <= j < |exts| && ByteTokenShape(t, exts[j], IsValidFilePath)
    decreases |exts| - k
  {
    if k < |exts| {
      ExtShapeAscii(exts[k]);
      ByteSearchShape(c, AsciiBytes(exts[k]), exts[k], 0, IsValidFilePath);
      BytePassShape(c, exts, k + 1);
    }
  }

  /** The loop over the extensions. */
  method ByteSearches(c: seq<Byte>, exts: seq<string>) returns (paths: seq<string>)
    requires ExtShapes(exts)
    ensures paths == BytePass(c, exts, 0)
  {
    paths := [];
    for k := 0 to |exts|
      invariant paths + BytePass(c, exts, k) == BytePass(c, exts, 0)
    {
      ExtShapeAscii(exts[k]);
      var found := ByteSearch(c, exts[k]);
      ConcatAssoc(paths, found, BytePass(c, exts, k + 1));
      paths := paths + found;
    }
  }
}
