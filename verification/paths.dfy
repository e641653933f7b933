/** Windows path syntax as `ntpath` defines it for `basename` and
    `splitext`: both `\` and `/` separate components, and the extension is
    the text from the last dot of the last component, unless that component
    has only dots before it. The functions carry only their bounds; what
    they find is stated by the lemmas after them. */
module Paths {
  import opened Common

  /** The index of the last separator in `s[..n]`, or -1. */
  function LastSep(s: string, n: nat): (k: int)
    requires n <= |s|
    ensures -1 <= k < n
  {
    if n == 0 then -1 else if IsSep(s[n - 1]) then n - 1 else LastSep(s, n - 1)
  }

  /** `LastSep` finds a separator, and none follows it. */
  lemma {:induction false} LastSepFacts(s: string, n: nat)
    requires n <= |s|
    ensures LastSep(s, n) >= 0 ==> IsSep(s[LastSep(s, n)])
    ensures forall j :: LastSep(s, n) < j < n ==> !IsSep(s[j])
  {
    if n > 0 && !IsSep(s[n - 1]) {
      LastSepFacts(s, n - 1);
    }
  }

  /** The index of the last dot in `s[..n]`, or -1. */
  function LastDot(s: string, n: nat): (k: int)
    requires n <= |s|
    ensures -1 <= k < n
  {
    if n == 0 then -1 else if s[n - 1] == '.' then n - 1 else LastDot(s, n - 1)
  }

  /** `LastDot` finds a dot, and none follows it. */
  lemma {:induction false} LastDotFacts(s: string, n: nat)
    requires n <= |s|
    ensures LastDot(s, n) >= 0 ==> s[LastDot(s, n)] == '.'
    ensures forall j :: LastDot(s, n) < j < n ==> s[j] != '.'
  {
    if n > 0 && s[n - 1] != '.' {
      LastDotFacts(s, n - 1);
    }
  }

  /** `os.path.basename(p)`: the text after the last separator. */
  function Basename(p: string): (b: string)
    ensures |b| <= |p|
  {
    p[LastSep(p, |p|) + 1..]
  }

  /** The base name is a suffix of the path and holds no separator. */
  lemma BasenameFacts(p: string)
    ensures Basename(p) == p[|p| - |Basename(p)|..]
    ensures forall j :: 0 <= j < |Basename(p)| ==> !IsSep(Basename(p)[j])
  {
    LastSepFacts(p, |p|);
  }

  /** Does `p[lo..hi]` hold a character other than a dot? */
  predicate HasNonDot(p: string, lo: nat, hi: nat)
    requires lo <= hi <= |p|
    decreases hi
  {
    lo < hi && (p[hi - 1] != '.' || HasNonDot(p, lo, hi - 1))
  }

  lemma {:induction false} HasNonDotIff(p: string, lo: nat, hi: nat)
    requires lo <= hi <= |p|
    ensures HasNonDot(p, lo, hi) <==> exists j :: lo <= j < hi && p[j] != '.'
    decreases hi
  {
    if lo < hi {
      HasNonDotIff(p, lo, hi - 1);
    }
  }

  /** Where `os.path.splitext(p)` cuts `p`: at the last dot of the last
      component when something other than dots precedes it in that
      component, otherwise at the end. */
  function ExtStart(p: string): (k: nat)
    ensures k <= |p|
  {
    var sep := LastSep(p, |p|);
    var dot := LastDot(p, |p|);
    if dot > sep && HasNonDot(p, sep + 1, dot) then dot else |p|
  }

  /** The cut is at a dot of the last component with a character other than
      a dot before it in that component, and no dot or separator follows. */
  lemma ExtStartFacts(p: string)
    ensures ExtStart(p) < |p| ==>
      p[ExtStart(p)] == '.' && LastSep(p, |p|) < ExtStart(p) && HasNonDot(p, LastSep(p, |p|) + 1, ExtStart(p))
    ensures forall j :: ExtStart(p) < j < |p| ==> p[j] != '.' && !IsSep(p[j])
  {
    LastSepFacts(p, |p|);
    LastDotFacts(p, |p|);
  }

  /** `os.path.splitext(p)[1]`. */
  function Ext(p: string): string
  {
    p[ExtStart(p)..]
  }

  /** `os.path.splitext(p)[0]`. */
  function Root(p: string): string
  {
    p[..ExtStart(p)]
  }

  /** `splitext` splits: the root and the extension put back together give
      the path; the extension is empty or a dot followed by neither dots nor
      separators; and a non-empty extension leaves a root holding something
      other than dots. */
  lemma SplitExtFacts(p: string)
    ensures Root(p) + Ext(p) == p
    ensures Ext(p) == [] || (Ext(p)[0] == '.' && forall j :: 1 <= j < |Ext(p)| ==> Ext(p)[j] != '.' && !IsSep(Ext(p)[j]))
    ensures Ext(p) != [] ==> exists j :: 0 <= j < |Root(p)| && Root(p)[j] != '.'
  {
    var k := ExtStart(p);
    ExtStartFacts(p);
    assert p[..k] + p[k..] == p;
    if k < |p| {
      var sep := LastSep(p, |p|);
      HasNonDotIff(p, sep + 1, k);
      var j :| sep + 1 <= j < k && p[j] != '.';
      assert Root(p)[j] == p[j];
    }
  }

  /** Lower-casing changes no separator and no dot, so it moves neither
      the base name nor the extension. */
  lemma {:induction false} LowerLastSep(p: string, n: nat)
    requires n <= |p|
    ensures LastSep(Lower(p), n) == LastSep(p, n)
  {
    if n > 0 {
      LowerLastSep(p, n - 1);
    }
  }

  lemma {:induction false} LowerLastDot(p: string, n: nat)
    requires n <= |p|
    ensures LastDot(Lower(p), n) == LastDot(p, n)
  {
    if n > 0 {
      LowerLastDot(p, n - 1);
    }
  }

  lemma {:induction false} LowerHasNonDot(p: string, lo: nat, hi: nat)
    requires lo <= hi <= |p|
    ensures HasNonDot(Lower(p), lo, hi) == HasNonDot(p, lo, hi)
    decreases hi
  {
    if lo < hi {
      LowerHasNonDot(p, lo, hi - 1);
    }
  }

  /** `splitext` of the lower-cased path is the lower-cased `splitext`. */
  lemma LowerSplitExt(p: string)
    ensures Ext(Lower(p)) == Lower(Ext(p)) && Root(Lower(p)) == Lower(Root(p))
  {
    LowerLastSep(p, |p|);
    LowerLastDot(p, |p|);
    LowerHasNonDot(p, LastSep(p, |p|) + 1, if LastDot(p, |p|) > LastSep(p, |p|) then LastDot(p, |p|) else LastSep(p, |p|) + 1);
    assert ExtStart(Lower(p)) == ExtStart(p);
    LowerSlice(p, ExtStart(p), |p|);
    LowerSlice(p, 0, ExtStart(p));
  }
}
