/** Strings, bytes and the few Python string operations the scanners rely on.
    Character classes (`isalnum`, `isprintable`, `isspace`, `lower`) are the
    ASCII subsets of Python's definitions. */
module Common {

  datatype Option<+T> = None | Some(value: T)

  /** One byte of a file's content. */
  type Byte = x: int | 0 <= x < 256

  /** `struct.unpack('<I', c[i:i+4])[0]`: a little-endian unsigned 32-bit value. */
  function U32LE(c: seq<Byte>, i: nat): (v: nat)
    requires i + 4 <= |c|
    ensures v < 0x1_0000_0000
  {
    c[i] as int + 0x100 * (c[i + 1] as int) + 0x1_0000 * (c[i + 2] as int) + 0x100_0000 * (c[i + 3] as int)
  }

  /** A byte in 32..126, the range the scanners call printable. */
  predicate PrintableByte(b: Byte) { 32 <= b <= 126 }

  predicate IsPrintable(ch: char) { ' ' <= ch <= '~' }

  predicate IsDigit(ch: char) { '0' <= ch <= '9' }

  predicate IsAlpha(ch: char) { 'a' <= ch <= 'z' || 'A' <= ch <= 'Z' }

  predicate IsAlnum(ch: char) { IsAlpha(ch) || IsDigit(ch) }

  /** Python's `str.isspace` on ASCII: tab, line feed, vertical tab, form
      feed, carriage return, the four information separators and space. */
  predicate IsSpace(ch: char) { '\t' <= ch <= '\r' || '\U{1C}' <= ch <= ' ' }

  predicate IsSep(ch: char) { ch == '/' || ch == '\\' }

  function LowerChar(ch: char): char
  {
    if 'A' <= ch <= 'Z' then (ch as int + 32) as char else ch
  }

  function Lower(s: string): (r: string)
    ensures |r| == |s|
    ensures forall i :: 0 <= i < |s| ==> r[i] == LowerChar(s[i])
  {
    seq(|s|, i requires 0 <= i < |s| => LowerChar(s[i]))
  }

  lemma LowerAppend(a: string, b: string)
    ensures Lower(a + b) == Lower(a) + Lower(b)
  {
  }

  lemma LowerSlice(s: string, i: nat, j: nat)
    requires i <= j <= |s|
    ensures Lower(s[i..j]) == Lower(s)[i..j]
  {
  }

  /** The characters of a byte string whose bytes are all below 128. */
  function AsciiChars(b: seq<Byte>): (s: string)
    requires forall i :: 0 <= i < |b| ==> b[i] < 128
    ensures |s| == |b|
    ensures forall i :: 0 <= i < |b| ==> s[i] as int == b[i]
  {
    seq(|b|, i requires 0 <= i < |b| => b[i] as char)
  }

  /** The text of a run of bytes every one of which is below 256 (Latin-1). */
  function Latin1Chars(b: seq<Byte>): (s: string)
    ensures |s| == |b|
    ensures forall i :: 0 <= i < |b| ==> s[i] as int == b[i]
  {
    seq(|b|, i requires 0 <= i < |b| => b[i] as char)
  }

  predicate StartsWith<T(==)>(s: seq<T>, p: seq<T>) { |p| <= |s| && s[..|p|] == p }

  predicate EndsWith<T(==)>(s: seq<T>, p: seq<T>) { |p| <= |s| && s[|s| - |p|..] == p }

  /** `p[k..]` matches `s` from `i + k` on, one element at a time. */
  predicate MatchesFrom<T(==)>(s: seq<T>, p: seq<T>, i: nat, k: nat)
    requires i + |p| <= |s|
    decreases |p| - k
  {
    k >= |p| || (s[i + k] == p[k] && MatchesFrom(s, p, i, k + 1))
  }

  /** `p` occurs in `s` at `i`. */
  predicate OccursAt<T(==)>(s: seq<T>, p: seq<T>, i: nat) { i + |p| <= |s| && MatchesFrom(s, p, i, 0) }

  lemma {:induction false} MatchesFromIff<T>(s: seq<T>, p: seq<T>, i: nat, k: nat)
    requires i + |p| <= |s|
    ensures MatchesFrom(s, p, i, k) <==> forall j :: k <= j < |p| ==> s[i + j] == p[j]
    decreases |p| - k
  {
    if k < |p| {
      MatchesFromIff(s, p, i, k + 1);
    }
  }

  /** An occurrence is a slice equal to `p`. */
  lemma OccursAtSlice<T>(s: seq<T>, p: seq<T>, i: nat)
    ensures OccursAt(s, p, i) <==> i + |p| <= |s| && s[i..i + |p|] == p
  {
    if i + |p| <= |s| {
      MatchesFromIff(s, p, i, 0);
      if s[i..i + |p|] == p {
        forall j | 0 <= j < |p| ensures s[i + j] == p[j] {
          assert s[i..i + |p|][j] == s[i + j];
        }
      }
    }
  }

  /** Python's `p in s` for strings and bytes. */
  predicate Contains<T(==)>(s: seq<T>, p: seq<T>) { exists i :: 0 <= i <= |s| && OccursAt(s, p, i) }

  /** Python's `s.find(p, start)`: the lowest index at or after `start` where
      `p` occurs, or None for -1. */
  function FindFrom<T(==)>(s: seq<T>, p: seq<T>, start: nat): (r: Option<nat>)
    ensures r.Some? ==> start <= r.value && OccursAt(s, p, r.value)
    decreases |s| - start
  {
    if start + |p| > |s| then None
    else if OccursAt(s, p, start) then Some(start)
    else FindFrom(s, p, start + 1)
  }

  /** `find` returns the first occurrence at or after `start`, and -1 only
      when there is none. */
  lemma {:induction false} FindFromFirst<T>(s: seq<T>, p: seq<T>, start: nat)
    ensures FindFrom(s, p, start).Some? ==>
      forall j :: start <= j < FindFrom(s, p, start).value ==> !OccursAt(s, p, j)
    ensures FindFrom(s, p, start).None? ==> forall j: nat :: start <= j ==> !OccursAt(s, p, j)
    decreases |s| - start
  {
    if start + |p| <= |s| && !OccursAt(s, p, start) {
      FindFromFirst(s, p, start + 1);
    }
  }

  /** Membership decided one element at a time, as Python's `x in list` does. */
  predicate Listed<T(==)>(x: T, xs: seq<T>)
  {
    xs != [] && (xs[0] == x || Listed(x, xs[1..]))
  }

  lemma {:induction false} ListedIsIn<T>(x: T, xs: seq<T>)
    ensures Listed(x, xs) <==> x in xs
  {
    if xs != [] {
      ListedIsIn(x, xs[1..]);
      assert xs == [xs[0]] + xs[1..];
    }
  }

  /** `s.replace(a, b)` for single characters. */
  function ReplaceChar(s: string, a: char, b: char): (r: string)
    ensures |r| == |s|
    ensures forall i :: 0 <= i < |s| ==> r[i] == if s[i] == a then b else s[i]
  {
    seq(|s|, i requires 0 <= i < |s| => if s[i] == a then b else s[i])
  }

  /** Every backslash turned into a forward slash: `s.replace('\\', '/')`. */
  function Slashes(s: string): (r: string)
    ensures |r| == |s|
    ensures forall i :: 0 <= i < |s| ==> (r[i] == '\\' <==> false) && (r[i] == '/' <==> IsSep(s[i]))
  {
    ReplaceChar(s, '\\', '/')
  }

  /** `s.replace('\x00', '')`. */
  function RemoveNuls(s: string): (r: string)
    ensures |r| <= |s|
  {
    if s == [] then []
    else if s[0] == '\0' then RemoveNuls(s[1..])
    else [s[0]] + RemoveNuls(s[1..])
  }

  /** No NUL is left. */
  lemma {:induction false} RemoveNulsNoNul(s: string)
    ensures forall i :: 0 <= i < |RemoveNuls(s)| ==> RemoveNuls(s)[i] != '\0'
  {
    if s != [] {
      RemoveNulsNoNul(s[1..]);
    }
  }

  /** Python's `s.split(sep)` for a one-character separator. */
  function Split(s: string, sep: char): (parts: seq<string>)
    ensures |parts| >= 1
    ensures forall k, i :: 0 <= k < |parts| && 0 <= i < |parts[k]| ==> parts[k][i] != sep
    decreases |s|
  {
    if |s| == 0 then [""]
    else
      var rest := Split(s[1..], sep);
      if s[0] == sep then [""] + rest else [[s[0]] + rest[0]] + rest[1..]
  }

  /** `sep.join(parts)`. */
  function Join(parts: seq<string>, sep: char): string
  {
    if |parts| == 0 then ""
    else if |parts| == 1 then parts[0]
    else parts[0] + [sep] + Join(parts[1..], sep)
  }

  lemma {:induction false} JoinSplit(s: string, sep: char)
    ensures Join(Split(s, sep), sep) == s
    decreases |s|
  {
    if |s| > 0 {
      JoinSplit(s[1..], sep);
      var rest := Split(s[1..], sep);
      if s[0] == sep {
        assert s == [sep] + s[1..];
      } else if |rest| == 1 {
        assert s == [s[0]] + s[1..];
      } else {
        assert Join(rest, sep) == rest[0] + [sep] + Join(rest[1..], sep);
        assert s == [s[0]] + s[1..];
      }
    }
  }

  /** The last element of a non-empty sequence. */
  function Last<T>(s: seq<T>): T
    requires |s| > 0
  {
    s[|s| - 1]
  }

  /** The first index at or after `i` that does not hold white space. */
  function SkipSpaces(s: string, i: nat): (j: nat)
    requires i <= |s|
    ensures i <= j <= |s|
    decreases |s| - i
  {
    if i < |s| && IsSpace(s[i]) then SkipSpaces(s, i + 1) else i
  }

  /** `SkipSpaces` passes only white space and stops at the end or at a
      character that is not. */
  lemma {:induction false} SkipSpacesFacts(s: string, i: nat)
    requires i <= |s|
    ensures forall k :: i <= k < SkipSpaces(s, i) ==> IsSpace(s[k])
    ensures SkipSpaces(s, i) < |s| ==> !IsSpace(s[SkipSpaces(s, i)])
    decreases |s| - i
  {
    if i < |s| && IsSpace(s[i]) {
      SkipSpacesFacts(s, i + 1);
    }
  }

  /** `s.strip()`: leading white space removed, then trailing. */
  function Strip(s: string): (r: string)
    ensures |r| <= |s|
    decreases |s|
  {
    if s != [] && IsSpace(s[0]) then Strip(s[1..])
    else if s != [] && IsSpace(s[|s| - 1]) then Strip(s[..|s| - 1])
    else s
  }

  /** Skipping white space from `i + 1` in `s` is skipping it from `i` in
      `s` without its first character. */
  lemma {:induction false} SkipSpacesTail(s: string, i: nat)
    requires i < |s|
    ensures SkipSpaces(s, i + 1) == 1 + SkipSpaces(s[1..], i)
    decreases |s| - i
  {
    if i + 1 < |s| && IsSpace(s[i + 1]) {
      SkipSpacesTail(s, i + 1);
    }
  }

  /** What `strip` keeps: the slice of `s` that starts after the leading
      white space, with only white space after it, and neither starting nor
      ending with white space. */
  lemma {:induction false} StripSlice(s: string)
    ensures SkipSpaces(s, 0) + |Strip(s)| <= |s|
    ensures Strip(s) == s[SkipSpaces(s, 0)..SkipSpaces(s, 0) + |Strip(s)|]
    ensures forall k :: SkipSpaces(s, 0) + |Strip(s)| <= k < |s| ==> IsSpace(s[k])
    ensures Strip(s) != [] ==> !IsSpace(Strip(s)[0]) && !IsSpace(Strip(s)[|Strip(s)| - 1])
    decreases |s|
  {
    if s != [] && IsSpace(s[0]) {
      StripSlice(s[1..]);
      SkipSpacesTail(s, 0);
    } else if s != [] && IsSpace(s[|s| - 1]) {
      var t := s[..|s| - 1];
      StripSlice(t);
      assert SkipSpaces(s, 0) == 0 && SkipSpaces(t, 0) == 0;
    }
  }

  /** Sum of a sequence of naturals. */
  function Sum(xs: seq<nat>): nat
  {
    if xs == [] then 0 else xs[0] + Sum(xs[1..])
  }

  lemma {:induction false} SumAppend(a: seq<nat>, b: seq<nat>)
    ensures Sum(a + b) == Sum(a) + Sum(b)
  {
    if a == [] {
      assert a + b == b;
    } else {
      assert (a + b)[0] == a[0];
      assert (a + b)[1..] == a[1..] + b;
      SumAppend(a[1..], b);
    }
  }

  /** No element appears twice. */
  predicate NoDuplicates<T(==)>(s: seq<T>)
  {
    forall i, j :: 0 <= i < j < |s| ==> s[i] != s[j]
  }

  /** `xs` appended to `acc`, skipping every element already present:
      the loop `for x in xs: if x not in acc: acc.append(x)`. */
  function AppendNew<T(==)>(acc: seq<T>, xs: seq<T>): seq<T>
    decreases |xs|
  {
    if xs == [] then acc
    else AppendNew(if xs[0] in acc then acc else acc + [xs[0]], xs[1..])
  }

  /** Appending only new elements keeps a duplicate-free list duplicate-free
      and loses nothing: the result holds exactly the elements of both. */
  lemma {:induction false} AppendNewFacts<T>(acc: seq<T>, xs: seq<T>)
    requires NoDuplicates(acc)
    ensures NoDuplicates(AppendNew(acc, xs))
    ensures forall x :: x in AppendNew(acc, xs) <==> x in acc || x in xs
    ensures acc <= AppendNew(acc, xs)
    decreases |xs|
  {
    if xs != [] {
      var acc' := if xs[0] in acc then acc else acc + [xs[0]];
      assert NoDuplicates(acc') by {
        if xs[0] !in acc {
          forall i, j | 0 <= i < j < |acc'| ensures acc'[i] != acc'[j] {
            if j == |acc| { assert acc'[i] == acc[i]; }
          }
        }
      }
      AppendNewFacts(acc', xs[1..]);
      assert xs == [xs[0]] + xs[1..];
    }
  }

  /** Concatenation is associative. */
  lemma ConcatAssoc<T>(a: seq<T>, b: seq<T>, c: seq<T>)
    ensures a + b + c == a + (b + c)
  {
  }

  /** `s.replace('\x00', '')` distributes over concatenation. */
  lemma {:induction false} RemoveNulsAppend(a: string, b: string)
    ensures RemoveNuls(a + b) == RemoveNuls(a) + RemoveNuls(b)
  {
    if a == [] {
      assert a + b == b;
    } else {
      assert (a + b)[0] == a[0];
      assert (a + b)[1..] == a[1..] + b;
      RemoveNulsAppend(a[1..], b);
    }
  }

  /** One step of `RemoveNuls`. */
  lemma RemoveNulsCons(u: string, ch: char, t: string)
    requires u == [ch] + t
    ensures RemoveNuls(u) == if ch == '\0' then RemoveNuls(t) else [ch] + RemoveNuls(t)
  {
    assert u[0] == ch && u[1..] == t;
  }

  /** Removing NULs from a string without any leaves it unchanged. */
  lemma {:induction false} RemoveNulsNone(a: string)
    requires forall i :: 0 <= i < |a| ==> a[i] != '\0'
    ensures RemoveNuls(a) == a
  {
    if a != [] {
      RemoveNulsNone(a[1..]);
    }
  }

  /** Stripping white space keeps a suffix that starts and ends with
      non-space characters. */
  lemma StripKeepsSuffix(u: string, t: string)
    requires |t| > 0 && EndsWith(u, t)
    requires !IsSpace(t[0]) && !IsSpace(t[|t| - 1])
    ensures EndsWith(Strip(u), t)
  {
    var a := SkipSpaces(u, 0);
    SkipSpacesFacts(u, 0);
    StripSlice(u);
    assert u[|u| - |t|] == t[0];
    assert a <= |u| - |t|;
    assert u[|u| - 1] == t[|t| - 1];
    assert a + |Strip(u)| == |u|;
    assert Strip(u)[|Strip(u)| - |t|..] == u[|u| - |t|..];
  }

}
