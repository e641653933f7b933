/** The binary passes of the EFK analysis tool (tools/analyze_efk.py): runs of
    zero bytes, the byte histogram and its ten most common bytes, file
    signatures and every occurrence of the extension patterns. */
module AnalyzeEfkBinary {
  import opened Common
  import opened ByteRuns

  // ------------------------------------------------------------ first seen

  /** The distinct elements of `xs` in order of first appearance: the key
      order of a Python dict filled from `xs`. */
  function FirstSeen<T(==)>(xs: seq<T>): (r: seq<T>)
    decreases |xs|
  {
    if xs == [] then []
    else
      var r := FirstSeen(xs[..|xs| - 1]);
      if xs[|xs| - 1] in r then r else r + [xs[|xs| - 1]]
  }

  /** Each element of `xs` is listed exactly once. */
  lemma {:induction false} FirstSeenFacts<T>(xs: seq<T>)
    ensures NoDuplicates(FirstSeen(xs))
    ensures forall x :: x in FirstSeen(xs) <==> x in xs
    decreases |xs|
  {
    if xs != [] {
      var init := xs[..|xs| - 1];
      FirstSeenFacts(init);
      assert xs == init + [xs[|xs| - 1]];
    }
  }

  // ------------------------------------------------------------- null runs

  /** The offsets of the zero bytes of `c` at or after `from`, ascending. */
  function ZeroPositions(c: seq<Byte>, from: nat): (ps: seq<nat>)
    requires from <= |c|
    ensures forall k :: 0 <= k < |ps| ==> from <= ps[k] < |c| && c[ps[k]] == 0
    decreases |c| - from
  {
    if from == |c| then []
    else if c[from] == 0 then [from] + ZeroPositions(c, from + 1)
    else ZeroPositions(c, from + 1)
  }

  /** Only non-zero bytes precede the first listed zero, and the rest of the
      list starts after it. */
  lemma {:induction false} ZeroPositionsHead(c: seq<Byte>, from: nat)
    requires from <= |c| && ZeroPositions(c, from) != []
    ensures forall k :: from <= k < ZeroPositions(c, from)[0] ==> c[k] != 0
    ensures ZeroPositions(c, from)[1..] == ZeroPositions(c, ZeroPositions(c, from)[0] + 1)
    decreases |c| - from
  {
    if c[from] == 0 {
      assert ZeroPositions(c, from) == [from] + ZeroPositions(c, from + 1);
    } else {
      ZeroPositionsHead(c, from + 1);
    }
  }

  /** An empty list means no zero byte from `from` on. */
  lemma {:induction false} ZeroPositionsNone(c: seq<Byte>, from: nat)
    requires from <= |c| && ZeroPositions(c, from) == []
    ensures forall k :: from <= k < |c| ==> c[k] != 0
    decreases |c| - from
  {
    if from < |c| {
      ZeroPositionsNone(c, from + 1);
    }
  }

  /** `null_positions` is empty exactly when the content has no zero byte. */
  lemma ZeroPositionsEmpty(c: seq<Byte>)
    ensures ZeroPositions(c, 0) == [] <==> forall k :: 0 <= k < |c| ==> c[k] != 0
  {
    if ZeroPositions(c, 0) == [] {
      ZeroPositionsNone(c, 0);
    } else {
      var q := ZeroPositions(c, 0)[0];
      assert c[q] == 0;
    }
  }

  /** The first loop of `_analyze_binary_structure`: the offsets of all zero bytes. */
  method NullPositions(c: seq<Byte>) returns (ps: seq<nat>)
    ensures ps == ZeroPositions(c, 0)
  {
    ps := [];
    for i := 0 to |c|
      invariant ps + ZeroPositions(c, i) == ZeroPositions(c, 0)
    {
      if c[i] == 0 {
        ConcatAssoc(ps, [i], ZeroPositions(c, i + 1));
        ps := ps + [i];
      }
    }
  }

  /** A `(start, count)` pair of `null_runs`. */
  datatype NullRun = NullRun(start: nat, count: nat)

  /** `runs` lists `spans` one for one, as start and length. */
  predicate Describes(runs: seq<NullRun>, spans: seq<Span>)
  {
    |runs| == |spans|
    && forall k :: 0 <= k < |runs| ==>
      runs[k].start == spans[k].start && runs[k].start + runs[k].count == spans[k].end
  }

  /** The state of the grouping loop before it reads `ps[i]`: the open run
      `[start, start + count)` of zeros ends at `ps[i - 1]`, the rest of `ps`
      lists the zeros after it, and the closed runs are the spans of two or
      more zeros before `start`. */
  ghost predicate Grouping(c: seq<Byte>, ps: seq<nat>, i: nat, start: nat, count: nat,
                           spans: seq<Span>, runs: seq<NullRun>)
  {
    1 <= i <= |ps| && ps[i - 1] < |c| && ps[i..] == ZeroPositions(c, ps[i - 1] + 1)
    && 1 <= count && start + count == ps[i - 1] + 1
    && (forall k :: start <= k < start + count ==> c[k] == 0)
    && spans + SpansFrom(c, start, 2, Zero) == SpansFrom(c, 0, 2, Zero)
    && Describes(runs, spans)
  }

  lemma GroupStart(c: seq<Byte>, ps: seq<nat>)
    requires ps == ZeroPositions(c, 0) && ps != []
    ensures Grouping(c, ps, 1, ps[0], 1, [], [])
  {
    ZeroPositionsHead(c, 0);
    SkipMany(c, 0, ps[0], 2, Zero);
  }

  /** The next zero is adjacent: the open run grows by one. */
  lemma GroupExtend(c: seq<Byte>, ps: seq<nat>, i: nat, start: nat, count: nat,
                    spans: seq<Span>, runs: seq<NullRun>)
    requires Grouping(c, ps, i, start, count, spans, runs)
    requires i < |ps| && ps[i] == ps[i - 1] + 1
    ensures Grouping(c, ps, i + 1, start, count + 1, spans, runs)
  {
    ZeroPositionsHead(c, ps[i - 1] + 1);
    assert ps[i..][1..] == ps[i + 1..];
  }

  /** Closing the run `[start, e)` that a non-zero byte ends, with only
      non-zero bytes up to `next`: its span is kept if it is two or more long. */
  lemma CloseSpans(c: seq<Byte>, start: nat, e: nat, next: nat, spans: seq<Span>)
    requires start < e < next <= |c|
    requires forall k :: start <= k < e ==> c[k] == 0
    requires forall k :: e <= k < next ==> c[k] != 0
    ensures (if e - start > 1 then spans + [Span(start, e)] else spans) + SpansFrom(c, next, 2, Zero)
      == spans + SpansFrom(c, start, 2, Zero)
  {
    RunStep(c, start, e, 2, Zero);
    SkipMany(c, e, next, 2, Zero);
    if e - start > 1 {
      ConcatAssoc(spans, [Span(start, e)], SpansFrom(c, e, 2, Zero));
    }
  }

  /** The next zero `ps[i]` after a gap: only non-zero bytes lie between the
      end `e` of the open run and it. */
  lemma GapFacts(c: seq<Byte>, ps: seq<nat>, i: nat, e: nat)
    requires e <= |c| && i < |ps| && ps[i..] == ZeroPositions(c, e) && ps[i] != e
    ensures e < ps[i] < |c| && c[ps[i]] == 0
    ensures forall k :: e <= k < ps[i] ==> c[k] != 0
    ensures ps[i + 1..] == ZeroPositions(c, ps[i] + 1)
  {
    ZeroPositionsHead(c, e);
    assert ps[i..][0] == ps[i] && ps[i..][1..] == ps[i + 1..];
  }

  lemma DescribesSnoc(runs: seq<NullRun>, spans: seq<Span>, start: nat, count: nat)
    requires Describes(runs, spans)
    ensures Describes(runs + [NullRun(start, count)], spans + [Span(start, start + count)])
  {
  }

  /** The next zero is not adjacent: the open run is closed, and kept if it
      has two or more zeros. */
  lemma GroupClose(c: seq<Byte>, ps: seq<nat>, i: nat, start: nat, count: nat,
                   spans: seq<Span>, runs: seq<NullRun>)
    requires Grouping(c, ps, i, start, count, spans, runs)
    requires i < |ps| && ps[i] != ps[i - 1] + 1
    ensures Grouping(c, ps, i + 1, ps[i], 1,
      if count > 1 then spans + [Span(start, start + count)] else spans,
      if count > 1 then runs + [NullRun(start, count)] else runs)
  {
    var e := start + count;
    GapFacts(c, ps, i, e);
    CloseSpans(c, start, e, ps[i], spans);
    if count > 1 {
      DescribesSnoc(runs, spans, start, count);
    }
  }

  /** After the last zero the open run is the last one. */
  lemma GroupFinal(c: seq<Byte>, ps: seq<nat>, start: nat, count: nat,
                   spans: seq<Span>, runs: seq<NullRun>)
    requires Grouping(c, ps, |ps|, start, count, spans, runs)
    ensures Describes(if count > 1 then runs + [NullRun(start, count)] else runs,
                      SpansFrom(c, 0, 2, Zero))
  {
    var e := start + count;
    assert ZeroPositions(c, e) == [] by {
      assert ps[|ps|..] == [];
    }
    ZeroPositionsNone(c, e);
    RunStep(c, start, e, 2, Zero);
    SkipMany(c, e, |c|, 2, Zero);
    if count > 1 {
      assert SpansFrom(c, 0, 2, Zero) == spans + [Span(start, e)];
    } else {
      assert SpansFrom(c, 0, 2, Zero) == spans;
    }
  }

  /** `_analyze_binary_structure`: None when the content has no zero byte
      (nothing is recorded), else the runs of two or more zero bytes. */
  method NullRuns(c: seq<Byte>) returns (nullRuns: Option<seq<NullRun>>)
    ensures nullRuns.None? <==> ZeroPositions(c, 0) == []
    ensures nullRuns.Some? ==> Describes(nullRuns.value, SpansFrom(c, 0, 2, Zero))
  {
    var ps := NullPositions(c);
    if ps == [] {
      return None;
    }
    var runs: seq<NullRun> := [];
    ghost var spans: seq<Span> := [];
    var start := ps[0];
    var count := 1;
    GroupStart(c, ps);
    for i := 1 to |ps|
      invariant Grouping(c, ps, i, start, count, spans, runs)
    {
      if ps[i] == ps[i - 1] + 1 {
        GroupExtend(c, ps, i, start, count, spans, runs);
        count := count + 1;
      } else {
        GroupClose(c, ps, i, start, count, spans, runs);
        if count > 1 {
          runs := runs + [NullRun(start, count)];
          spans := spans + [Span(start, start + count)];
        }
        start := ps[i];
        count := 1;
      }
    }
    GroupFinal(c, ps, start, count, spans, runs);
    if count > 1 {
      runs := runs + [NullRun(start, count)];
    }
    return Some(runs);
  }

  /** Each entry of `null_runs` is a maximal run of two or more zero bytes. */
  lemma NullRunsMaximal(c: seq<Byte>, runs: seq<NullRun>)
    requires Describes(runs, SpansFrom(c, 0, 2, Zero))
    ensures forall k :: 0 <= k < |runs| ==>
      runs[k].count >= 2 && MaximalRun(c, runs[k].start, runs[k].start + runs[k].count, Zero)
  {
    var spans := SpansFrom(c, 0, 2, Zero);
    SpansMaximal(c, 0, 2, Zero);
    forall k | 0 <= k < |runs|
      ensures runs[k].count >= 2 && MaximalRun(c, runs[k].start, runs[k].start + runs[k].count, Zero)
    {
      assert spans[k] in spans;
    }
  }

  /** Every maximal run of two or more zero bytes is an entry of `null_runs`. */
  lemma NullRunsComplete(c: seq<Byte>, runs: seq<NullRun>)
    requires Describes(runs, SpansFrom(c, 0, 2, Zero))
    ensures forall s: nat, e: nat :: MaximalRun(c, s, e, Zero) && e - s >= 2 ==> NullRun(s, e - s) in runs
  {
    var spans := SpansFrom(c, 0, 2, Zero);
    SpansComplete(c, 0, 2, Zero);
    forall s: nat, e: nat | MaximalRun(c, s, e, Zero) && e - s >= 2
      ensures NullRun(s, e - s) in runs
    {
      assert Span(s, e) in spans;
      var k :| 0 <= k < |spans| && spans[k] == Span(s, e);
      assert runs[k] == NullRun(s, e - s);
    }
  }

  /** The entries of `null_runs` ascend, each ending before the next starts. */
  lemma NullRunsAscending(c: seq<Byte>, runs: seq<NullRun>)
    requires Describes(runs, SpansFrom(c, 0, 2, Zero))
    ensures forall a, b :: 0 <= a < b < |runs| ==> runs[a].start + runs[a].count < runs[b].start
  {
    SpansSeparated(c, 0, 2, Zero);
  }

  // ----------------------------------------------------------- byte counts

  /** The counts of `m` summed over `keys`. */
  function CountTotal(keys: seq<Byte>, m: multiset<Byte>): nat
  {
    if keys == [] then 0 else m[keys[0]] + CountTotal(keys[1..], m)
  }

  lemma {:induction false} CountTotalAbsent(keys: seq<Byte>, m: multiset<Byte>, x: Byte)
    requires x !in keys
    ensures CountTotal(keys, m + multiset{x}) == CountTotal(keys, m)
  {
    if keys != [] {
      CountTotalAbsent(keys[1..], m, x);
    }
  }

  lemma {:induction false} CountTotalPresent(keys: seq<Byte>, m: multiset<Byte>, x: Byte)
    requires NoDuplicates(keys) && x in keys
    ensures CountTotal(keys, m + multiset{x}) == CountTotal(keys, m) + 1
  {
    if keys[0] == x {
      assert x !in keys[1..] by {
        forall j | 0 <= j < |keys[1..]| ensures keys[1..][j] != x {
          assert keys[1..][j] == keys[j + 1];
        }
      }
      CountTotalAbsent(keys[1..], m, x);
    } else {
      assert NoDuplicates(keys[1..]) by {
        forall i, j | 0 <= i < j < |keys[1..]| ensures keys[1..][i] != keys[1..][j] {
          assert keys[1..][i] == keys[i + 1] && keys[1..][j] == keys[j + 1];
        }
      }
      CountTotalPresent(keys[1..], m, x);
    }
  }

  lemma {:induction false} CountTotalSnoc(keys: seq<Byte>, x: Byte, m: multiset<Byte>)
    ensures CountTotal(keys + [x], m) == CountTotal(keys, m) + m[x]
  {
    if keys == [] {
      assert [] + [x] == [x];
    } else {
      assert (keys + [x])[1..] == keys[1..] + [x];
      CountTotalSnoc(keys[1..], x, m);
    }
  }

  /** The state of the counting loop after `i` bytes. */
  ghost predicate Counted(c: seq<Byte>, i: nat, keys: seq<Byte>, counts: map<Byte, nat>)
    requires i <= |c|
  {
    keys == FirstSeen(c[..i])
    && (forall b :: b in counts <==> b in c[..i])
    && (forall b :: b in counts ==> counts[b] == multiset(c[..i])[b])
    && CountTotal(keys, multiset(c[..i])) == i
  }

  /** One more byte adds one to the total over the keys, whether or not it
      is a new key. */
  lemma TotalStep(keys: seq<Byte>, m: multiset<Byte>, b: Byte)
    requires NoDuplicates(keys)
    requires b in keys <==> b in m
    ensures CountTotal(if b in keys then keys else keys + [b], m + multiset{b}) == CountTotal(keys, m) + 1
  {
    if b in keys {
      CountTotalPresent(keys, m, b);
    } else {
      CountTotalAbsent(keys, m, b);
      CountTotalSnoc(keys, b, m + multiset{b});
    }
  }

  lemma CountStep(c: seq<Byte>, i: nat, keys: seq<Byte>, counts: map<Byte, nat>)
    requires i < |c| && Counted(c, i, keys, counts)
    ensures Counted(c, i + 1,
      if c[i] in counts then keys else keys + [c[i]],
      counts[c[i] := if c[i] in counts then counts[c[i]] + 1 else 1])
  {
    var b := c[i];
    assert c[..i + 1] == c[..i] + [b];
    assert c[..i + 1][..i] == c[..i];
    assert multiset(c[..i + 1]) == multiset(c[..i]) + multiset{b};
    FirstSeenFacts(c[..i]);
    TotalStep(keys, multiset(c[..i]), b);
  }

  /** The histogram loop of `_analyze_binary_content`: `byte_counts` as its
      key order and its map. Every byte of the content is a key, in order of
      first appearance, mapped to its number of occurrences, and the counts
      sum to the length of the content. */
  method CountBytes(c: seq<Byte>) returns (keys: seq<Byte>, counts: map<Byte, nat>)
    ensures keys == FirstSeen(c)
    ensures forall b :: b in counts <==> b in c
    ensures forall b :: b in counts ==> counts[b] == multiset(c)[b]
    ensures CountTotal(keys, multiset(c)) == |c|
  {
    keys := [];
    counts := map[];
    for i := 0 to |c|
      invariant Counted(c, i, keys, counts)
    {
      CountStep(c, i, keys, counts);
      var b := c[i];
      if b !in counts {
        keys := keys + [b];
      }
      counts := counts[b := (if b in counts then counts[b] else 0) + 1];
    }
    assert c[..|c|] == c;
  }

  /** `byte_counts.items()`: each key with its count, in key order. */
  function Items(keys: seq<Byte>, counts: map<Byte, nat>): (r: seq<(Byte, nat)>)
    requires forall b :: b in keys ==> b in counts
    ensures |r| == |keys|
    ensures forall k :: 0 <= k < |r| ==> r[k] == (keys[k], counts[keys[k]])
  {
    if keys == [] then [] else [(keys[0], counts[keys[0]])] + Items(keys[1..], counts)
  }

  /** The histogram of `m` over `keys`, in key order. */
  function Histogram(keys: seq<Byte>, m: multiset<Byte>): (r: seq<(Byte, nat)>)
    ensures |r| == |keys|
    ensures forall k :: 0 <= k < |r| ==> r[k] == (keys[k], m[keys[k]])
  {
    if keys == [] then [] else [(keys[0], m[keys[0]])] + Histogram(keys[1..], m)
  }

  /** Count-descending order. */
  predicate CountDescending(xs: seq<(Byte, nat)>)
  {
    forall i, j :: 0 <= i < j < |xs| ==> xs[i].1 >= xs[j].1
  }

  /** `x` placed before the first entry it does not count below: inserting
      an earlier element in front of later ones with the same count keeps the
      sort stable. */
  function InsertByCount(x: (Byte, nat), s: seq<(Byte, nat)>): (r: seq<(Byte, nat)>)
    ensures multiset(r) == multiset(s) + multiset{x}
  {
    if s == [] || x.1 >= s[0].1 then [x] + s
    else
      assert s == [s[0]] + s[1..];
      [s[0]] + InsertByCount(x, s[1..])
  }

  lemma {:induction false} InsertByCountSorted(x: (Byte, nat), s: seq<(Byte, nat)>)
    requires CountDescending(s)
    ensures CountDescending(InsertByCount(x, s))
    ensures forall k :: 0 <= k < |InsertByCount(x, s)| ==>
      InsertByCount(x, s)[k] == x || InsertByCount(x, s)[k] in s
  {
    if s != [] && x.1 < s[0].1 {
      var t := InsertByCount(x, s[1..]);
      InsertByCountSorted(x, s[1..]);
      var r := [s[0]] + t;
      forall i, j | 0 <= i < j < |r| ensures r[i].1 >= r[j].1 {
        if i == 0 {
          assert r[j] == t[j - 1];
          if t[j - 1] != x {
            var y := t[j - 1];
            assert y in s[1..];
            var m :| 0 <= m < |s[1..]| && s[1..][m] == y;
            assert s[m + 1] == y;
          }
        } else {
          assert r[i] == t[i - 1] && r[j] == t[j - 1];
        }
      }
      forall k | 0 <= k < |r| ensures r[k] == x || r[k] in s {
        if k > 0 {
          assert r[k] == t[k - 1];
        }
      }
    }
  }

  /** Python's stable `sorted(items, key=count, reverse=True)`. */
  function SortByCount(xs: seq<(Byte, nat)>): (r: seq<(Byte, nat)>)
  {
    if xs == [] then [] else InsertByCount(xs[0], SortByCount(xs[1..]))
  }

  /** The sort orders by count, descending, and is a permutation. */
  lemma {:induction false} SortByCountFacts(xs: seq<(Byte, nat)>)
    ensures CountDescending(SortByCount(xs))
    ensures multiset(SortByCount(xs)) == multiset(xs)
  {
    if xs != [] {
      SortByCountFacts(xs[1..]);
      InsertByCountSorted(xs[0], SortByCount(xs[1..]));
      assert xs == [xs[0]] + xs[1..];
    }
  }

  /** `most_common_bytes`: the first ten entries of the sorted items. */
  function MostCommon(items: seq<(Byte, nat)>): (r: seq<(Byte, nat)>)
  {
    var s := SortByCount(items);
    s[..if |s| < 10 then |s| else 10]
  }

  /** At most ten entries, by count descending, all taken from the items. */
  lemma MostCommonFacts(items: seq<(Byte, nat)>)
    ensures |MostCommon(items)| == if |items| < 10 then |items| else 10
    ensures CountDescending(MostCommon(items))
    ensures forall x :: x in MostCommon(items) ==> x in items
  {
    var s := SortByCount(items);
    var r := MostCommon(items);
    SortByCountFacts(items);
    assert |s| == |multiset(s)| == |multiset(items)| == |items|;
    forall x | x in r ensures x in items {
      assert x in multiset(s);
    }
  }

  /** No item left out of `most_common_bytes` counts more than a kept one. */
  lemma MostCommonTop(items: seq<(Byte, nat)>, x: (Byte, nat), y: (Byte, nat))
    requires x in items && x !in MostCommon(items) && y in MostCommon(items)
    ensures x.1 <= y.1
  {
    var s := SortByCount(items);
    var r := MostCommon(items);
    SortByCountFacts(items);
    assert x in multiset(s);
    var j :| 0 <= j < |s| && s[j] == x;
    var i :| 0 <= i < |r| && r[i] == y;
    assert s[i] == y;
    assert forall k :: 0 <= k < |r| ==> r[k] != x;
    assert j >= |r|;
  }

  // ------------------------------------------------------ binary patterns

  /** Every offset at or after `start` where `p` occurs, overlapping ones
      included: `find` restarted one past each hit. */
  function Occurrences(c: seq<Byte>, p: seq<Byte>, start: nat): seq<nat>
    decreases |c| + 1 - start
  {
    match FindFrom(c, p, start)
    case None => []
    case Some(q) => [q] + Occurrences(c, p, q + 1)
  }

  lemma {:induction false} OccurrencesSound(c: seq<Byte>, p: seq<Byte>, start: nat, x: nat)
    requires x in Occurrences(c, p, start)
    ensures start <= x && OccursAt(c, p, x)
    decreases |c| + 1 - start
  {
    var q := FindFrom(c, p, start).value;
    if x != q {
      OccurrencesSound(c, p, q + 1, x);
    }
  }

  lemma {:induction false} OccurrencesComplete(c: seq<Byte>, p: seq<Byte>, start: nat, x: nat)
    requires start <= x && OccursAt(c, p, x)
    ensures x in Occurrences(c, p, start)
    decreases |c| + 1 - start
  {
    FindFromFirst(c, p, start);
    var q := FindFrom(c, p, start).value;
    if x != q {
      OccurrencesComplete(c, p, q + 1, x);
    }
  }

  /** The positions are strictly ascending and start at `start` or later. */
  lemma {:induction false} OccurrencesAscending(c: seq<Byte>, p: seq<Byte>, start: nat)
    ensures forall a, b :: 0 <= a < b < |Occurrences(c, p, start)| ==>
      Occurrences(c, p, start)[a] < Occurrences(c, p, start)[b]
    ensures forall a :: 0 <= a < |Occurrences(c, p, start)| ==> start <= Occurrences(c, p, start)[a]
    decreases |c| + 1 - start
  {
    match FindFrom(c, p, start)
    case None =>
    case Some(q) =>
      var rest := Occurrences(c, p, q + 1);
      OccurrencesAscending(c, p, q + 1);
      assert Occurrences(c, p, start) == [q] + rest;
  }

  /** The `find` loop of `_find_binary_patterns` for one pattern. */
  method FindAll(c: seq<Byte>, p: seq<Byte>) returns (positions: seq<nat>)
    ensures positions == Occurrences(c, p, 0)
  {
    positions := [];
    var start := 0;
    while true
      invariant start <= |c| + 1
      invariant positions + Occurrences(c, p, start) == Occurrences(c, p, 0)
      decreases |c| + 1 - start
    {
      var pos := FindFrom(c, p, start);
      if pos.None? {
        break;
      }
      ConcatAssoc(positions, [pos.value], Occurrences(c, p, pos.value + 1));
      positions := positions + [pos.value];
      start := pos.value + 1;
    }
  }

  /** A file signature and the description its flag is named after. */
  datatype Signature = Signature(magic: seq<Byte>, description: string)

  /** The signatures `_find_binary_patterns` checks: ZIP, PNG, JPEG, DDS, BMP. */
  const FileSignatures: seq<Signature> := [
    Signature([0x50, 0x4B], "ZIP"),
    Signature([0x89, 0x50, 0x4E, 0x47], "PNG"),
    Signature([0xFF, 0xD8, 0xFF], "JPEG"),
    Signature([0x44, 0x44, 0x53, 0x20], "DDS"),
    Signature([0x42, 0x4D], "BMP")
  ]

  /** The extension patterns searched for: `.efk`, `.efkmat`, `.efkmodel`,
      `.png`, `.jpg`, `.jpeg`, `.tga`, `.dds`, `.bmp`. */
  const TextPatterns: seq<seq<Byte>> := [
    [0x2E, 0x65, 0x66, 0x6B],
    [0x2E, 0x65, 0x66, 0x6B, 0x6D, 0x61, 0x74],
    [0x2E, 0x65, 0x66, 0x6B, 0x6D, 0x6F, 0x64, 0x65, 0x6C],
    [0x2E, 0x70, 0x6E, 0x67],
    [0x2E, 0x6A, 0x70, 0x67],
    [0x2E, 0x6A, 0x70, 0x65, 0x67],
    [0x2E, 0x74, 0x67, 0x61],
    [0x2E, 0x64, 0x64, 0x73],
    [0x2E, 0x62, 0x6D, 0x70]
  ]

  /** The descriptions of the signatures the content starts with, in list order. */
  function SignatureFlags(c: seq<Byte>, sigs: seq<Signature>): seq<string>
  {
    if sigs == [] then []
    else (if StartsWith(c, sigs[0].magic) then [sigs[0].description] else []) + SignatureFlags(c, sigs[1..])
  }

  /** A flag is set iff the content starts with a signature of that description. */
  lemma {:induction false} SignatureFlagsIff(c: seq<Byte>, sigs: seq<Signature>, d: string)
    ensures d in SignatureFlags(c, sigs) <==>
      exists k :: 0 <= k < |sigs| && sigs[k].description == d && StartsWith(c, sigs[k].magic)
  {
    if sigs != [] {
      SignatureFlagsIff(c, sigs[1..], d);
      if d in SignatureFlags(c, sigs[1..]) {
        var k :| 0 <= k < |sigs[1..]| && sigs[1..][k].description == d && StartsWith(c, sigs[1..][k].magic);
        assert sigs[k + 1] == sigs[1..][k];
      }
      if exists k :: 0 <= k < |sigs| && sigs[k].description == d && StartsWith(c, sigs[k].magic) {
        var k :| 0 <= k < |sigs| && sigs[k].description == d && StartsWith(c, sigs[k].magic);
        if k > 0 {
          assert sigs[1..][k - 1] == sigs[k];
        }
      }
    }
  }

  /** A `text_…` entry of `found_patterns`: a pattern and all its positions. */
  datatype PatternHit = PatternHit(pattern: seq<Byte>, positions: seq<nat>)

  /** The entries for the patterns that occur at least once, in pattern order. */
  function PatternHits(c: seq<Byte>, pats: seq<seq<Byte>>): seq<PatternHit>
  {
    if pats == [] then []
    else
      var ps := Occurrences(c, pats[0], 0);
      (if ps != [] then [PatternHit(pats[0], ps)] else []) + PatternHits(c, pats[1..])
  }

  /** An entry is recorded iff its pattern occurs, and then with every occurrence. */
  lemma {:induction false} PatternHitsIff(c: seq<Byte>, pats: seq<seq<Byte>>, h: PatternHit)
    ensures h in PatternHits(c, pats) <==>
      h.pattern in pats && h.positions == Occurrences(c, h.pattern, 0) && h.positions != []
  {
    if pats != [] {
      PatternHitsIff(c, pats[1..], h);
      assert pats == [pats[0]] + pats[1..];
    }
  }

  /** The signature loop of `_find_binary_patterns`. */
  method CheckSignatures(c: seq<Byte>, sigs: seq<Signature>) returns (flags: seq<string>)
    ensures flags == SignatureFlags(c, sigs)
  {
    flags := [];
    for i := 0 to |sigs|
      invariant flags + SignatureFlags(c, sigs[i..]) == SignatureFlags(c, sigs)
    {
      assert sigs[i..][1..] == sigs[i + 1..];
      if StartsWith(c, sigs[i].magic) {
        ConcatAssoc(flags, [sigs[i].description], SignatureFlags(c, sigs[i + 1..]));
        flags := flags + [sigs[i].description];
      }
    }
  }

  /** The pattern loop of `_find_binary_patterns`. */
  method SearchPatterns(c: seq<Byte>, pats: seq<seq<Byte>>) returns (hits: seq<PatternHit>)
    ensures hits == PatternHits(c, pats)
  {
    hits := [];
    for i := 0 to |pats|
      invariant hits + PatternHits(c, pats[i..]) == PatternHits(c, pats)
    {
      assert pats[i..][1..] == pats[i + 1..];
      var positions := FindAll(c, pats[i]);
      if positions != [] {
        ConcatAssoc(hits, [PatternHit(pats[i], positions)], PatternHits(c, pats[i + 1..]));
        hits := hits + [PatternHit(pats[i], positions)];
      }
    }
  }

  /** The byte statistics of `_analyze_binary_content`: the ten most common
      bytes of the histogram, most frequent first. */
  method MostCommonBytes(c: seq<Byte>) returns (top: seq<(Byte, nat)>)
    ensures top == MostCommon(Histogram(FirstSeen(c), multiset(c)))
  {
    var keys, counts := CountBytes(c);
    FirstSeenFacts(c);
    var items := Items(keys, counts);
    assert items == Histogram(FirstSeen(c), multiset(c));
    top := MostCommon(items);
  }
}
