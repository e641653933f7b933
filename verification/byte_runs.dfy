/** Maximal runs of bytes of one class: printable ASCII (32..126), which the
    string-table scans collect, and zero bytes, which the structure analysis
    collects. `SpansFrom` is the reference definition the scanning loops are
    proved against; `SpansSound` and `SpansComplete` say it lists exactly the
    maximal runs of at least the minimum length, in ascending order. */
module ByteRuns {
  import opened Common

  datatype ByteClass = PrintableAscii | Zero

  predicate InClass(b: Byte, cls: ByteClass)
  {
    match cls
    case PrintableAscii => PrintableByte(b)
    case Zero => b == 0
  }

  /** The half-open byte range `[start, end)`. */
  datatype Span = Span(start: nat, end: nat)

  /** The end of the run of class bytes starting at `i`. */
  function RunEnd(c: seq<Byte>, i: nat, cls: ByteClass): (e: nat)
    requires i <= |c|
    ensures i <= e <= |c|
    ensures forall k :: i <= k < e ==> InClass(c[k], cls)
    ensures e < |c| ==> !InClass(c[e], cls)
    decreases |c| - i
  {
    if i < |c| && InClass(c[i], cls) then RunEnd(c, i + 1, cls) else i
  }

  /** The runs of class bytes at least `minLen` long found by scanning from `i`. */
  function SpansFrom(c: seq<Byte>, i: nat, minLen: nat, cls: ByteClass): (r: seq<Span>)
    requires i <= |c|
    ensures forall sp :: sp in r ==> i <= sp.start < sp.end <= |c|
    decreases |c| - i
  {
    if i == |c| then []
    else if !InClass(c[i], cls) then SpansFrom(c, i + 1, minLen, cls)
    else
      var e := RunEnd(c, i, cls);
      (if e - i >= minLen then [Span(i, e)] else []) + SpansFrom(c, e, minLen, cls)
  }

  /** `[s, e)` is a run of class bytes that cannot be extended either way. */
  predicate MaximalRun(c: seq<Byte>, s: nat, e: nat, cls: ByteClass)
  {
    s < e <= |c| && (forall k :: s <= k < e ==> InClass(c[k], cls))
    && (s == 0 || !InClass(c[s - 1], cls)) && (e == |c| || !InClass(c[e], cls))
  }

  /** Offset `i` does not split a run of class bytes. */
  predicate Boundary(c: seq<Byte>, i: nat, cls: ByteClass)
    requires i <= |c|
  {
    i == 0 || i == |c| || !InClass(c[i - 1], cls) || !InClass(c[i], cls)
  }

  /** Spans in ascending order, each separated from the next by at least one byte. */
  predicate Separated(spans: seq<Span>)
  {
    forall a, b :: 0 <= a < b < |spans| ==> spans[a].end < spans[b].start
  }

  /** A run that stops at `e` ends at `e`. */
  lemma {:induction false} RunEndAt(c: seq<Byte>, s: nat, e: nat, cls: ByteClass)
    requires s <= e <= |c|
    requires forall k :: s <= k < e ==> InClass(c[k], cls)
    requires e == |c| || !InClass(c[e], cls)
    ensures RunEnd(c, s, cls) == e
    decreases e - s
  {
    if s < e {
      RunEndAt(c, s + 1, e, cls);
    }
  }

  /** Every span found from a boundary is a maximal run of at least `minLen`
      class bytes. */
  lemma {:induction false} SpansMaximal(c: seq<Byte>, i: nat, minLen: nat, cls: ByteClass)
    requires i <= |c| && Boundary(c, i, cls)
    ensures forall sp :: sp in SpansFrom(c, i, minLen, cls) ==>
      MaximalRun(c, sp.start, sp.end, cls) && sp.end - sp.start >= minLen
    decreases |c| - i
  {
    if i < |c| {
      if !InClass(c[i], cls) {
        SpansMaximal(c, i + 1, minLen, cls);
      } else {
        SpansMaximal(c, RunEnd(c, i, cls), minLen, cls);
      }
    }
  }

  lemma ConsSeparated(sp: Span, rest: seq<Span>)
    requires Separated(rest)
    requires forall x :: x in rest ==> sp.end < x.start
    ensures Separated([sp] + rest)
  {
    var all := [sp] + rest;
    forall a, b | 0 <= a < b < |all| ensures all[a].end < all[b].start {
      assert all[b] == rest[b - 1];
      if a > 0 { assert all[a] == rest[a - 1]; }
    }
  }

  /** The spans found from a boundary are ascending and pairwise separated. */
  lemma {:induction false} SpansSeparated(c: seq<Byte>, i: nat, minLen: nat, cls: ByteClass)
    requires i <= |c| && Boundary(c, i, cls)
    ensures Separated(SpansFrom(c, i, minLen, cls))
    decreases |c| - i
  {
    if i < |c| {
      if !InClass(c[i], cls) {
        SpansSeparated(c, i + 1, minLen, cls);
      } else {
        var e := RunEnd(c, i, cls);
        SpansSeparated(c, e, minLen, cls);
        if e - i >= minLen {
          var rest := SpansFrom(c, e, minLen, cls);
          SpansMaximal(c, e, minLen, cls);
          forall x | x in rest ensures e < x.start {
            assert InClass(c[x.start], cls);
          }
          ConsSeparated(Span(i, e), rest);
        }
      }
    }
  }

  /** Every maximal run of at least `minLen` class bytes at or after a
      boundary is found. */
  lemma {:induction false} SpansComplete(c: seq<Byte>, i: nat, minLen: nat, cls: ByteClass)
    requires i <= |c| && Boundary(c, i, cls)
    ensures forall s: nat, e: nat :: i <= s && MaximalRun(c, s, e, cls) && e - s >= minLen ==>
      Span(s, e) in SpansFrom(c, i, minLen, cls)
    decreases |c| - i
  {
    if i < |c| {
      if !InClass(c[i], cls) {
        SpansComplete(c, i + 1, minLen, cls);
      } else {
        var e0 := RunEnd(c, i, cls);
        SpansComplete(c, e0, minLen, cls);
        forall s: nat, e: nat | i <= s && MaximalRun(c, s, e, cls) && e - s >= minLen
          ensures Span(s, e) in SpansFrom(c, i, minLen, cls)
        {
          if s == i {
            RunEndAt(c, s, e, cls);
          } else {
            assert !InClass(c[s - 1], cls);
            assert e0 <= s;
          }
        }
      }
    }
  }

  /** A run of printable bytes together with its text. */
  datatype TextRun = TextRun(position: nat, text: string)

  function TextRuns(c: seq<Byte>, spans: seq<Span>): (r: seq<TextRun>)
    requires forall sp :: sp in spans ==> sp.start <= sp.end <= |c|
    ensures |r| == |spans|
  {
    if spans == [] then []
    else [TextRun(spans[0].start, Latin1Chars(c[spans[0].start..spans[0].end]))] + TextRuns(c, spans[1..])
  }

  /** The `k`-th text run is read from the `k`-th span. */
  lemma {:induction false} TextRunsAt(c: seq<Byte>, spans: seq<Span>, k: nat)
    requires forall sp :: sp in spans ==> sp.start <= sp.end <= |c|
    requires k < |spans|
    ensures TextRuns(c, spans)[k] == TextRun(spans[k].start, Latin1Chars(c[spans[k].start..spans[k].end]))
  {
    if k > 0 {
      TextRunsAt(c, spans[1..], k - 1);
    }
  }

  lemma {:induction false} TextRunsAppend(c: seq<Byte>, a: seq<Span>, b: seq<Span>)
    requires forall sp :: sp in a + b ==> sp.start <= sp.end <= |c|
    ensures TextRuns(c, a + b) == TextRuns(c, a) + TextRuns(c, b)
  {
    if a != [] {
      assert (a + b)[1..] == a[1..] + b;
      TextRunsAppend(c, a[1..], b);
    } else {
      assert a + b == b;
    }
  }

  /** A byte outside the class is skipped. */
  lemma SkipStep(c: seq<Byte>, i: nat, minLen: nat, cls: ByteClass)
    requires i < |c| && !InClass(c[i], cls)
    ensures SpansFrom(c, i, minLen, cls) == SpansFrom(c, i + 1, minLen, cls)
  {
  }

  /** A stretch of bytes outside the class contributes nothing. */
  lemma {:induction false} SkipMany(c: seq<Byte>, a: nat, b: nat, minLen: nat, cls: ByteClass)
    requires a <= b <= |c|
    requires forall k :: a <= k < b ==> !InClass(c[k], cls)
    ensures SpansFrom(c, a, minLen, cls) == SpansFrom(c, b, minLen, cls)
    decreases b - a
  {
    if a < b {
      SkipStep(c, a, minLen, cls);
      SkipMany(c, a + 1, b, minLen, cls);
    }
  }

  /** A run that stops at `e` contributes its span when long enough. */
  lemma RunStep(c: seq<Byte>, s: nat, e: nat, minLen: nat, cls: ByteClass)
    requires s < e <= |c|
    requires forall k :: s <= k < e ==> InClass(c[k], cls)
    requires e == |c| || !InClass(c[e], cls)
    ensures SpansFrom(c, s, minLen, cls)
      == (if e - s >= minLen then [Span(s, e)] else []) + SpansFrom(c, e, minLen, cls)
  {
    RunEndAt(c, s, e, cls);
  }

  /** The scan state after the bytes before `anchor`: `runs` are the texts of
      `spans`, and `spans` followed by the spans found from `anchor` are all
      the spans of the buffer. */
  ghost predicate ScanState(c: seq<Byte>, minLen: nat, spans: seq<Span>, runs: seq<TextRun>, anchor: nat)
    requires anchor <= |c|
  {
    (forall sp :: sp in spans ==> sp.start <= sp.end <= |c|)
    && runs == TextRuns(c, spans)
    && spans + SpansFrom(c, anchor, minLen, PrintableAscii) == SpansFrom(c, 0, minLen, PrintableAscii)
  }

  /** A byte outside 32..126 is passed over. */
  lemma SkipState(c: seq<Byte>, minLen: nat, spans: seq<Span>, runs: seq<TextRun>, i: nat)
    requires i < |c| && !PrintableByte(c[i])
    requires ScanState(c, minLen, spans, runs, i)
    ensures ScanState(c, minLen, spans, runs, i + 1)
  {
    SkipStep(c, i, minLen, PrintableAscii);
  }

  /** A run of printable bytes `[start, e)` shorter than `minLen` is dropped. */
  lemma CloseShort(c: seq<Byte>, minLen: nat, spans: seq<Span>, runs: seq<TextRun>, start: nat, e: nat)
    requires start < e <= |c| && e - start < minLen
    requires forall k :: start <= k < e ==> PrintableByte(c[k])
    requires e == |c| || !PrintableByte(c[e])
    requires ScanState(c, minLen, spans, runs, start)
    ensures ScanState(c, minLen, spans, runs, e)
  {
    RunStep(c, start, e, minLen, PrintableAscii);
    assert [] + SpansFrom(c, e, minLen, PrintableAscii) == SpansFrom(c, e, minLen, PrintableAscii);
  }

  /** A run of printable bytes `[start, e)` of at least `minLen` is emitted. */
  lemma CloseLong(c: seq<Byte>, minLen: nat, spans: seq<Span>, runs: seq<TextRun>, start: nat, e: nat)
    requires start < e <= |c| && e - start >= minLen
    requires forall k :: start <= k < e ==> PrintableByte(c[k])
    requires e == |c| || !PrintableByte(c[e])
    requires ScanState(c, minLen, spans, runs, start)
    ensures ScanState(c, minLen, spans + [Span(start, e)], runs + [TextRun(start, Latin1Chars(c[start..e]))], e)
  {
    RunStep(c, start, e, minLen, PrintableAscii);
    EmitRun(c, spans, runs, start, e);
    ConcatAssoc(spans, [Span(start, e)], SpansFrom(c, e, minLen, PrintableAscii));
  }

  /** Appending one byte to a range appends its character to the text. */
  lemma Latin1Snoc(c: seq<Byte>, start: nat, i: nat)
    requires start <= i < |c|
    ensures Latin1Chars(c[start..i + 1]) == Latin1Chars(c[start..i]) + [c[i] as char]
  {
  }

  /** The state of the printable-string scan before byte `i`: `current` is
      the text of the open run `[start, i)`, if any, and `anchor` is where the
      bytes not yet accounted for in `spans` begin. */
  ghost predicate Scanning(c: seq<Byte>, minLen: nat, i: nat, spans: seq<Span>, runs: seq<TextRun>,
                           anchor: nat, current: string, start: nat)
  {
    i <= |c| && anchor <= i
    && (current == [] ==> anchor == i)
    && (current != [] ==> anchor == start < i && current == Latin1Chars(c[start..i])
                          && forall k :: start <= k < i ==> PrintableByte(c[k]))
    && ScanState(c, minLen, spans, runs, anchor)
  }

  /** A printable byte extends the open run, or opens one at `i`. */
  lemma TakeStep(c: seq<Byte>, minLen: nat, i: nat, spans: seq<Span>, runs: seq<TextRun>,
                 anchor: nat, current: string, start: nat, start': nat)
    requires i < |c| && PrintableByte(c[i])
    requires Scanning(c, minLen, i, spans, runs, anchor, current, start)
    requires start' == if current == [] then i else start
    ensures Scanning(c, minLen, i + 1, spans, runs, start', current + [c[i] as char], start')
  {
    Latin1Snoc(c, start', i);
  }

  /** A byte outside 32..126 closes an open run of at least `minLen`, which
      is emitted. */
  lemma EmitStep(c: seq<Byte>, minLen: nat, i: nat, spans: seq<Span>, runs: seq<TextRun>,
                 anchor: nat, current: string, start: nat)
    requires i < |c| && !PrintableByte(c[i])
    requires Scanning(c, minLen, i, spans, runs, anchor, current, start)
    requires current != [] && |current| >= minLen
    ensures Scanning(c, minLen, i + 1, spans + [Span(start, i)], runs + [TextRun(start, current)], i + 1, [], start)
  {
    CloseLong(c, minLen, spans, runs, start, i);
    SkipState(c, minLen, spans + [Span(start, i)], runs + [TextRun(start, current)], i);
  }

  /** A byte outside 32..126 closes an open run shorter than `minLen`, which
      is dropped, or is passed over when no run is open. */
  lemma DropStep(c: seq<Byte>, minLen: nat, i: nat, spans: seq<Span>, runs: seq<TextRun>,
                 anchor: nat, current: string, start: nat)
    requires i < |c| && !PrintableByte(c[i])
    requires Scanning(c, minLen, i, spans, runs, anchor, current, start)
    requires current == [] || |current| < minLen
    ensures Scanning(c, minLen, i + 1, spans, runs, i + 1, [], start)
  {
    if current != [] {
      CloseShort(c, minLen, spans, runs, start, i);
    }
    SkipState(c, minLen, spans, runs, i);
  }

  /** At the end of the buffer an open run of at least `minLen` is emitted. */
  lemma EmitLast(c: seq<Byte>, minLen: nat, spans: seq<Span>, runs: seq<TextRun>,
                 anchor: nat, current: string, start: nat)
    requires Scanning(c, minLen, |c|, spans, runs, anchor, current, start)
    requires current != [] && |current| >= minLen
    ensures runs + [TextRun(start, current)] == TextRuns(c, SpansFrom(c, 0, minLen, PrintableAscii))
  {
    CloseLong(c, minLen, spans, runs, start, |c|);
    FinalState(c, minLen, spans + [Span(start, |c|)], runs + [TextRun(start, current)]);
  }

  /** At the end of the buffer an open run shorter than `minLen` is dropped. */
  lemma DropLast(c: seq<Byte>, minLen: nat, spans: seq<Span>, runs: seq<TextRun>,
                 anchor: nat, current: string, start: nat)
    requires Scanning(c, minLen, |c|, spans, runs, anchor, current, start)
    requires current == [] || |current| < minLen
    ensures runs == TextRuns(c, SpansFrom(c, 0, minLen, PrintableAscii))
  {
    if current != [] {
      CloseShort(c, minLen, spans, runs, start, |c|);
    }
    FinalState(c, minLen, spans, runs);
  }

  /** Once the whole buffer is accounted for, `runs` holds every span's text. */
  lemma FinalState(c: seq<Byte>, minLen: nat, spans: seq<Span>, runs: seq<TextRun>)
    requires ScanState(c, minLen, spans, runs, |c|)
    ensures runs == TextRuns(c, SpansFrom(c, 0, minLen, PrintableAscii))
  {
    assert SpansFrom(c, |c|, minLen, PrintableAscii) == [];
    assert spans + [] == spans;
  }

  /** The accumulator loop of the printable-string scans: bytes in 32..126 are
      collected into the current string, any other byte ends it, and a string
      of at least `minLen` characters is emitted with its start offset,
      including one still open at the end of the buffer. */
  method PrintableRuns(c: seq<Byte>, minLen: nat) returns (runs: seq<TextRun>)
    requires minLen > 0
    ensures runs == TextRuns(c, SpansFrom(c, 0, minLen, PrintableAscii))
  {
    runs := [];
    ghost var spans: seq<Span> := [];
    ghost var anchor: nat := 0;
    var current: string := [];
    var start := 0;
    var i := 0;
    while i < |c|
      invariant Scanning(c, minLen, i, spans, runs, anchor, current, start)
      decreases |c| - i
    {
      if PrintableByte(c[i]) {
        var start' := if current == [] then i else start;
        TakeStep(c, minLen, i, spans, runs, anchor, current, start, start');
        start := start';
        current := current + [c[i] as char];
        anchor := start';
      } else if current != [] && |current| >= minLen {
        EmitStep(c, minLen, i, spans, runs, anchor, current, start);
        spans := spans + [Span(start, i)];
        runs := runs + [TextRun(start, current)];
        current := [];
        anchor := i + 1;
      } else {
        DropStep(c, minLen, i, spans, runs, anchor, current, start);
        current := [];
        anchor := i + 1;
      }
      i := i + 1;
    }
    if current != [] && |current| >= minLen {
      EmitLast(c, minLen, spans, runs, anchor, current, start);
      runs := runs + [TextRun(start, current)];
    } else {
      DropLast(c, minLen, spans, runs, anchor, current, start);
    }
  }

  lemma EmitRun(c: seq<Byte>, spans: seq<Span>, runs: seq<TextRun>, s: nat, e: nat)
    requires s <= e <= |c|
    requires forall sp :: sp in spans ==> sp.start <= sp.end <= |c|
    requires runs == TextRuns(c, spans)
    ensures forall sp :: sp in spans + [Span(s, e)] ==> sp.start <= sp.end <= |c|
    ensures runs + [TextRun(s, Latin1Chars(c[s..e]))] == TextRuns(c, spans + [Span(s, e)])
  {
    TextRunsAppend(c, spans, [Span(s, e)]);
  }
}
