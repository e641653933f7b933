/** What the project scanners (efk_scanner.py, c3b_scanner.py) keep across
    the files they analyse: a results dictionary from a container's path to
    the references found in it. A Python dictionary keeps its keys in
    insertion order and an assignment to a present key replaces the value in
    place; the model is a list of entries with that behaviour. */
module ScanResults {
  import opened Common

  /** One file of the project walk: its path, the directory it sits in, its
      name, whether it is (still) a regular file, and its size in bytes. */
  datatype WalkedFile = WalkedFile(path: string, dir: string, name: string, present: bool, size: nat)

  /** The paths of a list of walked files. */
  function Paths(files: seq<WalkedFile>): (ps: seq<string>)
    ensures |ps| == |files| && forall k :: 0 <= k < |files| ==> ps[k] == files[k].path
  {
    seq(|files|, k requires 0 <= k < |files| => files[k].path)
  }

  /** One dictionary item: a container's path and the references found in it. */
  datatype Entry = Entry(path: string, refs: seq<string>)

  function Keys(results: seq<Entry>): (ks: seq<string>)
    ensures |ks| == |results|
    ensures forall k :: 0 <= k < |results| ==> ks[k] == results[k].path
  {
    seq(|results|, k requires 0 <= k < |results| => results[k].path)
  }

  /** `results[path]`, if present. */
  function Lookup(results: seq<Entry>, path: string): (r: Option<seq<string>>)
    ensures r.Some? <==> path in Keys(results)
  {
    if results == [] then None
    else if results[0].path == path then Some(results[0].refs)
    else Lookup(results[1..], path)
  }

  /** `results[path] = refs`. */
  function Put(results: seq<Entry>, path: string, refs: seq<string>): seq<Entry>
  {
    if results == [] then [Entry(path, refs)]
    else if results[0].path == path then [Entry(path, refs)] + results[1..]
    else [results[0]] + Put(results[1..], path, refs)
  }

  /** Assignment behaves as a dictionary's: the key maps to the new value
      and every other key keeps its value. */
  lemma {:induction false} PutLookup(results: seq<Entry>, path: string, refs: seq<string>, q: string)
    ensures Lookup(Put(results, path, refs), q) == if q == path then Some(refs) else Lookup(results, q)
  {
    if results != [] && results[0].path != path {
      PutLookup(results[1..], path, refs, q);
    }
  }

  /** Assigning to a present key keeps every key in its place. */
  lemma {:induction false} PutPresentKeys(results: seq<Entry>, path: string, refs: seq<string>)
    requires path in Keys(results)
    ensures Keys(Put(results, path, refs)) == Keys(results)
  {
    var rest := results[1..];
    assert Keys(results) == [results[0].path] + Keys(rest);
    if results[0].path != path {
      PutPresentKeys(rest, path, refs);
      assert Keys(Put(results, path, refs)) == [results[0].path] + Keys(Put(rest, path, refs));
    } else {
      assert Keys(Put(results, path, refs)) == [path] + Keys(rest);
    }
  }

  /** `sum(len(files) for files in results.values())`. */
  function TotalReferenced(results: seq<Entry>): nat
  {
    if results == [] then 0 else |results[0].refs| + TotalReferenced(results[1..])
  }

  /** A new key is added at the end and adds its references to the total. */
  lemma {:induction false} TotalPutNew(results: seq<Entry>, path: string, refs: seq<string>)
    requires path !in Keys(results)
    ensures Put(results, path, refs) == results + [Entry(path, refs)]
    ensures TotalReferenced(Put(results, path, refs)) == TotalReferenced(results) + |refs|
  {
    if results != [] {
      assert Keys(results)[0] == results[0].path;
      assert Keys(results[1..]) == Keys(results)[1..];
      TotalPutNew(results[1..], path, refs);
      assert [results[0]] + (results[1..] + [Entry(path, refs)]) == results + [Entry(path, refs)];
    }
  }

  /** One analysed file: `if referenced_files: results[str(path)] = referenced_files`. */
  function Record(results: seq<Entry>, e: Entry): seq<Entry>
  {
    if e.refs != [] then Put(results, e.path, e.refs) else results
  }

  /** The results after analysing the files of `entries` one after another. */
  function RecordAll(results: seq<Entry>, entries: seq<Entry>): seq<Entry>
  {
    if entries == [] then results
    else Record(RecordAll(results, entries[..|entries| - 1]), entries[|entries| - 1])
  }

  lemma RecordAllSnoc(results: seq<Entry>, entries: seq<Entry>, e: Entry)
    ensures RecordAll(results, entries + [e]) == Record(RecordAll(results, entries), e)
  {
    assert (entries + [e])[..|entries|] == entries;
  }

  /** Recording entry `i` extends the record of the entries before it. */
  lemma RecordPrefix(start: seq<Entry>, entries: seq<Entry>, i: nat)
    requires i < |entries|
    ensures RecordAll(start, entries[..i + 1]) == Record(RecordAll(start, entries[..i]), entries[i])
  {
    assert entries[..i + 1] == entries[..i] + [entries[i]];
    RecordAllSnoc(start, entries[..i], entries[i]);
  }

  /** Recording two runs of entries one after the other is recording their
      concatenation. */
  lemma {:induction false} RecordAllAppend(results: seq<Entry>, a: seq<Entry>, b: seq<Entry>)
    ensures RecordAll(RecordAll(results, a), b) == RecordAll(results, a + b)
  {
    if b == [] {
      assert a + b == a;
    } else {
      var init := b[..|b| - 1];
      var e := b[|b| - 1];
      RecordAllAppend(results, a, init);
      assert b == init + [e];
      assert a + b == (a + init) + [e];
      RecordAllSnoc(results, a + init, e);
    }
  }

  lemma KeysAppend(a: seq<Entry>, b: seq<Entry>)
    ensures Keys(a + b) == Keys(a) + Keys(b)
  {
  }

  lemma PathsAppend(a: seq<WalkedFile>, b: seq<WalkedFile>)
    ensures Paths(a + b) == Paths(a) + Paths(b)
  {
  }

  /** The entries that have references, in order. */
  function NonEmpty(entries: seq<Entry>): seq<Entry>
  {
    if entries == [] then []
    else
      var e := entries[|entries| - 1];
      NonEmpty(entries[..|entries| - 1]) + if e.refs != [] then [e] else []
  }

  /** The total of the references of a list of entries. */
  function RefCount(entries: seq<Entry>): nat
  {
    if entries == [] then 0 else RefCount(entries[..|entries| - 1]) + |entries[|entries| - 1].refs|
  }

  /** With distinct keys, the last key is not among the earlier ones. */
  lemma LastKeyFresh(entries: seq<Entry>)
    requires entries != [] && NoDuplicates(Keys(entries))
    ensures NoDuplicates(Keys(entries[..|entries| - 1]))
    ensures entries[|entries| - 1].path !in Keys(entries[..|entries| - 1])
  {
    var n := |entries| - 1;
    assert Keys(entries[..n]) == Keys(entries)[..n];
    DistinctLast(Keys(entries));
  }

  lemma DistinctLast<T>(s: seq<T>)
    requires s != [] && NoDuplicates(s)
    ensures NoDuplicates(s[..|s| - 1]) && s[|s| - 1] !in s[..|s| - 1]
  {
    var n := |s| - 1;
    forall k | 0 <= k < n ensures s[..n][k] != s[n] {
      assert s[k] != s[n];
    }
  }

  /** Scanning distinct files into empty results keeps exactly the files
      with references, in walk order, and the total is the number of
      references found in all the files (the files without any add none). */
  lemma {:induction false} RecordAllFresh(entries: seq<Entry>)
    requires NoDuplicates(Keys(entries))
    ensures RecordAll([], entries) == NonEmpty(entries)
    ensures TotalReferenced(RecordAll([], entries)) == RefCount(entries)
    ensures forall p :: p in Keys(RecordAll([], entries)) ==> p in Keys(entries)
  {
    if entries != [] {
      var init := entries[..|entries| - 1];
      var e := entries[|entries| - 1];
      LastKeyFresh(entries);
      RecordAllFresh(init);
      if e.refs != [] {
        TotalPutNew(NonEmpty(init), e.path, e.refs);
        assert Keys(NonEmpty(init) + [e]) == Keys(NonEmpty(init)) + [e.path];
      }
    }
  }
}
