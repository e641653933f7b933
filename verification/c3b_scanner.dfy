/** The project scanner for `.c3b` models (src/scanner/c3b_scanner.py): it
    finds the model files in the project walk, analyses each one, keeps the
    image references of the files that have any, and counts and reports its
    progress. Parsing a model file is `C3BParser.parse_c3b_file`, given here
    as its outcome per path, and locating an image on disk
    (`_find_image_file`) is a lookup passed in as a function. */
module C3bScanner {
  import opened Common
  import opened ScanResults

  /** The size above which a model file is skipped (c3b_scanner.py:144). */
  const MaxC3bSize: nat := 50 * 1024 * 1024

  /** What `parse_c3b_file` returns: an error, or the image names it found. */
  datatype ParseOutcome = ParseError | Parsed(images: seq<string>)

  /** The parser's outcome for each path. */
  type C3bParse = string -> ParseOutcome

  /** `_find_image_file(image_name, base_path)`: a full path, or nothing. */
  type ImageFinder = (string, string) -> Option<string>

  /** The image kinds the scanner keeps (c3b_scanner.py:159). */
  const KeptImageExtensions: seq<string> := [".png", ".jpg", ".jpeg"]

  /** `file.lower().endswith('.c3b')` (c3b_scanner.py:114). */
  predicate IsC3bName(name: string)
  {
    EndsWith(Lower(name), ".c3b")
  }

  /** The model files of the walk, in walk order (`_find_all_c3b_files`). */
  function C3bFilesOf(walk: seq<WalkedFile>): seq<WalkedFile>
  {
    if walk == [] then []
    else
      var f := walk[|walk| - 1];
      C3bFilesOf(walk[..|walk| - 1]) + if IsC3bName(f.name) then [f] else []
  }

  /** The model files are exactly the walked files named `*.c3b` in any case. */
  lemma {:induction false} C3bFilesIff(walk: seq<WalkedFile>, f: WalkedFile)
    ensures f in C3bFilesOf(walk) <==> f in walk && IsC3bName(f.name)
  {
    if walk != [] {
      var init := walk[..|walk| - 1];
      C3bFilesIff(init, f);
      assert walk == init + [walk[|walk| - 1]];
    }
  }

  /** `any(image_name.lower().endswith(ext) for ext in ['.png', '.jpg', '.jpeg'])`. */
  predicate KeptImage(name: string)
  {
    exists k :: 0 <= k < |KeptImageExtensions| && EndsWith(Lower(name), KeptImageExtensions[k])
  }

  /** The entry made for a kept image name: the path found for it, or the
      bare name when none is found (an empty path counts as none). */
  function Located(name: string, dir: string, find: ImageFinder): (r: string)
    ensures r == name || find(name, dir) == Some(r)
  {
    match find(name, dir)
    case Some(p) => if p != "" then p else name
    case None => name
  }

  /** The references made from the parser's image names, in its order. */
  function ImageRefs(names: seq<string>, dir: string, find: ImageFinder): seq<string>
  {
    if names == [] then []
    else
      var n := names[|names| - 1];
      ImageRefs(names[..|names| - 1], dir, find) + if KeptImage(n) then [Located(n, dir, find)] else []
  }

  /** Every reference comes from a kept image name, and every kept image
      name yields one. */
  lemma {:induction false} ImageRefsIff(names: seq<string>, dir: string, find: ImageFinder, x: string)
    ensures x in ImageRefs(names, dir, find) <==>
      exists k :: 0 <= k < |names| && KeptImage(names[k]) && x == Located(names[k], dir, find)
  {
    if names != [] {
      var init := names[..|names| - 1];
      ImageRefsIff(init, dir, find, x);
      if (exists k :: 0 <= k < |names| && KeptImage(names[k]) && x == Located(names[k], dir, find)) {
        var k :| 0 <= k < |names| && KeptImage(names[k]) && x == Located(names[k], dir, find);
        if k < |init| {
          assert init[k] == names[k];
        }
      }
    }
  }

  /** `_analyze_c3b_file` as a value: nothing for a file that is gone, too
      large or unparsable, otherwise one reference per kept image name. */
  function C3bRefs(f: WalkedFile, parsed: ParseOutcome, find: ImageFinder): (r: seq<string>)
    ensures !f.present || f.size > MaxC3bSize || parsed.ParseError? ==> r == []
  {
    if !f.present || f.size > MaxC3bSize || parsed.ParseError? then []
    else ImageRefs(parsed.images, f.dir, find)
  }

  /** A file that can be analysed keeps every kept image name it mentions,
      resolved or bare, and nothing else. */
  lemma C3bRefsMembers(f: WalkedFile, parsed: ParseOutcome, find: ImageFinder, x: string)
    requires f.present && f.size <= MaxC3bSize && parsed.Parsed?
    ensures x in C3bRefs(f, parsed, find) <==>
      exists k :: 0 <= k < |parsed.images| && KeptImage(parsed.images[k])
                  && x == Located(parsed.images[k], f.dir, find)
  {
    ImageRefsIff(parsed.images, f.dir, find, x);
  }

  /** `_analyze_c3b_file` (c3b_scanner.py:120-176). */
  method AnalyzeC3bFile(f: WalkedFile, parsed: ParseOutcome, find: ImageFinder) returns (referencedImages: seq<string>)
    ensures referencedImages == C3bRefs(f, parsed, find)
  {
    referencedImages := [];
    if !f.present || f.size > MaxC3bSize || parsed.ParseError? {
      return;
    }
    var names := parsed.images;
    for k := 0 to |names|
      invariant referencedImages == ImageRefs(names[..k], f.dir, find)
    {
      assert names[..k + 1][..k] == names[..k];
      if KeptImage(names[k]) {
        var full := find(names[k], f.dir);
        if full.Some? && full.value != "" {
          referencedImages := referencedImages + [full.value];
        } else {
          referencedImages := referencedImages + [names[k]];
        }
      }
    }
    assert names[..|names|] == names;
  }

  /** The results entry for one model file. */
  function EntryFor(f: WalkedFile, parse: C3bParse, find: ImageFinder): Entry
  {
    Entry(f.path, C3bRefs(f, parse(f.path), find))
  }

  /** One results entry per model file, in walk order. */
  function C3bEntries(files: seq<WalkedFile>, parse: C3bParse, find: ImageFinder): (es: seq<Entry>)
    ensures |es| == |files|
  {
    if files == [] then [] else C3bEntries(files[..|files| - 1], parse, find) + [EntryFor(files[|files| - 1], parse, find)]
  }

  lemma {:induction false} C3bEntriesAt(files: seq<WalkedFile>, parse: C3bParse, find: ImageFinder, k: nat)
    requires k < |files|
    ensures C3bEntries(files, parse, find)[k] == EntryFor(files[k], parse, find)
  {
    var init := files[..|files| - 1];
    if k < |init| {
      C3bEntriesAt(init, parse, find, k);
    }
  }

  /** The reports made before analysing each of the first `i` of `total` files. */
  function Reported(i: nat, total: nat): (r: seq<(nat, nat)>)
    ensures |r| == i
  {
    if i == 0 then [] else Reported(i - 1, total) + [(i, total)]
  }

  lemma {:induction false} ReportedAt(i: nat, total: nat, k: nat)
    requires k < i
    ensures Reported(i, total)[k] == (k + 1, total)
  {
    if k < i - 1 {
      ReportedAt(i - 1, total, k);
    }
  }

  /** The progress a scan of `n` files reports (c3b_scanner.py:64-94). */
  function ProgressReports(n: nat): (r: seq<(nat, nat)>)
    ensures n == 0 ==> r == [(0, 0)]
    ensures n > 0 ==> |r| == n + 1 && r[n] == (n, n) && forall k :: 0 <= k < n ==> r[k] == (k + 1, n)
  {
    if n == 0 then [(0, 0)]
    else
      assert forall k :: 0 <= k < n ==> Reported(n, n)[k] == (k + 1, n) by {
        forall k | 0 <= k < n { ReportedAt(n, n, k); }
      }
      Reported(n, n) + [(n, n)]
  }

  /** The reports never go backwards, never pass the total, and end at it. */
  lemma ProgressMonotone(n: nat)
    ensures forall j, k :: 0 <= j < k < |ProgressReports(n)| ==> ProgressReports(n)[j].0 <= ProgressReports(n)[k].0
    ensures forall k :: 0 <= k < |ProgressReports(n)| ==> ProgressReports(n)[k].0 <= ProgressReports(n)[k].1 == n
    ensures ProgressReports(n)[|ProgressReports(n)| - 1] == (n, n)
  {
  }

  /** The progress recorded after reporting the first `i` of `total` files. */
  ghost predicate ProgressedTo(base: seq<(nat, nat)>, reportsProgress: bool, i: nat, total: nat,
                               progress: seq<(nat, nat)>)
  {
    progress == base + if reportsProgress then Reported(i, total) else []
  }

  lemma ProgressStep(base: seq<(nat, nat)>, reportsProgress: bool, i: nat, total: nat, progress: seq<(nat, nat)>)
    requires ProgressedTo(base, reportsProgress, i, total, progress)
    ensures ProgressedTo(base, reportsProgress, i + 1, total,
                         progress + if reportsProgress then [(i + 1, total)] else [])
  {
  }

  /** `get_statistics` (c3b_scanner.py:205-221). */
  datatype C3bStatistics = C3bStatistics(totalFiles: nat, analyzedFiles: nat, failedScans: nat,
                                         totalReferencedFiles: nat, totalC3bFiles: nat)

  /** The results keys of the entries are the files' paths. */
  lemma {:induction false} C3bKeys(files: seq<WalkedFile>, parse: C3bParse, find: ImageFinder)
    ensures Keys(C3bEntries(files, parse, find)) == Paths(files)
  {
    if files != [] {
      C3bKeys(files[..|files| - 1], parse, find);
    }
  }

  /** A first scan of distinct model files keeps exactly the files with
      references, and the reported total is the number of references found
      in all of them. */
  lemma FreshScanTotal(files: seq<WalkedFile>, parse: C3bParse, find: ImageFinder)
    requires NoDuplicates(Paths(files))
    ensures RecordAll([], C3bEntries(files, parse, find)) == NonEmpty(C3bEntries(files, parse, find))
    ensures TotalReferenced(RecordAll([], C3bEntries(files, parse, find))) == RefCount(C3bEntries(files, parse, find))
  {
    C3bKeys(files, parse, find);
    RecordAllFresh(C3bEntries(files, parse, find));
  }

  class C3bScanner {
    var c3bFiles: seq<WalkedFile>
    var results: seq<Entry>
    var successfulScans: nat
    var failedScans: nat
    /** The `(current, total)` pairs given to the progress callback. */
    var progress: seq<(nat, nat)>
    /** Whether a progress callback was given. */
    const reportsProgress: bool

    constructor(reportsProgress: bool)
      ensures this.reportsProgress == reportsProgress
      ensures c3bFiles == [] && results == [] && successfulScans == 0 && failedScans == 0 && progress == []
    {
      this.reportsProgress := reportsProgress;
      c3bFiles := [];
      results := [];
      successfulScans := 0;
      failedScans := 0;
      progress := [];
    }

    /** `_report_progress`: recorded only when there is a callback. */
    method ReportProgress(current: nat, total: nat)
      modifies this
      ensures progress == old(progress) + if reportsProgress then [(current, total)] else []
      ensures c3bFiles == old(c3bFiles) && results == old(results)
      ensures successfulScans == old(successfulScans) && failedScans == old(failedScans)
    {
      if reportsProgress {
        progress := progress + [(current, total)];
      }
    }

    /** `_find_all_c3b_files` (c3b_scanner.py:107-118). */
    method FindAllC3bFiles(walk: seq<WalkedFile>)
      modifies this
      ensures c3bFiles == C3bFilesOf(walk)
      ensures results == old(results) && progress == old(progress)
      ensures successfulScans == old(successfulScans) && failedScans == old(failedScans)
    {
      c3bFiles := [];
      for k := 0 to |walk|
        invariant c3bFiles == C3bFilesOf(walk[..k])
        invariant results == old(results) && progress == old(progress)
        invariant successfulScans == old(successfulScans) && failedScans == old(failedScans)
      {
        assert walk[..k + 1][..k] == walk[..k];
        if IsC3bName(walk[k].name) {
          c3bFiles := c3bFiles + [walk[k]];
        }
      }
      assert walk[..|walk|] == walk;
    }

    /** `scan_c3b_files` (c3b_scanner.py:47-105). Every model file is
        analysed and counted as a successful scan; the analysis never
        raises, so the failure count does not move. A file with references
        is entered in the results. */
    method ScanC3bFiles(walk: seq<WalkedFile>, parse: C3bParse, find: ImageFinder) returns (res: seq<Entry>)
      modifies this
      ensures c3bFiles == C3bFilesOf(walk)
      ensures results == RecordAll(old(results), C3bEntries(c3bFiles, parse, find)) && res == results
      ensures successfulScans == old(successfulScans) + |c3bFiles| && failedScans == old(failedScans)
      ensures progress == old(progress) + if reportsProgress then ProgressReports(|c3bFiles|) else []
    {
      FindAllC3bFiles(walk);
      var total := |c3bFiles|;
      if total == 0 {
        ReportProgress(0, 0);
        return results;
      }
      AnalyzeAll(parse, find);
      ReportProgress(total, total);
      res := results;
    }

    /** The loop of `scan_c3b_files` over the model files found: report, analyse, record, count. */
    method AnalyzeAll(parse: C3bParse, find: ImageFinder)
      modifies this
      ensures c3bFiles == old(c3bFiles)
      ensures results == RecordAll(old(results), C3bEntries(c3bFiles, parse, find))
      ensures successfulScans == old(successfulScans) + |c3bFiles| && failedScans == old(failedScans)
      ensures ProgressedTo(old(progress), reportsProgress, |c3bFiles|, |c3bFiles|, progress)
    {
      var total := |c3bFiles|;
      ghost var entries := C3bEntries(c3bFiles, parse, find);
      assert entries[..0] == [];
      for i := 0 to total
        invariant c3bFiles == old(c3bFiles) && total == |c3bFiles|
        invariant results == RecordAll(old(results), entries[..i])
        invariant successfulScans == old(successfulScans) + i && failedScans == old(failedScans)
        invariant ProgressedTo(old(progress), reportsProgress, i, total, progress)
      {
        ProgressStep(old(progress), reportsProgress, i, total, progress);
        ReportProgress(i + 1, total);
        var f := c3bFiles[i];
        var referencedImages := AnalyzeC3bFile(f, parse(f.path), find);
        C3bEntriesAt(c3bFiles, parse, find, i);
        RecordPrefix(old(results), entries, i);
        if referencedImages != [] {
          results := Put(results, f.path, referencedImages);
        }
        successfulScans := successfulScans + 1;
      }
      assert entries[..total] == entries;
    }

    /** `get_statistics` (c3b_scanner.py:205-221). */
    function GetStatistics(): (s: C3bStatistics)
      reads this
      ensures s.totalFiles == s.totalC3bFiles == |c3bFiles|
      ensures s.totalReferencedFiles == TotalReferenced(results)
      ensures s.analyzedFiles == successfulScans && s.failedScans == failedScans
    {
      C3bStatistics(|c3bFiles|, successfulScans, failedScans, TotalReferenced(results), |c3bFiles|)
    }
  }
}
