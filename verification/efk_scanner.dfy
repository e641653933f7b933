/** The project scanner for Effekseer files (src/scanner/efk_scanner.py,
    class EFKScanner): it sorts the walked files into effects (`.efk`),
    materials (`.efkmat`) and models (`.efkmodel`), analyses the effects,
    then the materials, then the models, and keeps the references of every
    file that has any. Reading a file is a function from its path to its
    bytes; the regular-expression searches are given as their matches. */
module EfkScanner {
  import opened Common
  import opened ScanResults
  import opened EfkContent

  /** The size above which a file is skipped (efk_scanner.py:158, :204, :250). */
  const MaxEfkSize: nat := 10 * 1024 * 1024

  /** The three kinds of Effekseer file. */
  datatype Kind = Effect | Material | Model

  /** The bytes of the file at each path. */
  type ContentReader = string -> seq<Byte>

  /** A string ends with the last character of each of its suffixes. */
  lemma SuffixLast(s: string, p: string)
    requires p != [] && EndsWith(s, p)
    ensures s[|s| - 1] == p[|p| - 1]
  {
    assert s[|s| - |p|..][|p| - 1] == s[|s| - 1];
  }

  /** A name ends with at most one of the three extensions: their last
      characters differ. */
  lemma KindSuffixesExclusive(l: string)
    ensures EndsWith(l, ".efkmat") ==> !EndsWith(l, ".efk") && !EndsWith(l, ".efkmodel")
    ensures EndsWith(l, ".efkmodel") ==> !EndsWith(l, ".efk")
  {
    if EndsWith(l, ".efk") { SuffixLast(l, ".efk"); }
    if EndsWith(l, ".efkmat") { SuffixLast(l, ".efkmat"); }
    if EndsWith(l, ".efkmodel") { SuffixLast(l, ".efkmodel"); }
  }

  /** The kind a file name selects, decided in the source's order on the
      lower-cased name (efk_scanner.py:124-129). */
  function KindOf(name: string): (k: Option<Kind>)
    ensures k == Some(Effect) <==> EndsWith(Lower(name), ".efk")
    ensures k == Some(Material) <==> EndsWith(Lower(name), ".efkmat")
    ensures k == Some(Model) <==> EndsWith(Lower(name), ".efkmodel")
  {
    var l := Lower(name);
    KindSuffixesExclusive(l);
    if EndsWith(l, ".efk") then Some(Effect)
    else if EndsWith(l, ".efkmat") then Some(Material)
    else if EndsWith(l, ".efkmodel") then Some(Model)
    else None
  }

  /** The walked files of one kind, in walk order. */
  function FilesOfKind(walk: seq<WalkedFile>, kind: Kind): seq<WalkedFile>
  {
    if walk == [] then []
    else
      var f := walk[|walk| - 1];
      FilesOfKind(walk[..|walk| - 1], kind) + if KindOf(f.name) == Some(kind) then [f] else []
  }

  /** The files of a kind are exactly the walked files whose name selects it;
      so no file is of two kinds. */
  lemma {:induction false} FilesOfKindIff(walk: seq<WalkedFile>, kind: Kind, f: WalkedFile)
    ensures f in FilesOfKind(walk, kind) <==> f in walk && KindOf(f.name) == Some(kind)
  {
    if walk != [] {
      var init := walk[..|walk| - 1];
      FilesOfKindIff(init, kind, f);
      assert walk == init + [walk[|walk| - 1]];
    }
  }

  /** What a file's bytes yield for its kind. */
  function ContentRefs(c: seq<Byte>, kind: Kind, m: PatternSearches): seq<string>
  {
    match kind
    case Effect => EfkRefs(c)
    case Material => EfkmatRefs(c, m)
    case Model => EfkmodelRefs(c, m)
  }

  /** `_analyze_efk_file`, `_analyze_efkmat_file`, `_analyze_efkmodel_file`
      as a value: nothing for a file that is gone or too large, otherwise
      what its bytes yield. */
  function FileRefs(f: WalkedFile, kind: Kind, read: ContentReader, m: PatternSearches): (r: seq<string>)
    ensures !f.present || f.size > MaxEfkSize ==> r == []
  {
    if !f.present || f.size > MaxEfkSize then [] else ContentRefs(read(f.path), kind, m)
  }

  /** A file's references are distinct and each passes the path filter. */
  lemma FileRefsValid(f: WalkedFile, kind: Kind, read: ContentReader, m: PatternSearches)
    ensures NoDuplicates(FileRefs(f, kind, read, m))
    ensures forall t :: t in FileRefs(f, kind, read, m) ==> PathTokens.IsValidFilePath(t)
  {
    ContentRefsValid(read(f.path), m);
  }

  /** The analysis of one file (efk_scanner.py:135-271). */
  method AnalyzeFile(f: WalkedFile, kind: Kind, read: ContentReader, m: PatternSearches) returns (referencedFiles: seq<string>)
    ensures referencedFiles == FileRefs(f, kind, read, m)
  {
    referencedFiles := [];
    if !f.present || f.size > MaxEfkSize {
      return;
    }
    var content := read(f.path);
    match kind {
      case Effect => referencedFiles := ParseEfkContent(content);
      case Material => referencedFiles := ParseEfkmatContent(content, m);
      case Model => referencedFiles := ParseEfkmodelContent(content, m);
    }
  }

  /** The analysis of a file, as a function of the file. */
  type Analysis = WalkedFile -> seq<string>

  function Analyzer(kind: Kind, read: ContentReader, m: PatternSearches): (a: Analysis)
    ensures forall f :: a(f) == FileRefs(f, kind, read, m)
  {
    (f: WalkedFile) => FileRefs(f, kind, read, m)
  }

  /** The results entry for one file. */
  function EntryFor(f: WalkedFile, analyze: Analysis): Entry
  {
    Entry(f.path, analyze(f))
  }

  /** One results entry per file, in order. */
  function KindEntries(files: seq<WalkedFile>, analyze: Analysis): (es: seq<Entry>)
    ensures |es| == |files|
  {
    if files == [] then []
    else KindEntries(files[..|files| - 1], analyze) + [EntryFor(files[|files| - 1], analyze)]
  }

  lemma {:induction false} KindEntriesAt(files: seq<WalkedFile>, analyze: Analysis, k: nat)
    requires k < |files|
    ensures KindEntries(files, analyze)[k] == EntryFor(files[k], analyze)
  {
    var init := files[..|files| - 1];
    if k < |init| {
      KindEntriesAt(init, analyze, k);
    }
  }

  /** The results keys of the entries are the files' paths. */
  lemma {:induction false} KindKeys(files: seq<WalkedFile>, analyze: Analysis)
    ensures Keys(KindEntries(files, analyze)) == Paths(files)
  {
    if files != [] {
      KindKeys(files[..|files| - 1], analyze);
    }
  }

  /** The files a scan analyses: effects, then materials, then models. */
  function ScanFiles(walk: seq<WalkedFile>): seq<WalkedFile>
  {
    FilesOfKind(walk, Effect) + FilesOfKind(walk, Material) + FilesOfKind(walk, Model)
  }

  /** The entries a scan records, in the order it analyses the files. */
  function ScanEntries(walk: seq<WalkedFile>, read: ContentReader, m: PatternSearches): seq<Entry>
  {
    KindEntries(FilesOfKind(walk, Effect), Analyzer(Effect, read, m))
      + KindEntries(FilesOfKind(walk, Material), Analyzer(Material, read, m))
      + KindEntries(FilesOfKind(walk, Model), Analyzer(Model, read, m))
  }

  /** The results keys of a scan's entries are the analysed files' paths. */
  lemma ScanKeys(walk: seq<WalkedFile>, read: ContentReader, m: PatternSearches)
    ensures Keys(ScanEntries(walk, read, m)) == Paths(ScanFiles(walk))
  {
    var f1, f2, f3 := FilesOfKind(walk, Effect), FilesOfKind(walk, Material), FilesOfKind(walk, Model);
    var e1, e2, e3 := KindEntries(f1, Analyzer(Effect, read, m)), KindEntries(f2, Analyzer(Material, read, m)), KindEntries(f3, Analyzer(Model, read, m));
    KindKeys(f1, Analyzer(Effect, read, m));
    KindKeys(f2, Analyzer(Material, read, m));
    KindKeys(f3, Analyzer(Model, read, m));
    KeysAppend(e1, e2);
    KeysAppend(e1 + e2, e3);
    PathsAppend(f1, f2);
    PathsAppend(f1 + f2, f3);
  }

  /** A first scan of files with distinct paths keeps exactly the files with
      references, in analysis order, and the reported total is the number
      of references found in all of them. */
  lemma FreshScanTotal(walk: seq<WalkedFile>, read: ContentReader, m: PatternSearches)
    requires NoDuplicates(Paths(ScanFiles(walk)))
    ensures RecordAll([], ScanEntries(walk, read, m)) == NonEmpty(ScanEntries(walk, read, m))
    ensures TotalReferenced(RecordAll([], ScanEntries(walk, read, m))) == RefCount(ScanEntries(walk, read, m))
  {
    ScanKeys(walk, read, m);
    RecordAllFresh(ScanEntries(walk, read, m));
  }

  /** `get_statistics` (efk_scanner.py:830-845). */
  datatype EfkStatistics = EfkStatistics(totalEfkFiles: nat, totalEfkmatFiles: nat, totalEfkmodelFiles: nat,
                                         analyzedEfkFiles: nat, totalReferencedFiles: nat, failedScans: nat)

  class EfkScanner {
    var efkFiles: seq<WalkedFile>
    var efkmatFiles: seq<WalkedFile>
    var efkmodelFiles: seq<WalkedFile>
    var results: seq<Entry>
    var successfulScans: nat
    var failedScans: nat

    constructor()
      ensures efkFiles == [] && efkmatFiles == [] && efkmodelFiles == []
      ensures results == [] && successfulScans == 0 && failedScans == 0
    {
      efkFiles := [];
      efkmatFiles := [];
      efkmodelFiles := [];
      results := [];
      successfulScans := 0;
      failedScans := 0;
    }

    /** `_find_all_efk_files` (efk_scanner.py:112-133). */
    method FindAllEfkFiles(walk: seq<WalkedFile>)
      modifies this
      ensures efkFiles == FilesOfKind(walk, Effect)
      ensures efkmatFiles == FilesOfKind(walk, Material)
      ensures efkmodelFiles == FilesOfKind(walk, Model)
      ensures results == old(results)
      ensures successfulScans == old(successfulScans) && failedScans == old(failedScans)
    {
      efkFiles := [];
      efkmatFiles := [];
      efkmodelFiles := [];
      for k := 0 to |walk|
        invariant efkFiles == FilesOfKind(walk[..k], Effect)
        invariant efkmatFiles == FilesOfKind(walk[..k], Material)
        invariant efkmodelFiles == FilesOfKind(walk[..k], Model)
        invariant results == old(results)
        invariant successfulScans == old(successfulScans) && failedScans == old(failedScans)
      {
        assert walk[..k + 1][..k] == walk[..k];
        var fileLower := Lower(walk[k].name);
        if EndsWith(fileLower, ".efk") {
          efkFiles := efkFiles + [walk[k]];
        } else if EndsWith(fileLower, ".efkmat") {
          efkmatFiles := efkmatFiles + [walk[k]];
        } else if EndsWith(fileLower, ".efkmodel") {
          efkmodelFiles := efkmodelFiles + [walk[k]];
        }
      }
      assert walk[..|walk|] == walk;
    }

    /** One of the three analysis loops of `scan_efk_files`
        (efk_scanner.py:46-100): analyse, record a file with references,
        count a successful scan. */
    method AnalyzeFiles(files: seq<WalkedFile>, kind: Kind, read: ContentReader, m: PatternSearches)
      modifies this
      ensures efkFiles == old(efkFiles) && efkmatFiles == old(efkmatFiles) && efkmodelFiles == old(efkmodelFiles)
      ensures results == RecordAll(old(results), KindEntries(files, Analyzer(kind, read, m)))
      ensures successfulScans == old(successfulScans) + |files| && failedScans == old(failedScans)
    {
      ghost var analyze := Analyzer(kind, read, m);
      ghost var entries := KindEntries(files, analyze);
      assert entries[..0] == [];
      for i := 0 to |files|
        invariant efkFiles == old(efkFiles) && efkmatFiles == old(efkmatFiles) && efkmodelFiles == old(efkmodelFiles)
        invariant results == RecordAll(old(results), entries[..i])
        invariant successfulScans == old(successfulScans) + i && failedScans == old(failedScans)
      {
        var f := files[i];
        var referencedFiles := AnalyzeFile(f, kind, read, m);
        assert referencedFiles == analyze(f);
        KindEntriesAt(files, analyze, i);
        RecordPrefix(old(results), entries, i);
        if referencedFiles != [] {
          results := Put(results, f.path, referencedFiles);
        }
        successfulScans := successfulScans + 1;
      }
      assert entries[..|files|] == entries;
    }

    /** `scan_efk_files` (efk_scanner.py:30-110). Every file found is
        analysed and counted as a successful scan; the analyses never
        raise, so the failure count does not move. A file with references
        is entered in the results. */
    method ScanEfkFiles(walk: seq<WalkedFile>, read: ContentReader, m: PatternSearches) returns (res: seq<Entry>)
      modifies this
      ensures efkFiles == FilesOfKind(walk, Effect)
      ensures efkmatFiles == FilesOfKind(walk, Material)
      ensures efkmodelFiles == FilesOfKind(walk, Model)
      ensures results == RecordAll(old(results), ScanEntries(walk, read, m)) && res == results
      ensures successfulScans == old(successfulScans) + |ScanFiles(walk)| && failedScans == old(failedScans)
    {
      FindAllEfkFiles(walk);
      ghost var start := results;
      AnalyzeFiles(efkFiles, Effect, read, m);
      AnalyzeFiles(efkmatFiles, Material, read, m);
      AnalyzeFiles(efkmodelFiles, Model, read, m);
      ghost var e1 := KindEntries(efkFiles, Analyzer(Effect, read, m));
      ghost var e2 := KindEntries(efkmatFiles, Analyzer(Material, read, m));
      ghost var e3 := KindEntries(efkmodelFiles, Analyzer(Model, read, m));
      RecordAllAppend(start, e1, e2);
      RecordAllAppend(start, e1 + e2, e3);
      res := results;
    }

    /** `get_statistics` (efk_scanner.py:830-845). */
    function GetStatistics(): (s: EfkStatistics)
      reads this
      ensures s.totalEfkFiles == |efkFiles| && s.totalEfkmatFiles == |efkmatFiles|
      ensures s.totalEfkmodelFiles == |efkmodelFiles|
      ensures s.analyzedEfkFiles == successfulScans && s.failedScans == failedScans
      ensures s.totalReferencedFiles == TotalReferenced(results)
    {
      EfkStatistics(|efkFiles|, |efkmatFiles|, |efkmodelFiles|, successfulScans, TotalReferenced(results), failedScans)
    }
  }
}
