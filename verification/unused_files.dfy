/** The unused-file search of main_window.py: the files the scan results
    reference, each resolved first in its container's directory and then in
    the whole project and kept only when it lies in the container's scope;
    the target-extension files of the project; and those of them that no
    reference covers, directly, by base name or by relative path. Then the
    list of unused files the window keeps, with its statistics. */
module UnusedFiles {
  import opened Common
  import opened Paths
  import opened Extensions
  import opened DirScope
  import opened Resolver

  /** One container of the scan results and the reference strings found in
      it, in the order of the results dictionary. */
  datatype Scanned = Scanned(container: Path, refs: seq<string>)

  /** One reference of a container: resolved in the container's directory,
      and only when nothing is found there, in the project; the answer
      counts only when `_is_in_same_directory_scope`, as written, puts it in
      the container's scope. */
  function ResolveRef(fs: FileIndex, project: Path, container: Path, ref: string): Option<Path>
  {
    var local := Resolve(fs, Dirname(container), ref);
    if local.Some? then (if InScopeAsWritten(container, local.value) then local else None)
    else
      var global := Resolve(fs, project, ref);
      if global.Some? && InScopeAsWritten(container, global.value) then global else None
  }

  /** A reference counts with a file of the file system that is in the
      container's scope, found in the container's directory or, when
      nothing is found there, in the project. */
  lemma ResolveRefFacts(fs: FileIndex, project: Path, container: Path, ref: string)
    requires forall k :: 0 <= k < |fs| ==> NormalPath(fs[k])
    ensures ResolveRef(fs, project, container, ref).Some? ==>
      var p := ResolveRef(fs, project, container, ref).value;
      InScopeAsWritten(container, p) && Exists(fs, p) &&
      (Resolve(fs, Dirname(container), ref) == Some(p) ||
       (Resolve(fs, Dirname(container), ref).None? && Resolve(fs, project, ref) == Some(p)))
  {
    if Resolve(fs, Dirname(container), ref).Some? {
      ResolvedExists(fs, Dirname(container), ref);
    } else {
      ResolvedExists(fs, project, ref);
    }
  }

  /** `_find_file_path_in_directory`, then `_find_file_path`, then the scope
      test, for one reference. */
  method ResolveReference(fs: FileIndex, project: Path, container: Path, ref: string) returns (r: Option<Path>)
    ensures r == ResolveRef(fs, project, container, ref)
  {
    var local := FindFilePath(fs, Dirname(container), ref);
    if local.Some? {
      if InScopeAsWritten(container, local.value) {
        return local;
      }
      return None;
    }
    var global := FindFilePath(fs, project, ref);
    if global.Some? && InScopeAsWritten(container, global.value) {
      return global;
    }
    return None;
  }

  /** How a reference of a container is resolved. */
  type RefResolver = (Path, string) -> Option<Path>

  function ScopedResolver(fs: FileIndex, project: Path): (res: RefResolver)
    ensures forall c, ref :: res(c, ref) == ResolveRef(fs, project, c, ref)
  {
    (c, ref) => ResolveRef(fs, project, c, ref)
  }

  /** The file an answer names, if any. */
  function Found(r: Option<Path>): set<Path>
  {
    if r.Some? then {r.value} else {}
  }

  /** The files the references of one container resolve to. */
  function RefsResolved(c: Path, refs: seq<string>, res: RefResolver): set<Path>
  {
    if refs == [] then {} else RefsResolved(c, refs[..|refs| - 1], res) + Found(res(c, refs[|refs| - 1]))
  }

  /** `referenced_files` after the loop over the results. */
  function Referenced(results: seq<Scanned>, res: RefResolver): set<Path>
  {
    if results == [] then {}
    else
      var s := results[|results| - 1];
      Referenced(results[..|results| - 1], res) + RefsResolved(s.container, s.refs, res)
  }

  lemma {:induction false} RefsResolvedIff(c: Path, refs: seq<string>, res: RefResolver, p: Path)
    ensures p in RefsResolved(c, refs, res) <==> exists j :: 0 <= j < |refs| && res(c, refs[j]) == Some(p)
  {
    if refs != [] {
      var init := refs[..|refs| - 1];
      RefsResolvedIff(c, init, res, p);
      if exists j :: 0 <= j < |refs| && res(c, refs[j]) == Some(p) {
        var j :| 0 <= j < |refs| && res(c, refs[j]) == Some(p);
        if j < |init| {
          assert init[j] == refs[j];
        }
      }
      forall j | 0 <= j < |init| ensures init[j] == refs[j] {
      }
    }
  }

  lemma {:induction false} ReferencedIff(results: seq<Scanned>, res: RefResolver, p: Path)
    ensures p in Referenced(results, res) <==>
      exists i :: 0 <= i < |results| && p in RefsResolved(results[i].container, results[i].refs, res)
  {
    if results != [] {
      var init := results[..|results| - 1];
      ReferencedIff(init, res, p);
      forall i | 0 <= i < |init| ensures init[i] == results[i] {
      }
    }
  }

  /** A file is referenced exactly when some reference of some container
      resolves to it within that container's scope. */
  lemma ReferencedInScope(fs: FileIndex, project: Path, results: seq<Scanned>, p: Path)
    ensures p in Referenced(results, ScopedResolver(fs, project)) <==>
      exists i, j :: 0 <= i < |results| && 0 <= j < |results[i].refs| &&
        ResolveRef(fs, project, results[i].container, results[i].refs[j]) == Some(p)
  {
    var res := ScopedResolver(fs, project);
    ReferencedIff(results, res, p);
    forall i | 0 <= i < |results|
      ensures p in RefsResolved(results[i].container, results[i].refs, res) <==>
        exists j :: 0 <= j < |results[i].refs| && ResolveRef(fs, project, results[i].container, results[i].refs[j]) == Some(p)
    {
      RefsResolvedIff(results[i].container, results[i].refs, res, p);
    }
  }

  lemma RefsResolvedPrefix(c: Path, refs: seq<string>, res: RefResolver, j: nat)
    requires j < |refs|
    ensures RefsResolved(c, refs[..j + 1], res) == RefsResolved(c, refs[..j], res) + Found(res(c, refs[j]))
  {
    assert refs[..j + 1][..j] == refs[..j];
  }

  lemma ReferencedPrefix(results: seq<Scanned>, res: RefResolver, i: nat)
    requires i < |results|
    ensures Referenced(results[..i + 1], res) ==
      Referenced(results[..i], res) + RefsResolved(results[i].container, results[i].refs, res)
  {
    assert results[..i + 1][..i] == results[..i];
  }

  /** The references of one container. */
  method CollectRefs(fs: FileIndex, project: Path, c: Path, refs: seq<string>) returns (found: set<Path>)
    ensures found == RefsResolved(c, refs, ScopedResolver(fs, project))
  {
    ghost var res := ScopedResolver(fs, project);
    found := {};
    for j := 0 to |refs|
      invariant found == RefsResolved(c, refs[..j], res)
    {
      RefsResolvedPrefix(c, refs, res, j);
      var r := ResolveReference(fs, project, c, refs[j]);
      if r.Some? {
        found := found + {r.value};
      }
    }
    assert refs[..|refs|] == refs;
  }

  /** The first loop of `_find_and_display_unused_files`. */
  method CollectReferenced(fs: FileIndex, project: Path, results: seq<Scanned>) returns (refd: set<Path>)
    ensures refd == Referenced(results, ScopedResolver(fs, project))
  {
    ghost var res := ScopedResolver(fs, project);
    refd := {};
    for i := 0 to |results|
      invariant refd == Referenced(results[..i], res)
    {
      ReferencedPrefix(results, res, i);
      var found := CollectRefs(fs, project, results[i].container, results[i].refs);
      refd := refd + found;
    }
    assert results[..|results|] == results;
  }

  /** A file of one of the target extensions, case ignored. */
  predicate IsTarget(f: Path)
  {
    f != [] && Lower(Ext(f[|f| - 1])) in TargetExtensions
  }

  /** `all_files_in_project`: the walked files of a target extension. */
  function Targets(ws: seq<Path>): (all: set<Path>)
    ensures forall f :: f in all <==> f in ws && IsTarget(f)
  {
    set f | f in ws && IsTarget(f)
  }

  /** The loop that fills `all_files_in_project`. */
  method CollectTargets(ws: seq<Path>) returns (all: set<Path>)
    ensures all == Targets(ws)
  {
    all := {};
    for i := 0 to |ws|
      invariant forall f :: f in all <==> f in ws[..i] && IsTarget(f)
    {
      assert ws[..i + 1] == ws[..i] + [ws[i]];
      if IsTarget(ws[i]) {
        all := all + {ws[i]};
      }
    }
    assert ws[..|ws|] == ws;
  }

  /** The walked files of a target extension outside `referenced`, in walk
      order. */
  function PlainUnused(ws: seq<Path>, referenced: set<Path>): seq<Path>
  {
    if ws == [] then []
    else
      var f := ws[|ws| - 1];
      PlainUnused(ws[..|ws| - 1], referenced) + if IsTarget(f) && f !in referenced then [f] else []
  }

  lemma {:induction false} PlainUnusedIff(ws: seq<Path>, referenced: set<Path>, f: Path)
    ensures f in PlainUnused(ws, referenced) <==> f in ws && IsTarget(f) && f !in referenced
  {
    if ws != [] {
      PlainUnusedIff(ws[..|ws| - 1], referenced, f);
      assert ws == ws[..|ws| - 1] + [ws[|ws| - 1]];
    }
  }

  /** `_find_unused_files`. */
  method FindUnusedFiles(fs: FileIndex, project: Path, referenced: set<Path>) returns (unused: seq<Path>)
    ensures unused == PlainUnused(Walk(fs, project), referenced)
  {
    var ws := Walk(fs, project);
    unused := [];
    for i := 0 to |ws|
      invariant unused == PlainUnused(ws[..i], referenced)
    {
      assert ws[..i + 1][..i] == ws[..i];
      var f := ws[i];
      if IsTarget(f) && f !in referenced {
        unused := unused + [f];
      }
    }
    assert ws[..|ws|] == ws;
  }

  /** `os.path.basename` of a path. */
  function NameOf(q: Path): string
  {
    if q == [] then "" else q[|q| - 1]
  }

  /** A referenced file with the same base name, case ignored, in the scope
      of `f` taken as the container. */
  predicate NameReferenced(f: Path, referenced: set<Path>)
  {
    exists q :: q in referenced && SameName(NameOf(q), NameOf(f)) && InScopeAsWritten(f, q)
  }

  /** A raw reference equal to the file's path relative to the project,
      with `/` for either separator and case ignored. */
  predicate RawMatch(ref: string, f: Path, project: Path)
  {
    Lower(Slashes(ref)) == Lower(Join(Rel(f, project), '/'))
  }

  /** A container whose scope holds `f` has a raw reference matching it. */
  predicate RawReferenced(f: Path, project: Path, results: seq<Scanned>)
  {
    exists i, j :: 0 <= i < |results| && 0 <= j < |results[i].refs| &&
      RawMatch(results[i].refs[j], f, project) && InScopeAsWritten(results[i].container, f)
  }

  /** `is_referenced` after the three checks. */
  predicate IsReferenced(f: Path, referenced: set<Path>, project: Path, results: seq<Scanned>)
  {
    f in referenced || NameReferenced(f, referenced) || RawReferenced(f, project, results)
  }

  /** The direct membership check adds nothing: a referenced file has its
      own name and is in its own scope, its directory being the
      container's. */
  lemma MembershipByName(f: Path, referenced: set<Path>, project: Path, results: seq<Scanned>)
    ensures IsReferenced(f, referenced, project, results) <==>
      NameReferenced(f, referenced) || RawReferenced(f, project, results)
  {
    if f in referenced {
      assert SameName(NameOf(f), NameOf(f)) && InScopeAsWritten(f, f);
    }
  }

  /** A referenced file below the directory of `f` with the name of `f`
      keeps `f` out of the unused list, wherever `f` itself is, unless the
      first directory below is a name starting with `..`, which the scope
      test as written refuses. */
  lemma DescendantNameCovers(f: Path, sub: Path, referenced: set<Path>)
    requires f != [] && NormalPath(f) && NormalPath(sub)
    requires Dirname(f) + sub + [NameOf(f)] in referenced
    ensures (sub == [] || !StartsWith(sub[0], "..")) ==> NameReferenced(f, referenced)
  {
    var q := Dirname(f) + sub + [NameOf(f)];
    if sub == [] || !StartsWith(sub[0], "..") {
      DescendantInScopeAsWritten(f, sub, NameOf(f));
      assert NameOf(q) == NameOf(f);
    }
  }

  /** The loop over `referenced_files` with its `break`. */
  method CheckNameReferenced(f: Path, referenced: set<Path>) returns (found: bool)
    ensures found == NameReferenced(f, referenced)
  {
    var rest := referenced;
    found := false;
    while rest != {}
      invariant rest <= referenced
      invariant forall q :: q in referenced - rest ==> !(SameName(NameOf(q), NameOf(f)) && InScopeAsWritten(f, q))
      decreases |rest|
    {
      var q :| q in rest;
      if Lower(NameOf(q)) == Lower(NameOf(f)) && InScopeAsWritten(f, q) {
        found := true;
        return;
      }
      rest := rest - {q};
    }
  }

  /** No raw reference of the first `i` containers, nor of the first `j`
      of container `i`, covers `f`. */
  ghost predicate RawSearched(f: Path, project: Path, results: seq<Scanned>, i: nat, j: nat)
    requires i < |results| ==> j <= |results[i].refs|
  {
    (forall a, b :: 0 <= a < i && a < |results| && 0 <= b < |results[a].refs| ==>
      !(RawMatch(results[a].refs[b], f, project) && InScopeAsWritten(results[a].container, f))) &&
    (i < |results| ==> forall b :: 0 <= b < j ==>
      !(RawMatch(results[i].refs[b], f, project) && InScopeAsWritten(results[i].container, f)))
  }

  /** The nested loop over the results and their references. */
  method CheckRawReferenced(f: Path, project: Path, results: seq<Scanned>) returns (found: bool)
    ensures found == RawReferenced(f, project, results)
  {
    found := false;
    for i := 0 to |results|
      invariant RawSearched(f, project, results, i, 0)
    {
      var refs := results[i].refs;
      for j := 0 to |refs|
        invariant RawSearched(f, project, results, i, j)
      {
        if Lower(Slashes(refs[j])) == Lower(Join(Rel(f, project), '/')) && InScopeAsWritten(results[i].container, f) {
          found := true;
          return;
        }
      }
    }
  }

  /** The three checks of one file, in order. */
  method CheckReferenced(f: Path, referenced: set<Path>, project: Path, results: seq<Scanned>) returns (b: bool)
    ensures b == IsReferenced(f, referenced, project, results)
  {
    if f in referenced {
      return true;
    }
    b := CheckNameReferenced(f, referenced);
    if !b {
      b := CheckRawReferenced(f, project, results);
    }
  }

  /** The scoped unused list of `_find_and_display_unused_files`: every
      target file of the walk that no check covers, each once. The Python
      loop visits a set, so only membership is stated. */
  method FindUnusedInScope(fs: FileIndex, project: Path, results: seq<Scanned>) returns (unused: seq<Path>)
    ensures NoDuplicates(unused)
    ensures forall f :: f in unused <==>
      f in Walk(fs, project) && IsTarget(f) &&
      !IsReferenced(f, Referenced(results, ScopedResolver(fs, project)), project, results)
  {
    var referenced := CollectReferenced(fs, project, results);
    var all := CollectTargets(Walk(fs, project));
    unused := [];
    var rest := all;
    while rest != {}
      invariant rest <= all
      invariant NoDuplicates(unused)
      invariant forall f :: f in unused <==> f in all - rest && !IsReferenced(f, referenced, project, results)
      decreases |rest|
    {
      var f :| f in rest;
      var isReferenced := CheckReferenced(f, referenced, project, results);
      if !isReferenced {
        forall a, b | 0 <= a < b < |unused| + 1 ensures (unused + [f])[a] != (unused + [f])[b] {
          if b == |unused| {
            assert unused[a] in unused;
          }
        }
        unused := unused + [f];
      }
      rest := rest - {f};
    }
  }

  /** Every scoped unused file is also unused for `_find_unused_files`: the
      scoped list only adds checks. */
  lemma ScopedUnusedIsPlainUnused(fs: FileIndex, project: Path, referenced: set<Path>, results: seq<Scanned>, f: Path)
    ensures f in Walk(fs, project) && IsTarget(f) && !IsReferenced(f, referenced, project, results) ==>
      f in PlainUnused(Walk(fs, project), referenced)
  {
    PlainUnusedIff(Walk(fs, project), referenced, f);
  }

  /** The sizes of a list of files, summed. */
  function TotalSize(files: seq<Path>, size: Path -> nat): nat
  {
    if files == [] then 0 else TotalSize(files[..|files| - 1], size) + size(files[|files| - 1])
  }

  /** The files of a list not yet deleted, in order. */
  function Remaining(files: seq<Path>, deleted: set<Path>): seq<Path>
  {
    if files == [] then []
    else
      var f := files[|files| - 1];
      Remaining(files[..|files| - 1], deleted) + if f !in deleted then [f] else []
  }

  /** What is left is no more than the whole, in number and in size, and
      holds exactly the files not deleted. */
  lemma {:induction false} RemainingBounds(files: seq<Path>, deleted: set<Path>, size: Path -> nat)
    ensures |Remaining(files, deleted)| <= |files|
    ensures TotalSize(Remaining(files, deleted), size) <= TotalSize(files, size)
    ensures forall f :: f in Remaining(files, deleted) <==> f in files && f !in deleted
  {
    if files != [] {
      var init := files[..|files| - 1];
      var f := files[|files| - 1];
      RemainingBounds(init, deleted, size);
      assert files == init + [f];
      var r := Remaining(init, deleted);
      if f !in deleted {
        assert Remaining(files, deleted) == r + [f];
        TotalSizeSnoc(r, f, size);
      } else {
        assert Remaining(files, deleted) == r;
      }
    }
  }

  lemma TotalSizeSnoc(files: seq<Path>, f: Path, size: Path -> nat)
    ensures TotalSize(files + [f], size) == TotalSize(files, size) + size(f)
  {
    assert (files + [f])[..|files|] == files;
  }

  /** With nothing deleted, everything remains. */
  lemma {:induction false} NothingDeletedRemains(files: seq<Path>)
    ensures Remaining(files, {}) == files
  {
    if files != [] {
      NothingDeletedRemains(files[..|files| - 1]);
      assert files == files[..|files| - 1] + [files[|files| - 1]];
    }
  }

  /** The unused-file list of the main window and its statistics. */
  class UnusedList {
    var unusedFiles: seq<Path>
    var deletedFiles: set<Path>
    var totalUnusedCount: nat
    var totalUnusedSize: nat
    var remainingCount: nat
    var remainingSize: nat

    /** The list never holds a file twice. */
    ghost predicate Valid()
      reads this
    {
      NoDuplicates(unusedFiles)
    }

    /** The fields as the window's constructor sets them. */
    constructor ()
      ensures Valid()
      ensures unusedFiles == [] && deletedFiles == {}
      ensures totalUnusedCount == 0 && totalUnusedSize == 0 && remainingCount == 0 && remainingSize == 0
    {
      unusedFiles := [];
      deletedFiles := {};
      totalUnusedCount := 0;
      totalUnusedSize := 0;
      remainingCount := 0;
      remainingSize := 0;
    }

    /** `_clear_unused_files_list`: the list, the statistics and the deleted
      set are reset. */
    method Clear()
      modifies this
      ensures Valid()
      ensures unusedFiles == [] && deletedFiles == {}
      ensures totalUnusedCount == 0 && totalUnusedSize == 0 && remainingCount == 0 && remainingSize == 0
    {
      unusedFiles := [];
      deletedFiles := {};
      totalUnusedCount := 0;
      totalUnusedSize := 0;
      remainingCount := 0;
      remainingSize := 0;
    }

    /** `_add_unused_file`: a file already listed is not added again. */
    method AddUnusedFile(p: Path)
      requires Valid()
      modifies this
      ensures Valid()
      ensures unusedFiles == if p in old(unusedFiles) then old(unusedFiles) else old(unusedFiles) + [p]
      ensures deletedFiles == old(deletedFiles)
      ensures totalUnusedCount == old(totalUnusedCount) && totalUnusedSize == old(totalUnusedSize)
      ensures remainingCount == old(remainingCount) && remainingSize == old(remainingSize)
    {
      if p in unusedFiles {
        return;
      }
      forall a, b | 0 <= a < b < |unusedFiles| + 1 ensures (unusedFiles + [p])[a] != (unusedFiles + [p])[b] {
        if b == |unusedFiles| {
          assert unusedFiles[a] in unusedFiles;
        }
      }
      unusedFiles := unusedFiles + [p];
    }

    /** The loop that adds every unused file found: the list gains each new
      file once, in order. */
    method AddUnusedFiles(files: seq<Path>)
      requires Valid()
      modifies this
      ensures Valid()
      ensures unusedFiles == AppendNew(old(unusedFiles), files)
      ensures deletedFiles == old(deletedFiles)
      ensures totalUnusedCount == old(totalUnusedCount) && totalUnusedSize == old(totalUnusedSize)
      ensures remainingCount == old(remainingCount) && remainingSize == old(remainingSize)
    {
      for i := 0 to |files|
        invariant Valid()
        invariant AppendNew(unusedFiles, files[i..]) == AppendNew(old(unusedFiles), files)
        invariant deletedFiles == old(deletedFiles)
        invariant totalUnusedCount == old(totalUnusedCount) && totalUnusedSize == old(totalUnusedSize)
        invariant remainingCount == old(remainingCount) && remainingSize == old(remainingSize)
      {
        assert files[i..][1..] == files[i + 1..];
        AddUnusedFile(files[i]);
      }
    }

    /** The bookkeeping of `_delete_single_file` once the file is removed. */
    method MarkDeleted(p: Path)
      requires Valid()
      modifies this
      ensures Valid()
      ensures deletedFiles == old(deletedFiles) + {p}
      ensures unusedFiles == old(unusedFiles)
      ensures totalUnusedCount == old(totalUnusedCount) && totalUnusedSize == old(totalUnusedSize)
      ensures remainingCount == old(remainingCount) && remainingSize == old(remainingSize)
    {
      deletedFiles := deletedFiles + {p};
    }

    /** `_calculate_total_stats`, with the size of each file given: the
      totals cover the whole list and the remaining figures the files not
      deleted. */
    method CalculateTotalStats(size: Path -> nat)
      requires Valid()
      modifies this
      ensures Valid()
      ensures unusedFiles == old(unusedFiles) && deletedFiles == old(deletedFiles)
      ensures totalUnusedCount == |unusedFiles| && totalUnusedSize == TotalSize(unusedFiles, size)
      ensures remainingCount == |Remaining(unusedFiles, deletedFiles)|
      ensures remainingSize == TotalSize(Remaining(unusedFiles, deletedFiles), size)
      ensures remainingCount <= totalUnusedCount && remainingSize <= totalUnusedSize
    {
      var files := unusedFiles;
      totalUnusedCount := |files|;
      totalUnusedSize := 0;
      remainingCount := 0;
      remainingSize := 0;
      for i := 0 to |files|
        invariant unusedFiles == files && deletedFiles == old(deletedFiles)
        invariant totalUnusedCount == |files|
        invariant totalUnusedSize == TotalSize(files[..i], size)
        invariant remainingCount == |Remaining(files[..i], deletedFiles)|
        invariant remainingSize == TotalSize(Remaining(files[..i], deletedFiles), size)
      {
        assert files[..i + 1] == files[..i] + [files[i]];
        TotalSizeSnoc(files[..i], files[i], size);
        var fileSize := size(files[i]);
        totalUnusedSize := totalUnusedSize + fileSize;
        if files[i] !in deletedFiles {
          assert Remaining(files[..i + 1], deletedFiles) == Remaining(files[..i], deletedFiles) + [files[i]];
          TotalSizeSnoc(Remaining(files[..i], deletedFiles), files[i], size);
          remainingCount := remainingCount + 1;
          remainingSize := remainingSize + fileSize;
        } else {
          assert Remaining(files[..i + 1], deletedFiles) == Remaining(files[..i], deletedFiles);
        }
      }
      assert files[..|files|] == files;
      RemainingBounds(files, deletedFiles, size);
    }
  }
}
