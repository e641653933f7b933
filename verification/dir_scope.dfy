/** Paths as the resolver and the unused-file search of main_window.py see
    them, and the directory-scope test `_is_in_same_directory_scope`. A path
    is the list of its components from the file-system root; which of the
    two separator characters a path string used is not kept. */
module DirScope {
  import opened Common

  type Path = seq<string>

  /** A component that names a file or directory: not empty, `.` or `..`. */
  predicate Plain(c: string) { c != "" && c != "." && c != ".." }

  predicate NormalPath(p: Path) { forall i :: 0 <= i < |p| ==> Plain(p[i]) }

  /** One component of `normpath`: empty and `.` components vanish, `..`
      drops the component before it (and nothing at the root). */
  function Step(acc: Path, c: string): Path
  {
    if c == "" || c == "." then acc
    else if c == ".." then (if acc == [] then [] else acc[..|acc| - 1])
    else acc + [c]
  }

  /** `os.path.normpath` on the components of an absolute path. */
  function Normalize(p: Path): (n: Path)
    ensures NormalPath(n)
  {
    if p == [] then [] else Step(Normalize(p[..|p| - 1]), p[|p| - 1])
  }

  /** A normal path is its own normal form. */
  lemma {:induction false} NormalizeNormal(p: Path)
    requires NormalPath(p)
    ensures Normalize(p) == p
  {
    if p != [] {
      var init := p[..|p| - 1];
      assert NormalPath(init) by {
        forall i | 0 <= i < |init| ensures Plain(init[i]) {
          assert init[i] == p[i];
        }
      }
      NormalizeNormal(init);
      assert Plain(p[|p| - 1]);
      assert init + [p[|p| - 1]] == p;
    }
  }

  /** Normal components after a prefix are kept as they are. */
  lemma {:induction false} NormalizeAppend(a: Path, b: Path)
    requires NormalPath(b)
    ensures Normalize(a + b) == Normalize(a) + b
  {
    if b != [] {
      var init := b[..|b| - 1];
      NormalizeAppend(a, init);
      assert (a + b)[..|a + b| - 1] == a + init;
      assert Normalize(a) + init + [b[|b| - 1]] == Normalize(a) + b;
    } else {
      assert a + b == a;
    }
  }

  /** `os.path.dirname`: every component but the last. */
  function Dirname(p: Path): Path
  {
    if p == [] then [] else p[..|p| - 1]
  }

  /** Do the components agree with case ignored, as `ntpath` compares them? */
  predicate SameName(a: string, b: string) { Lower(a) == Lower(b) }

  /** The number of leading components `a` and `b` share from `i` on. */
  function CommonPrefix(a: Path, b: Path, i: nat): (c: nat)
    requires i <= |a| && i <= |b|
    ensures i <= c <= |a| && c <= |b|
    decreases |a| - i
  {
    if i < |a| && i < |b| && SameName(a[i], b[i]) then CommonPrefix(a, b, i + 1) else i
  }

  lemma {:induction false} CommonPrefixFacts(a: Path, b: Path, i: nat)
    requires i <= |a| && i <= |b|
    ensures forall j :: i <= j < CommonPrefix(a, b, i) ==> SameName(a[j], b[j])
    ensures CommonPrefix(a, b, i) < |a| && CommonPrefix(a, b, i) < |b| ==>
      !SameName(a[CommonPrefix(a, b, i)], b[CommonPrefix(a, b, i)])
    decreases |a| - i
  {
    if i < |a| && i < |b| && SameName(a[i], b[i]) {
      CommonPrefixFacts(a, b, i + 1);
    }
  }

  /** `os.path.relpath(path, start)` for two normal paths, as components:
      one `..` for each component of `start` past the shared ones, then the
      rest of `path`. */
  function RelParts(path: Path, start: Path): Path
  {
    var c := CommonPrefix(path, start, 0);
    seq(|start| - c, _ => "..") + path[c..]
  }

  /** The string `relpath` returns: `.` when no component is left, and the
      components joined with a backslash otherwise. */
  function RelPathString(path: Path, start: Path): string
  {
    var r := RelParts(path, start);
    if r == [] then "." else Join(r, '\\')
  }

  /** `_is_in_same_directory_scope` as written: the normalised directories
      are equal, or the relative path string does not start with `..`. */
  predicate InScopeAsWritten(container: Path, ref: Path)
  {
    var e := Normalize(Dirname(container));
    var r := Normalize(Dirname(ref));
    e == r || !StartsWith(RelPathString(r, e), "..")
  }

  /** The scope test as its comment describes it: the relative path does not
      climb, that is, its first component is not `..`. */
  predicate InScope(container: Path, ref: Path)
  {
    var e := Normalize(Dirname(container));
    var r := Normalize(Dirname(ref));
    var rel := RelParts(r, e);
    e == r || !(rel != [] && rel[0] == "..")
  }

  /** `e` leads `r`, component by component, case ignored. */
  predicate LeadsTo(e: Path, r: Path)
  {
    |e| <= |r| && forall i :: 0 <= i < |e| ==> SameName(e[i], r[i])
  }

  lemma RelPartsFacts(r: Path, e: Path)
    requires NormalPath(r)
    ensures RelParts(r, e) != [] && RelParts(r, e)[0] == ".." <==> !LeadsTo(e, r)
  {
    var c := CommonPrefix(r, e, 0);
    CommonPrefixFacts(r, e, 0);
    var rel := RelParts(r, e);
    if c < |e| {
      assert rel[0] == "..";
      if |e| <= |r| {
        assert !SameName(e[c], r[c]);
      }
    } else {
      assert rel == r[c..];
      if rel != [] {
        assert rel[0] == r[c];
      }
    }
  }

  /** A reference is in scope exactly when the container's directory leads
      to the reference's directory: the same directory or a descendant, so a
      sibling or an ancestor directory is out of scope. */
  lemma InScopeIff(container: Path, ref: Path)
    ensures InScope(container, ref) <==> LeadsTo(Normalize(Dirname(container)), Normalize(Dirname(ref)))
  {
    var e := Normalize(Dirname(container));
    var r := Normalize(Dirname(ref));
    RelPartsFacts(r, e);
  }

  /** A file in the container's own directory or below it is in scope. */
  lemma DescendantInScope(container: Path, sub: Path, name: string)
    requires container != [] && NormalPath(container) && NormalPath(sub)
    ensures InScope(container, Dirname(container) + sub + [name])
  {
    var d := Dirname(container);
    NormalizeNormal(d);
    assert Dirname(d + sub + [name]) == d + sub;
    NormalizeAppend(d, sub);
    InScopeIff(container, d + sub + [name]);
  }

  /** Under the test as written, a file in the container's own directory or
      below it is in scope, unless the first directory below is a name that
      starts with `..`. */
  lemma DescendantInScopeAsWritten(container: Path, sub: Path, name: string)
    requires container != [] && NormalPath(container) && NormalPath(sub)
    requires sub == [] || !StartsWith(sub[0], "..")
    ensures InScopeAsWritten(container, Dirname(container) + sub + [name])
  {
    var d := Dirname(container);
    var ref := d + sub + [name];
    DescendantInScope(container, sub, name);
    NormalizeNormal(d);
    assert Dirname(ref) == d + sub;
    NormalizeAppend(d, sub);
    AsWrittenAgrees(container, ref);
    if sub != [] {
      assert (d + sub)[|d|] == sub[0];
    }
  }

  /** A file of a sibling directory is out of scope. */
  lemma SiblingOutOfScope(parent: Path, a: string, b: string, name: string, other: Path)
    requires NormalPath(parent) && Plain(a) && Plain(b) && !SameName(a, b)
    requires NormalPath(other)
    ensures !InScope(parent + [a] + [name], parent + [b] + other)
  {
    var container := parent + [a] + [name];
    var ref := parent + [b] + other;
    assert Dirname(container) == parent + [a];
    NormalizeNormal(parent + [a]);
    var rdir := Dirname(ref);
    assert rdir == parent + [b] + Dirname(other) || (other == [] && rdir == parent);
    if other == [] {
      NormalizeNormal(parent);
    } else {
      assert NormalPath(parent + [b] + Dirname(other));
      NormalizeNormal(parent + [b] + Dirname(other));
      assert Normalize(rdir)[|parent|] == b;
    }
    InScopeIff(container, ref);
  }

  /** The joined string starts with `..` exactly when its first component
      does, for a first component that is not empty. */
  lemma JoinStartsWith(parts: seq<string>, sep: char)
    requires parts != [] && parts[0] != [] && sep != '.'
    ensures StartsWith(Join(parts, sep), "..") <==> StartsWith(parts[0], "..")
  {
    if |parts| > 1 {
      var s := Join(parts, sep);
      assert s == parts[0] + [sep] + Join(parts[1..], sep);
      if |parts[0]| >= 2 {
        assert s[..2] == parts[0][..2];
      } else {
        assert s[1] == sep;
      }
    }
  }

  /** The test as written refuses every reference the corrected test
      refuses, and refuses more only when the first component below the
      container's directory is a name that starts with `..`. */
  lemma AsWrittenAgrees(container: Path, ref: Path)
    ensures InScopeAsWritten(container, ref) ==> InScope(container, ref)
    ensures InScope(container, ref) && !InScopeAsWritten(container, ref) ==>
      var e := Normalize(Dirname(container));
      var r := Normalize(Dirname(ref));
      |e| < |r| && StartsWith(r[|e|], "..") && r[|e|] != ".."
  {
    var e := Normalize(Dirname(container));
    var r := Normalize(Dirname(ref));
    var rel := RelParts(r, e);
    RelPartsFacts(r, e);
    InScopeIff(container, ref);
    if rel != [] {
      if rel[0] == ".." {
        assert rel[0][0] == '.';
        JoinStartsWith(rel, '\\');
      } else if LeadsTo(e, r) {
        var c := CommonPrefix(r, e, 0);
        CommonPrefixFacts(r, e, 0);
        assert c == |e|;
        assert rel == r[c..];
        assert rel[0] == r[|e|];
        JoinStartsWith(rel, '\\');
      }
    }
  }

  /** A container in directory `dir` and an image in a child directory
      whose name starts with `..` but is not `..`: the image lies below the
      container's directory, but the relative path, that child's name,
      starts with `..`, so the test as written puts it out of scope. */
  lemma DotDotNameRefused(dir: Path, name: string, child: string, image: string)
    requires NormalPath(dir) && Plain(name) && Plain(child) && StartsWith(child, "..")
    ensures InScope(dir + [name], dir + [child] + [image])
    ensures !InScopeAsWritten(dir + [name], dir + [child] + [image])
  {
    var container := dir + [name];
    assert Dirname(container) == dir;
    assert NormalPath(container);
    assert Dirname(container) + [child] + [image] == dir + [child] + [image];
    DescendantInScope(container, [child], image);
    ChildDirs(dir, name, child, image);
    ChildRelParts(dir, child);
    assert RelPathString(dir + [child], dir) == child;
  }

  /** The normalised directories of a file of `dir` and of a file of its
      child `child`. */
  lemma ChildDirs(dir: Path, name: string, child: string, image: string)
    requires NormalPath(dir) && Plain(child)
    ensures Normalize(Dirname(dir + [name])) == dir
    ensures Normalize(Dirname(dir + [child] + [image])) == dir + [child]
  {
    assert Dirname(dir + [name]) == dir;
    assert Dirname(dir + [child] + [image]) == dir + [child];
    NormalizeNormal(dir);
    assert NormalPath(dir + [child]);
    NormalizeNormal(dir + [child]);
  }

  /** From a directory to its child the relative path is the child's
      name. */
  lemma ChildRelParts(dir: Path, child: string)
    ensures RelParts(dir + [child], dir) == [child]
  {
    var r := dir + [child];
    CommonPrefixFacts(r, dir, 0);
    var c := CommonPrefix(r, dir, 0);
    assert forall j :: 0 <= j < |dir| ==> r[j] == dir[j];
    assert c == |dir|;
    assert r[c..] == [child];
  }

  /** The directory `p/..tex` of the container `p/fx.efk`. */
  lemma DotDotTexRefused()
    ensures InScope(["p", "fx.efk"], ["p", "..tex", "a.png"])
    ensures !InScopeAsWritten(["p", "fx.efk"], ["p", "..tex", "a.png"])
  {
    assert NormalPath(["p"]);
    assert "..tex"[..2] == "..";
    DotDotNameRefused(["p"], "fx.efk", "..tex", "a.png");
    assert ["p"] + ["fx.efk"] == ["p", "fx.efk"];
    assert ["p"] + ["..tex"] + ["a.png"] == ["p", "..tex", "a.png"];
  }
}
