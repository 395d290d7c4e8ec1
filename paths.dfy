/** Paths as render_dag.py compares them: `Path(s).resolve()` (or
    `.absolute()`) turned into a sequence of components, `is_relative_to`
    as a component prefix, and `should_ignore` as a search of the ignore
    patterns. Strings are taken to be already normalised (no `..`, no `.`
    component other than `"."` on its own, no repeated or trailing `/`, no
    symbolic links), so resolving a string is splitting it on `/` and, when
    it is relative, putting the working directory in front. */
module PathModel {
  import opened Text

  /** Components of a path; an absolute path starts with the empty component. */
  type Path = seq<string>

  /** The root is the empty component alone; `""` and `"."` name the
      working directory itself and add no component. */
  function Components(s: string): (p: Path)
    ensures forall i :: 0 <= i < |p| ==> '/' !in p[i]
    ensures StartsWith(s, "/") ==> |p| >= 1 && p[0] == ""
    ensures s != "/" && s != "" && s != "." ==> |p| >= 1 && Join(p, '/') == s
  {
    JoinSplit(s, '/');
    if s == "/" then [""]
    else if s == "" || s == "." then []
    else Split(s, '/')
  }

  /** `Path(s).resolve()` relative to the working directory `cwd`. */
  function Resolve(s: string, cwd: Path): (p: Path)
    ensures !StartsWith(s, "/") ==> IsRelativeTo(p, cwd)
    ensures (StartsWith(s, "/") || (|cwd| >= 1 && cwd[0] == "")) ==> |p| >= 1 && p[0] == ""
  {
    if StartsWith(s, "/") then Components(s) else cwd + Components(s)
  }

  /** `is_relative_to(path, other)`: `other` is `path` or one of its ancestors. */
  predicate IsRelativeTo(path: Path, other: Path): (b: bool)
    ensures b <==> |other| <= |path| && forall i :: 0 <= i < |other| ==> path[i] == other[i]
  {
    other <= path
  }

  /** `path.relative_to(other)` succeeds exactly when `path` is `other`
      followed by the remaining components. */
  lemma RelativePart(path: Path, other: Path)
    ensures IsRelativeTo(path, other) <==> exists rest :: path == other + rest
  {
    if IsRelativeTo(path, other) {
      assert path == other + path[|other|..];
    }
  }

  /** The specification of `should_ignore`: some pattern resolves to the
      path itself or to one of its ancestors. */
  ghost predicate Ignored(ignore: seq<string>, path: string, cwd: Path) {
    exists k :: 0 <= k < |ignore| && IsRelativeTo(Resolve(path, cwd), Resolve(ignore[k], cwd))
  }

  /** `should_ignore(ignore, path)`: a linear search of the patterns that
      returns at the first one equal to the path or an ancestor of it. */
  method ShouldIgnore(ignore: seq<string>, path: string, cwd: Path) returns (r: bool)
    ensures r == Ignored(ignore, path, cwd)
  {
    var p := Resolve(path, cwd);
    for k := 0 to |ignore|
      invariant forall j :: 0 <= j < k ==> !IsRelativeTo(p, Resolve(ignore[j], cwd))
    {
      var pattern := Resolve(ignore[k], cwd);
      if p == pattern || IsRelativeTo(p, pattern) {
        assert IsRelativeTo(Resolve(path, cwd), Resolve(ignore[k], cwd));
        return true;
      }
    }
    return false;
  }

  /** Every listed pattern ignores itself. */
  lemma ListedIsIgnored(ignore: seq<string>, path: string, cwd: Path)
    requires path in ignore
    ensures Ignored(ignore, path, cwd)
  {
    var k :| 0 <= k < |ignore| && ignore[k] == path;
    assert IsRelativeTo(Resolve(path, cwd), Resolve(ignore[k], cwd));
  }

  /** Ignoring a directory ignores everything below it. */
  lemma IgnoredBelow(ignore: seq<string>, dir: string, path: string, cwd: Path)
    requires Ignored(ignore, dir, cwd)
    requires IsRelativeTo(Resolve(path, cwd), Resolve(dir, cwd))
    ensures Ignored(ignore, path, cwd)
  {
    var k :| 0 <= k < |ignore| && IsRelativeTo(Resolve(dir, cwd), Resolve(ignore[k], cwd));
    assert IsRelativeTo(Resolve(path, cwd), Resolve(ignore[k], cwd));
  }

  /** A bare file name resolves to itself inside the working directory. */
  lemma ResolveName(name: string, cwd: Path)
    requires '/' !in name && name != "" && name != "."
    ensures Resolve(name, cwd) == cwd + [name]
  {
    SplitNoSep(name, '/');
    assert !StartsWith(name, "/") by {
      if |name| > 0 {
        assert name[0] != '/';
      }
    }
  }

  /** Between bare file names in the same directory, a pattern ignores only
      the file of the same name. */
  lemma NameIgnored(patterns: seq<string>, name: string, cwd: Path)
    requires '/' !in name && name != "" && name != "."
    requires forall k :: 0 <= k < |patterns| ==> '/' !in patterns[k] && patterns[k] != "" && patterns[k] != "."
    ensures Ignored(patterns, name, cwd) <==> name in patterns
  {
    ResolveName(name, cwd);
    if name in patterns {
      ListedIsIgnored(patterns, name, cwd);
    }
    if Ignored(patterns, name, cwd) {
      var k :| 0 <= k < |patterns| && IsRelativeTo(Resolve(name, cwd), Resolve(patterns[k], cwd));
      ResolveName(patterns[k], cwd);
      assert (cwd + [patterns[k]])[|cwd|] == (cwd + [name])[|cwd|];
    }
  }
}
