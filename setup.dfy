/** The inputs render_dag.py prepares before pruning: the dependency map
    with the repository prefix taken off every path, and the list of files
    the graph leaves out. */
module DagSetup {
  import opened Text
  import opened PathModel
  import opened Entries

  /** `str(repo / "x")[:-1]`: the repository path with a `/` after it. The
      root keeps its single `/`, and the current directory (`Path("")` or
      `Path(".")`) gives no prefix at all. */
  function RepoPrefix(repo: string): (prefix: string)
    ensures prefix == "" || EndsWith(prefix, "/")
    ensures repo == "/" ==> prefix == "/"
    ensures repo == "" || repo == "." ==> prefix == ""
    ensures repo != "/" && repo != "" && repo != "." ==> prefix == repo + "/"
  {
    if repo == "/" then "/"
    else if repo == "" || repo == "." then ""
    else repo + "/"
  }

  /** A path inside the repository loses exactly the repository part: the
      name left over, resolved against the repository, is the path again. */
  lemma StripRepoFile(repo: string, name: string)
    requires repo != "/" && repo != "" && repo != "."
    requires StartsWith(repo, "/") && !StartsWith(name, "/") && name != "" && name != "."
    ensures RemovePrefix(RepoPrefix(repo) + name, RepoPrefix(repo)) == name
    ensures Resolve(name, Components(repo)) == Components(RepoPrefix(repo) + name)
  {
    var full := RepoPrefix(repo) + name;
    assert StartsWith(full, RepoPrefix(repo));
    assert full[|RepoPrefix(repo)|..] == name;
    SplitAppend(repo, name, '/');
    assert full == repo + ['/'] + name;
  }

  /** `[removeprefix(file, prefix) for file in d]` */
  function StripEach(files: seq<string>, prefix: string): (r: seq<string>)
    ensures |r| == |files|
    ensures forall i :: 0 <= i < |files| ==> r[i] == RemovePrefix(files[i], prefix)
  {
    seq(|files|, i requires 0 <= i < |files| => RemovePrefix(files[i], prefix))
  }

  /** Each item of `config["dag_dependencies"]` with its name and its
      inputs stripped. */
  function StripItems(items: seq<(string, seq<string>)>, prefix: string): (r: seq<(string, seq<string>)>)
    ensures |r| == |items|
    ensures forall i :: 0 <= i < |items| ==>
      r[i] == (RemovePrefix(items[i].0, prefix), StripEach(items[i].1, prefix))
  {
    seq(|items|, i requires 0 <= i < |items| => (RemovePrefix(items[i].0, prefix), StripEach(items[i].1, prefix)))
  }

  /** The loop of render_dag.py that builds `dependencies` from the items of
      `config["dag_dependencies"]`, in their order: an item whose name
      strips to a key already entered overwrites it. */
  method StripRepoPrefix(items: seq<(string, seq<string>)>, prefix: string)
    returns (dependencies: map<string, seq<string>>)
    ensures dependencies == Assigned(StripItems(items, prefix))
  {
    var stripped := StripItems(items, prefix);
    dependencies := map[];
    for i := 0 to |items|
      invariant dependencies == Assigned(stripped[..i])
    {
      assert stripped[..i + 1][..i] == stripped[..i];
      var (f, d) := items[i];
      dependencies := dependencies[RemovePrefix(f, prefix) := StripEach(d, prefix)];
    }
    assert stripped[..|items|] == stripped;
  }

  /** The keys of the stripped map are the stripped names, and each holds
      the stripped inputs of the last item whose name strips to it. */
  lemma StrippedLookup(items: seq<(string, seq<string>)>, prefix: string, key: string)
    ensures key in Assigned(StripItems(items, prefix)) <==>
      exists i :: 0 <= i < |items| && RemovePrefix(items[i].0, prefix) == key
    ensures key in Assigned(StripItems(items, prefix)) ==>
      exists i :: && 0 <= i < |items| && RemovePrefix(items[i].0, prefix) == key
                  && Assigned(StripItems(items, prefix))[key] == StripEach(items[i].1, prefix)
                  && (forall j :: i < j < |items| ==> RemovePrefix(items[j].0, prefix) != key)
  {
    var pairs := StripItems(items, prefix);
    AssignedKeys(pairs, key);
    if key in Assigned(pairs) {
      AssignedLast(pairs, key);
    }
  }

  /** The files render_dag.py leaves out of the graph: the TeX inputs it
      generates, its own resource, flag, preprocessing and compilation
      directories, three fixed names, and what the user's patterns matched. */
  function IgnoreList(texFilesIn: seq<string>, resources: string, flags: string, preprocess: string,
                      compile: string, userIgnore: seq<string>): (ignore: seq<string>)
    ensures |ignore| == |texFilesIn| + 7 + |userIgnore|
    ensures ignore[..|texFilesIn|] == texFilesIn && ignore[|texFilesIn| + 7..] == userIgnore
    ensures ignore[|texFilesIn|..|texFilesIn| + 7]
            == [resources, flags, preprocess, compile, "dag.pdf", "showyourwork.yml", "zenodo.yml"]
    ensures forall x :: x in ignore <==> || x in texFilesIn || x in userIgnore
                                          || x in [resources, flags, preprocess, compile,
                                                   "dag.pdf", "showyourwork.yml", "zenodo.yml"]
  {
    texFilesIn + [resources, flags, preprocess, compile, "dag.pdf", "showyourwork.yml", "zenodo.yml"]
    + userIgnore
  }

  /** Which files the list makes `should_ignore` drop: the listed ones, and
      everything inside the four internal directories. */
  lemma IgnoreListDrops(texFilesIn: seq<string>, resources: string, flags: string, preprocess: string,
                        compile: string, userIgnore: seq<string>, path: string, cwd: Path)
    requires || path in texFilesIn || path in userIgnore
             || path == "dag.pdf" || path == "showyourwork.yml" || path == "zenodo.yml"
             || IsRelativeTo(Resolve(path, cwd), Resolve(resources, cwd))
             || IsRelativeTo(Resolve(path, cwd), Resolve(flags, cwd))
             || IsRelativeTo(Resolve(path, cwd), Resolve(preprocess, cwd))
             || IsRelativeTo(Resolve(path, cwd), Resolve(compile, cwd))
    ensures Ignored(IgnoreList(texFilesIn, resources, flags, preprocess, compile, userIgnore), path, cwd)
  {
    var ignore := IgnoreList(texFilesIn, resources, flags, preprocess, compile, userIgnore);
    var t := |texFilesIn|;
    assert ignore[t] == resources && ignore[t + 1] == flags;
    assert ignore[t + 2] == preprocess && ignore[t + 3] == compile;
    if path in texFilesIn || path in userIgnore || path == "dag.pdf" || path == "showyourwork.yml" || path == "zenodo.yml" {
      assert path in ignore;
      ListedIsIgnored(ignore, path, cwd);
    } else if IsRelativeTo(Resolve(path, cwd), Resolve(resources, cwd)) {
      ListedIsIgnored(ignore, resources, cwd);
      IgnoredBelow(ignore, resources, path, cwd);
    } else if IsRelativeTo(Resolve(path, cwd), Resolve(flags, cwd)) {
      ListedIsIgnored(ignore, flags, cwd);
      IgnoredBelow(ignore, flags, path, cwd);
    } else if IsRelativeTo(Resolve(path, cwd), Resolve(preprocess, cwd)) {
      ListedIsIgnored(ignore, preprocess, cwd);
      IgnoredBelow(ignore, preprocess, path, cwd);
    } else {
      ListedIsIgnored(ignore, compile, cwd);
      IgnoredBelow(ignore, compile, path, cwd);
    }
  }
}
