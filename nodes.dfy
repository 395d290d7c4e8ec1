/** What render_dag.py does with the pruned tree: it collects the files that
    become nodes, sorts each into one group of the picture, builds a link to
    each file in the repository, and chooses the edges. */
module DagNodes {
  import opened Text
  import opened PathModel
  import opened Collections
  import opened DagPrune

  /** `x` is a key of the tree or one of the files kept for a key. */
  predicate IsNode(tree: map<string, set<string>>, x: string) {
    x in tree || exists f :: f in tree && x in tree[f]
  }

  /** render_dag.py's assembly of `files`: every key followed by its kept
      parents, then `list(set(files))`. */
  method CollectFiles(tree: map<string, set<string>>) returns (files: seq<string>)
    ensures Distinct(files)
    ensures forall x :: x in files <==> IsNode(tree, x)
  {
    var all: seq<string> := [];
    var pending := tree.Keys;
    while pending != {}
      invariant pending <= tree.Keys
      invariant forall x :: x in all <==> exists f :: f in tree && f !in pending && (x == f || x in tree[f])
      decreases pending
    {
      var file :| file in pending;
      pending := pending - {file};
      var parents := ListOfSet(tree[file]);
      all := all + [file] + parents;
    }
    files := ListOfSet(set x | x in all);
  }

  /** No node of the pruned tree is an ignored file. */
  lemma NoIgnoredNode(g: Graph, rank: map<string, nat>, x: string)
    requires Ranked(g, rank) && IsNode(Pruned(g, rank), x)
    ensures !Skipped(g, x)
  {
    PrunedNothingIgnored(g, rank);
  }

  /** The group a file is drawn in. */
  datatype Kind = DatasetFile | ScriptFile | FigureFile | TexFile | Manuscript | OtherFile

  /** The directories of the project (`params.data`, `params.scripts`,
      `params.figures`, `params.tex`, all absolute), the name of the
      compiled article (`config["ms_pdf"]`), and the working directory
      `Path(file).absolute()` puts in front of a relative name. */
  datatype Layout = Layout(data: Path, scripts: Path, figures: Path, tex: Path, msPdf: string, cwd: Path)

  /** The first test of render_dag.py's classification that the file passes:
      data, then scripts, then figures, then tex, then the article itself;
      anything else is another file. */
  function KindOf(layout: Layout, file: string): (k: Kind)
    ensures k == DatasetFile <==> IsRelativeTo(Resolve(file, layout.cwd), layout.data)
    ensures k == Manuscript ==> file == layout.msPdf
    ensures k == OtherFile ==> file != layout.msPdf
  {
    var p := Resolve(file, layout.cwd);
    if IsRelativeTo(p, layout.data) then DatasetFile
    else if IsRelativeTo(p, layout.scripts) then ScriptFile
    else if IsRelativeTo(p, layout.figures) then FigureFile
    else if IsRelativeTo(p, layout.tex) then TexFile
    else if file == layout.msPdf then Manuscript
    else OtherFile
  }

  /** The priority between the directories: a file inside one of them goes
      to that group unless an earlier directory holds it too. */
  lemma KindPriority(layout: Layout, file: string)
    ensures var p := Resolve(file, layout.cwd);
      && (KindOf(layout, file) == ScriptFile <==> !IsRelativeTo(p, layout.data) && IsRelativeTo(p, layout.scripts))
      && (KindOf(layout, file) == FigureFile <==>
            !IsRelativeTo(p, layout.data) && !IsRelativeTo(p, layout.scripts) && IsRelativeTo(p, layout.figures))
      && (KindOf(layout, file) == TexFile <==>
            && !IsRelativeTo(p, layout.data) && !IsRelativeTo(p, layout.scripts)
            && !IsRelativeTo(p, layout.figures) && IsRelativeTo(p, layout.tex))
  {
  }

  /** With the figures directory inside the tex directory (as in
      `src/tex/figures`), figures are never drawn as tex files, and the
      tex group holds only files of the tex directory outside it. */
  lemma FiguresNotTex(layout: Layout, file: string)
    requires IsRelativeTo(layout.figures, layout.tex)
    requires IsRelativeTo(Resolve(file, layout.cwd), layout.figures)
    ensures KindOf(layout, file) != TexFile
    ensures !IsRelativeTo(Resolve(file, layout.cwd), layout.data) && !IsRelativeTo(Resolve(file, layout.cwd), layout.scripts)
            ==> KindOf(layout, file) == FigureFile
  {
  }

  /** The files of `files`, in order, that fall in group `k`. */
  function Group(layout: Layout, files: seq<string>, k: Kind): (r: seq<string>)
    ensures |r| <= |files|
    decreases |files|
  {
    if files == [] then []
    else
      var last := files[|files| - 1];
      var init := Group(layout, files[..|files| - 1], k);
      if KindOf(layout, last) == k then init + [last] else init
  }

  /** A group holds exactly the files of its kind. */
  lemma {:induction false} GroupMembers(layout: Layout, files: seq<string>, k: Kind, x: string)
    ensures x in Group(layout, files, k) <==> x in files && KindOf(layout, x) == k
    decreases |files|
  {
    if files != [] {
      var init := files[..|files| - 1];
      GroupMembers(layout, init, k, x);
      assert files == init + [files[|files| - 1]];
    }
  }

  /** render_dag.py's loop that appends each file to the list of its group;
      the article itself is dropped. */
  method Classify(layout: Layout, files: seq<string>)
    returns (datasets: seq<string>, scripts: seq<string>, figures: seq<string>, texfiles: seq<string>, others: seq<string>)
    ensures datasets == Group(layout, files, DatasetFile)
    ensures scripts == Group(layout, files, ScriptFile)
    ensures figures == Group(layout, files, FigureFile)
    ensures texfiles == Group(layout, files, TexFile)
    ensures others == Group(layout, files, OtherFile)
  {
    datasets, scripts, figures, texfiles, others := [], [], [], [], [];
    for i := 0 to |files|
      invariant datasets == Group(layout, files[..i], DatasetFile)
      invariant scripts == Group(layout, files[..i], ScriptFile)
      invariant figures == Group(layout, files[..i], FigureFile)
      invariant texfiles == Group(layout, files[..i], TexFile)
      invariant others == Group(layout, files[..i], OtherFile)
    {
      assert files[..i + 1][..i] == files[..i];
      var file := files[i];
      match KindOf(layout, file)
      case DatasetFile => datasets := datasets + [file];
      case ScriptFile => scripts := scripts + [file];
      case FigureFile => figures := figures + [file];
      case TexFile => texfiles := texfiles + [file];
      case Manuscript =>
      case OtherFile => others := others + [file];
    }
    assert files[..|files|] == files;
  }

  /** How often `x` occurs in the six groups together, the article's own
      group included. */
  ghost function GroupCount(layout: Layout, files: seq<string>, x: string): nat {
    multiset(Group(layout, files, DatasetFile))[x] + multiset(Group(layout, files, ScriptFile))[x]
    + multiset(Group(layout, files, FigureFile))[x] + multiset(Group(layout, files, TexFile))[x]
    + multiset(Group(layout, files, Manuscript))[x] + multiset(Group(layout, files, OtherFile))[x]
  }

  /** Appending a file adds it to its own group only. */
  lemma GroupStep(layout: Layout, files: seq<string>, k: Kind, x: string)
    requires files != []
    ensures multiset(Group(layout, files, k))[x] ==
      multiset(Group(layout, files[..|files| - 1], k))[x]
      + (if files[|files| - 1] == x && KindOf(layout, x) == k then 1 else 0)
  {
  }

  /** The groups split the files: every occurrence of a file lands in
      exactly one group, the dropped article counted as a group of its own. */
  lemma {:induction false} GroupsPartition(layout: Layout, files: seq<string>, x: string)
    ensures multiset(files)[x] == GroupCount(layout, files, x)
    decreases |files|
  {
    if files != [] {
      var init := files[..|files| - 1];
      GroupsPartition(layout, init, x);
      assert files == init + [files[|files| - 1]];
      GroupStep(layout, files, DatasetFile, x);
      GroupStep(layout, files, ScriptFile, x);
      GroupStep(layout, files, FigureFile, x);
      GroupStep(layout, files, TexFile, x);
      GroupStep(layout, files, Manuscript, x);
      GroupStep(layout, files, OtherFile, x);
    }
  }

  /** A file lies in at most one group. */
  lemma OneGroup(layout: Layout, files: seq<string>, x: string, k1: Kind, k2: Kind)
    requires x in Group(layout, files, k1) && x in Group(layout, files, k2)
    ensures k1 == k2
  {
    GroupMembers(layout, files, k1, x);
    GroupMembers(layout, files, k2, x);
  }

  datatype Option<T> = None | Some(value: T)

  /** `file2url`: the permalink of a file at the current commit; files under
      `src/tex/output/` are generated and get no link. */
  function FileUrl(gitUrl: string, gitSha: string, file: string): (url: Option<string>)
    ensures url.None? <==> StartsWith(file, "src/tex/output/")
  {
    if StartsWith(file, "src/tex/output/") then None
    else Some(gitUrl + "/blob/" + gitSha + "/" + file)
  }

  /** The file can be read back from its link, so different files get
      different links. */
  lemma FileUrlRoundTrip(gitUrl: string, gitSha: string, file: string)
    requires !StartsWith(file, "src/tex/output/")
    ensures var base := gitUrl + "/blob/" + gitSha + "/";
      && StartsWith(FileUrl(gitUrl, gitSha, file).value, base)
      && RemovePrefix(FileUrl(gitUrl, gitSha, file).value, base) == file
  {
    var base := gitUrl + "/blob/" + gitSha + "/";
    assert FileUrl(gitUrl, gitSha, file).value == base + file;
    assert (base + file)[|base|..] == file;
  }

  lemma FileUrlInjective(gitUrl: string, gitSha: string, a: string, b: string)
    requires FileUrl(gitUrl, gitSha, a) == FileUrl(gitUrl, gitSha, b)
    requires FileUrl(gitUrl, gitSha, a).Some?
    ensures a == b
  {
    FileUrlRoundTrip(gitUrl, gitSha, a);
    FileUrlRoundTrip(gitUrl, gitSha, b);
  }

  /** An edge drawn from `dep` to `file`. */
  predicate Chosen(files: seq<string>, tree: map<string, set<string>>, ignore: seq<string>, dep: string, file: string) {
    file in files && file in tree && dep in tree[file] && dep !in ignore
  }

  /** The edge loop of render_dag.py: for each file, each kept parent that
      is not literally in the ignore list. */
  method Edges(files: seq<string>, tree: map<string, set<string>>, ignore: seq<string>)
    returns (edges: set<(string, string)>)
    ensures forall dep, file :: (dep, file) in edges <==> Chosen(files, tree, ignore, dep, file)
  {
    edges := {};
    for i := 0 to |files|
      invariant forall dep, file :: (dep, file) in edges <==> Chosen(files[..i], tree, ignore, dep, file)
    {
      var file := files[i];
      assert forall x :: x in files[..i + 1] <==> x in files[..i] || x == file;
      var deps := if file in tree then tree[file] else {};
      var pending := deps;
      while pending != {}
        invariant pending <= deps
        invariant forall dep, f :: (dep, f) in edges <==>
          Chosen(files[..i], tree, ignore, dep, f) || (f == file && dep in deps && dep !in pending && dep !in ignore)
        decreases pending
      {
        var dep :| dep in pending;
        pending := pending - {dep};
        if dep !in ignore {
          edges := edges + {(dep, file)};
        }
      }
    }
    assert files[..|files|] == files;
  }

  /** On the pruned tree the ignore test of the edge loop removes nothing:
      with every node among the files, the edges are exactly the pairs of
      the tree. */
  lemma EdgesOfPrune(g: Graph, rank: map<string, nat>, files: seq<string>, dep: string, file: string)
    requires Ranked(g, rank)
    requires forall x :: x in files <==> IsNode(Pruned(g, rank), x)
    ensures Chosen(files, Pruned(g, rank), g.ignore, dep, file) <==>
      file in Pruned(g, rank) && dep in Pruned(g, rank)[file]
  {
    var tree := Pruned(g, rank);
    if file in tree && dep in tree[file] {
      assert IsNode(tree, file);
      NoIgnoredNode(g, rank, dep);
      if dep in g.ignore {
        ListedIsIgnored(g.ignore, dep, g.cwd);
      }
    }
  }
}
