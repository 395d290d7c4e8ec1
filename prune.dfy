/** Removing ignored files from the dependency tree (render_dag.py, the
    worklist of its main block). Every file that is not ignored keeps, in
    place of each ignored parent, that parent's own parents, repeatedly,
    until only files that are not ignored remain.

    The worklist keeps no visited set, so it stops only when the ignored
    files the walk can expand form no cycle. This is stated with a ghost
    `rank`: along every dependency edge between two expanded files the rank
    drops. */
module DagPrune {
  import opened PathModel

  /** The inputs of the prune: the dependency map (file -> its direct inputs,
      repository prefix already stripped), the ignore patterns and the
      directory relative paths resolve against. */
  datatype Graph = Graph(deps: map<string, seq<string>>, ignore: seq<string>, cwd: Path)

  /** `dependencies.get(n, [])` */
  function Parents(g: Graph, n: string): seq<string> {
    if n in g.deps then g.deps[n] else []
  }

  ghost predicate Skipped(g: Graph, n: string) {
    Ignored(g.ignore, n, g.cwd)
  }

  /** A file the worklist replaces by parents it has on record. */
  ghost predicate Expands(g: Graph, n: string) {
    n in g.deps && Skipped(g, n)
  }

  /** The expanded files form no cycle: every one of them is ranked, and
      the rank decreases along every dependency edge between ranked files
      on record. */
  ghost predicate Ranked(g: Graph, rank: map<string, nat>) {
    && (forall q :: Expands(g, q) ==> q in rank)
    && (forall q, c :: q in rank && q in g.deps && c in g.deps[q] && c in rank && c in g.deps ==> rank[c] < rank[q])
  }

  ghost function Level(g: Graph, rank: map<string, nat>, n: string): nat {
    if n in g.deps && n in rank then rank[n] + 1 else 0
  }

  /** The largest level among `cs`, 0 for none. */
  ghost function MaxLevel(g: Graph, rank: map<string, nat>, cs: seq<string>): (m: nat)
    ensures forall i :: 0 <= i < |cs| ==> Level(g, rank, cs[i]) <= m
    decreases |cs|
  {
    if cs == [] then 0
    else
      var m := MaxLevel(g, rank, cs[..|cs| - 1]);
      var l := Level(g, rank, cs[|cs| - 1]);
      if m < l then l else m
  }

  lemma {:induction false} MaxLevelBelow(g: Graph, rank: map<string, nat>, cs: seq<string>, bound: nat)
    requires bound > 0
    requires forall i :: 0 <= i < |cs| ==> Level(g, rank, cs[i]) < bound
    ensures MaxLevel(g, rank, cs) < bound
    decreases |cs|
  {
    if cs != [] {
      MaxLevelBelow(g, rank, cs[..|cs| - 1], bound);
    }
  }

  /** The parents of an expanded file sit on a lower level than the file. */
  lemma ParentsBelow(g: Graph, rank: map<string, nat>, n: string)
    requires Ranked(g, rank) && Expands(g, n)
    ensures MaxLevel(g, rank, g.deps[n]) < Level(g, rank, n)
  {
    MaxLevelBelow(g, rank, g.deps[n], Level(g, rank, n));
  }

  /** What a walk started at `n` adds to the pruned set. */
  ghost function Reach(g: Graph, rank: map<string, nat>, n: string): (r: set<string>)
    requires Ranked(g, rank)
    ensures forall q :: q in r ==> !Skipped(g, q)
    decreases Level(g, rank, n), 0
  {
    if !Skipped(g, n) then {n}
    else if n in g.deps then
      ParentsBelow(g, rank, n);
      ReachAll(g, rank, g.deps[n])
    else {}
  }

  /** What walks started at each of `cs` add together. */
  ghost function ReachAll(g: Graph, rank: map<string, nat>, cs: seq<string>): (r: set<string>)
    requires Ranked(g, rank)
    ensures forall q :: q in r ==> !Skipped(g, q)
    decreases MaxLevel(g, rank, cs), |cs|
  {
    if cs == [] then {}
    else ReachAll(g, rank, cs[..|cs| - 1]) + Reach(g, rank, cs[|cs| - 1])
  }

  /** The number of pops a walk started at `n` makes: the measure that
      bounds the worklist. */
  ghost function Weight(g: Graph, rank: map<string, nat>, n: string): (w: nat)
    requires Ranked(g, rank)
    ensures w >= 1
    decreases Level(g, rank, n), 0
  {
    if Expands(g, n) then
      ParentsBelow(g, rank, n);
      1 + WeightAll(g, rank, g.deps[n])
    else 1
  }

  ghost function WeightAll(g: Graph, rank: map<string, nat>, cs: seq<string>): nat
    requires Ranked(g, rank)
    decreases MaxLevel(g, rank, cs), |cs|
  {
    if cs == [] then 0
    else WeightAll(g, rank, cs[..|cs| - 1]) + Weight(g, rank, cs[|cs| - 1])
  }

  lemma {:induction false} ReachAllAppend(g: Graph, rank: map<string, nat>, a: seq<string>, b: seq<string>)
    requires Ranked(g, rank)
    ensures ReachAll(g, rank, a + b) == ReachAll(g, rank, a) + ReachAll(g, rank, b)
    decreases |b|
  {
    if b == [] {
      assert a + b == a;
    } else {
      ReachAllAppend(g, rank, a, b[..|b| - 1]);
      assert (a + b)[..|a + b| - 1] == a + b[..|b| - 1];
      assert (a + b)[|a + b| - 1] == b[|b| - 1];
    }
  }

  lemma {:induction false} WeightAllAppend(g: Graph, rank: map<string, nat>, a: seq<string>, b: seq<string>)
    requires Ranked(g, rank)
    ensures WeightAll(g, rank, a + b) == WeightAll(g, rank, a) + WeightAll(g, rank, b)
    decreases |b|
  {
    if b == [] {
      assert a + b == a;
    } else {
      WeightAllAppend(g, rank, a, b[..|b| - 1]);
      assert (a + b)[..|a + b| - 1] == a + b[..|b| - 1];
      assert (a + b)[|a + b| - 1] == b[|b| - 1];
    }
  }

  /** The tree the prune builds: every file on record that is not ignored,
      mapped to what the walks from its direct parents reach. */
  ghost function Pruned(g: Graph, rank: map<string, nat>): map<string, set<string>>
    requires Ranked(g, rank)
  {
    map f | f in g.deps && !Skipped(g, f) :: ReachAll(g, rank, g.deps[f])
  }

  /** Popping the last pending file from the worklist. */
  lemma PopLast(g: Graph, rank: map<string, nat>, todo: seq<string>)
    requires Ranked(g, rank) && |todo| > 0
    ensures ReachAll(g, rank, todo) == ReachAll(g, rank, todo[..|todo| - 1]) + Reach(g, rank, todo[|todo| - 1])
    ensures WeightAll(g, rank, todo) == WeightAll(g, rank, todo[..|todo| - 1]) + Weight(g, rank, todo[|todo| - 1])
  {
  }

  /** An ignored file contributes what its recorded parents contribute. */
  lemma ExpandIgnored(g: Graph, rank: map<string, nat>, n: string)
    requires Ranked(g, rank) && Skipped(g, n)
    ensures Reach(g, rank, n) == ReachAll(g, rank, Parents(g, n))
    ensures Weight(g, rank, n) == 1 + WeightAll(g, rank, Parents(g, n))
  {
  }

  /** One parent's walk of the worklist in render_dag.py: pop the last
      pending file; an ignored one is replaced by its recorded parents, any
      other joins the kept set. */
  method Walk(g: Graph, ghost rank: map<string, nat>, parent: string, kept: set<string>)
    returns (kept': set<string>)
    requires Ranked(g, rank)
    ensures kept' == kept + Reach(g, rank, parent)
  {
    kept' := kept;
    var todo := [parent];
    assert todo[..0] == [];
    while |todo| > 0
      invariant kept' + ReachAll(g, rank, todo) == kept + Reach(g, rank, parent)
      decreases WeightAll(g, rank, todo)
    {
      PopLast(g, rank, todo);
      var query := todo[|todo| - 1];
      todo := todo[..|todo| - 1];
      var ignored := ShouldIgnore(g.ignore, query, g.cwd);
      if ignored {
        ExpandIgnored(g, rank, query);
        ReachAllAppend(g, rank, todo, Parents(g, query));
        WeightAllAppend(g, rank, todo, Parents(g, query));
        todo := todo + Parents(g, query);
      } else {
        kept' := kept' + {query};
      }
    }
  }

  /** The prune of render_dag.py: every file on record that is not ignored
      gets, parent by parent, what that parent's walk keeps. */
  method PruneTree(g: Graph, ghost rank: map<string, nat>) returns (tree: map<string, set<string>>)
    requires Ranked(g, rank)
    ensures tree == Pruned(g, rank)
  {
    tree := map[];
    var pending := g.deps.Keys;
    while pending != {}
      invariant pending <= g.deps.Keys
      invariant tree == map f | f in g.deps && f !in pending && !Skipped(g, f) :: ReachAll(g, rank, g.deps[f])
      decreases pending
    {
      var file :| file in pending;
      pending := pending - {file};
      var skip := ShouldIgnore(g.ignore, file, g.cwd);
      if skip {
        continue;
      }
      var parents := g.deps[file];
      var kept: set<string> := {};
      for j := 0 to |parents|
        invariant kept == ReachAll(g, rank, parents[..j])
      {
        assert parents[..j + 1][..j] == parents[..j];
        kept := Walk(g, rank, parents[j], kept);
      }
      assert parents[..|parents|] == parents;
      tree := tree[file := kept];
    }
  }

  /** `path` runs from `from` to `to` through the dependency map: every step
      goes from a file to one of its recorded parents, every file but the
      last is ignored, and the last one is not. */
  ghost predicate IgnoredChain(g: Graph, path: seq<string>, from: string, to: string) {
    && |path| >= 1
    && path[0] == from
    && path[|path| - 1] == to
    && (forall i :: 0 <= i < |path| - 1 ==> Expands(g, path[i]) && path[i + 1] in g.deps[path[i]])
    && !Skipped(g, to)
  }

  /** `to` is a file the walk from `from` keeps. */
  ghost predicate Reaches(g: Graph, from: string, to: string) {
    exists path :: IgnoredChain(g, path, from, to)
  }

  /** A walk over several starts keeps what one of the starts keeps. */
  lemma {:induction false} ReachAllElem(g: Graph, rank: map<string, nat>, cs: seq<string>, q: string)
    requires Ranked(g, rank)
    ensures q in ReachAll(g, rank, cs) <==> exists i :: 0 <= i < |cs| && q in Reach(g, rank, cs[i])
    decreases |cs|
  {
    if cs != [] {
      ReachAllElem(g, rank, cs[..|cs| - 1], q);
      if q in ReachAll(g, rank, cs[..|cs| - 1]) {
        var i :| 0 <= i < |cs| - 1 && q in Reach(g, rank, cs[..|cs| - 1][i]);
        assert cs[..|cs| - 1][i] == cs[i];
      }
      if exists i :: 0 <= i < |cs| && q in Reach(g, rank, cs[i]) {
        var i :| 0 <= i < |cs| && q in Reach(g, rank, cs[i]);
        if i < |cs| - 1 {
          assert cs[..|cs| - 1][i] == cs[i];
        }
      }
    }
  }

  /** The end of a chain is kept by the walk from its start. */
  lemma {:induction false} ChainIsReached(g: Graph, rank: map<string, nat>, path: seq<string>, from: string, to: string)
    requires Ranked(g, rank) && IgnoredChain(g, path, from, to)
    ensures to in Reach(g, rank, from)
    decreases |path|
  {
    if |path| > 1 {
      var rest := path[1..];
      assert IgnoredChain(g, rest, path[1], to) by {
        forall i | 0 <= i < |rest| - 1
          ensures Expands(g, rest[i]) && rest[i + 1] in g.deps[rest[i]]
        {
          assert rest[i] == path[i + 1] && rest[i + 1] == path[i + 2];
        }
      }
      ChainIsReached(g, rank, rest, path[1], to);
      var k :| 0 <= k < |g.deps[from]| && g.deps[from][k] == path[1];
      ReachAllElem(g, rank, g.deps[from], to);
      ExpandIgnored(g, rank, from);
    }
  }

  /** Everything the walk from a file keeps ends a chain from that file. */
  lemma {:induction false} ReachedIsChain(g: Graph, rank: map<string, nat>, from: string, to: string)
    requires Ranked(g, rank) && to in Reach(g, rank, from)
    ensures Reaches(g, from, to)
    decreases Level(g, rank, from)
  {
    if !Skipped(g, from) {
      assert IgnoredChain(g, [from], from, to);
    } else {
      var ps := Parents(g, from);
      ExpandIgnored(g, rank, from);
      ReachAllElem(g, rank, ps, to);
      var i :| 0 <= i < |ps| && to in Reach(g, rank, ps[i]);
      var c := ps[i];
      ParentsBelow(g, rank, from);
      ReachedIsChain(g, rank, c, to);
      var rest :| IgnoredChain(g, rest, c, to);
      ChainCons(g, from, rest, to);
    }
  }

  /** A chain from a recorded parent of an expanded file extends to one from
      the file itself. */
  lemma ChainCons(g: Graph, from: string, rest: seq<string>, to: string)
    requires Expands(g, from) && |rest| >= 1 && rest[0] in g.deps[from]
    requires IgnoredChain(g, rest, rest[0], to)
    ensures IgnoredChain(g, [from] + rest, from, to)
  {
    var path := [from] + rest;
    forall j | 0 <= j < |path| - 1
      ensures Expands(g, path[j]) && path[j + 1] in g.deps[path[j]]
    {
      if j > 0 {
        assert path[j] == rest[j - 1] && path[j + 1] == rest[j];
      }
    }
  }

  /** The walk from a file keeps exactly the ends of the chains from it. */
  lemma ReachIffChain(g: Graph, rank: map<string, nat>, from: string, to: string)
    requires Ranked(g, rank)
    ensures to in Reach(g, rank, from) <==> Reaches(g, from, to)
  {
    if to in Reach(g, rank, from) {
      ReachedIsChain(g, rank, from, to);
    }
    if Reaches(g, from, to) {
      var path :| IgnoredChain(g, path, from, to);
      ChainIsReached(g, rank, path, from, to);
    }
  }

  /** The pruned tree keeps the files of record that are not ignored, and
      maps each to exactly the files that end a chain from one of its
      direct parents. */
  lemma PrunedIsChainEnds(g: Graph, rank: map<string, nat>, f: string, q: string)
    requires Ranked(g, rank)
    ensures f in Pruned(g, rank) <==> f in g.deps && !Skipped(g, f)
    ensures f in Pruned(g, rank) ==>
      (q in Pruned(g, rank)[f] <==> exists i :: 0 <= i < |g.deps[f]| && Reaches(g, g.deps[f][i], q))
  {
    if f in Pruned(g, rank) {
      ReachAllElem(g, rank, g.deps[f], q);
      forall i | 0 <= i < |g.deps[f]|
        ensures q in Reach(g, rank, g.deps[f][i]) <==> Reaches(g, g.deps[f][i], q)
      {
        ReachIffChain(g, rank, g.deps[f][i], q);
      }
    }
  }

  /** No key and no kept parent of the pruned tree is ignored, and every
      key is a file of record. */
  lemma PrunedNothingIgnored(g: Graph, rank: map<string, nat>)
    requires Ranked(g, rank)
    ensures forall f :: f in Pruned(g, rank) ==> f in g.deps && !Skipped(g, f)
    ensures forall f, q :: f in Pruned(g, rank) && q in Pruned(g, rank)[f] ==> !Skipped(g, q)
  {
  }

  /** A direct parent that is not ignored is always kept. */
  lemma DirectParentKept(g: Graph, rank: map<string, nat>, f: string, p: string)
    requires Ranked(g, rank)
    requires f in g.deps && !Skipped(g, f) && p in g.deps[f] && !Skipped(g, p)
    ensures p in Pruned(g, rank)[f]
  {
    var i :| 0 <= i < |g.deps[f]| && g.deps[f][i] == p;
    ReachAllElem(g, rank, g.deps[f], p);
  }

  /** A file whose parents are all ignored and have no parents of their own
      is left with nothing. */
  lemma DeadEndIsEmpty(g: Graph, rank: map<string, nat>, f: string)
    requires Ranked(g, rank)
    requires f in g.deps && !Skipped(g, f)
    requires forall p :: p in g.deps[f] ==> Skipped(g, p) && Parents(g, p) == []
    ensures Pruned(g, rank)[f] == {}
  {
    forall q | q in Pruned(g, rank)[f]
      ensures false
    {
      ReachAllElem(g, rank, g.deps[f], q);
      var i :| 0 <= i < |g.deps[f]| && q in Reach(g, rank, g.deps[f][i]);
      ExpandIgnored(g, rank, g.deps[f][i]);
    }
  }

  /** A manuscript built from a figure, the figure made by a script from a
      configuration file that is ignored. */
  function ExampleGraph(cwd: Path, ms: string, fig: string, script: string, config: string): Graph {
    Graph(map[ms := [fig], fig := [script, config]], [config], cwd)
  }

  /** A manuscript, its figure, the figure's script and an ignored
      configuration file, for any four distinct bare file names: the figure
      loses the ignored configuration file and keeps its script, and the
      ignored file itself gets no entry. */
  lemma ExamplePrune(cwd: Path, ms: string, fig: string, script: string, config: string)
    requires '/' !in ms && '/' !in fig && '/' !in script && '/' !in config
    requires ms != "" && fig != "" && script != "" && config != ""
    requires ms != "." && fig != "." && script != "." && config != "."
    requires ms != fig && ms != script && ms != config && fig != script && fig != config && script != config
    ensures Ranked(ExampleGraph(cwd, ms, fig, script, config), map[])
    ensures Pruned(ExampleGraph(cwd, ms, fig, script, config), map[]).Keys == {ms, fig}
    ensures Pruned(ExampleGraph(cwd, ms, fig, script, config), map[])[ms] == {fig}
    ensures Pruned(ExampleGraph(cwd, ms, fig, script, config), map[])[fig] == {script}
  {
    var g := ExampleGraph(cwd, ms, fig, script, config);
    ExampleIgnored(cwd, ms, fig, script, config);
    ExampleWalks(cwd, ms, fig, script, config);
    assert g.deps.Keys == {ms, fig};
  }

  /** Only the configuration file is ignored, and with no file on record
      ignored the empty ranking will do. */
  lemma ExampleIgnored(cwd: Path, ms: string, fig: string, script: string, config: string)
    requires '/' !in ms && '/' !in fig && '/' !in script && '/' !in config
    requires ms != "" && fig != "" && script != "" && config != ""
    requires ms != "." && fig != "." && script != "." && config != "."
    requires ms != config && fig != config && script != config
    ensures var g := ExampleGraph(cwd, ms, fig, script, config);
      && !Skipped(g, ms) && !Skipped(g, fig) && !Skipped(g, script) && Skipped(g, config)
      && Ranked(g, map[])
  {
    var g := ExampleGraph(cwd, ms, fig, script, config);
    NameIgnored(g.ignore, ms, cwd);
    NameIgnored(g.ignore, fig, cwd);
    NameIgnored(g.ignore, script, cwd);
    NameIgnored(g.ignore, config, cwd);
  }

  /** The walks from the direct parents of the two files on record. */
  lemma ExampleWalks(cwd: Path, ms: string, fig: string, script: string, config: string)
    requires ms != fig && ms != config && fig != config && script != config
    requires var g := ExampleGraph(cwd, ms, fig, script, config);
      && !Skipped(g, fig) && !Skipped(g, script) && Skipped(g, config) && Ranked(g, map[])
    ensures var g := ExampleGraph(cwd, ms, fig, script, config);
      && ReachAll(g, map[], [fig]) == {fig}
      && ReachAll(g, map[], [script, config]) == {script}
  {
    var g := ExampleGraph(cwd, ms, fig, script, config);
    var parents := [script, config];
    PopLast(g, map[], parents);
    assert parents[..1] == [script];
    PopLast(g, map[], [script]);
    ExpandIgnored(g, map[], config);
    PopLast(g, map[], [fig]);
  }
}
