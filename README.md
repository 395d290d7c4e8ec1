# showyourwork, modelled in Dafny

This project models three small parts of `showyourwork`, the tool that builds
reproducible scientific articles.

- **The build graph** (`render_dag.py`, the script that draws the graph of how
  the article is built). It covers these steps:
  - taking the repository prefix off every path of the dependency map;
  - the list of files the picture leaves out;
  - `should_ignore`;
  - the worklist that removes ignored files from the tree. Each remaining file
    inherits the parents of its ignored parents, and so on;
  - collecting the nodes;
  - sorting every node into one group of the picture;
  - the permalink of a file;
  - choosing the edges;
  - finding the Zenodo records that hold a set of files.
- **The post-processing of git output** in `src/showyourwork/git.py` and in the
  older `showyourwork/git.py`. This is the failure callback, the repository
  URL, the slug and the tag.
- **The command-line entry point**, which inserts the default subcommand into
  `sys.argv`.

Modules:

| module | file | what it holds |
|---|---|---|
| `Text` | `text.dfy` | the Python `str` operations the core uses, with CPython's semantics: `startswith`, `endswith`, `removeprefix`, `split`, `join`, `replace`, `strip` |
| `PathModel` | `paths.dfy` | normalised paths as lists of components, `is_relative_to` and `should_ignore` |
| `Collections`, `Entries` | `collections.dfy` | `list(set(...))`, and a dictionary filled by assignments in order |
| `DagSetup` | `setup.dfy` | prefix stripping and the ignore list |
| `DagPrune` | `prune.dfy` | the pruning worklist, and what it computes |
| `DagNodes` | `nodes.dfy` | node collection, classification, permalinks and edges |
| `DagDatasets` | `datasets.dfy` | `get_dataset_dois` |
| `GitOutput`, `GitInfo`, `LegacyGit` | `git.dfy` | the callback and URL, slug and tag post-processing |
| `Cli` | `cli.dfy` | `entry_point` on a `Sys` object whose `argv` it edits in place |

**How the worklist is modelled.** The worklist keeps no visited set, so it
ends only when the ignored files it expands form no cycle.

- `DagPrune.Ranked` states this with a ghost rank. The rank drops along every
  dependency edge between files that the walk expands.
- Under that precondition, `DagPrune.Walk` is the `while` loop over `todo`.
  `DagPrune.PruneTree` is the loop over the files.
- Both are proved to compute `DagPrune.Pruned`, a function defined by
  recursion.
- The lemmas then characterise `Pruned` by chains of ignored files.

## Model

| member | source | states |
|---|---|---|
| `Text.RemovePrefix` | showyourwork/workflow/scripts/render_dag.py:23-30 | if `s` starts with `prefix`, then `prefix + result == s`; otherwise the result is `s` unchanged; either way the result is a suffix of `s` |
| `Text.ReplaceCharByNothing` | src/showyourwork/git.py:19 | `s.replace(c, "")` deletes exactly the occurrences of `c` (checked against an independent definition, `Without`) |
| `Text.Without` | src/showyourwork/git.py:19 | deleting every `c`: no `c` is left, all other characters keep their counts, and a string without `c` is unchanged |
| `Text.ReplaceSelf` | src/showyourwork/git.py:47 | `s.replace(pat, pat)` changes nothing |
| `Text.ReplaceKeepsCount` | src/showyourwork/git.py:47 | in `s.replace(pat, repl)` a character in neither the pattern nor the replacement keeps its count |
| `Text.ReplaceAbsent` | src/showyourwork/git.py:47 | `replace` with a pattern that does not occur leaves the string unchanged |
| `Text.ReplaceLeading` | src/showyourwork/git.py:47 | a leading occurrence is replaced, and the scan resumes after it |
| `Text.Strip` | src/showyourwork/git.py:80-83 | `strip()` gives a slice `s[i..i+|r|]` of the input with no whitespace at either end, where every character before `i` and every one after the slice is whitespace; an input with no whitespace at its ends is unchanged |
| `Text.StripIdempotent` | src/showyourwork/git.py:80-83 | stripping twice is stripping once |
| `Text.Split` | src/showyourwork/git.py:64 | `s.split(sep)` gives at least one part, and no part contains the separator |
| `Text.JoinEnds` | src/showyourwork/git.py:64 | `sep.join(parts)` starts with the first part and ends with the last |
| `Text.JoinSeparators` | src/showyourwork/git.py:64 | joining separator-free parts puts exactly one separator between each two, `len(parts) - 1` in all |
| `Text.JoinSplit` | src/showyourwork/git.py:64 | joining the parts of a split gives back the string |
| `Text.SplitJoin` | src/showyourwork/git.py:64 | splitting a join of separator-free parts gives back the parts |
| `Text.SplitAppend` | src/showyourwork/git.py:64 | splitting at a separator between two strings splits each side on its own |
| `Text.JoinAppend` | src/showyourwork/git.py:64 | joining two lists of parts is joining each and gluing the results with one separator |
| `Text.JoinTailIsSuffix` | src/showyourwork/git.py:64 | the join of the last parts is a suffix of the join of all of them |
| `PathModel.Components` | showyourwork/workflow/scripts/render_dag.py:81-83 | the components of a path contain no `/`; an absolute path's first component is the empty root component; for any path other than `/`, `""` and `.`, joining the components with `/` gives back the string |
| `PathModel.Resolve` | showyourwork/workflow/scripts/render_dag.py:81-83 | `Path(s).resolve()`: a relative path resolves below the working directory, and the result is absolute when the path or the working directory is |
| `PathModel.IsRelativeTo` | showyourwork/workflow/scripts/render_dag.py:11-20 | `is_relative_to(path, other)` holds iff `other` is no longer than `path` and agrees with it component by component |
| `PathModel.RelativePart` | showyourwork/workflow/scripts/render_dag.py:11-20 | `is_relative_to(path, other)` holds exactly when `path` is `other` followed by further components |
| `PathModel.ShouldIgnore` | showyourwork/workflow/scripts/render_dag.py:80-86 | the linear search with early return answers true iff some pattern resolves to the path itself or to one of its ancestors |
| `PathModel.ListedIsIgnored` | showyourwork/workflow/scripts/render_dag.py:84 | every listed pattern ignores itself |
| `PathModel.IgnoredBelow` | showyourwork/workflow/scripts/render_dag.py:84 | ignoring a directory ignores everything below it |
| `PathModel.NameIgnored` | showyourwork/workflow/scripts/render_dag.py:80-86 | for bare file names in one directory, a name is ignored iff it is listed |
| `DagSetup.RepoPrefix` | showyourwork/workflow/scripts/render_dag.py:128 | `str(repo / "x")[:-1]` is the repository path followed by one `/`, or is `/` for the root, or is empty for the current directory |
| `DagSetup.StripRepoFile` | showyourwork/workflow/scripts/render_dag.py:128-133 | a path inside the repository loses exactly the repository part; the stripped name, resolved against the repository, gives back the full path |
| `DagSetup.StripRepoPrefix` | showyourwork/workflow/scripts/render_dag.py:129-133 | the loop builds the map that assigns each item, in order, under its stripped name with its stripped inputs |
| `DagSetup.StrippedLookup` | showyourwork/workflow/scripts/render_dag.py:130-133 | the keys are the stripped names; each key holds the stripped inputs of the last item whose name strips to it |
| `Entries.AssignedKeys` | showyourwork/workflow/scripts/render_dag.py:130-133 | a dictionary filled by assignments has exactly the assigned keys |
| `Entries.AssignedLast` | showyourwork/workflow/scripts/render_dag.py:130-133 | each key holds the value of its last assignment |
| `DagSetup.IgnoreList` | showyourwork/workflow/scripts/render_dag.py:136-152 | the ignore list is the TeX inputs, then the seven fixed entries in source order, then the user's matches; an entry is in it iff it is one of those |
| `DagSetup.IgnoreListDrops` | showyourwork/workflow/scripts/render_dag.py:136-152 | `should_ignore` drops the listed files, `dag.pdf`, `showyourwork.yml`, `zenodo.yml`, and everything inside the resource, flag, preprocessing and compilation directories |
| `DagPrune.Reach` | showyourwork/workflow/scripts/render_dag.py:161-167 | what the walk from one parent keeps; no ignored file is ever kept |
| `DagPrune.ReachAll` | showyourwork/workflow/scripts/render_dag.py:160-167 | what the walks from several parents keep together; none of it is ignored |
| `DagPrune.Weight` | showyourwork/workflow/scripts/render_dag.py:162-165 | a proof device, not behaviour of the source: the termination measure of the `todo` loop, the number of pops a walk makes, which is at least one |
| `DagPrune.Walk` | showyourwork/workflow/scripts/render_dag.py:161-167 | the `todo` loop adds to the kept set exactly what the walk from the parent reaches, and it terminates when the expanded files are acyclic |
| `DagPrune.PruneTree` | showyourwork/workflow/scripts/render_dag.py:155-167 | the loop over the dependency map builds exactly the pruned tree |
| `DagPrune.ReachAllElem` | showyourwork/workflow/scripts/render_dag.py:160-167 | several walks together keep what one of them keeps |
| `DagPrune.ChainIsReached` | showyourwork/workflow/scripts/render_dag.py:161-167 | the end of a chain of ignored files is kept by the walk from the chain's start |
| `DagPrune.ReachedIsChain` | showyourwork/workflow/scripts/render_dag.py:161-167 | everything a walk keeps ends a chain of ignored files from its start |
| `DagPrune.ReachIffChain` | showyourwork/workflow/scripts/render_dag.py:161-167 | a walk keeps a file iff the file ends a chain from the start whose intermediate files are all ignored |
| `DagPrune.PrunedIsChainEnds` | showyourwork/workflow/scripts/render_dag.py:155-167 | the keys of the tree are the files on record that are not ignored; `q` is in `tree[f]` iff a chain of ignored files leads from a direct parent of `f` to `q` |
| `DagPrune.PrunedNothingIgnored` | showyourwork/workflow/scripts/render_dag.py:156-167 | every key is a file on record; no key and no kept parent is ignored |
| `DagPrune.DirectParentKept` | showyourwork/workflow/scripts/render_dag.py:160-167 | a direct parent that is not ignored is always kept |
| `DagPrune.DeadEndIsEmpty` | showyourwork/workflow/scripts/render_dag.py:159-167 | a file whose parents are all ignored dead ends gets the empty set |
| `DagPrune.ChainCons` | showyourwork/workflow/scripts/render_dag.py:162-165 | a chain from a recorded parent of an expanded file extends to a chain from the file itself |
| `DagPrune.ExamplePrune` | showyourwork/workflow/scripts/render_dag.py:155-167 | take a manuscript built from a figure, where the figure is made by a script and an ignored configuration file. The tree has the manuscript and the figure as keys, and the figure keeps only its script |
| `DagPrune.ExampleIgnored` | showyourwork/workflow/scripts/render_dag.py:80-86 | in the example only the configuration file is ignored, so no file on record is expanded and no ranking is needed |
| `DagPrune.ExampleWalks` | showyourwork/workflow/scripts/render_dag.py:161-167 | in the example the walk from the figure keeps the figure, and the walk from the script and the configuration file keeps only the script |
| `Collections.ListOfSet` | showyourwork/workflow/scripts/render_dag.py:174 | `list(set(...))` holds every element once |
| `DagNodes.CollectFiles` | showyourwork/workflow/scripts/render_dag.py:170-174 | the files are exactly the keys of the tree and their kept parents, with no duplicates |
| `DagNodes.NoIgnoredNode` | showyourwork/workflow/scripts/render_dag.py:155-174 | no node of the pruned tree is an ignored file |
| `DagNodes.KindOf` | showyourwork/workflow/scripts/render_dag.py:182-194 | a file is a dataset iff it lies in the data directory; only the article itself is dropped; other files are never the article |
| `DagNodes.KindPriority` | showyourwork/workflow/scripts/render_dag.py:182-190 | the priority is data, then scripts, then figures, then tex: a file goes to a group iff it lies in that directory and in none before it |
| `DagNodes.FiguresNotTex` | showyourwork/workflow/scripts/render_dag.py:187-190 | with the figures directory inside the tex directory, a figure is never drawn as a tex file |
| `DagNodes.GroupMembers` | showyourwork/workflow/scripts/render_dag.py:182-194 | a file is in a group iff it is one of the files and its kind is the group's |
| `DagNodes.GroupStep` | showyourwork/workflow/scripts/render_dag.py:177-194 | appending one file adds an occurrence to the group of its kind and to no other |
| `DagNodes.Classify` | showyourwork/workflow/scripts/render_dag.py:177-194 | the loop fills each of the five lists with exactly the files of its group, in order |
| `DagNodes.GroupsPartition` | showyourwork/workflow/scripts/render_dag.py:182-194 | for every file, its number of occurrences equals the sum of its occurrences over the groups, with the dropped article counted as a group of its own; so every occurrence lands in exactly one group |
| `DagNodes.OneGroup` | showyourwork/workflow/scripts/render_dag.py:182-194 | a file lies in at most one group |
| `DagNodes.FileUrl` | showyourwork/workflow/scripts/render_dag.py:197-201 | there is no link iff the file starts with `src/tex/output/` |
| `DagNodes.FileUrlRoundTrip` | showyourwork/workflow/scripts/render_dag.py:201 | a link is `git_url/blob/git_sha/` followed by the file, and stripping that base gives back the file |
| `DagNodes.FileUrlInjective` | showyourwork/workflow/scripts/render_dag.py:197-201 | different files get different links |
| `DagNodes.Edges` | showyourwork/workflow/scripts/render_dag.py:365-368 | an edge runs from `d` to `f` iff `f` is among the files, `d` is kept for `f`, and `d` is not literally in the ignore list |
| `DagNodes.EdgesOfPrune` | showyourwork/workflow/scripts/render_dag.py:365-368 | on the pruned tree, with all its nodes among the files, the ignore test removes nothing: the edges are exactly the pairs of the tree |
| `DagDatasets.LookUp` | showyourwork/workflow/scripts/render_dag.py:70-76 | the inner search finds a file iff the record's contents or one of its archives hold it |
| `DagDatasets.DatasetDois` | showyourwork/workflow/scripts/render_dag.py:62-77 | the result has no duplicates, and a DOI is in it iff its record holds one of the files |
| `DagDatasets.HoldsAnyMonotone` | showyourwork/workflow/scripts/render_dag.py:68-76 | asking about more files can only add DOIs |
| `GitOutput.Callback` | src/showyourwork/git.py:8-19 | a failure gives `"unknown"` whatever was printed. A success gives the output with every newline deleted, so no newline is left, and output without newlines is unchanged. `showyourwork/git.py:8-12` is the same function |
| `GitOutput.StripGitSuffix` | src/showyourwork/git.py:44-45 | exactly four characters go iff the URL ends with `.git`, and the result is a prefix of the URL |
| `GitOutput.StripOneSuffix` | src/showyourwork/git.py:44-45 | only one `.git` is taken off |
| `GitOutput.UnknownKept` | showyourwork/git.py:33-35 | the failure report `"unknown"` passes through unchanged |
| `GitInfo.RepoUrl` | src/showyourwork/git.py:38-48 | a failure gives `"unknown"`; output with no `@` in it (so no SSH prefix) only loses its newlines and one `.git` |
| `GitInfo.SshRemote` | src/showyourwork/git.py:43-47 | the SSH remote `git@github.com:<path>.git` becomes `https://github.com/<path>`; the suffix goes first, then the prefix is rewritten |
| `GitInfo.HttpsRemote` | src/showyourwork/git.py:43-47 | an HTTPS remote only loses its `.git` |
| `GitInfo.Slug` | src/showyourwork/git.py:64 | the slug is a suffix of the URL with at most one `/` in it; a URL with at most one `/` (such as an SSH remote of another host) is returned whole |
| `GitInfo.SlugOfPath` | src/showyourwork/git.py:64 | the slug of `<anything>/<owner>/<name>` is `<owner>/<name>` |
| `GitInfo.RepoSlug` | src/showyourwork/git.py:59-64 | a failure gives `"unknown"`; the slug is always a suffix of the repository URL |
| `GitInfo.SshSlug` | src/showyourwork/git.py:59-64 | the slug of an SSH remote is `<owner>/<name>` |
| `GitInfo.SshSlugUrl` | src/showyourwork/git.py:59-64 | the slug of an SSH remote is the slug of the HTTPS address it is rewritten to |
| `GitInfo.HttpsSlug` | src/showyourwork/git.py:64 | the slug of `https://github.com/<owner>/<name>` is `<owner>/<name>` |
| `GitInfo.RepoTag` | src/showyourwork/git.py:75-86 | a failure gives `""`, and so does a successful output that strips to `"unknown"`. The result is never `"unknown"`. Otherwise it is the stripped output with its newlines deleted |
| `GitInfo.UnknownTagIsNoTag` | src/showyourwork/git.py:80-86 | a tag literally named `unknown`, printed with or without its newline, reads the same as a failed lookup |
| `GitInfo.UnknownLine` | src/showyourwork/git.py:8-19 | the callback turns git's line `unknown\n` into `unknown` |
| `LegacyGit.RepoUrl` | showyourwork/git.py:25-35 | the URL is a prefix of the callback output. It is four characters shorter iff the output ends with `.git`, and it is unchanged otherwise, `"unknown"` included |
| `Cli.Insert` | showyourwork/cli/__init__.py:41 | `insert(1, x)` puts `x` at index 1 and keeps the elements before and after it |
| `Cli.WithDefault` | showyourwork/cli/__init__.py:40-41 | `argv[0]` is kept. When the guard holds, the default comes next, followed by the old arguments in their order. Otherwise `argv` is unchanged |
| `Cli.EntryPoint` | showyourwork/cli/__init__.py:18-42 | `sys.argv` becomes the rewritten list; with an empty `argv` the guard's index fails and nothing changes |
| `Cli.RewriteDispatches` | showyourwork/cli/__init__.py:40-41 | after the rewrite the first argument is a subcommand, an option or the default, and the list has grown by at most one |
| `Cli.RewriteUndone` | showyourwork/cli/__init__.py:41 | taking the inserted argument out gives back the original list |
| `Cli.RewriteIdempotent` | showyourwork/cli/__init__.py:40-41 | when the default is itself a subcommand, a second rewrite changes nothing |

## Left out

- `convert_to_png` (`render_dag.py:34-59`): it runs ImageMagick and computes a floating-point aspect ratio.
- Graphviz output (`render_dag.py:119-124, 204-362, 380-398`) is not modelled. This covers the graph object, subgraphs, node styles and colours, saving, the `dot -Tpdf` call and the deletion of temporary files. It also covers the cache node and the dashed cache edges (`render_dag.py:221-233, 370-378`). These are library calls and I/O.
- The edge at `render_dag.py:252-253` uses the loop variable `doi` left over from line 212 rather than `url`. It only changes the drawn picture, so it is not modelled.
- Filesystem access is not modelled: `Path.resolve`, `Path.absolute` and symbolic links. Paths are taken to be normalised strings. The matches of the user's glob patterns (`render_dag.py:147-151`) are an input list.
- Python's dictionary and set iteration order is not modelled. The model picks keys in an unspecified order. Results that the source turns into `list(set(...))` are stated as duplicate-free lists with the right elements.
- The git subprocesses (`get_stdout`) are not modelled. Their exit code and output are inputs. `get_repo_root`, `get_commit_message`, `get_repo_branch` and `get_repo_sha` are nothing but the callback applied to a command's output.
- `showyourwork/cli/conda_env.py` is not part of this model. It runs conda, reads YAML and templates, and copies files.
- The `clean` and `build` commands are not part of this model. They assemble shell commands and delete files.
- The test harness (`tests/helpers/temp_repo.py`, `tests/integration/conftest.py`) is not part of this model.
- The `main()` call and the lists of subcommands and options are not part of this model. They live in a module not shown here; the lists and the default are parameters.
- The edge test `dependency not in ignore` (`render_dag.py:367`) compares file names with an ignore list whose four directory entries are `Path` objects in the source, so those four never match there; the model's list holds strings only, so `DagNodes.Chosen` can match them. `DagNodes.EdgesOfPrune` shows the difference cannot be seen on the pruned tree, where no ignored file remains.
- DagPrune.PruneTree: its precondition `Ranked` asks for acyclicity among all ignored files on record that would be expanded. The source needs it only among those reachable from a kept file.
- DagPrune.PruneTree: the kept parents are collected in a local set before being stored, where the source unions them into `tree[file]` in place. The resulting tree is the same.
- DagPrune.Walk: its `requires Ranked` carries the same acyclicity as PruneTree's.
- GitInfo.RepoUrl: its contract covers failures and outputs without `@`. The SSH rewrite is stated by the lemma `SshRemote` for remotes of the form `git@github.com:<path>.git`, not for every output.
