/** The post-processing both `git.py` modules apply to the output of a git
    command. The command itself is not modelled: its exit code and its
    standard output are the inputs. */
module GitOutput {
  import opened Text

  /** What a failed command reports. */
  const Unknown: string := "unknown"

  /** `callback(code, stdout, stderr)`: a failure becomes `"unknown"`,
      whatever was printed; a success keeps the output minus its newlines. */
  function Callback(code: int, stdout: string): (r: string)
    ensures code != 0 ==> r == Unknown
    ensures code == 0 ==> r == Without(stdout, '\n')
    ensures code == 0 ==> '\n' !in r
    ensures code == 0 && '\n' !in stdout ==> r == stdout
  {
    if code != 0 then Unknown
    else
      ReplaceCharByNothing(stdout, '\n');
      Replace(stdout, "\n", "")
  }

  /** `url[:-4]` when the URL ends with `.git`: one suffix, and no more. */
  function StripGitSuffix(url: string): (r: string)
    ensures EndsWith(url, ".git") ==> r + ".git" == url
    ensures !EndsWith(url, ".git") ==> r == url
    ensures r <= url
  {
    if EndsWith(url, ".git") then url[..|url| - 4] else url
  }

  /** Only one `.git` is taken off. */
  lemma StripOneSuffix(base: string)
    ensures StripGitSuffix(base + ".git" + ".git") == base + ".git"
  {
    var url := base + ".git" + ".git";
    assert url[|url| - 4..] == ".git";
    assert url[..|url| - 4] == base + ".git";
  }

  /** The failure report is left as it is. */
  lemma UnknownKept()
    ensures StripGitSuffix(Unknown) == Unknown
  {
    assert Unknown[|Unknown| - 4..] != ".git" by {
      assert Unknown[|Unknown| - 4] == 'n';
    }
  }

  /** A pattern with a character the string lacks does not occur in it. */
  lemma AbsentChar(pat: string, s: string, c: char)
    requires c in pat && c !in s
    ensures !Occurs(pat, s)
  {
    var k :| 0 <= k < |pat| && pat[k] == c;
    forall i | 0 <= i && i + |pat| <= |s|
      ensures !OccursAt(pat, s, i)
    {
      assert s[i..i + |pat|][k] == s[i + k];
    }
  }
}

/** `src/showyourwork/git.py`: the repository URL, slug and tag. */
module GitInfo {
  import opened Text
  import opened GitOutput

  const SshPrefix: string := "git@github.com:"
  const HttpsPrefix: string := "https://github.com/"

  /** `get_repo_url()`: the origin URL with one `.git` taken off, then every
      SSH prefix rewritten to the HTTPS one. */
  function RepoUrl(code: int, stdout: string): (url: string)
    ensures code != 0 ==> url == Unknown
    ensures code == 0 && '@' !in stdout ==> url == StripGitSuffix(Without(stdout, '\n'))
  {
    var stripped := StripGitSuffix(Callback(code, stdout));
    if code != 0 then
      UnknownKept();
      AbsentChar(SshPrefix, Unknown, '@');
      ReplaceAbsent(Unknown, SshPrefix, HttpsPrefix);
      Replace(stripped, SshPrefix, HttpsPrefix)
    else if '@' !in stdout then
      assert multiset(stripped)['@'] == 0 by {
        assert stripped <= Without(stdout, '\n');
        assert multiset(Without(stdout, '\n'))['@'] == 0;
        assert '@' !in Without(stdout, '\n');
      }
      AbsentChar(SshPrefix, stripped, '@');
      ReplaceAbsent(stripped, SshPrefix, HttpsPrefix);
      Replace(stripped, SshPrefix, HttpsPrefix)
    else
      Replace(stripped, SshPrefix, HttpsPrefix)
  }

  /** An SSH remote becomes the HTTPS address of the same repository. */
  lemma SshRemote(path: string)
    requires '\n' !in path && '@' !in path
    ensures RepoUrl(0, SshPrefix + path + ".git") == HttpsPrefix + path
  {
    var raw := SshPrefix + path + ".git";
    assert '\n' !in raw by {
      assert raw == SshPrefix + (path + ".git");
    }
    assert raw[|raw| - 4..] == ".git";
    assert StripGitSuffix(raw) == SshPrefix + path;
    ReplaceLeading(SshPrefix, path, HttpsPrefix);
    AbsentChar(SshPrefix, path, '@');
    ReplaceAbsent(path, SshPrefix, HttpsPrefix);
  }

  /** An HTTPS remote only loses its `.git`. */
  lemma HttpsRemote(path: string)
    requires '\n' !in path && '@' !in path
    ensures RepoUrl(0, HttpsPrefix + path + ".git") == HttpsPrefix + path
  {
    var raw := HttpsPrefix + path + ".git";
    assert '\n' !in raw by {
      assert raw == HttpsPrefix + (path + ".git");
    }
    assert raw[|raw| - 4..] == ".git";
    assert StripGitSuffix(raw) == HttpsPrefix + path;
    assert '@' !in HttpsPrefix + path;
    AbsentChar(SshPrefix, HttpsPrefix + path, '@');
    ReplaceAbsent(HttpsPrefix + path, SshPrefix, HttpsPrefix);
  }

  /** `"/".join(url.split("/")[-2:])`: the last two `/`-separated parts, or
      the whole string when it has at most one `/`. */
  function Slug(url: string): (slug: string)
    ensures EndsWith(url, slug)
    ensures '/' !in url ==> slug == url
    ensures |Split(url, '/')| <= 2 ==> slug == url
    ensures |Split(slug, '/')| <= 2
  {
    var parts := Split(url, '/');
    var k := if |parts| >= 2 then |parts| - 2 else 0;
    JoinSplit(url, '/');
    JoinTailIsSuffix(parts, k, '/');
    SplitJoin(parts[k..], '/');
    SlashFree(url);
    Join(parts[k..], '/')
  }

  lemma SlashFree(url: string)
    ensures '/' !in url ==> Split(url, '/') == [url]
  {
    if '/' !in url {
      SplitNoSep(url, '/');
    }
  }

  /** The slug of `<anything>/<owner>/<name>` is `<owner>/<name>`. */
  lemma SlugOfPath(base: string, owner: string, name: string)
    requires '/' !in owner && '/' !in name
    ensures Slug(base + "/" + owner + "/" + name) == owner + "/" + name
  {
    SplitNoSep(owner, '/');
    SplitNoSep(name, '/');
    SplitAppend(owner, name, '/');
    SplitAppend(base, owner + "/" + name, '/');
    assert base + "/" + owner + "/" + name == base + ['/'] + (owner + ['/'] + name);
    var parts := Split(base, '/') + [owner, name];
    assert Split(base + "/" + owner + "/" + name, '/') == parts;
    assert parts[|parts| - 2..] == [owner, name];
    assert Join([owner, name], '/') == owner + "/" + name;
  }

  /** `get_repo_slug()` */
  function RepoSlug(code: int, stdout: string): (slug: string)
    ensures code != 0 ==> slug == Unknown
    ensures EndsWith(RepoUrl(code, stdout), slug)
  {
    var url := RepoUrl(code, stdout);
    if code != 0 then
      assert '/' !in Unknown;
      Slug(url)
    else
      Slug(url)
  }

  /** The slug of an SSH remote is `<owner>/<name>`. */
  lemma SshSlug(owner: string, name: string)
    requires '\n' !in owner && '@' !in owner && '/' !in owner
    requires '\n' !in name && '@' !in name && '/' !in name
    ensures RepoSlug(0, SshPrefix + owner + "/" + name + ".git") == owner + "/" + name
  {
    var path := owner + "/" + name;
    assert SshPrefix + owner + "/" + name + ".git" == SshPrefix + path + ".git";
    SshSlugUrl(path);
    HttpsSlug(owner, name);
  }

  /** The slug of an SSH remote is the slug of its HTTPS address. */
  lemma SshSlugUrl(path: string)
    requires '\n' !in path && '@' !in path
    ensures RepoSlug(0, SshPrefix + path + ".git") == Slug(HttpsPrefix + path)
  {
    SshRemote(path);
  }

  /** The slug of a GitHub HTTPS address is its owner and name. */
  lemma HttpsSlug(owner: string, name: string)
    requires '/' !in owner && '/' !in name
    ensures Slug(HttpsPrefix + (owner + "/" + name)) == owner + "/" + name
  {
    SlugOfPath("https://github.com", owner, name);
    assert HttpsPrefix + (owner + "/" + name) == "https://github.com" + "/" + owner + "/" + name;
  }

  /** `strip()` leaves the failure report alone. */
  lemma StripUnknown()
    ensures Strip(Unknown) == Unknown
  {
    assert !IsSpace(Unknown[0]) && !IsSpace(Unknown[|Unknown| - 1]);
  }

  /** `get_repo_tag()`: the stripped output, with `"unknown"` reported as
      no tag. */
  function RepoTag(code: int, stdout: string): (tag: string)
    ensures tag != Unknown
    ensures code != 0 ==> tag == ""
    ensures code == 0 && Strip(Without(stdout, '\n')) == Unknown ==> tag == ""
    ensures code == 0 && Strip(Without(stdout, '\n')) != Unknown ==> tag == Strip(Without(stdout, '\n'))
  {
    StripUnknown();
    var t := Strip(Callback(code, stdout));
    if t == Unknown then "" else t
  }

  /** A failed lookup and a tag that is literally named `unknown`, as git
      prints it with its newline or without, all read as no tag. */
  lemma UnknownTagIsNoTag(code: int, stdout: string)
    requires code != 0
    ensures RepoTag(0, Unknown) == RepoTag(0, Unknown + "\n") == RepoTag(code, stdout) == ""
  {
    assert '\n' !in Unknown;
    UnknownLine();
    StripUnknown();
  }

  /** git's own line `unknown\n` comes out of the callback as `unknown`. */
  lemma UnknownLine()
    ensures Callback(0, Unknown + "\n") == Unknown
  {
    var nl := "\n";
    WithoutAppend(Unknown, nl, '\n');
    assert Without(nl, '\n') == "" by {
      assert nl[0] == '\n' && nl[1..] == "";
    }
    assert Without(Unknown, '\n') == Unknown;
  }
}

/** `showyourwork/git.py`, the copy inside the workflow: the same callback,
    and a URL that only loses its `.git`. */
module LegacyGit {
  import opened Text
  import opened GitOutput

  /** `get_repo_url()`: the origin URL with one `.git` taken off. */
  function RepoUrl(code: int, stdout: string): (url: string)
    ensures url <= Callback(code, stdout)
    ensures code != 0 ==> url == Unknown
    ensures EndsWith(Callback(code, stdout), ".git") <==> |url| == |Callback(code, stdout)| - 4
    ensures !EndsWith(Callback(code, stdout), ".git") ==> url == Callback(code, stdout)
  {
    UnknownKept();
    StripGitSuffix(Callback(code, stdout))
  }
}
