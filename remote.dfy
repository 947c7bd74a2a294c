/** The dashboard's reading of a git remote URL as a GitHub owner and
    repository (`GitHubDashboard.parse_owner_repo_from_remote` and the guard
    at the top of `GitHubDashboard.refresh`). */
module Remote {
  import opened PyText

  datatype RemoteId = RemoteId(owner: string, repo: string)

  /** The text the parser splits on `/`, or None when the URL has neither
      shape it knows. A URL that contains `:` and ends in `.git` gives the
      text after the first `:` without the suffix; otherwise one that
      contains `.com/` gives the text after the first `.com/` with every
      `.git` deleted. */
  function RepoPath(remote: string): Option<string> {
    if Contains(remote, ":") && EndsWith(remote, ".git") then
      Some(DropLast(AfterFirst(remote, ":"), 4))
    else if Contains(remote, ".com/") then
      Some(RemoveAll(AfterFirst(remote, ".com/"), ".git"))
    else
      None
  }

  /** `parse_owner_repo_from_remote`: the last two `/`-separated segments of
      the repository path. Only the two URL shapes can match; a path
      without `/` does not match either; the owner and repository are
      single segments and the path ends with `owner/repo`. */
  function ParseOwnerRepo(remote: string): (r: Option<RemoteId>)
    ensures r.Some? ==>
      (Contains(remote, ":") && EndsWith(remote, ".git")) || Contains(remote, ".com/")
    ensures r.Some? <==> RepoPath(remote).Some? && '/' in RepoPath(remote).value
    ensures r.Some? ==>
      '/' !in r.value.owner && '/' !in r.value.repo
      && EndsWith(RepoPath(remote).value, r.value.owner + "/" + r.value.repo)
    ensures r.Some? ==>
      RepoPath(remote).value == r.value.owner + "/" + r.value.repo
      || EndsWith(RepoPath(remote).value, "/" + r.value.owner + "/" + r.value.repo)
  {
    match RepoPath(remote)
    case None => None
    case Some(path) =>
      var parts := Split(path, '/');
      if |parts| >= 2 then
        JoinSplit(path, '/');
        JoinEndsWithLastTwo(parts, "/");
        JoinEndsWithWholeLastTwo(parts, "/");
        Some(RemoteId(parts[|parts| - 2], parts[|parts| - 1]))
      else
        None
  }

  /** A repository path of the form `OWNER/REPO` is read as exactly that. */
  lemma {:induction false} PathParses(remote: string, owner: string, repo: string)
    requires '/' !in owner && '/' !in repo
    requires RepoPath(remote) == Some(owner + "/" + repo)
    ensures ParseOwnerRepo(remote) == Some(RemoteId(owner, repo))
  {
    SplitConcat(owner, repo, '/');
    SplitNoSep(owner, '/');
    SplitNoSep(repo, '/');
  }

  /** The first rule on a URL `BEFORE:REST` with no `:` in BEFORE and REST
      ending in `.git`: the path is REST without the suffix. */
  lemma ColonRule(remote: string, before: string, rest: string)
    requires ':' !in before && EndsWith(rest, ".git")
    requires remote == before + ":" + rest
    ensures RepoPath(remote) == Some(rest[..|rest| - 4])
  {
    assert remote == before + (":" + rest);
    FindPast(before, ":" + rest, ":");
    FindAtStart(rest, ":");
    assert AfterFirst(remote, ":") == rest;
    assert remote[|remote| - 4..] == rest[|rest| - 4..];
  }

  /** The second rule on a URL `BEFORE.com/REST` that the first rule does
      not take, where this `.com/` is the first one: the path is REST with
      every `.git` deleted. */
  lemma ComRule(remote: string, before: string, rest: string)
    requires !Contains(before + ".com", ".com/")
    requires remote == before + ".com/" + rest
    requires !(Contains(remote, ":") && EndsWith(remote, ".git"))
    ensures RepoPath(remote) == Some(RemoveAll(rest, ".git"))
  {
    assert ".com/"[..4] == ".com";
    FindFirstAt(before, ".com/", rest);
    assert AfterFirst(remote, ".com/") == rest;
  }

  /** A host part without `.` has no `.com/` before the one that follows
      it. */
  lemma NoEarlierCom(before: string)
    requires '.' !in before
    ensures !Contains(before + ".com", ".com/")
  {
    var s := before + ".com";
    forall i | 0 <= i ensures !OccursAt(s, ".com/", i) {
      if i < |before| && i + 5 <= |s| {
        assert s[i..i + 5][0] == before[i];
      }
    }
    ContainsIff(s, ".com/");
  }

  /** An scp-style remote `user@host:OWNER/REPO.git` names exactly OWNER
      and REPO. */
  lemma ScpRemoteParses(userHost: string, owner: string, repo: string)
    requires ':' !in userHost && '/' !in owner && '/' !in repo
    ensures ParseOwnerRepo(userHost + ":" + owner + "/" + repo + ".git")
         == Some(RemoteId(owner, repo))
  {
    var rest := owner + "/" + repo + ".git";
    ColonRule(userHost + ":" + owner + "/" + repo + ".git", userHost, rest);
    assert rest[..|rest| - 4] == owner + "/" + repo;
    PathParses(userHost + ":" + owner + "/" + repo + ".git", owner, repo);
  }

  /** An HTTPS remote `https://HOST/OWNER/REPO.git` names exactly OWNER and
      REPO, whatever the host part holds. It is read by the first rule
      (it contains the `:` of the scheme and ends in `.git`). */
  lemma HttpsRemoteParses(host: string, owner: string, repo: string)
    requires '/' !in owner && '/' !in repo
    ensures RepoPath("https://" + host + "/" + owner + "/" + repo + ".git")
         == Some("//" + host + "/" + owner + "/" + repo)
    ensures ParseOwnerRepo("https://" + host + "/" + owner + "/" + repo + ".git")
         == Some(RemoteId(owner, repo))
  {
    var front := "//" + host;
    var path := front + "/" + owner + "/" + repo;
    var remote := "https://" + host + "/" + owner + "/" + repo + ".git";
    assert remote == "https" + ":" + (path + ".git");
    ColonRule(remote, "https", path + ".git");
    assert (path + ".git")[..|path + ".git"| - 4] == path;
    SplitLastTwo(front, owner, repo);
  }

  lemma SplitLastTwo(front: string, owner: string, repo: string)
    requires '/' !in owner && '/' !in repo
    ensures Split(front + "/" + owner + "/" + repo, '/') == Split(front, '/') + [owner, repo]
  {
    SplitConcat(front + "/" + owner, repo, '/');
    SplitConcat(front, owner, '/');
    SplitNoSep(owner, '/');
    SplitNoSep(repo, '/');
  }

  /** A GitHub HTTPS remote without the `.git` suffix,
      `https://github.com/OWNER/REPO`, names OWNER and REPO when `.git`
      occurs nowhere in `OWNER/REPO`. It is read by the `.com/` rule. */
  lemma GitHubPlainRemoteParses(owner: string, repo: string)
    requires '/' !in owner && '/' !in repo
    requires !Contains(owner + "/" + repo, ".git")
    ensures ParseOwnerRepo("https://github.com/" + owner + "/" + repo)
         == Some(RemoteId(owner, repo))
  {
    var tail := owner + "/" + repo;
    var remote := "https://github.com/" + owner + "/" + repo;
    assert remote == "https://github.com/" + tail;
    NotEndsWithGit(tail);
    assert remote == "https://github" + ".com/" + tail;
    NoEarlierCom("https://github");
    ComRule(remote, "https://github", tail);
    RemoveAllAbsent(tail, ".git");
    PathParses(remote, owner, repo);
  }

  lemma NotEndsWithGit(tail: string)
    requires tail != [] && !Contains(tail, ".git")
    ensures !EndsWith("https://github.com/" + tail, ".git")
  {
    var remote := "https://github.com/" + tail;
    if |tail| >= 4 {
      if EndsWith(remote, ".git") {
        assert tail[|tail| - 4..] == remote[|remote| - 4..];
        assert OccursAt(tail, ".git", |tail| - 4);
        ContainsIff(tail, ".git");
      }
    } else {
      assert remote[|remote| - 4] != '.';
    }
  }

  /** The `.com/` rule deletes every `.git`, not just a suffix: a GitHub
      remote given without the `.git` suffix whose repository name holds
      `.git` loses it from the name. For the GitHub Pages repository
      `https://github.com/octo/octo.github.io` (owner `octo`, name `octo`,
      rest `hub.io`) the repository is read as `octohub.io`. */
  lemma InnerDotGitDeleted(owner: string, name: string, rest: string)
    requires '/' !in owner && '/' !in name && '/' !in rest
    requires '.' !in owner && '.' !in name
    requires |rest| >= 4 && !Contains(rest, ".git")
    ensures ParseOwnerRepo("https://github.com/" + owner + "/" + name + ".git" + rest)
         == Some(RemoteId(owner, name + rest))
  {
    InnerDotGitPath(owner, name, rest);
    assert owner + "/" + name + rest == owner + "/" + (name + rest);
    PathParses("https://github.com/" + owner + "/" + name + ".git" + rest, owner, name + rest);
  }

  lemma InnerDotGitPath(owner: string, name: string, rest: string)
    requires '.' !in owner && '.' !in name && '/' !in owner
    requires |rest| >= 4 && !Contains(rest, ".git")
    ensures RepoPath("https://github.com/" + owner + "/" + name + ".git" + rest)
         == Some(owner + "/" + name + rest)
  {
    var front := owner + "/" + name;
    GitHubUrl(front, owner, name, rest);
    ComRuleInner("https://github.com/" + owner + "/" + name + ".git" + rest, "https://github", front, rest);
  }

  lemma GitHubUrl(front: string, owner: string, name: string, rest: string)
    requires front == owner + "/" + name
    requires '.' !in owner && '.' !in name
    ensures '.' !in "https://github" && '.' !in front
    ensures "https://github.com/" + owner + "/" + name + ".git" + rest
         == "https://github" + ".com/" + (front + ".git" + rest)
  {
    assert "https://github.com/" == "https://github" + ".com/";
  }

  /** The `.com/` rule on `BEFORE.com/FRONT.gitREST` with no `.` before the
      `.git` and no `.git` in REST. */
  lemma ComRuleInner(remote: string, before: string, front: string, rest: string)
    requires '.' !in before && '.' !in front
    requires |rest| >= 4 && !Contains(rest, ".git")
    requires remote == before + ".com/" + (front + ".git" + rest)
    ensures RepoPath(remote) == Some(front + rest)
  {
    NoSuffixWhenRestClean(remote, rest);
    NoEarlierCom(before);
    ComRule(remote, before, front + ".git" + rest);
    InnerRemoved(front, rest);
  }

  lemma NoSuffixWhenRestClean(remote: string, rest: string)
    requires |rest| >= 4 && !Contains(rest, ".git")
    requires EndsWith(remote, rest)
    ensures !EndsWith(remote, ".git")
  {
    if EndsWith(remote, ".git") {
      assert rest[|rest| - 4..] == remote[|remote| - 4..];
      assert OccursAt(rest, ".git", |rest| - 4);
      ContainsIff(rest, ".git");
    }
  }

  lemma InnerRemoved(front: string, rest: string)
    requires '.' !in front && !Contains(rest, ".git")
    ensures RemoveAll(front + ".git" + rest, ".git") == front + rest
  {
    assert front + ".git" + rest == front + (".git" + rest);
    RemoveAllPast(front, ".git" + rest, ".git");
    RemoveAllAtStart(rest, ".git");
    RemoveAllAbsent(rest, ".git");
  }

  /** What `refresh` does with the project and its remote before any
      request: it needs both, and an owner and repository that are both
      non-empty. */
  datatype Target = NeedsProject | Unparsable | Repository(owner: string, repo: string)

  /** The guard at the top of `refresh`. A repository it accepts is one the
      parser found, with both names non-empty single path segments. */
  function DashboardTarget(projectDir: string, remote: string): (t: Target)
    ensures t.NeedsProject? <==> projectDir == [] || remote == []
    ensures !t.NeedsProject? ==>
      (t.Repository? <==>
        ParseOwnerRepo(remote).Some?
        && ParseOwnerRepo(remote).value.owner != [] && ParseOwnerRepo(remote).value.repo != [])
    ensures t.Repository? ==>
      ParseOwnerRepo(remote) == Some(RemoteId(t.owner, t.repo))
      && t.owner != [] && t.repo != [] && '/' !in t.owner && '/' !in t.repo
  {
    if projectDir == [] || remote == [] then NeedsProject
    else
      match ParseOwnerRepo(remote)
      case Some(id) => if id.owner != [] && id.repo != [] then Repository(id.owner, id.repo) else Unparsable
      case None => Unparsable
  }

  /** A selected project whose remote is an scp-style URL with non-empty
      names reaches the API with exactly those names. */
  lemma ScpRemoteTargets(projectDir: string, userHost: string, owner: string, repo: string)
    requires projectDir != []
    requires ':' !in userHost && '/' !in owner && '/' !in repo
    requires owner != [] && repo != []
    ensures DashboardTarget(projectDir, userHost + ":" + owner + "/" + repo + ".git")
         == Repository(owner, repo)
  {
    ScpRemoteParses(userHost, owner, repo);
  }

  /** A remote whose repository segment is empty (`host:owner/.git`) parses
      but is refused before any request. */
  lemma EmptyRepoRefused(projectDir: string, userHost: string, owner: string)
    requires projectDir != []
    requires ':' !in userHost && '/' !in owner
    ensures DashboardTarget(projectDir, userHost + ":" + owner + "/" + ".git") == Unparsable
  {
    assert userHost + ":" + owner + "/" + ".git" == userHost + ":" + owner + "/" + "" + ".git";
    ScpRemoteParses(userHost, owner, "");
  }

  /** The placeholder `None set` that the folder selection shows when there
      is no remote is refused as unparsable. */
  lemma PlaceholderRemoteRefused(projectDir: string)
    requires projectDir != []
    ensures DashboardTarget(projectDir, "None set") == Unparsable
  {
    FindPast("None set", [], ":");
    FindPast("None set", [], ".com/");
    assert "None set" + [] == "None set";
  }
}
