/** The older pipeline of src/main.rs: search results for review requests
    are joined against local repositories found by a walk whose visitor asks
    `gh repo view` whether an entry is a GitHub repository. */
module Legacy {
  import opened Wrappers
  import opened Strings
  import opened Os
  import opened Walker
  import Git

  /** Rust's `u64`. */
  newtype u64 = x: int | 0 <= x < 0x1_0000_0000_0000_0000

  datatype GitRepo = GitRepo(owner: string, repo: string)

  /** A search result: the repository it belongs to and the PR number. */
  datatype ReviewRequest = ReviewRequest(repo: GitRepo, id: u64)

  /** The decoded `gh search prs --json "repository,number"` records. */
  datatype GHRepository = GHRepository(name: string, nameWithOwner: string)
  datatype GHReviewRequest = GHReviewRequest(number: u64, repository: GHRepository)

  datatype LocalReviewRequest = LocalReviewRequest(branch: string, path: string, repo: GitRepo)

  /** A GitHub repository found on disk. */
  datatype LocalRepo = LocalRepo(path: string, repo: GitRepo)

  /** A `nameWithOwner` value as `gh repo view` reports it, `owner/name`. */
  type NameWithOwner = s: string | '/' in s witness "/"

  /** `GitRepo::from(String)`: owner is the text before the first `/`, repo
      the text from there up to the next `/` or the end; anything after is
      dropped. Without a `/` the source's second `unwrap` panics. */
  function GitRepoFrom(value: string): (r: GitRepo)
    requires '/' in value
    ensures '/' !in r.owner && '/' !in r.repo
    ensures |r.owner| + 1 + |r.repo| <= |value|
    ensures value[..|r.owner|] == r.owner && value[|r.owner|] == '/'
    ensures value[|r.owner| + 1 .. |r.owner| + 1 + |r.repo|] == r.repo
    ensures |r.owner| + 1 + |r.repo| == |value| || value[|r.owner| + 1 + |r.repo|] == '/'
  {
    var k := IndexOf(value, '/').value;
    var rest := value[k + 1..];
    var repo := Before(rest, '/');
    assert value[k + 1 .. k + 1 + |repo|] == rest[..|repo|];
    GitRepo(value[..k], repo)
  }

  /** The inverse direction: `owner/repo`, optionally followed by `/...`,
      parses back to `owner` and `repo`. */
  lemma GitRepoFromJoined(owner: string, repo: string, tail: string)
    requires '/' !in owner && '/' !in repo
    requires tail == [] || tail[0] == '/'
    ensures '/' in owner + "/" + repo + tail
    ensures GitRepoFrom(owner + "/" + repo + tail) == GitRepo(owner, repo)
  {
    var s := owner + "/" + repo + tail;
    var o := |owner|;
    assert s[..o] == owner && s[o] == '/';
    assert s[o + 1..] == repo + tail;
    GitRepoFromFields(s, owner, repo);
  }

  /** `GitRepoFrom` gives back any owner and repo that sit in `value` the
      way it reads them. */
  lemma GitRepoFromFields(value: string, owner: string, repo: string)
    requires '/' !in owner && '/' !in repo
    requires |owner| < |value| && value[..|owner|] == owner && value[|owner|] == '/'
    requires var rest := value[|owner| + 1..];
      |repo| <= |rest| && rest[..|repo|] == repo && (|repo| == |rest| || rest[|repo|] == '/')
    ensures '/' in value
    ensures GitRepoFrom(value) == GitRepo(owner, repo)
  {
    var o := |owner|;
    assert value[o] in value;
    var r := GitRepoFrom(value);
    SeparatedPrefixUnique(value, '/', owner, r.owner);
    var rest := value[o + 1..];
    var n := |r.repo|;
    assert rest[..n] == value[o + 1 .. o + 1 + n];
    SeparatedPrefixUnique(rest, '/', repo, r.repo);
  }

  /** A prefix of `x` free of `c` and followed by `c` or the end of `x` is
      unique. */
  lemma SeparatedPrefixUnique(x: string, c: char, p: string, q: string)
    requires c !in p && |p| <= |x| && x[..|p|] == p && (|p| == |x| || x[|p|] == c)
    requires c !in q && |q| <= |x| && x[..|q|] == q && (|q| == |x| || x[|q|] == c)
    ensures p == q
  {
    assert forall j :: 0 <= j < |p| ==> x[j] == p[j];
    assert forall j :: 0 <= j < |q| ==> x[j] == q[j];
  }

  /** `ReviewRequest::from` (owned and borrowed alike): the PR number becomes
      the id and `nameWithOwner` is parsed. */
  function ReviewRequestFrom(g: GHReviewRequest): (r: ReviewRequest)
    requires '/' in g.repository.nameWithOwner
    ensures r.id == g.number
    ensures r.repo == GitRepoFrom(g.repository.nameWithOwner)
  {
    ReviewRequest(GitRepoFrom(g.repository.nameWithOwner), g.number)
  }

  /** The index of the first repository in `repos` whose `GitRepo` is `r`,
      as the join's linear search finds it. */
  function FindRepo(repos: seq<LocalRepo>, r: GitRepo): (k: Option<nat>)
    ensures k.Some? ==> k.value < |repos| && repos[k.value].repo == r
    ensures k.Some? ==> forall j :: 0 <= j < k.value ==> repos[j].repo != r
    ensures k.None? ==> forall j :: 0 <= j < |repos| ==> repos[j].repo != r
  {
    if repos == [] then None
    else if repos[0].repo == r then Some(0)
    else match FindRepo(repos[1..], r)
      case None => None
      case Some(k) => Some(k + 1)
  }

  /** `k` is the position of the first repository matching `r`. */
  ghost predicate FirstMatch(repos: seq<LocalRepo>, r: GitRepo, k: nat) {
    k < |repos| && repos[k].repo == r && forall j :: 0 <= j < k ==> repos[j].repo != r
  }

  /** `FindRepo` returns exactly the first match. */
  lemma FindRepoIsFirstMatch(repos: seq<LocalRepo>, r: GitRepo)
    ensures forall k: nat :: FirstMatch(repos, r, k) <==> FindRepo(repos, r) == Some(k)
  {
  }

  /** What the join makes of one request: the first matching local
      repository's path and repo with the branch `branchOf` looks up there,
      or nothing when no repository matches or the lookup fails. */
  function JoinOne(req: ReviewRequest, repos: seq<LocalRepo>, branchOf: (u64, string) -> Option<string>)
    : (r: seq<LocalReviewRequest>)
    ensures |r| <= 1
    ensures (forall j :: 0 <= j < |repos| ==> repos[j].repo != req.repo) ==> r == []
    ensures forall k: nat :: FirstMatch(repos, req.repo, k) ==>
      (r == [] <==> branchOf(req.id, repos[k].path).None?)
    ensures forall k: nat :: FirstMatch(repos, req.repo, k) && r != [] ==>
      r[0] == LocalReviewRequest(branchOf(req.id, repos[k].path).value, repos[k].path, repos[k].repo)
  {
    FindRepoIsFirstMatch(repos, req.repo);
    match FindRepo(repos, req.repo)
    case None => []
    case Some(k) =>
      match branchOf(req.id, repos[k].path)
      case None => []
      case Some(branch) => [LocalReviewRequest(branch, repos[k].path, repos[k].repo)]
  }

  /** The join of `get_local_repos_with_review_requests`. */
  function Join(reqs: seq<ReviewRequest>, repos: seq<LocalRepo>, branchOf: (u64, string) -> Option<string>)
    : (r: seq<LocalReviewRequest>)
    ensures |r| <= |reqs|
    ensures forall x :: x in r ==> exists k :: 0 <= k < |repos| && x.path == repos[k].path && x.repo == repos[k].repo
    ensures forall x :: x in r ==> exists i :: 0 <= i < |reqs| && x.repo == reqs[i].repo
  {
    if reqs == [] then []
    else
      var one := JoinOne(reqs[0], repos, branchOf);
      var rest := Join(reqs[1..], repos, branchOf);
      assert forall x :: x in one ==> x.repo == reqs[0].repo;
      assert forall x :: x in rest ==> exists i :: 0 <= i < |reqs| && x.repo == reqs[i].repo by {
        forall x | x in rest ensures exists i :: 0 <= i < |reqs| && x.repo == reqs[i].repo {
          var i :| 0 <= i < |reqs[1..]| && x.repo == reqs[1..][i].repo;
          assert x.repo == reqs[i + 1].repo;
        }
      }
      one + rest
  }

  /** The join maps requests independently and keeps their order. */
  lemma {:induction false} JoinAppend(xs: seq<ReviewRequest>, ys: seq<ReviewRequest>, repos: seq<LocalRepo>,
                                      branchOf: (u64, string) -> Option<string>)
    ensures Join(xs + ys, repos, branchOf) == Join(xs, repos, branchOf) + Join(ys, repos, branchOf)
    decreases |xs|
  {
    if xs == [] {
      assert xs + ys == ys;
    } else {
      assert (xs + ys)[1..] == xs[1..] + ys;
      JoinAppend(xs[1..], ys, repos, branchOf);
    }
  }

  /** The command lines of `is_github_repo` and `build_local_repo`. */
  function RepoViewCommand(pathText: string): string {
    "cd " + pathText + " && gh repo view"
  }

  function RepoViewJsonCommand(pathText: string): string {
    "cd " + pathText + " && gh repo view --json \"nameWithOwner\""
  }

  /** `is_github_repo`: `gh repo view` exited with code 0. */
  function IsGithubRepo(path: FsPath, shell: Shell): (b: bool)
    ensures var sp := shell(RepoViewCommand(PathText(path, "~")));
      b <==> sp.Spawned? && sp.output.code == Some(0)
  {
    match shell(RepoViewCommand(PathText(path, "~")))
    case SpawnFailed(_) => false
    case Spawned(o) => o.code == Some(0)
  }

  /** `build_local_repo`: decode `nameWithOwner` from the JSON output
      (whatever the exit status) and pair it with the path text. */
  function BuildLocalRepo(path: FsPath, shell: Shell, decodeView: string -> Option<NameWithOwner>)
    : (r: Result<LocalRepo, Git.AnyError>)
    ensures var sp := shell(RepoViewJsonCommand(PathText(path, "~")));
      && (r.Ok? <==> sp.Spawned? && sp.output.stdout.Some? && decodeView(sp.output.stdout.value).Some?)
      && (r.Ok? ==>
            r.value.path == PathText(path, "~") &&
            r.value.repo == GitRepoFrom(decodeView(sp.output.stdout.value).value))
  {
    match shell(RepoViewJsonCommand(PathText(path, "~")))
    case SpawnFailed(reason) => Err(Git.SpawnError(reason))
    case Spawned(o) =>
      match o.stdout
      case None => Err(Git.Utf8Error)
      case Some(out) =>
        match decodeView(out)
        case None => Err(Git.JsonError)
        case Some(nwo) => Ok(LocalRepo(PathText(path, "~"), GitRepoFrom(nwo)))
  }

  /** The exit status of `gh repo view --json` plays no part. */
  lemma BuildLocalRepoIgnoresExitCode(path: FsPath, shell: Shell, decodeView: string -> Option<NameWithOwner>,
                                      code: Option<int>)
    ensures var cmd := RepoViewJsonCommand(PathText(path, "~"));
      var sp := shell(cmd);
      sp.Spawned? ==>
        BuildLocalRepo(path, shell, decodeView)
          == BuildLocalRepo(path, (c: string) => if c == cmd then Spawned(sp.output.(code := code)) else shell(c), decodeView)
  {
  }

  /** The visitor closure of `find_repos`. */
  function FindReposVisit(shell: Shell, decodeView: string -> Option<NameWithOwner>, entry: WalkEntry)
    : (v: Visited<LocalRepo>)
    ensures |v.emitted| <= 1
    ensures entry.EntryError? ==> v == Visited([], Continue)
    ensures entry.Entry? ==> (v.state == Skip <==> IsGithubRepo(entry.path, shell))
    ensures entry.Entry? && IsGithubRepo(entry.path, shell) ==>
      (var built := BuildLocalRepo(entry.path, shell, decodeView);
       (built.Ok? ==> v.emitted == [built.value]) && (built.Err? ==> v.emitted == []))
    ensures v.emitted != [] ==> v.state == Skip
  {
    if entry.EntryError? then Visited([], Continue)
    else if IsGithubRepo(entry.path, shell) then
      match BuildLocalRepo(entry.path, shell, decodeView)
      case Ok(repo) => Visited([repo], Skip)
      case Err(_) => Visited([], Skip)
    else Visited([], Continue)
  }

  function LegacyVisitor(shell: Shell, decodeView: string -> Option<NameWithOwner>): Visitor<LocalRepo> {
    (e: WalkEntry) => FindReposVisit(shell, decodeView, e)
  }

  /** `find_repos`: the walk from the home directory, collected through the
      channel in the arrival order `schedule`. */
  method FindRepos(shell: Shell, decodeView: string -> Option<NameWithOwner>, home: Tree, schedule: seq<nat>)
    returns (repos: seq<LocalRepo>)
    ensures multiset(repos) == multiset(Walk(LegacyVisitor(shell, decodeView), home).outputs)
  {
    repos := WalkAndCollect(LegacyVisitor(shell, decodeView), home, schedule);
  }

  /** Each found repository sits at a reached entry that `gh repo view`
      accepted, is the repository built there, and nothing below it was
      visited. */
  lemma FoundReposAreGithubRepos(shell: Shell, decodeView: string -> Option<NameWithOwner>, home: Tree,
                                 r: LocalRepo)
    requires r in Walk(LegacyVisitor(shell, decodeView), home).outputs
    ensures exists a :: (Reached(LegacyVisitor(shell, decodeView), home, a) && NodeAt(home, a).Some? &&
      NodeAt(home, a).value.entry.Entry? && IsGithubRepo(NodeAt(home, a).value.entry.path, shell) &&
      BuildLocalRepo(NodeAt(home, a).value.entry.path, shell, decodeView) == Ok(r) &&
      forall c: seq<nat> :: |c| > 0 ==> a + c !in Walk(LegacyVisitor(shell, decodeView), home).visits)
  {
    var v := LegacyVisitor(shell, decodeView);
    WalkOutputOrigin(v, home, r);
    var a :| Reached(v, home, a) && r in EmittedAt(v, home, a);
    var e := NodeAt(home, a).value.entry;
    assert r in FindReposVisit(shell, decodeView, e).emitted;
    forall c: seq<nat> | |c| > 0
      ensures a + c !in Walk(v, home).visits
    {
      WalkSkipHides(v, home, a, c);
    }
  }
}
