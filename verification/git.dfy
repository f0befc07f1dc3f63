/** The `gh` query adapter of src/git.rs: the repository and request records,
    the records `gh pr list --json` decodes into, the error taxonomy with its
    exact-literal stderr classifier, and `build_local_review_requests`. */
module Git {
  import opened Wrappers
  import opened Os

  /** A hosted repository, identified by owner and name. */
  datatype GitRepo = GitRepo(owner: string, repo: string)

  /** One pull request awaiting review, tied to the local clone at `path`. */
  datatype LocalReviewRequest = LocalReviewRequest(branch: string, path: string, repo: GitRepo, title: string)

  /** The default repository: owner and name both empty. */
  function DefaultGitRepo(): (r: GitRepo)
    ensures r.owner == [] && r.repo == []
  {
    GitRepo("", "")
  }

  /** The default local request: every field empty. */
  function DefaultLocalReviewRequest(): (r: LocalReviewRequest)
    ensures r.branch == [] && r.path == [] && r.title == []
    ensures r.repo.owner == [] && r.repo.repo == []
  {
    LocalReviewRequest("", "", DefaultGitRepo(), "")
  }

  /** The decoded `headRepositoryOwner`, `headRepository` and whole entry of
      one element of the `gh pr list --json` array. */
  datatype GHRepoOwner = GHRepoOwner(id: string, login: string)
  datatype GHPRRepo = GHPRRepo(id: string, name: string)
  datatype GHPullRequest = GHPullRequest(
    headRefName: string,
    headRepositoryOwner: GHRepoOwner,
    headRepository: GHPRRepo,
    title: string)

  /** `GitRepo::from` a pull request. The owned and the borrowed impls compute
      the same value; Dafny values have no ownership, so one function serves. */
  function RepoOfPullRequest(pr: GHPullRequest): (r: GitRepo)
    ensures r.owner == pr.headRepositoryOwner.login
    ensures r.repo == pr.headRepository.name
  {
    GitRepo(pr.headRepositoryOwner.login, pr.headRepository.name)
  }

  /** `GHPullRequest::to_local_review_request`. */
  function ToLocalReviewRequest(pr: GHPullRequest, path: FsPath): (r: LocalReviewRequest)
    ensures r.branch == pr.headRefName && r.title == pr.title
    ensures r.repo.owner == pr.headRepositoryOwner.login && r.repo.repo == pr.headRepository.name
    ensures r.path == PathText(path, "")
  {
    LocalReviewRequest(pr.headRefName, PathText(path, ""), RepoOfPullRequest(pr), pr.title)
  }

  /** The `id` fields of the owner and repository records do not influence
      the converted request. */
  lemma ToLocalReviewRequestIgnoresIds(pr: GHPullRequest, ownerId: string, repoId: string, path: FsPath)
    ensures ToLocalReviewRequest(pr, path) == ToLocalReviewRequest(
      pr.(headRepositoryOwner := pr.headRepositoryOwner.(id := ownerId),
          headRepository := pr.headRepository.(id := repoId)), path)
  {
  }

  /** The conversion of the whole decoded list, element by element. */
  function ToLocalReviewRequests(prs: seq<GHPullRequest>, path: FsPath): (r: seq<LocalReviewRequest>)
    ensures |r| == |prs|
    ensures forall i :: 0 <= i < |prs| ==> r[i] == ToLocalReviewRequest(prs[i], path)
    ensures forall i :: 0 <= i < |r| ==> r[i].path == PathText(path, "")
  {
    if prs == [] then []
    else [ToLocalReviewRequest(prs[0], path)] + ToLocalReviewRequests(prs[1..], path)
  }

  /** `BuildReviewRequestErrors`. */
  datatype BuildReviewRequestErrors =
    | NotGitRepoError
    | NotAGitHubRepoError
    | LocalGitRepoError
    | UnknownGithubCliError(message: string)

  /** The three `gh` error messages the adapter recognises, byte for byte. */
  const NoRemotesMessage: string := "no git remotes found\n"
  const NotGitRepoMessage: string :=
    "failed to run git: fatal: not a git repository (or any of the parent directories): .git\n\n"
  const UnknownHostMessage: string :=
    "none of the git remotes configured for this repository point to a known GitHub host. To tell gh about a new GitHub host, please use `gh auth login`\n"

  /** The three recognised messages are pairwise different, so no message
      belongs to two variants. */
  lemma KnownMessagesDistinct()
    ensures NoRemotesMessage != NotGitRepoMessage
    ensures NoRemotesMessage != UnknownHostMessage
    ensures NotGitRepoMessage != UnknownHostMessage
  {
  }

  predicate IsKnownMessage(err: string) {
    err == NoRemotesMessage || err == NotGitRepoMessage || err == UnknownHostMessage
  }

  /** The stderr classification of `build_local_review_requests`: an exact
      match against each recognised message, falling through to
      `UnknownGithubCliError` carrying the text unchanged. */
  function ClassifyStderr(err: string): (r: BuildReviewRequestErrors)
    ensures r == LocalGitRepoError <==> err == NoRemotesMessage
    ensures r == NotGitRepoError <==> err == NotGitRepoMessage
    ensures r == NotAGitHubRepoError <==> err == UnknownHostMessage
    ensures r.UnknownGithubCliError? <==> !IsKnownMessage(err)
    ensures r.UnknownGithubCliError? ==> r.message == err
  {
    KnownMessagesDistinct();
    if err == NoRemotesMessage then LocalGitRepoError
    else if err == NotGitRepoMessage then NotGitRepoError
    else if err == UnknownHostMessage then NotAGitHubRepoError
    else UnknownGithubCliError(err)
  }

  /** The stderr text that gives rise to each error value: the inverse of
      `ClassifyStderr`. */
  function MessageOf(e: BuildReviewRequestErrors): string {
    match e
    case LocalGitRepoError => NoRemotesMessage
    case NotGitRepoError => NotGitRepoMessage
    case NotAGitHubRepoError => UnknownHostMessage
    case UnknownGithubCliError(m) => m
  }

  /** Classifying the message of an error gives that error back, unless it is
      an unknown error whose text happens to be a recognised message. */
  lemma ClassifyMessageOf(e: BuildReviewRequestErrors)
    requires e.UnknownGithubCliError? ==> !IsKnownMessage(e.message)
    ensures ClassifyStderr(MessageOf(e)) == e
  {
  }

  /** Every message is the message of its own classification. */
  lemma MessageOfClassify(err: string)
    ensures MessageOf(ClassifyStderr(err)) == err
  {
  }

  /** The dynamic error behind an `anyhow::Error` in this program: a spawn
      (I/O) failure, invalid UTF-8 output, a JSON decoding failure, or one of
      the classified adapter errors. */
  datatype AnyError =
    | SpawnError(reason: string)
    | Utf8Error
    | JsonError
    | Classified(kind: BuildReviewRequestErrors)

  /** Recovering the adapter's own error type from a dynamic error: present
      only for the classified errors. */
  function Downcast(e: AnyError): Option<BuildReviewRequestErrors> {
    match e
    case Classified(k) => Some(k)
    case _ => None
  }

  /** What follows the path in the adapter's command line. */
  const GhPrListTail: string :=
    " && gh pr list -S \"user-review-requested:@me\" --json \"headRefName,headRepository,headRepositoryOwner,title\""

  /** The shell command line the adapter runs for `pathText`. */
  function GhPrListCommand(pathText: string): string {
    "cd " + pathText + GhPrListTail
  }

  /** `build_local_review_requests`: run `gh pr list` in `path` (as text, with
      `~` standing in for a non-UTF-8 path), classify a failure from stderr,
      otherwise decode stdout with `decodePrs` and convert each entry. */
  function BuildLocalReviewRequests(path: FsPath, shell: Shell, decodePrs: string -> Option<seq<GHPullRequest>>)
    : (r: Result<seq<LocalReviewRequest>, AnyError>)
    ensures var sp := shell(GhPrListCommand(PathText(path, "~")));
      && (sp.SpawnFailed? ==> r == Err(SpawnError(sp.reason)))
      && (sp.Spawned? && !Success(sp.output) && sp.output.stderr.None? ==> r == Err(Utf8Error))
      && (sp.Spawned? && Success(sp.output) && sp.output.stdout.None? ==> r == Err(Utf8Error))
      && ((sp.Spawned? && Success(sp.output) && sp.output.stdout.Some?
             && decodePrs(sp.output.stdout.value).None?) ==> r == Err(JsonError))
      && (r.Err? && r.error.Classified? <==>
            sp.Spawned? && !Success(sp.output) && sp.output.stderr.Some?)
      && (r.Err? && r.error.Classified? ==> r.error.kind == ClassifyStderr(sp.output.stderr.value))
      && (r.Ok? <==> sp.Spawned? && Success(sp.output) && sp.output.stdout.Some?
                     && decodePrs(sp.output.stdout.value).Some?)
      && (r.Ok? ==> var prs := decodePrs(sp.output.stdout.value).value;
                    |r.value| == |prs|
                    && forall i :: 0 <= i < |prs| ==> r.value[i] == ToLocalReviewRequest(prs[i], path))
    // every request carries the path text, with "" standing in where the
    // command line used "~"
    ensures r.Ok? ==> forall i :: 0 <= i < |r.value| ==> r.value[i].path == PathText(path, "")
  {
    var sp := shell(GhPrListCommand(PathText(path, "~")));
    if sp.SpawnFailed? then Err(SpawnError(sp.reason))
    else if !Success(sp.output) then
      if sp.output.stderr.None? then Err(Utf8Error)
      else Err(Classified(ClassifyStderr(sp.output.stderr.value)))
    else if sp.output.stdout.None? then Err(Utf8Error)
    else
      var prs := decodePrs(sp.output.stdout.value);
      if prs.None? then Err(JsonError)
      else Ok(ToLocalReviewRequests(prs.value, path))
  }

  /** A successful exit never yields a classified error, whatever its
      streams hold. */
  lemma SuccessNeverClassified(path: FsPath, shell: Shell, decodePrs: string -> Option<seq<GHPullRequest>>)
    requires shell(GhPrListCommand(PathText(path, "~"))).Spawned?
    requires Success(shell(GhPrListCommand(PathText(path, "~"))).output)
    ensures var r := BuildLocalReviewRequests(path, shell, decodePrs);
      r.Err? ==> Downcast(r.error).None?
  {
  }
}
