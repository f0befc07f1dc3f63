# review-tree, modelled in Dafny

review-tree walks a directory tree looking for local clones of GitHub
repositories with pull requests that await the user's review. For each
request it can add a git worktree under `reviews/<branch>` and start a
detached tmux session. This project models the decision and transformation
logic of that pipeline and proves properties about it:

- **The `gh` query adapter** (`src/git.rs`). It runs `gh pr list` in a
  directory, classifies a failure by matching stderr exactly against three
  known messages, and converts the decoded pull-request records into
  `LocalReviewRequest`s (module `Git`).
- **The side effects** (`src/utils.rs`). This covers the worktree and tmux
  command lines, the session name (`Code_Review:_` followed by the title
  with spaces turned into `_`), and the Ok/Err contract of running them
  (module `Utils`).
- **The walk visitor of `find_review_requests`** (`src/core.rs`). For each
  entry it decides to continue or prune, and it dispatches the effects for
  every request it finds (module `Core`).
- **The parallel walk and its channel fan-in**. They are modelled as a
  sequential pre-order walk over a `Tree`, plus a drain of the producers'
  queues in an arbitrary arrival schedule (modules `Walker` and `Channel`).
  The collected list is proved to be a permutation of the sequential walk's
  outputs, whatever the schedule.
- **The older pipeline in `src/main.rs`** (module `Legacy`). This covers
  the `owner/repo` splitter, `ReviewRequest::from`, the join of search
  results against the local repositories, `is_github_repo`,
  `build_local_repo` and the `find_repos` visitor.

Every process the program starts (`sh -c` running `gh`, `git` or `tmux`) is
the oracle `Os.Shell`. It maps the exact command line to a spawn failure or
to a finished process: exit code, plus stdout and stderr, each absent when
not valid UTF-8. JSON decoding with serde is an oracle of type
`string -> Option<...>`. `get_branch_name` is the oracle `branchOf` of the
join. A path is `Os.FsPath`, whose text is absent when the path is not
valid UTF-8. This lets the model keep the different fallbacks of the
`to_str()` calls: `""` in `to_local_review_request`, `"~"` in the command
lines and in `build_local_repo`.

Some behaviour of the code is worth knowing; the model follows the code:

- In `core.rs` the error mapping is as follows. `NotAGitHubRepoError` and
  `LocalGitRepoError` prune the walk. `NotGitRepoError`,
  `UnknownGithubCliError` and every other error (spawn, UTF-8, JSON)
  continue it. So a directory that is not a git repository does not stop
  the walk, which goes on into its subdirectories, while a repository with
  no remotes, or whose remotes point to no known GitHub host, is pruned.
- The tmux step runs before the worktree step. The session always targets
  `<path>/reviews/<branch>`, the directory the worktree command is meant to
  create (`Utils.SessionDirIsWorktreeDir`). There is no fallback to the
  repository path when the worktree was not created.
- `create_worktree` and `create_tmux_session` return Ok even when the
  command exits non-zero. So `worktree_created` and `tmux_session_created`
  are true unless the spawn or the decoding of stderr failed
  (`Utils.EffectsIgnoreExitCode`).
- The adapter does run `gh` in directories that are not repositories. That
  is how it learns they are not (`Core.ScenarioVisits`).
- `build_local_repo` ignores the exit status of `gh repo view --json`.
  In the `find_repos` visitor, `is_github_repo` is the only exit-code test
  (`Legacy.BuildLocalRepoIgnoresExitCode`).

## Model

| member | source | states |
|---|---|---|
| `Strings.ReplaceChar` | src/utils.rs:36 | `title.replace(" ", "_")`: same length; each position holds `to` where the input held `from` and is unchanged otherwise (tabs and other characters are kept) |
| `Strings.ReplaceCharRemoves` | src/utils.rs:36 | after replacing `' '` by `'_'` no space is left |
| `Strings.ReplaceCharIdempotent` | src/utils.rs:36 | replacing twice equals replacing once |
| `Git.DefaultGitRepo` | src/git.rs:12-19 | the default `GitRepo` has empty owner and repo |
| `Git.DefaultLocalReviewRequest` | src/git.rs:29-38 | the default request has empty branch, path, title and an empty repo |
| `Git.RepoOfPullRequest` | src/git.rs:69-85 | both `From<GHPullRequest>` impls take owner from `headRepositoryOwner.login` and repo from `headRepository.name` |
| `Git.ToLocalReviewRequest` | src/git.rs:87-96 | branch is `headRefName`, title is `title`, owner and repo come from the owner login and repository name, path is the path text or `""` |
| `Git.ToLocalReviewRequestIgnoresIds` | src/git.rs:69-95 | the `id` fields of owner and repository do not affect the converted request |
| `Git.ToLocalReviewRequests` | src/git.rs:139-142 | the converted list has the decoded list's length and order, and every entry carries the input path |
| `Git.KnownMessagesDistinct` | src/git.rs:124-127 | the three recognised stderr literals are pairwise different |
| `Git.ClassifyStderr` | src/git.rs:124-133 | each literal maps to its own variant (both directions); any other text maps to `UnknownGithubCliError` carrying the text verbatim |
| `Git.ClassifyMessageOf` | src/git.rs:124-132 | classifying the message of an error returns that error, except an unknown error whose text is a recognised literal |
| `Git.MessageOfClassify` | src/git.rs:128-132 | no stderr text is lost by classification: the message of its class is the text itself |
| `Git.BuildLocalReviewRequests` | src/git.rs:110-143 | a spawn failure is a spawn error; a classified error occurs exactly on a non-zero exit with decodable stderr and is the classification of that stderr; undecodable stderr on a failed exit, or undecodable stdout on success, is a UTF-8 error; stdout that does not decode as JSON is a JSON error; Ok exactly on success with decodable stdout and JSON, with one request per decoded record in order, each carrying the path text or `""` |
| `Git.SuccessNeverClassified` | src/git.rs:120-142 | a zero exit never yields a `BuildReviewRequestErrors` |
| `Utils.SessionName` | src/utils.rs:33-36 | the session name is `Code_Review:_` followed by the title with spaces as `_`; its length is the title's plus 13 and it holds no space |
| `Utils.SessionNameHasNoSpaces` | src/utils.rs:36 | the session name is a fixed point of the space replacement |
| `Utils.SessionDirIsWorktreeDir` | src/utils.rs:9-35 | the tmux target `<path>/reviews/<branch>` is the worktree target `./reviews/<branch>` resolved against the repository path |
| `Utils.WorktreeCommandShape` | src/utils.rs:8-11 | the worktree command changes into the repository path, then runs `git worktree prune`, then `git worktree add ./reviews/<branch> -b <branch>`, each step joined by ` && `, and so ends with the new branch name |
| `Utils.TmuxCommandShape` | src/utils.rs:32-37 | the tmux command changes into `<path>/reviews/<branch>` whatever the worktree outcome, then runs `tmux new -d -s` with the session name |
| `Utils.CreateWorktree` | src/utils.rs:5-27 | Err only on a spawn failure or undecodable stderr after a failed exit; Ok on a zero exit and also on a non-zero exit |
| `Utils.CreateTmuxSession` | src/utils.rs:29-53 | the same Ok/Err contract for the tmux command |
| `Utils.EffectsIgnoreExitCode` | src/utils.rs:15-26 | once the process ran and stderr decodes, changing its exit code does not change either effect's result |
| `Channel.Drain` | src/core.rs:100-106 | the consumer loop receives exactly the multiset of all messages sent, for every arrival schedule |
| `Walker.Walk` | src/core.rs:39-98 | every address the walk visits is reached, meaning each node strictly above it was told Continue; no address is visited twice |
| `Walker.WalkVisitsOnce` | src/core.rs:39-98 | each reached address occurs exactly once in the visit list, and no other address occurs |
| `Walker.WalkComplete` | src/core.rs:39-98 | every reached address is visited |
| `Walker.WalkPrunes` | src/core.rs:71-90 | a visited address strictly below a node means that node was visited and returned Continue |
| `Walker.WalkSkipHides` | src/core.rs:71-90 | no address strictly below a node told Skip is visited |
| `Walker.WalkGathers` | src/core.rs:39-104 | the walk's outputs are the visits' emissions concatenated in visiting order |
| `Walker.WalkOutputOrigin` | src/core.rs:69 | every output was emitted at some reached address |
| `Walker.EmittedInOutputs` | src/core.rs:69 | everything emitted at a reached address is among the walk's outputs, with its multiplicity |
| `Walker.WalkAndCollect` | src/core.rs:27-107 | the list collected through the channel is a permutation of the sequential walk's outputs |
| `Core.DefaultOutput` | src/core.rs:16-25 | the default output has the default request and both flags false |
| `Core.Dispatch` | src/core.rs:50-69 | the output carries the request; `tmux_session_created` holds iff tmux is configured and `create_tmux_session` returned Ok, and likewise for worktrees; the tmux command runs before the worktree command |
| `Core.DispatchAll` | src/core.rs:50-70 | one output per request, in adapter order, each the dispatch of that request; the commands run request by request, each request's effect commands in dispatch order |
| `Core.DecisionOnError` | src/core.rs:73-86 | an adapter error prunes exactly when it is `NotAGitHubRepoError` or `LocalGitRepoError`; every other error continues |
| `Core.AfterAdapter` | src/core.rs:49-86 | Ok with N requests (N may be 0) emits N dispatched outputs in order, runs each request's effect commands in turn, and prunes; an error emits nothing, runs nothing and decides by the error |
| `Core.VisitEntry` | src/core.rs:44-96 | a walk error continues and a non-directory or symlink prunes, both emitting and running nothing; for a candidate directory the `gh` command runs first, then the effects; only a candidate directory emits anything |
| `Core.EmittedOutputs` | src/core.rs:49-71 | output i carries request i of the adapter, with flags true iff the effect is configured and returned Ok |
| `Core.DecisionFromStderr` | src/core.rs:73-86 | on a failed `gh` exit the visit emits nothing and prunes iff stderr is the "no remotes" or "not a known GitHub host" literal |
| `Core.FindReviewRequests` | src/core.rs:27-107 | the returned list is a permutation of the walk's outputs |
| `Core.EmittedComesFromAdapter` | src/core.rs:47-70 | whatever a visit emits comes from a non-symlink directory whose adapter call succeeded, and carries that directory's path |
| `Core.AdaptedEmission` | src/core.rs:49-86 | only a successful adapter call emits, and only outputs for its own requests |
| `Core.CollectedFromRepositories` | src/core.rs:39-106 | every collected output comes from a reached non-symlink directory whose adapter succeeded and returned its request |
| `Core.RepositoryRequestsCollected` | src/core.rs:47-107 | a reached repository directory whose adapter returned requests puts all of its dispatched outputs into the walk's outputs, with multiplicity, and nothing below it is visited |
| `Core.DescendsOnlyThroughContinue` | src/core.rs:71-90 | the walk descends only through walk errors and directories whose adapter failed other than with "no remotes" or "not a GitHub host" |
| `Core.ScenarioVisits` | src/core.rs:44-96 | in the two-project example, the root and `proj-b` continue, with `gh` run in `proj-b`, while `proj-a` emits one output with a worktree and prunes |
| `Core.ScenarioOneRequest` | src/core.rs:27-107 | scanning the example yields exactly one output, for `proj-a`'s `feature-x`, worktree created and no session |
| `Legacy.GitRepoFrom` | src/main.rs:49-58 | owner is the text before the first `/`; repo is the text after it up to the next `/` or the end; neither holds `/`; the rest is dropped; a `/` is required |
| `Legacy.GitRepoFromJoined` | src/main.rs:49-58 | `owner/repo`, optionally followed by `/...`, parses back to that owner and repo |
| `Legacy.GitRepoFromFields` | src/main.rs:49-58 | any `/`-free owner and repo placed in a value as the parse reads them (owner, `/`, repo, then `/` or the end) are what it returns |
| `Legacy.ReviewRequestFrom` | src/main.rs:60-76 | both impls copy `number` to `id` and parse `nameWithOwner` |
| `Legacy.FindRepo` | src/main.rs:137 | the index found holds a repository equal to the request's repo and no earlier one does; none is found only when no repository matches |
| `Legacy.FindRepoIsFirstMatch` | src/main.rs:137 | the index found is exactly the first match |
| `Legacy.JoinOne` | src/main.rs:136-148 | a request becomes at most one local request: none without a match or with a failed branch lookup, else the first match's path and repo with the looked-up branch |
| `Legacy.Join` | src/main.rs:134-151 | at most as many outputs as requests; each carries the path and repo of a local repository and the repo of some request |
| `Legacy.JoinAppend` | src/main.rs:134-151 | the join maps requests one at a time and keeps their order |
| `Legacy.IsGithubRepo` | src/main.rs:154-168 | true exactly when `gh repo view` ran and exited with code `Some(0)` |
| `Legacy.BuildLocalRepo` | src/main.rs:182-198 | Ok exactly when the process ran with decodable stdout and JSON; the repo then has the path text (or `~`) and the parsed `nameWithOwner` |
| `Legacy.BuildLocalRepoIgnoresExitCode` | src/main.rs:184-192 | the exit code of `gh repo view --json` does not influence the result |
| `Legacy.FindReposVisit` | src/main.rs:214-237 | at most one repository is emitted; a GitHub repo prunes whether or not it was built and emits it iff built; anything else, walk errors included, continues |
| `Legacy.FindRepos` | src/main.rs:200-246 | the returned list is a permutation of the walk's outputs |
| `Legacy.FoundReposAreGithubRepos` | src/main.rs:217-231 | every found repository comes from a reached entry that `gh repo view` accepted, is the repository built there, and nothing below that entry is visited |

## Left out

- Process spawning, the `sh -c` quoting of titles, paths and branches, and UTF-8 decoding are replaced by the `Shell` oracle. Nothing checks what the shell makes of metacharacters in that text.
- The `Shell` oracle is a function of the command line alone. State that commands leave behind (an existing worktree or tmux session) is not modelled, so neither is the behaviour of a second dispatch for the same request.
- serde/JSON decoding is an oracle. A decoding failure is only the unclassified `JsonError`.
- The `ignore` crate's walker is left out: thread pool, standard and global ignore filters, `same_file_system` and `follow_links`. The model's `Tree` is taken to be what that engine yields. A walk-error entry's children are walked like those of any entry told Continue.
- The thread count is absorbed into the arbitrary arrival schedule of `Channel.Drain`.
- Channel.Drain: states that the messages received are a permutation of those sent. It does not state that one producer's messages arrive in the order it sent them.
- Printing and logging (`println!`, `eprintln!`, colours) and `report_results` are presentation only.
- src/config.rs holds constant defaults and a home-directory lookup; it is not part of this model.
- `main`, `create_worktrees`, `get_review_requests` and `get_branch_name` in src/main.rs are orchestration and shell calls. `get_branch_name` appears only as the join's `branchOf` oracle.
- Legacy.GitRepoFrom: the panic on a value without `/` is a precondition rather than a modelled crash.
- Legacy.ReviewRequestFrom: requires `nameWithOwner` to contain `/`, for the same reason.
- Legacy.FindRepos: `find_repos` roots its walk at the home directory and panics when there is none. That panic is not modelled; the root tree is a parameter.
- Legacy.BuildLocalRepo: the decoder oracle returns `NameWithOwner` values, which always contain `/`. The panic `GitRepo::from` would raise on a `nameWithOwner` without `/` is not modelled.
- The `GHBranch` record of src/main.rs, which `get_branch_name` decodes, sits behind the `branchOf` oracle. The `GHBranch` record of src/git.rs is never used by the program and is not modelled. The `LocalReviewRequest` of src/main.rs, built by the join and consumed by `create_worktrees`, is `Legacy.LocalReviewRequest`.
