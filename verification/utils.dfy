/** The side effects of src/utils.rs: the shell command lines that create a
    review worktree and a tmux session, and the Ok/Err contract of running
    them. */
module Utils {
  import opened Wrappers
  import opened Os
  import opened Strings
  import opened Git

  /** Every session name starts with this. */
  const SessionPrefix: string := "Code_Review:_"

  /** The tmux session name for a pull request titled `title`. */
  function SessionName(title: string): (r: string)
    ensures |r| == |title| + 13
    ensures r[..13] == SessionPrefix
    ensures ' ' !in r
    ensures forall i :: 0 <= i < |title| ==> r[13 + i] == (if title[i] == ' ' then '_' else title[i])
  {
    ReplaceCharRemoves(title, ' ', '_');
    SessionPrefix + ReplaceChar(title, ' ', '_')
  }

  /** A session name is a fixed point of the space replacement. */
  lemma SessionNameHasNoSpaces(title: string)
    ensures ReplaceChar(SessionName(title), ' ', '_') == SessionName(title)
  {
  }

  /** Where the worktree is added, relative to the repository. */
  function WorktreeTarget(branch: string): string {
    "./reviews/" + branch
  }

  /** The directory the tmux session is started in. */
  function ReviewDir(req: LocalReviewRequest): string {
    req.path + "/reviews/" + req.branch
  }

  /** `base` joined with a path `rel` written relative to it as `./<rest>`. */
  function JoinRelative(base: string, rel: string): string
    requires |rel| >= 2 && rel[..2] == "./"
  {
    base + "/" + rel[2..]
  }

  /** The session directory is the directory the worktree command creates,
      resolved against the repository path the command runs in. */
  lemma SessionDirIsWorktreeDir(req: LocalReviewRequest)
    ensures |WorktreeTarget(req.branch)| >= 2 && WorktreeTarget(req.branch)[..2] == "./"
    ensures JoinRelative(req.path, WorktreeTarget(req.branch)) == ReviewDir(req)
  {
  }

  const WorktreePrune: string := "git worktree prune"

  /** The command line of `create_worktree`: prune stale worktrees, then add
      one at `./reviews/<branch>` on a new branch `<branch>`. */
  function WorktreeCommand(req: LocalReviewRequest): string {
    "cd " + req.path + " && " + WorktreePrune + " && git worktree add " + WorktreeTarget(req.branch) + " -b " + req.branch
  }

  /** The command line of `create_tmux_session`. */
  function TmuxCommand(req: LocalReviewRequest): string {
    "cd " + ReviewDir(req) + " && tmux new -d -s " + SessionName(req.title)
  }

  /** The worktree command changes into the repository and prunes before it
      adds, and it ends by naming the new branch. */
  lemma WorktreeCommandShape(req: LocalReviewRequest)
    ensures var c := WorktreeCommand(req); var k := 3 + |req.path| + 4;
      && c[..3 + |req.path|] == "cd " + req.path
      && c[3 + |req.path| .. k] == " && "
      && c[k .. k + |WorktreePrune|] == WorktreePrune
      // after the prune: add the worktree at `./reviews/<branch>` on a new branch
      && c[k + |WorktreePrune| ..] == " && git worktree add ./reviews/" + req.branch + " -b " + req.branch
      && c[|c| - |req.branch| ..] == req.branch
  {
    var head := "cd " + req.path;
    var add := " && git worktree add ./reviews/" + req.branch + " -b " + req.branch;
    var c := WorktreeCommand(req);
    assert c == head + " && " + WorktreePrune + add;
    var k := |head| + 4;
    assert c[..|head|] == head;
    assert c[|head| .. k] == " && ";
    assert c[k .. k + |WorktreePrune|] == WorktreePrune;
    assert c[k + |WorktreePrune| ..] == add;
  }

  /** The tmux command starts in the review directory, whatever happened to
      the worktree, and then starts a detached session with the session
      name. */
  lemma TmuxCommandShape(req: LocalReviewRequest)
    ensures var c := TmuxCommand(req);
      && c[..3 + |ReviewDir(req)|] == "cd " + ReviewDir(req)
      && c[3 + |ReviewDir(req)| ..] == " && tmux new -d -s " + SessionName(req.title)
      && c[|c| - |SessionName(req.title)| ..] == SessionName(req.title)
  {
  }

  /** Run `cmd`; report a non-zero exit only as a message, so that the result
      is Err only when the process could not be spawned or its stderr could
      not be decoded. */
  function RunReportingFailure(shell: Shell, cmd: string): Result<(), AnyError> {
    match shell(cmd)
    case SpawnFailed(reason) => Err(SpawnError(reason))
    case Spawned(o) =>
      if !Success(o) && o.stderr.None? then Err(Utf8Error) else Ok(())
  }

  /** `create_worktree`. */
  function CreateWorktree(req: LocalReviewRequest, shell: Shell): (r: Result<(), AnyError>)
    ensures var sp := shell(WorktreeCommand(req));
      && (sp.SpawnFailed? ==> r == Err(SpawnError(sp.reason)))
      && (sp.Spawned? && Success(sp.output) ==> r.Ok?)
      && (sp.Spawned? && !Success(sp.output) && sp.output.stderr.Some? ==> r.Ok?)
      && (sp.Spawned? && !Success(sp.output) && sp.output.stderr.None? ==> r == Err(Utf8Error))
  {
    RunReportingFailure(shell, WorktreeCommand(req))
  }

  /** `create_tmux_session`. */
  function CreateTmuxSession(req: LocalReviewRequest, shell: Shell): (r: Result<(), AnyError>)
    ensures var sp := shell(TmuxCommand(req));
      && (sp.SpawnFailed? ==> r == Err(SpawnError(sp.reason)))
      && (sp.Spawned? && Success(sp.output) ==> r.Ok?)
      && (sp.Spawned? && !Success(sp.output) && sp.output.stderr.Some? ==> r.Ok?)
      && (sp.Spawned? && !Success(sp.output) && sp.output.stderr.None? ==> r == Err(Utf8Error))
  {
    RunReportingFailure(shell, TmuxCommand(req))
  }

  /** Neither effect can tell a failed command from a successful one once
      stderr decodes: the exit code does not influence the result. */
  lemma EffectsIgnoreExitCode(req: LocalReviewRequest, shell: Shell, code: Option<int>)
    ensures var sw := shell(WorktreeCommand(req));
      sw.Spawned? && sw.output.stderr.Some? ==>
        CreateWorktree(req, shell) == CreateWorktree(req, (c: string) => if c == WorktreeCommand(req) then Spawned(sw.output.(code := code)) else shell(c))
    ensures var st := shell(TmuxCommand(req));
      st.Spawned? && st.output.stderr.Some? ==>
        CreateTmuxSession(req, shell) == CreateTmuxSession(req, (c: string) => if c == TmuxCommand(req) then Spawned(st.output.(code := code)) else shell(c))
  {
  }
}
