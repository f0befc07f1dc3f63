/** `find_review_requests` of src/core.rs: the per-entry visitor of the
    parallel walk (adapter call, walk decision, per-request side effects) and
    the collection of its outputs. */
module Core {
  import opened Wrappers
  import opened Os
  import opened Git
  import opened Utils
  import opened Walker
  import Channel

  /** The configured effects (the `create_worktree` and `create_tmux_session`
      flags of the command-line arguments). */
  datatype Args = Args(createWorktree: bool, createTmuxSession: bool)

  /** `ReviewRequestOutput`: a request with the outcome of its effects. */
  datatype ReviewRequestOutput = ReviewRequestOutput(
    reviewRequest: LocalReviewRequest,
    worktreeCreated: bool,
    tmuxSessionCreated: bool)

  /** The default output: the default request, no effect reported. */
  function DefaultOutput(): (r: ReviewRequestOutput)
    ensures r.reviewRequest == DefaultLocalReviewRequest()
    ensures !r.worktreeCreated && !r.tmuxSessionCreated
  {
    ReviewRequestOutput(DefaultLocalReviewRequest(), false, false)
  }

  /** Everything the visitor depends on besides the entry: the configuration,
      the shell, and the JSON decoder for `gh pr list` output. */
  datatype Env = Env(args: Args, shell: Shell, decodePrs: string -> Option<seq<GHPullRequest>>)

  /** One request's output together with the effect commands run for it,
      in the order they ran. */
  datatype Dispatched = Dispatched(output: ReviewRequestOutput, commands: seq<string>)

  /** The body of the loop over the adapter's requests: start from the
      default output, attempt the tmux session and then the worktree as
      configured, each flag set to whether its effect returned Ok. */
  function Dispatch(args: Args, shell: Shell, rr: LocalReviewRequest): (d: Dispatched)
    ensures d.output.reviewRequest == rr
    ensures d.output.tmuxSessionCreated <==> args.createTmuxSession && CreateTmuxSession(rr, shell).Ok?
    ensures d.output.worktreeCreated <==> args.createWorktree && CreateWorktree(rr, shell).Ok?
    ensures |d.commands| == (if args.createTmuxSession then 1 else 0) + (if args.createWorktree then 1 else 0)
    ensures args.createTmuxSession ==> d.commands[0] == TmuxCommand(rr)
    ensures args.createWorktree ==> d.commands[|d.commands| - 1] == WorktreeCommand(rr)
  {
    var o0 := DefaultOutput();
    var o1 := if args.createTmuxSession then o0.(tmuxSessionCreated := CreateTmuxSession(rr, shell).Ok?) else o0;
    var o2 := if args.createWorktree then o1.(worktreeCreated := CreateWorktree(rr, shell).Ok?) else o1;
    Dispatched(
      o2.(reviewRequest := rr),
      (if args.createTmuxSession then [TmuxCommand(rr)] else [])
        + (if args.createWorktree then [WorktreeCommand(rr)] else []))
  }

  /** The outputs and commands of dispatching `reqs` in order. */
  datatype Batch = Batch(outputs: seq<ReviewRequestOutput>, commands: seq<string>)

  /** The effect commands of each request, one list per request. */
  function CommandsPerRequest(args: Args, shell: Shell, reqs: seq<LocalReviewRequest>): (r: seq<seq<string>>)
    ensures |r| == |reqs|
    ensures forall i :: 0 <= i < |reqs| ==> r[i] == Dispatch(args, shell, reqs[i]).commands
  {
    seq(|reqs|, i requires 0 <= i < |reqs| => Dispatch(args, shell, reqs[i]).commands)
  }

  /** The loop over the adapter's requests: one output per request in the
      adapter's order, and the commands request by request, each request's
      effects finished before the next request's start. */
  function DispatchAll(args: Args, shell: Shell, reqs: seq<LocalReviewRequest>): (b: Batch)
    ensures |b.outputs| == |reqs|
    ensures forall i :: 0 <= i < |reqs| ==> b.outputs[i] == Dispatch(args, shell, reqs[i]).output
    ensures b.commands == Channel.Flatten(CommandsPerRequest(args, shell, reqs))
  {
    if reqs == [] then Batch([], [])
    else
      var d := Dispatch(args, shell, reqs[0]);
      var rest := DispatchAll(args, shell, reqs[1..]);
      assert CommandsPerRequest(args, shell, reqs)[1..] == CommandsPerRequest(args, shell, reqs[1..]);
      Batch([d.output] + rest.outputs, d.commands + rest.commands)
  }

  /** The walk decision after a failed adapter call. */
  function DecisionOnError(e: AnyError): (s: WalkState)
    ensures s == Skip <==> e == Classified(NotAGitHubRepoError) || e == Classified(LocalGitRepoError)
  {
    match Downcast(e)
    case Some(NotAGitHubRepoError) => Skip
    case Some(LocalGitRepoError) => Skip
    case Some(NotGitRepoError) => Continue
    case Some(UnknownGithubCliError(_)) => Continue
    case None => Continue
  }

  /** A visit: what it emitted, the walk decision, and every command line it
      ran, in order. */
  datatype Step = Step(visited: Visited<ReviewRequestOutput>, commands: seq<string>)

  /** An entry the visitor queries: a directory that is not a symbolic link. */
  predicate IsCandidate(e: WalkEntry) {
    e.Entry? && e.isDir && !e.isSymlink
  }

  /** What a candidate directory's visit does with the adapter's answer:
      dispatch and emit every request and prune, or emit nothing and decide
      from the error. */
  function AfterAdapter(env: Env, adapted: Result<seq<LocalReviewRequest>, AnyError>): (s: Step)
    ensures adapted.Ok? ==>
      && s.visited.state == Skip
      && |s.visited.emitted| == |adapted.value|
      && (forall i :: 0 <= i < |adapted.value| ==>
            s.visited.emitted[i] == Dispatch(env.args, env.shell, adapted.value[i]).output)
      && s.commands == Channel.Flatten(CommandsPerRequest(env.args, env.shell, adapted.value))
    ensures adapted.Err? ==> s == Step(Visited([], DecisionOnError(adapted.error)), [])
  {
    match adapted
    case Ok(reqs) =>
      var b := DispatchAll(env.args, env.shell, reqs);
      Step(Visited(b.outputs, Skip), b.commands)
    case Err(e) => Step(Visited([], DecisionOnError(e)), [])
  }

  /** The visitor closure of `find_review_requests`. */
  function VisitEntry(env: Env, entry: WalkEntry): (s: Step)
    // a walk error: keep walking, nothing emitted, nothing run
    ensures entry.EntryError? ==> s == Step(Visited([], Continue), [])
    // not a directory, or a symlink: prune without calling the adapter
    ensures entry.Entry? && !IsCandidate(entry) ==> s == Step(Visited([], Skip), [])
    // a candidate: the adapter's command runs first, then the effects
    ensures IsCandidate(entry) ==>
      var after := AfterAdapter(env, BuildLocalReviewRequests(entry.path, env.shell, env.decodePrs));
      && s.visited == after.visited
      && s.commands == [GhPrListCommand(PathText(entry.path, "~"))] + after.commands
    // only a candidate directory emits anything
    ensures s.visited.emitted != [] ==> IsCandidate(entry)
  {
    if entry.EntryError? then Step(Visited([], Continue), [])
    else if IsCandidate(entry) then
      var after := AfterAdapter(env, BuildLocalReviewRequests(entry.path, env.shell, env.decodePrs));
      Step(after.visited, [GhPrListCommand(PathText(entry.path, "~"))] + after.commands)
    else Step(Visited([], Skip), [])
  }

  /** Each emitted output carries the request the adapter returned at the
      same position, and its flags say whether each configured effect
      returned Ok; unconfigured effects are never reported created. */
  lemma EmittedOutputs(env: Env, entry: WalkEntry)
    requires IsCandidate(entry)
    requires BuildLocalReviewRequests(entry.path, env.shell, env.decodePrs).Ok?
    ensures var reqs := BuildLocalReviewRequests(entry.path, env.shell, env.decodePrs).value;
      var out := VisitEntry(env, entry).visited.emitted;
      && |out| == |reqs|
      && forall i :: 0 <= i < |reqs| ==>
           && out[i].reviewRequest == reqs[i]
           && (out[i].tmuxSessionCreated <==> env.args.createTmuxSession && CreateTmuxSession(reqs[i], env.shell).Ok?)
           && (out[i].worktreeCreated <==> env.args.createWorktree && CreateWorktree(reqs[i], env.shell).Ok?)
  {
  }

  /** The walk decision as a function of `gh`'s stderr on a failed exit:
      prune exactly for "no remotes" and "not a known GitHub host". */
  lemma DecisionFromStderr(env: Env, entry: WalkEntry)
    requires IsCandidate(entry)
    requires var sp := env.shell(GhPrListCommand(PathText(entry.path, "~")));
      sp.Spawned? && !Success(sp.output) && sp.output.stderr.Some?
    ensures var err := env.shell(GhPrListCommand(PathText(entry.path, "~"))).output.stderr.value;
      var s := VisitEntry(env, entry);
      && s.visited.emitted == []
      && (s.visited.state == Skip <==> err == NoRemotesMessage || err == UnknownHostMessage)
  {
  }

  /** The visitor as the walk engine sees it. */
  function CoreVisitor(env: Env): Visitor<ReviewRequestOutput> {
    (e: WalkEntry) => VisitEntry(env, e).visited
  }

  /** `find_review_requests`: the walk rooted at `root`, its outputs collected
      through the channel in the arrival order `schedule`. */
  method FindReviewRequests(env: Env, root: Tree, schedule: seq<nat>) returns (output: seq<ReviewRequestOutput>)
    ensures multiset(output) == multiset(Walk(CoreVisitor(env), root).outputs)
  {
    output := WalkAndCollect(CoreVisitor(env), root, schedule);
  }

  /** `o` was emitted for the candidate directory `e`: the adapter succeeded
      there, returned `o`'s request, and that request carries `e`'s path. */
  ghost predicate RepositoryOf(env: Env, e: WalkEntry, o: ReviewRequestOutput) {
    && IsCandidate(e)
    && BuildLocalReviewRequests(e.path, env.shell, env.decodePrs).Ok?
    && o.reviewRequest in BuildLocalReviewRequests(e.path, env.shell, env.decodePrs).value
    && o.reviewRequest.path == PathText(e.path, "")
  }

  /** Whatever a visit emits was emitted for a candidate directory whose
      adapter call succeeded. */
  lemma EmittedComesFromAdapter(env: Env, e: WalkEntry, o: ReviewRequestOutput)
    requires o in VisitEntry(env, e).visited.emitted
    ensures RepositoryOf(env, e, o)
  {
    assert IsCandidate(e);
    AdaptedEmission(env, BuildLocalReviewRequests(e.path, env.shell, env.decodePrs), o);
  }

  /** Only a successful adapter call emits, and only its own requests. */
  lemma AdaptedEmission(env: Env, adapted: Result<seq<LocalReviewRequest>, AnyError>, o: ReviewRequestOutput)
    requires o in AfterAdapter(env, adapted).visited.emitted
    ensures adapted.Ok? && o.reviewRequest in adapted.value
  {
    var out := AfterAdapter(env, adapted).visited.emitted;
    var i :| 0 <= i < |out| && out[i] == o;
    assert o.reviewRequest == adapted.value[i];
  }

  /** Every collected output comes from a directory the walk reached that
      is not a symbolic link, where the adapter succeeded, and its request
      carries that directory's path. */
  lemma CollectedFromRepositories(env: Env, root: Tree, o: ReviewRequestOutput)
    requires o in Walk(CoreVisitor(env), root).outputs
    ensures exists a :: (Reached(CoreVisitor(env), root, a) && NodeAt(root, a).Some? &&
      RepositoryOf(env, NodeAt(root, a).value.entry, o))
  {
    var v := CoreVisitor(env);
    WalkOutputOrigin(v, root, o);
    var a :| Reached(v, root, a) && o in EmittedAt(v, root, a);
    var e := NodeAt(root, a).value.entry;
    assert o in VisitEntry(env, e).visited.emitted;
    EmittedComesFromAdapter(env, e, o);
  }

  /** A reached repository directory whose adapter returned requests
      contributes one dispatched output per request to the collected list,
      and the walk visits nothing below it. */
  lemma RepositoryRequestsCollected(env: Env, root: Tree, a: seq<nat>)
    requires Reached(CoreVisitor(env), root, a) && NodeAt(root, a).Some?
    requires var e := NodeAt(root, a).value.entry;
      IsCandidate(e) && BuildLocalReviewRequests(e.path, env.shell, env.decodePrs).Ok?
    ensures var e := NodeAt(root, a).value.entry;
      var reqs := BuildLocalReviewRequests(e.path, env.shell, env.decodePrs).value;
      multiset(DispatchAll(env.args, env.shell, reqs).outputs) <= multiset(Walk(CoreVisitor(env), root).outputs)
    ensures forall c: seq<nat> :: |c| > 0 ==> a + c !in Walk(CoreVisitor(env), root).visits
  {
    var v := CoreVisitor(env);
    var e := NodeAt(root, a).value.entry;
    var reqs := BuildLocalReviewRequests(e.path, env.shell, env.decodePrs).value;
    assert EmittedAt(v, root, a) == DispatchAll(env.args, env.shell, reqs).outputs;
    EmittedInOutputs(v, root, a);
    forall c: seq<nat> | |c| > 0
      ensures a + c !in Walk(v, root).visits
    {
      WalkSkipHides(v, root, a, c);
    }
  }

  /** The walk descends only through walk errors and directories whose
      adapter call failed without being classified as "no remotes" or "not a
      known GitHub host": below a file, a symbolic link, a repository with
      requests (even none) or a pruning error, nothing is visited. */
  lemma DescendsOnlyThroughContinue(env: Env, root: Tree, a: seq<nat>, c: seq<nat>)
    requires a + c in Walk(CoreVisitor(env), root).visits && |c| > 0
    ensures NodeAt(root, a).Some?
    ensures var e := NodeAt(root, a).value.entry;
      e.EntryError? ||
      (IsCandidate(e) &&
       var adapted := BuildLocalReviewRequests(e.path, env.shell, env.decodePrs);
       adapted.Err? &&
       adapted.error != Classified(NotAGitHubRepoError) && adapted.error != Classified(LocalGitRepoError))
  {
    WalkPrunes(CoreVisitor(env), root, a, c);
  }

  /** A scan of `/home/u/code` holding `proj-a`, a GitHub clone with one
      request for branch `feature-x` titled `Fix bug`, and `proj-b`, which is
      not a git repository; worktrees on, sessions off. */
  const ScenarioPr: GHPullRequest :=
    GHPullRequest("feature-x", GHRepoOwner("o1", "u"), GHPRRepo("r1", "proj-a"), "Fix bug")

  function ScenarioDir(p: string): WalkEntry {
    Entry(FsPath(Some(p)), true, false)
  }

  const ScenarioTree: Tree :=
    Tree(ScenarioDir("/home/u/code"), [
      Tree(ScenarioDir("/home/u/code/proj-a"), []),
      Tree(ScenarioDir("/home/u/code/proj-b"), [])])

  function ScenarioShell(cmd: string): Spawn {
    if cmd == GhPrListCommand("/home/u/code/proj-a") then Spawned(Output(Some(0), Some("[pr]"), Some("")))
    else if cmd == GhPrListCommand("/home/u/code") || cmd == GhPrListCommand("/home/u/code/proj-b") then
      Spawned(Output(Some(1), Some(""), Some(NotGitRepoMessage)))
    else Spawned(Output(Some(0), Some(""), Some("")))
  }

  function ScenarioDecode(out: string): Option<seq<GHPullRequest>> {
    if out == "[pr]" then Some([ScenarioPr]) else None
  }

  const ScenarioRequest: LocalReviewRequest :=
    LocalReviewRequest("feature-x", "/home/u/code/proj-a", GitRepo("u", "proj-a"), "Fix bug")

  /** The scenario's command lines are pairwise different, so the scenario
      shell answers each one separately. */
  lemma ScenarioCommandsDiffer()
    ensures GhPrListCommand("/home/u/code") != GhPrListCommand("/home/u/code/proj-a")
    ensures GhPrListCommand("/home/u/code/proj-b") != GhPrListCommand("/home/u/code/proj-a")
    ensures WorktreeCommand(ScenarioRequest) != GhPrListCommand("/home/u/code/proj-a")
    ensures WorktreeCommand(ScenarioRequest) != GhPrListCommand("/home/u/code")
    ensures WorktreeCommand(ScenarioRequest) != GhPrListCommand("/home/u/code/proj-b")
  {
    var ga := GhPrListCommand("/home/u/code/proj-a");
    var gb := GhPrListCommand("/home/u/code/proj-b");
    // `cd ` and `/home/u/code/proj-` take 3 + 18 characters, so the two
    // project commands first differ at index 21, the `a` against the `b`
    assert ga[..3] + ga[3..22] == ga[..22];
    assert ga[21] == 'a' && gb[21] == 'b';
    // the rest differ in length: the gh suffix after the path is 107
    // characters, added to `cd <path>` of 22 or 15 characters
    assert |WorktreeCommand(ScenarioRequest)| == 97;
    assert |ga| == 129 && |gb| == 129 && |GhPrListCommand("/home/u/code")| == 122;
  }

  const ScenarioEnv: Env := Env(Args(true, false), ScenarioShell, ScenarioDecode)

  lemma ScenarioVisits()
    ensures VisitEntry(ScenarioEnv, ScenarioDir("/home/u/code")).visited == Visited([], Continue)
    ensures VisitEntry(ScenarioEnv, ScenarioDir("/home/u/code/proj-b")).visited == Visited([], Continue)
    // the adapter does run in `proj-b`: that is how it learns it is not a repository
    ensures VisitEntry(ScenarioEnv, ScenarioDir("/home/u/code/proj-b")).commands
      == [GhPrListCommand("/home/u/code/proj-b")]
    ensures VisitEntry(ScenarioEnv, ScenarioDir("/home/u/code/proj-a")).visited
      == Visited([ReviewRequestOutput(ScenarioRequest, true, false)], Skip)
  {
    ScenarioCommandsDiffer();
    var pa := FsPath(Some("/home/u/code/proj-a"));
    assert ToLocalReviewRequest(ScenarioPr, pa) == ScenarioRequest;
    assert ToLocalReviewRequests([ScenarioPr], pa) == [ScenarioRequest];
    assert BuildLocalReviewRequests(pa, ScenarioShell, ScenarioDecode) == Ok([ScenarioRequest]);
    assert CreateWorktree(ScenarioRequest, ScenarioShell).Ok?;
    assert DispatchAll(ScenarioEnv.args, ScenarioShell, [ScenarioRequest]).outputs
      == [ReviewRequestOutput(ScenarioRequest, true, false)];
  }

  /** The scan yields exactly one output, for `proj-a`'s `feature-x`, with a
      worktree and no session. */
  lemma ScenarioOneRequest()
    ensures var out := Walk(CoreVisitor(ScenarioEnv), ScenarioTree).outputs;
      && |out| == 1
      && out[0].reviewRequest.repo.repo == "proj-a"
      && out[0].reviewRequest.branch == "feature-x"
      && out[0].reviewRequest.path == "/home/u/code/proj-a"
      && out[0].worktreeCreated
      && !out[0].tmuxSessionCreated
  {
    var out := ReviewRequestOutput(ScenarioRequest, true, false);
    ScenarioVisits();
    ScenarioShapeWalk(CoreVisitor(ScenarioEnv), ScenarioTree, out);
  }

  /** The walk of a root with two leaf children, of which the first emits
      `out` and prunes and the second emits nothing. */
  lemma ScenarioShapeWalk<T>(v: Visitor<T>, root: Tree, out: T)
    requires |root.children| == 2
    requires root.children[0].children == [] && root.children[1].children == []
    requires v(root.entry) == Visited([], Continue)
    requires v(root.children[0].entry) == Visited([out], Skip)
    requires v(root.children[1].entry).emitted == []
    ensures Walk(v, root).outputs == [out]
  {
    var ta := root.children[0];
    var tb := root.children[1];
    WalkChildrenOutputsStep(v, tb, 0);
    WalkOutputsStep(v, tb);
    WalkOutputsStep(v, ta);
    WalkChildrenOutputsStep(v, root, 2);
    WalkChildrenOutputsStep(v, root, 1);
    WalkChildrenOutputsStep(v, root, 0);
    WalkOutputsStep(v, root);
  }
}
