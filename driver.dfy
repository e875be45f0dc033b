/**
 * The body of `main` after configuration: the pull-request read, the
 * eligibility stops, and the loop over at most ten files pages in which every
 * non-empty page is turned into one generation request and one publish.
 *
 * Every remote answer is an input (`Env`); the run is described by its
 * outcome and by the sequence of remote calls it makes.
 */
module Driver {
  import opened Wrappers
  import opened Hosting
  import opened Settings
  import opened Eligibility
  import opened Prompt
  import opened Description
  import opened Generation
  import opened Sequences

  /** The number of files pages the loop may request. */
  const MaxPages: nat := 10

  /** The remote calls of one run, in the order they are issued. */
  datatype Call =
    | FetchPullRequest
    | FetchFiles(page: nat)
    | Generate(request: Request)
    | Publish(body: string)

  /** How `main` ends: a `return` with a code, falling off the end, or the uncaught IndexError. */
  datatype Exit = Returned(code: int) | FellThrough | Raised

  /** The process status each ending gives under `sys.exit(main())`. */
  function ExitStatus(e: Exit): int {
    match e
    case Returned(code) => code
    case FellThrough => 0
    case Raised => 1
  }

  /**
   * The answers of the outside world. Page `p` is answered by `pages[p - 1]`;
   * the generation and the publish made on page `p` are answered by
   * `completions[p - 1]` and `publishStatus[p - 1]`.
   */
  datatype Env = Env(
    pullRequest: PullRequestResponse,
    pages: seq<FilesResponse>,
    completions: seq<string>,
    publishStatus: seq<int>)

  /** The environment answers every request the loop can make. */
  predicate Complete(env: Env) {
    |env.pages| >= MaxPages && |env.completions| >= MaxPages && |env.publishStatus| >= MaxPages
  }

  datatype Run = Run(exit: Exit, calls: seq<Call>)

  /** The generation request for page `page`. */
  function RequestForPage(cfg: Config, title: string, env: Env, page: nat): Request
    requires Complete(env) && 1 <= page <= MaxPages
  {
    RequestFor(cfg, Truncate(PagePrompt(title, env.pages[page - 1].entries), cfg.maxPromptToken))
  }

  /**
   * The outcome of one loop iteration: the calls it makes, and how the run
   * ends if the iteration returns, raises or breaks (`None`: on to the next page).
   */
  datatype Step = Step(stop: Option<Exit>, round: seq<Call>)

  /** One iteration of the page loop, for page `page`. */
  function PageStep(cfg: Config, title: string, env: Env, page: nat): (step: Step)
    requires Complete(env) && 1 <= page <= MaxPages
  {
    var response := env.pages[page - 1];
    if response.status != StatusOk then Step(Some(Returned(0)), [FetchFiles(page)])
    else if response.entries == [] then Step(Some(FellThrough), [FetchFiles(page)])
    else
      var request := RequestForPage(cfg, title, env, page);
      match Postprocess(env.completions[page - 1])
      case None => Step(Some(Raised), [FetchFiles(page), Generate(request)])
      case Some(body) =>
        if env.publishStatus[page - 1] != StatusOk
        then Step(Some(Returned(1)), [FetchFiles(page), Generate(request), Publish(body)])
        else Step(None, [FetchFiles(page), Generate(request), Publish(body)])
  }

  /** The iterations of the page loop, for the pages 1 .. MaxPages in order. */
  function Steps(cfg: Config, title: string, env: Env): (steps: seq<Step>)
    requires Complete(env)
    ensures |steps| == MaxPages
    ensures forall i :: 0 <= i < MaxPages ==> steps[i] == PageStep(cfg, title, env, i + 1)
  {
    seq(MaxPages, i requires 0 <= i < MaxPages => PageStep(cfg, title, env, i + 1))
  }

  /**
   * The loop from iteration `k` (page `k + 1`) on: each iteration's calls are
   * made in turn, and the first iteration that ends the run ends it.
   */
  function Loop(steps: seq<Step>, k: nat): (run: Run)
    requires k <= |steps|
    decreases |steps| - k
  {
    if k == |steps| then Run(FellThrough, [])
    else
      match steps[k].stop
      case Some(exit) => Run(exit, steps[k].round)
      case None =>
        var rest := Loop(steps, k + 1);
        Run(rest.exit, steps[k].round + rest.calls)
  }

  /** The whole run: the pull-request read, the eligibility stops, then the loop from page 1. */
  function Outcome(cfg: Config, env: Env): (run: Run)
    requires Complete(env)
  {
    var fetched := [FetchPullRequest];
    if env.pullRequest.status != StatusOk then Run(Returned(0), fetched)
    else
      var pr := env.pullRequest.data;
      match Decide(pr, cfg.allowedUsers)
      case Proceed =>
        var rest := Loop(Steps(cfg, pr.title, env), 0);
        Run(rest.exit, fetched + rest.calls)
      case _ => Run(Returned(0), fetched)
  }

  /** The run as the script performs it, step by step. */
  method RunAction(cfg: Config, env: Env) returns (exit: Exit, calls: seq<Call>)
    requires Complete(env)
    ensures Run(exit, calls) == Outcome(cfg, env)
  {
    if env.pullRequest.status != StatusOk {
      return Returned(0), [FetchPullRequest];
    }
    var pr := env.pullRequest.data;
    if HasDescription(pr) {
      return Returned(0), [FetchPullRequest];
    }
    if cfg.allowedUsers != [] && pr.author !in Split(cfg.allowedUsers) {
      return Returned(0), [FetchPullRequest];
    }
    assert Decide(pr, cfg.allowedUsers) == Proceed;
    var rest;
    exit, rest := RunPages(cfg, pr.title, env);
    calls := [FetchPullRequest] + rest;
  }

  /** The page loop of the script: `for page_num in range(1, 11)`. */
  method RunPages(cfg: Config, title: string, env: Env) returns (exit: Exit, calls: seq<Call>)
    requires Complete(env)
    ensures Run(exit, calls) == Loop(Steps(cfg, title, env), 0)
  {
    calls := [];
    var page := 1;
    ghost var steps := Steps(cfg, title, env);
    ghost var whole := Loop(steps, 0);
    assert calls + whole.calls == whole.calls;
    while page <= MaxPages
      invariant 1 <= page <= MaxPages + 1
      invariant whole == Run(Loop(steps, page - 1).exit, calls + Loop(steps, page - 1).calls)
    {
      var stop, round := RunPage(cfg, title, env, page);
      assert steps[page - 1] == Step(stop, round);
      if stop.Some? {
        return stop.value, calls + round;
      }
      ConcatAssociative(calls, round, Loop(steps, page).calls);
      calls := calls + round;
      page := page + 1;
    }
    exit := FellThrough;
  }

  /**
   * One iteration of the page loop: the files read, and for a non-empty page
   * the prompt assembly, the generation request and the publish.
   */
  method RunPage(cfg: Config, title: string, env: Env, page: nat)
    returns (stop: Option<Exit>, round: seq<Call>)
    requires Complete(env) && 1 <= page <= MaxPages
    ensures Step(stop, round) == PageStep(cfg, title, env, page)
  {
    var response := env.pages[page - 1];
    round := [FetchFiles(page)];
    if response.status != StatusOk {
      return Some(Returned(0)), round;
    }
    if |response.entries| == 0 {
      // `break`: the loop ends and `main` falls off its end
      return Some(FellThrough), round;
    }
    var prompt := AssemblePrompt(title, response.entries);
    prompt := Truncate(prompt, cfg.maxPromptToken);
    round := round + [Generate(RequestFor(cfg, prompt))];
    var description := StripPrefix(env.completions[page - 1]);
    if description == [] {
      // `description[0]` raises IndexError
      return Some(Raised), round;
    }
    description := Capitalize(description);
    assert Postprocess(env.completions[page - 1]) == Some(description);
    round := round + [Publish(description)];
    if env.publishStatus[page - 1] != StatusOk {
      return Some(Returned(1)), round;
    }
    stop := None;
  }
}
