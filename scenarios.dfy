/** Concrete situations: pagination stop and cap, the two failure paths, one complete run. */
module Scenarios {
  import opened Wrappers
  import opened Hosting
  import opened Settings
  import opened Eligibility
  import opened Prompt
  import opened Description
  import opened Generation
  import opened Driver
  import opened RunProperties

  lemma {:induction false} DoneBodiesLength(env: Env, from: nat, to: nat)
    requires Complete(env) && 1 <= from <= to <= MaxPages + 1
    requires forall p :: from <= p < to ==> PageDone(env, p)
    ensures |DoneBodies(env, from, to)| == to - from
    decreases MaxPages + 1 - from
  {
    if from < to {
      DoneBodiesLength(env, from + 1, to);
    }
  }

  /** Where the loop stops when page 1 is handled and page 2 is empty. */
  lemma SecondPageStops(env: Env)
    requires Complete(env) && PageDone(env, 1)
    requires env.pages[1].status == StatusOk && env.pages[1].entries == []
    ensures StopPage(env) == 2 && PagesRead(env) == 2 && StopExit(env, 2) == FellThrough
    ensures DoneBodies(env, 1, 2) + PublishedAt(env, 2) == [PageBody(env, 1)]
  {
    assert !PageDone(env, 2);
    assert DoneBodies(env, 1, 2) == [PageBody(env, 1)] + [];
    assert PublishedAt(env, 2) == [];
  }

  /** Page 1 is handled, page 2 is empty: exactly two files reads, one publish, and the run falls through. */
  lemma EmptySecondPage(cfg: Config, env: Env)
    requires Complete(env) && Proceeds(cfg, env) && PageDone(env, 1)
    requires env.pages[1].status == StatusOk && env.pages[1].entries == []
    ensures FetchedPages(Outcome(cfg, env).calls) == [1, 2]
    ensures Bodies(Outcome(cfg, env).calls) == [PageBody(env, 1)]
    ensures Outcome(cfg, env).exit == FellThrough
  {
    SecondPageStops(env);
    RunFetches(cfg, env);
    RunBodies(cfg, env);
    RunExit(cfg, env);
    assert Range(1, 3) == [1, 2];
  }

  /** All ten pages are handled: exactly ten files reads, ten publishes, no eleventh read, and the run falls through. */
  lemma TenFullPages(cfg: Config, env: Env)
    requires Complete(env) && Proceeds(cfg, env)
    requires forall p :: 1 <= p <= MaxPages ==> PageDone(env, p)
    ensures FetchedPages(Outcome(cfg, env).calls) == Range(1, MaxPages + 1)
    ensures |Bodies(Outcome(cfg, env).calls)| == MaxPages
    ensures Outcome(cfg, env).exit == FellThrough
  {
    assert StopPage(env) == MaxPages + 1;
    RunFetches(cfg, env);
    RunExit(cfg, env);
    RunBodies(cfg, env);
    DoneBodiesLength(env, 1, MaxPages + 1);
  }

  /** A failed read of page 1 ends the run with 0, with no generation and no publish. */
  lemma FirstFilesReadFails(cfg: Config, env: Env)
    requires Complete(env) && Proceeds(cfg, env)
    requires env.pages[0].status != StatusOk
    ensures Outcome(cfg, env) == Run(Returned(0), [FetchPullRequest, FetchFiles(1)])
    ensures ExitStatus(Outcome(cfg, env).exit) == 0
  {
    var steps := Steps(cfg, env.pullRequest.data.title, env);
    assert StopPage(env) == 1;
    RunIsLoop(cfg, env);
    assert steps[0].round == [FetchFiles(1)];
    assert Rounds(steps, 0, 1) == [FetchFiles(1)] + [];
  }

  /** A failed first publish ends the run with 1 after publishing once, and page 2 is never read. */
  lemma FirstPublishFails(cfg: Config, env: Env)
    requires Complete(env) && Proceeds(cfg, env)
    requires PageRead(env, 1) && Postprocess(env.completions[0]).Some?
    requires env.publishStatus[0] != StatusOk
    ensures Outcome(cfg, env).exit == Returned(1) && ExitStatus(Outcome(cfg, env).exit) == 1
    ensures FetchedPages(Outcome(cfg, env).calls) == [1]
    ensures Bodies(Outcome(cfg, env).calls) == [PageBody(env, 1)]
  {
    assert StopPage(env) == 1;
    RunFetches(cfg, env);
    RunBodies(cfg, env);
    assert Range(1, 2) == [1];
  }

  /** The generated text of the scenario below, once post-processed. */
  lemma ValgrindDescription()
    ensures Postprocess("adds valgrind") == Some("Adds valgrind")
  {
    assert !(RedundantPrefix <= "adds valgrind") by {
      assert |"adds valgrind"| < |RedundantPrefix|;
    }
    StripPrefixResult("adds valgrind");
    assert UpperChar('a') == 'A';
    assert ['A'] + "adds valgrind"[1..] == "Adds valgrind";
  }

  /** The prompt of the scenario below: the header and the one patched file, well within the budget. */
  lemma ValgrindPrompt(entries: seq<Entry>)
    requires entries == [Entry("ci.yml", Some("+valgrind")), Entry("logo.png", None)]
    ensures Truncate(PagePrompt("Enable valgrind on CI", entries), 1048) ==
              Header("Enable valgrind on CI") + FileLine("ci.yml", "+valgrind")
  {
    assert entries == [entries[0]] + [entries[1]] + [];
    PatchlessEntrySkipped([entries[0]], entries[1], []);
    PatchedEntryLine("ci.yml", "+valgrind");
    assert [entries[0]] + [] == [entries[0]];
    var prompt := PagePrompt("Enable valgrind on CI", entries);
    assert prompt == Header("Enable valgrind on CI") + FileLine("ci.yml", "+valgrind");
    assert |prompt| <= 1048 * CharsPerToken;
    TruncateResult(prompt, 1048);
  }

  /**
   * A pull request with no body, no allow-list, one page holding a patched
   * and an unpatched file, then an empty page: the one prompt holds only the
   * patched file, the generated text is published capitalised, and the run
   * falls through.
   */
  lemma ValgrindPullRequest(cfg: Config, env: Env)
    requires Complete(env) && cfg.allowedUsers == [] && cfg.maxPromptToken == 1048
    requires env.pullRequest == PullRequestResponse(StatusOk, PullRequest("Enable valgrind on CI", None, "alice"))
    requires env.pages[0] == FilesResponse(StatusOk, [Entry("ci.yml", Some("+valgrind")), Entry("logo.png", None)])
    requires env.pages[1] == FilesResponse(StatusOk, [])
    requires env.completions[0] == "adds valgrind" && env.publishStatus[0] == StatusOk
    ensures Outcome(cfg, env) ==
              Run(FellThrough,
                  [FetchPullRequest,
                   FetchFiles(1),
                   Generate(RequestFor(cfg, Header("Enable valgrind on CI") + FileLine("ci.yml", "+valgrind"))),
                   Publish("Adds valgrind"),
                   FetchFiles(2)])
  {
    ValgrindDescription();
    ValgrindPrompt(env.pages[0].entries);
    var title := "Enable valgrind on CI";
    assert Proceeds(cfg, env);
    RunIsLoop(cfg, env);
    var first := PageStep(cfg, title, env, 1);
    assert first == Step(None, [FetchFiles(1),
                                Generate(RequestFor(cfg, Header(title) + FileLine("ci.yml", "+valgrind"))),
                                Publish("Adds valgrind")]);
    var steps := Steps(cfg, title, env);
    assert StopPage(env) == 2 by {
      assert PageDone(env, 1) && !PageDone(env, 2);
    }
    assert steps[0] == first && steps[1].round == [FetchFiles(2)];
    assert Rounds(steps, 0, 2) == first.round + ([FetchFiles(2)] + []);
  }
}
