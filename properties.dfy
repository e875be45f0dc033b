/**
 * What a run does, stated over its call sequence: which pages are read, how
 * the run ends, what is published, and how each generation and publish
 * belongs to the page read just before it.
 */
module RunProperties {
  import opened Wrappers
  import opened Hosting
  import opened Settings
  import opened Eligibility
  import opened Prompt
  import opened Description
  import opened Generation
  import opened Driver
  import opened Sequences

  // ---------------------------------------------------------------------------
  // Projections of a call sequence

  /** The page numbers of the files reads, in the order they are made. */
  function FetchedPages(calls: seq<Call>): seq<nat>
    decreases |calls|
  {
    if calls == [] then []
    else (if calls[0].FetchFiles? then [calls[0].page] else []) + FetchedPages(calls[1..])
  }

  /** The bodies sent by the publish calls, in order. */
  function Bodies(calls: seq<Call>): seq<string>
    decreases |calls|
  {
    if calls == [] then []
    else (if calls[0].Publish? then [calls[0].body] else []) + Bodies(calls[1..])
  }

  /** Whether a files read obtained a successful, non-empty page. */
  predicate NonEmptyRead(env: Env, call: Call) {
    call.FetchFiles? && 1 <= call.page <= |env.pages| &&
    env.pages[call.page - 1].status == StatusOk && env.pages[call.page - 1].entries != []
  }

  /** The number of files reads that obtained a successful, non-empty page. */
  function NonEmptyReads(env: Env, calls: seq<Call>): nat
    decreases |calls|
  {
    if calls == [] then 0
    else (if NonEmptyRead(env, calls[0]) then 1 else 0) + NonEmptyReads(env, calls[1..])
  }

  /** The page numbers `lo, lo + 1, ..., hi - 1`. */
  function Range(lo: nat, hi: nat): seq<nat>
    decreases hi - lo
  {
    if lo >= hi then [] else [lo] + Range(lo + 1, hi)
  }

  lemma {:induction false} RangeElements(lo: nat, hi: nat)
    requires lo <= hi
    ensures |Range(lo, hi)| == hi - lo
    ensures forall i :: 0 <= i < hi - lo ==> Range(lo, hi)[i] == lo + i
    decreases hi - lo
  {
    if lo < hi {
      RangeElements(lo + 1, hi);
    }
  }

  lemma {:induction false} FetchedPagesAppend(a: seq<Call>, b: seq<Call>)
    ensures FetchedPages(a + b) == FetchedPages(a) + FetchedPages(b)
    decreases |a|
  {
    if a == [] {
      assert a + b == b;
    } else {
      assert (a + b)[0] == a[0] && (a + b)[1..] == a[1..] + b;
      FetchedPagesAppend(a[1..], b);
    }
  }

  lemma {:induction false} BodiesAppend(a: seq<Call>, b: seq<Call>)
    ensures Bodies(a + b) == Bodies(a) + Bodies(b)
    decreases |a|
  {
    if a == [] {
      assert a + b == b;
    } else {
      assert (a + b)[0] == a[0] && (a + b)[1..] == a[1..] + b;
      BodiesAppend(a[1..], b);
    }
  }

  lemma {:induction false} NonEmptyReadsAppend(env: Env, a: seq<Call>, b: seq<Call>)
    ensures NonEmptyReads(env, a + b) == NonEmptyReads(env, a) + NonEmptyReads(env, b)
    decreases |a|
  {
    if a == [] {
      assert a + b == b;
    } else {
      assert (a + b)[0] == a[0] && (a + b)[1..] == a[1..] + b;
      NonEmptyReadsAppend(env, a[1..], b);
    }
  }

  // ---------------------------------------------------------------------------
  // A reference description of the page loop: where it stops and why

  /** A page the loop gets through without stopping: read, generated and published successfully. */
  predicate PageDone(env: Env, page: nat)
    requires Complete(env) && 1 <= page <= MaxPages
  {
    env.pages[page - 1].status == StatusOk && env.pages[page - 1].entries != [] &&
    Postprocess(env.completions[page - 1]).Some? && env.publishStatus[page - 1] == StatusOk
  }

  /** The first page from `page` on that the loop does not get through; `MaxPages + 1` if there is none. */
  function FirstStop(env: Env, page: nat): (stop: nat)
    requires Complete(env) && 1 <= page <= MaxPages + 1
    ensures page <= stop <= MaxPages + 1
    ensures stop <= MaxPages ==> !PageDone(env, stop)
    ensures forall p :: page <= p < stop ==> PageDone(env, p)
    decreases MaxPages + 1 - page
  {
    if page > MaxPages || !PageDone(env, page) then page else FirstStop(env, page + 1)
  }

  /** How the loop ends at its stopping page. */
  function StopExit(env: Env, stop: nat): Exit
    requires Complete(env) && 1 <= stop <= MaxPages + 1
  {
    if stop > MaxPages then FellThrough
    else if env.pages[stop - 1].status != StatusOk then Returned(0)
    else if env.pages[stop - 1].entries == [] then FellThrough
    else if Postprocess(env.completions[stop - 1]).None? then Raised
    else Returned(1)
  }

  /** The description a page's generated text becomes. */
  function PageBody(env: Env, page: nat): string
    requires Complete(env) && 1 <= page <= MaxPages
    requires Postprocess(env.completions[page - 1]).Some?
  {
    Postprocess(env.completions[page - 1]).value
  }

  /** The descriptions of the pages `from .. to - 1`, all of which the loop gets through. */
  function DoneBodies(env: Env, from: nat, to: nat): seq<string>
    requires Complete(env) && 1 <= from <= to <= MaxPages + 1
    requires forall p :: from <= p < to ==> PageDone(env, p)
    decreases MaxPages + 1 - from
  {
    if from == to then []
    else
      assert PageDone(env, from);
      [PageBody(env, from)] + DoneBodies(env, from + 1, to)
  }

  // ---------------------------------------------------------------------------
  // Each generation and publish belongs to the page read just before it

  /**
   * A generation request sits right after a files read and carries the
   * truncated prompt of that page alone.
   */
  predicate GenerationPaired(cfg: Config, title: string, env: Env, calls: seq<Call>, i: nat)
    requires Complete(env) && i < |calls|
  {
    calls[i].Generate? ==>
      i >= 1 && calls[i - 1].FetchFiles? && 1 <= calls[i - 1].page <= MaxPages &&
      calls[i].request == RequestForPage(cfg, title, env, calls[i - 1].page)
  }

  /**
   * A publish sits right after a generation request, which sits right after a
   * files read, and sends the post-processed text generated for that page.
   */
  predicate PublishPaired(env: Env, calls: seq<Call>, i: nat)
    requires Complete(env) && i < |calls|
  {
    calls[i].Publish? ==>
      i >= 2 && calls[i - 1].Generate? && calls[i - 2].FetchFiles? && 1 <= calls[i - 2].page <= MaxPages &&
      Postprocess(env.completions[calls[i - 2].page - 1]) == Some(calls[i].body)
  }

  predicate Paired(cfg: Config, title: string, env: Env, calls: seq<Call>)
    requires Complete(env)
  {
    forall i :: 0 <= i < |calls| ==> GenerationPaired(cfg, title, env, calls, i) && PublishPaired(env, calls, i)
  }

  lemma PairedAppend(cfg: Config, title: string, env: Env, a: seq<Call>, b: seq<Call>)
    requires Complete(env)
    requires Paired(cfg, title, env, a) && Paired(cfg, title, env, b)
    ensures Paired(cfg, title, env, a + b)
  {
    var c := a + b;
    forall i | 0 <= i < |c|
      ensures GenerationPaired(cfg, title, env, c, i) && PublishPaired(env, c, i)
    {
      if i < |a| {
        assert GenerationPaired(cfg, title, env, a, i) && PublishPaired(env, a, i);
        assert c[i] == a[i];
        if i >= 1 { assert c[i - 1] == a[i - 1]; }
        if i >= 2 { assert c[i - 2] == a[i - 2]; }
      } else {
        var j := i - |a|;
        assert GenerationPaired(cfg, title, env, b, j) && PublishPaired(env, b, j);
        assert c[i] == b[j];
        if j >= 1 { assert c[i - 1] == b[j - 1]; }
        if j >= 2 { assert c[i - 2] == b[j - 2]; }
      }
    }
  }

  // ---------------------------------------------------------------------------
  // One iteration of the loop

  /** A files read obtained a successful, non-empty page. */
  predicate PageRead(env: Env, page: nat)
    requires Complete(env) && 1 <= page <= MaxPages
  {
    env.pages[page - 1].status == StatusOk && env.pages[page - 1].entries != []
  }

  /** The iteration for `page` gets as far as publishing: its page is non-empty and its text survives post-processing. */
  predicate Publishes(env: Env, page: nat)
    requires Complete(env) && 1 <= page
  {
    page <= MaxPages && PageRead(env, page) && Postprocess(env.completions[page - 1]).Some?
  }

  /** What the iteration for `page` publishes. */
  function PublishedAt(env: Env, page: nat): seq<string>
    requires Complete(env) && 1 <= page
  {
    if Publishes(env, page) then [PageBody(env, page)] else []
  }

  /**
   * The calls of one iteration: the read of its page and, when the page was
   * read and is not empty, the generation request and then, when the text
   * survives post-processing, the publish.
   */
  function Round(page: nat, read: bool, request: Request, body: Option<string>): seq<Call> {
    if !read then [FetchFiles(page)]
    else if body.None? then [FetchFiles(page), Generate(request)]
    else [FetchFiles(page), Generate(request), Publish(body.value)]
  }

  lemma RoundFetches(page: nat, read: bool, request: Request, body: Option<string>)
    ensures FetchedPages(Round(page, read, request, body)) == [page]
  {
    var f, g := FetchFiles(page), Generate(request);
    assert [f][1..] == [] && [f, g][1..] == [g] && [g][1..] == [];
    assert FetchedPages([g]) == [];
    if read && body.Some? {
      var q := Publish(body.value);
      assert [f, g, q][1..] == [g, q] && [g, q][1..] == [q] && [q][1..] == [];
      assert FetchedPages([q]) == [];
      assert FetchedPages([g, q]) == [];
    }
  }

  lemma RoundBodies(page: nat, read: bool, request: Request, body: Option<string>)
    ensures Bodies(Round(page, read, request, body)) == if read && body.Some? then [body.value] else []
  {
    var f, g := FetchFiles(page), Generate(request);
    assert [f][1..] == [] && [f, g][1..] == [g] && [g][1..] == [];
    assert Bodies([g]) == [];
    if read && body.Some? {
      var q := Publish(body.value);
      assert [f, g, q][1..] == [g, q] && [g, q][1..] == [q] && [q][1..] == [];
      assert Bodies([q]) == [body.value];
      assert Bodies([g, q]) == [body.value];
    }
  }

  lemma RoundReads(env: Env, page: nat, read: bool, request: Request, body: Option<string>)
    ensures NonEmptyReads(env, Round(page, read, request, body)) == if NonEmptyRead(env, FetchFiles(page)) then 1 else 0
  {
    var f, g := FetchFiles(page), Generate(request);
    assert [f][1..] == [] && [f, g][1..] == [g] && [g][1..] == [];
    assert NonEmptyReads(env, [g]) == 0;
    if read && body.Some? {
      var q := Publish(body.value);
      assert [f, g, q][1..] == [g, q] && [g, q][1..] == [q] && [q][1..] == [];
      assert NonEmptyReads(env, [q]) == 0;
      assert NonEmptyReads(env, [g, q]) == 0;
    }
  }

  lemma RoundPaired(cfg: Config, title: string, env: Env, page: nat, read: bool)
    requires Complete(env) && 1 <= page <= MaxPages
    ensures var request := RequestForPage(cfg, title, env, page);
            Paired(cfg, title, env, Round(page, read, request, Postprocess(env.completions[page - 1])))
  {
    var request := RequestForPage(cfg, title, env, page);
    var body := Postprocess(env.completions[page - 1]);
    var f, g := FetchFiles(page), Generate(request);
    if !read {
      assert GenerationPaired(cfg, title, env, [f], 0) && PublishPaired(env, [f], 0);
    } else if body.None? {
      assert GenerationPaired(cfg, title, env, [f, g], 0) && PublishPaired(env, [f, g], 0);
      assert GenerationPaired(cfg, title, env, [f, g], 1) && PublishPaired(env, [f, g], 1);
    } else {
      var q := Publish(body.value);
      assert GenerationPaired(cfg, title, env, [f, g, q], 0) && PublishPaired(env, [f, g, q], 0);
      assert GenerationPaired(cfg, title, env, [f, g, q], 1) && PublishPaired(env, [f, g, q], 1);
      assert GenerationPaired(cfg, title, env, [f, g, q], 2) && PublishPaired(env, [f, g, q], 2);
    }
  }

  /** The calls of the iteration for `page`. */
  lemma StepRound(cfg: Config, title: string, env: Env, page: nat)
    requires Complete(env) && 1 <= page <= MaxPages
    ensures PageStep(cfg, title, env, page).round ==
              Round(page, PageRead(env, page), RequestForPage(cfg, title, env, page), Postprocess(env.completions[page - 1]))
  {
  }

  /** An iteration goes on to the next page exactly when the loop gets through its page, and otherwise ends the run as StopExit says. */
  lemma StepStop(cfg: Config, title: string, env: Env, page: nat)
    requires Complete(env) && 1 <= page <= MaxPages
    ensures var step := PageStep(cfg, title, env, page);
            (step.stop.None? <==> PageDone(env, page)) &&
            (step.stop.Some? ==> step.stop.value == StopExit(env, page))
  {
  }

  /** An iteration reads exactly its own page. */
  lemma StepFetches(cfg: Config, title: string, env: Env, page: nat)
    requires Complete(env) && 1 <= page <= MaxPages
    ensures FetchedPages(PageStep(cfg, title, env, page).round) == [page]
  {
    StepRound(cfg, title, env, page);
    RoundFetches(page, PageRead(env, page), RequestForPage(cfg, title, env, page), Postprocess(env.completions[page - 1]));
  }

  /** An iteration publishes exactly when its page is non-empty and its text survives post-processing. */
  lemma StepBodies(cfg: Config, title: string, env: Env, page: nat)
    requires Complete(env) && 1 <= page <= MaxPages
    ensures Bodies(PageStep(cfg, title, env, page).round) == PublishedAt(env, page)
  {
    StepRound(cfg, title, env, page);
    RoundBodies(page, PageRead(env, page), RequestForPage(cfg, title, env, page), Postprocess(env.completions[page - 1]));
  }

  /** An iteration counts as one non-empty read exactly when its page is non-empty. */
  lemma StepReads(cfg: Config, title: string, env: Env, page: nat)
    requires Complete(env) && 1 <= page <= MaxPages
    ensures NonEmptyReads(env, PageStep(cfg, title, env, page).round) == if PageRead(env, page) then 1 else 0
  {
    StepRound(cfg, title, env, page);
    RoundReads(env, page, PageRead(env, page), RequestForPage(cfg, title, env, page), Postprocess(env.completions[page - 1]));
    assert NonEmptyRead(env, FetchFiles(page)) == PageRead(env, page);
  }

  /** An iteration's generation request and publish belong to its own page. */
  lemma StepPaired(cfg: Config, title: string, env: Env, page: nat)
    requires Complete(env) && 1 <= page <= MaxPages
    ensures Paired(cfg, title, env, PageStep(cfg, title, env, page).round)
  {
    StepRound(cfg, title, env, page);
    RoundPaired(cfg, title, env, page, PageRead(env, page));
  }

  // ---------------------------------------------------------------------------
  // The loop over any sequence of iterations

  /** The first iteration from `k` on that ends the run; `|steps|` if none does. */
  function FirstEnd(steps: seq<Step>, k: nat): (j: nat)
    requires k <= |steps|
    ensures k <= j <= |steps|
    ensures j < |steps| ==> steps[j].stop.Some?
    decreases |steps| - k
  {
    if k == |steps| || steps[k].stop.Some? then k else FirstEnd(steps, k + 1)
  }

  /** The calls of the iterations `k .. j - 1`, one after the other. */
  function Rounds(steps: seq<Step>, k: nat, j: nat): seq<Call>
    requires k <= j <= |steps|
    decreases j - k
  {
    if k == j then [] else steps[k].round + Rounds(steps, k + 1, j)
  }

  /**
   * The loop makes the calls of every iteration up to and including the first
   * one that ends the run, and ends as that one does; it falls through when
   * none does.
   */
  lemma {:induction false} LoopShape(steps: seq<Step>, k: nat)
    requires k <= |steps|
    ensures var j := FirstEnd(steps, k);
            Loop(steps, k) ==
              if j == |steps| then Run(FellThrough, Rounds(steps, k, j))
              else Run(steps[j].stop.value, Rounds(steps, k, j + 1))
    decreases |steps| - k
  {
    if k < |steps| {
      if steps[k].stop.Some? {
        assert Rounds(steps, k + 1, k + 1) == [];
        assert steps[k].round + [] == steps[k].round;
      } else {
        LoopShape(steps, k + 1);
      }
    }
  }

  lemma {:induction false} RoundsSnoc(steps: seq<Step>, k: nat, j: nat)
    requires k < j <= |steps|
    ensures Rounds(steps, k, j) == Rounds(steps, k, j - 1) + steps[j - 1].round
    decreases j - k
  {
    if k == j - 1 {
      assert Rounds(steps, k + 1, j) == [];
      assert steps[k].round + [] == steps[k].round;
    } else {
      RoundsSnoc(steps, k + 1, j);
      ConcatAssociative(steps[k].round, Rounds(steps, k + 1, j - 1), steps[j - 1].round);
    }
  }

  /** Iterations that each read their own page read the pages in order. */
  lemma {:induction false} RoundsFetches(steps: seq<Step>, k: nat, j: nat)
    requires k <= j <= |steps|
    requires forall i {:trigger FetchedPages(steps[i].round)} :: k <= i < j ==> FetchedPages(steps[i].round) == [i + 1]
    ensures FetchedPages(Rounds(steps, k, j)) == Range(k + 1, j + 1)
    decreases j - k
  {
    if k < j {
      RoundsFetches(steps, k + 1, j);
      FetchedPagesAppend(steps[k].round, Rounds(steps, k + 1, j));
    }
  }

  /** Iterations that each publish their own page's description publish them in order. */
  lemma {:induction false} RoundsBodies(env: Env, steps: seq<Step>, k: nat, j: nat)
    requires Complete(env) && |steps| == MaxPages && k <= j <= MaxPages
    requires forall p :: k + 1 <= p <= j ==> PageDone(env, p)
    requires forall i {:trigger Bodies(steps[i].round)} :: 0 <= i < MaxPages ==> Bodies(steps[i].round) == PublishedAt(env, i + 1)
    ensures Bodies(Rounds(steps, k, j)) == DoneBodies(env, k + 1, j + 1)
    decreases j - k
  {
    if k < j {
      RoundsBodies(env, steps, k + 1, j);
      BodiesAppend(steps[k].round, Rounds(steps, k + 1, j));
      assert PageDone(env, k + 1);
    }
  }

  /** Iterations that each publish once per non-empty read do so together. */
  lemma {:induction false} RoundsPublishCount(env: Env, steps: seq<Step>, k: nat, j: nat)
    requires k <= j <= |steps|
    requires forall i {:trigger Bodies(steps[i].round)} :: k <= i < j ==> |Bodies(steps[i].round)| == NonEmptyReads(env, steps[i].round)
    ensures |Bodies(Rounds(steps, k, j))| == NonEmptyReads(env, Rounds(steps, k, j))
    decreases j - k
  {
    if k < j {
      RoundsPublishCount(env, steps, k + 1, j);
      BodiesAppend(steps[k].round, Rounds(steps, k + 1, j));
      NonEmptyReadsAppend(env, steps[k].round, Rounds(steps, k + 1, j));
    }
  }

  /** Iterations whose calls each belong to their own page still do so together. */
  lemma {:induction false} RoundsPaired(cfg: Config, title: string, env: Env, steps: seq<Step>, k: nat, j: nat)
    requires Complete(env) && k <= j <= |steps|
    requires forall i {:trigger Paired(cfg, title, env, steps[i].round)} :: k <= i < j ==> Paired(cfg, title, env, steps[i].round)
    ensures Paired(cfg, title, env, Rounds(steps, k, j))
    decreases j - k
  {
    if k < j {
      RoundsPaired(cfg, title, env, steps, k + 1, j);
      PairedAppend(cfg, title, env, steps[k].round, Rounds(steps, k + 1, j));
    }
  }

  // ---------------------------------------------------------------------------
  // The iterations of the page loop

  lemma StepsStop(cfg: Config, title: string, env: Env)
    requires Complete(env)
    ensures var steps := Steps(cfg, title, env);
            forall i {:trigger steps[i].stop} :: 0 <= i < MaxPages ==>
              (steps[i].stop.None? <==> PageDone(env, i + 1)) &&
              (steps[i].stop.Some? ==> steps[i].stop.value == StopExit(env, i + 1))
  {
    var steps := Steps(cfg, title, env);
    forall i | 0 <= i < MaxPages
      ensures (steps[i].stop.None? <==> PageDone(env, i + 1)) &&
              (steps[i].stop.Some? ==> steps[i].stop.value == StopExit(env, i + 1))
    {
      assert steps[i] == PageStep(cfg, title, env, i + 1);
      StepStop(cfg, title, env, i + 1);
    }
  }

  lemma StepsFetches(cfg: Config, title: string, env: Env)
    requires Complete(env)
    ensures var steps := Steps(cfg, title, env);
            forall i {:trigger FetchedPages(steps[i].round)} :: 0 <= i < MaxPages ==> FetchedPages(steps[i].round) == [i + 1]
  {
    var steps := Steps(cfg, title, env);
    forall i | 0 <= i < MaxPages
      ensures FetchedPages(steps[i].round) == [i + 1]
    {
      assert steps[i] == PageStep(cfg, title, env, i + 1);
      StepFetches(cfg, title, env, i + 1);
    }
  }

  lemma StepsBodies(cfg: Config, title: string, env: Env)
    requires Complete(env)
    ensures var steps := Steps(cfg, title, env);
            forall i {:trigger Bodies(steps[i].round)} :: 0 <= i < MaxPages ==>
              Bodies(steps[i].round) ==
                PublishedAt(env, i + 1)
  {
    var steps := Steps(cfg, title, env);
    forall i | 0 <= i < MaxPages
      ensures Bodies(steps[i].round) ==
                PublishedAt(env, i + 1)
    {
      assert steps[i] == PageStep(cfg, title, env, i + 1);
      StepBodies(cfg, title, env, i + 1);
    }
  }

  lemma StepsReads(cfg: Config, title: string, env: Env)
    requires Complete(env)
    ensures var steps := Steps(cfg, title, env);
            forall i {:trigger NonEmptyReads(env, steps[i].round)} :: 0 <= i < MaxPages ==>
              NonEmptyReads(env, steps[i].round) == if PageRead(env, i + 1) then 1 else 0
  {
    var steps := Steps(cfg, title, env);
    forall i | 0 <= i < MaxPages
      ensures NonEmptyReads(env, steps[i].round) == if PageRead(env, i + 1) then 1 else 0
    {
      assert steps[i] == PageStep(cfg, title, env, i + 1);
      StepReads(cfg, title, env, i + 1);
    }
  }

  lemma StepsPaired(cfg: Config, title: string, env: Env)
    requires Complete(env)
    ensures var steps := Steps(cfg, title, env);
            forall i {:trigger Paired(cfg, title, env, steps[i].round)} :: 0 <= i < MaxPages ==> Paired(cfg, title, env, steps[i].round)
  {
    var steps := Steps(cfg, title, env);
    forall i | 0 <= i < MaxPages
      ensures Paired(cfg, title, env, steps[i].round)
    {
      assert steps[i] == PageStep(cfg, title, env, i + 1);
      StepPaired(cfg, title, env, i + 1);
    }
  }

  /** The first iteration that ends the run is the one for the first page the loop does not get through. */
  lemma {:induction false} FirstEndIsStop(env: Env, steps: seq<Step>, k: nat)
    requires Complete(env) && |steps| == MaxPages && k <= MaxPages
    requires forall i {:trigger steps[i].stop} :: 0 <= i < MaxPages ==> (steps[i].stop.None? <==> PageDone(env, i + 1))
    ensures FirstEnd(steps, k) + 1 == FirstStop(env, k + 1)
    decreases MaxPages - k
  {
    if k < MaxPages {
      FirstEndIsStop(env, steps, k + 1);
    }
  }

  // ---------------------------------------------------------------------------
  // The whole run

  /** The run gets past the pull-request read and both eligibility stops. */
  predicate Proceeds(cfg: Config, env: Env) {
    env.pullRequest.status == StatusOk && Decide(env.pullRequest.data, cfg.allowedUsers) == Proceed
  }

  /** The page the loop of a proceeding run stops at (`MaxPages + 1`: it got through all ten). */
  function StopPage(env: Env): nat
    requires Complete(env)
  {
    FirstStop(env, 1)
  }

  /** The number of files pages a proceeding run reads. */
  function PagesRead(env: Env): nat
    requires Complete(env)
  {
    if StopPage(env) <= MaxPages then StopPage(env) else MaxPages
  }

  /**
   * A proceeding run reads the pull request and then runs the iterations of
   * the pages 1 .. PagesRead, ending as its stopping page dictates.
   */
  lemma RunIsLoop(cfg: Config, env: Env)
    requires Complete(env) && Proceeds(cfg, env)
    ensures var steps := Steps(cfg, env.pullRequest.data.title, env);
            Outcome(cfg, env) ==
              Run(StopExit(env, StopPage(env)), [FetchPullRequest] + Rounds(steps, 0, PagesRead(env)))
  {
    var title := env.pullRequest.data.title;
    StepsStop(cfg, title, env);
    LoopEnds(env, Steps(cfg, title, env));
  }

  /**
   * Iterations that go on exactly through the pages the loop gets through,
   * and otherwise end as StopExit says, run the pages 1 .. PagesRead.
   */
  lemma LoopEnds(env: Env, steps: seq<Step>)
    requires Complete(env) && |steps| == MaxPages
    requires forall i {:trigger steps[i].stop} :: 0 <= i < MaxPages ==>
               (steps[i].stop.None? <==> PageDone(env, i + 1)) &&
               (steps[i].stop.Some? ==> steps[i].stop.value == StopExit(env, i + 1))
    ensures Loop(steps, 0) == Run(StopExit(env, StopPage(env)), Rounds(steps, 0, PagesRead(env)))
  {
    var j := FirstEnd(steps, 0);
    FirstEndIsStop(env, steps, 0);
    LoopShape(steps, 0);
    if j < MaxPages {
      assert PagesRead(env) == j + 1;
      assert steps[j].stop.value == StopExit(env, j + 1);
    } else {
      assert PagesRead(env) == j && StopExit(env, StopPage(env)) == FellThrough;
    }
  }

  /** The pull-request read in front of the loop's calls adds no files read and no publish. */
  lemma AfterPullRequestRead(loop: seq<Call>)
    ensures FetchedPages([FetchPullRequest] + loop) == FetchedPages(loop)
    ensures Bodies([FetchPullRequest] + loop) == Bodies(loop)
  {
    var c := [FetchPullRequest] + loop;
    assert c[0] == FetchPullRequest && c[1..] == loop;
  }

  /** Nor does it add a non-empty read. */
  lemma AfterPullRequestReadCount(env: Env, loop: seq<Call>)
    ensures NonEmptyReads(env, [FetchPullRequest] + loop) == NonEmptyReads(env, loop)
  {
    var c := [FetchPullRequest] + loop;
    assert c[0] == FetchPullRequest && c[1..] == loop;
  }

  /** Iterations that each read their own page make a run of `n` of them read the pages 1 .. n in order. */
  lemma LoopFetches(steps: seq<Step>, n: nat)
    requires n <= |steps|
    requires forall i {:trigger FetchedPages(steps[i].round)} :: 0 <= i < |steps| ==> FetchedPages(steps[i].round) == [i + 1]
    ensures var fetched := FetchedPages([FetchPullRequest] + Rounds(steps, 0, n));
            |fetched| == n && (forall i :: 0 <= i < n ==> fetched[i] == i + 1) && fetched == Range(1, n + 1)
  {
    AfterPullRequestRead(Rounds(steps, 0, n));
    RoundsFetches(steps, 0, n);
    RangeElements(1, n + 1);
  }

  /**
   * Iterations that each publish their page's description when it survives
   * post-processing make the run publish those of the pages it gets through,
   * and the stopping page's when its publish failed.
   */
  lemma LoopBodies(env: Env, steps: seq<Step>)
    requires Complete(env) && |steps| == MaxPages
    requires forall i {:trigger Bodies(steps[i].round)} :: 0 <= i < MaxPages ==>
               Bodies(steps[i].round) ==
                 PublishedAt(env, i + 1)
    ensures Bodies([FetchPullRequest] + Rounds(steps, 0, PagesRead(env))) ==
              DoneBodies(env, 1, StopPage(env)) +
              PublishedAt(env, StopPage(env))
  {
    var stop := StopPage(env);
    AfterPullRequestRead(Rounds(steps, 0, PagesRead(env)));
    if stop <= MaxPages {
      assert PagesRead(env) == stop;
      StoppedBodies(env, steps, stop);
    } else {
      assert stop == MaxPages + 1 && PagesRead(env) == MaxPages;
      AllDoneBodies(env, steps);
    }
  }

  /** LoopBodies when the loop gets through all ten pages. */
  lemma AllDoneBodies(env: Env, steps: seq<Step>)
    requires Complete(env) && |steps| == MaxPages
    requires forall p :: 1 <= p <= MaxPages ==> PageDone(env, p)
    requires forall i {:trigger Bodies(steps[i].round)} :: 0 <= i < MaxPages ==>
               Bodies(steps[i].round) ==
                 PublishedAt(env, i + 1)
    ensures Bodies(Rounds(steps, 0, MaxPages)) ==
              DoneBodies(env, 1, MaxPages + 1) + PublishedAt(env, MaxPages + 1)
  {
    RoundsBodies(env, steps, 0, MaxPages);
    assert PublishedAt(env, MaxPages + 1) == [];
    assert DoneBodies(env, 1, MaxPages + 1) + [] == DoneBodies(env, 1, MaxPages + 1);
  }

  /** LoopBodies when the loop stops at page `stop`. */
  lemma StoppedBodies(env: Env, steps: seq<Step>, stop: nat)
    requires Complete(env) && |steps| == MaxPages && 1 <= stop <= MaxPages
    requires forall p :: 1 <= p < stop ==> PageDone(env, p)
    requires forall i {:trigger Bodies(steps[i].round)} :: 0 <= i < MaxPages ==>
               Bodies(steps[i].round) ==
                 PublishedAt(env, i + 1)
    ensures Bodies(Rounds(steps, 0, stop)) ==
              DoneBodies(env, 1, stop) + PublishedAt(env, stop)
  {
    var before, last := Rounds(steps, 0, stop - 1), steps[stop - 1].round;
    RoundsSnoc(steps, 0, stop);
    RoundsBodies(env, steps, 0, stop - 1);
    BodiesAppend(before, last);
  }

  /**
   * Iterations that each publish once per non-empty read, except when their
   * text raises, make the run do so as a whole.
   */
  lemma LoopPublishCount(env: Env, steps: seq<Step>)
    requires Complete(env) && |steps| == MaxPages
    requires forall i {:trigger Bodies(steps[i].round)} :: 0 <= i < MaxPages ==>
               Bodies(steps[i].round) ==
                 PublishedAt(env, i + 1)
    requires forall i {:trigger NonEmptyReads(env, steps[i].round)} :: 0 <= i < MaxPages ==>
               NonEmptyReads(env, steps[i].round) == if PageRead(env, i + 1) then 1 else 0
    ensures var calls := [FetchPullRequest] + Rounds(steps, 0, PagesRead(env));
            |Bodies(calls)| + (if StopExit(env, StopPage(env)) == Raised then 1 else 0) == NonEmptyReads(env, calls)
  {
    var stop := StopPage(env);
    AfterPullRequestRead(Rounds(steps, 0, PagesRead(env)));
    AfterPullRequestReadCount(env, Rounds(steps, 0, PagesRead(env)));
    if stop <= MaxPages {
      assert PagesRead(env) == stop;
      DonePublishCount(env, steps, stop - 1);
      StoppedPublishCount(env, steps, stop);
    } else {
      assert stop == MaxPages + 1 && PagesRead(env) == MaxPages;
      DonePublishCount(env, steps, MaxPages);
    }
  }

  /** The pages `1 .. done` are each read non-empty and published once. */
  lemma DonePublishCount(env: Env, steps: seq<Step>, done: nat)
    requires Complete(env) && |steps| == MaxPages && done <= MaxPages
    requires forall p :: 1 <= p <= done ==> PageDone(env, p)
    requires forall i {:trigger Bodies(steps[i].round)} :: 0 <= i < MaxPages ==>
               Bodies(steps[i].round) ==
                 PublishedAt(env, i + 1)
    requires forall i {:trigger NonEmptyReads(env, steps[i].round)} :: 0 <= i < MaxPages ==>
               NonEmptyReads(env, steps[i].round) == if PageRead(env, i + 1) then 1 else 0
    ensures |Bodies(Rounds(steps, 0, done))| == NonEmptyReads(env, Rounds(steps, 0, done))
  {
    forall i | 0 <= i < done
      ensures |Bodies(steps[i].round)| == NonEmptyReads(env, steps[i].round)
    {
      assert PageDone(env, i + 1);
    }
    RoundsPublishCount(env, steps, 0, done);
  }

  /** The stopping page adds a non-empty read without a publish exactly when its text raises. */
  lemma StoppedPublishCount(env: Env, steps: seq<Step>, stop: nat)
    requires Complete(env) && |steps| == MaxPages && 1 <= stop <= MaxPages
    requires |Bodies(Rounds(steps, 0, stop - 1))| == NonEmptyReads(env, Rounds(steps, 0, stop - 1))
    requires Bodies(steps[stop - 1].round) ==
               PublishedAt(env, stop)
    requires NonEmptyReads(env, steps[stop - 1].round) == if PageRead(env, stop) then 1 else 0
    ensures var calls := Rounds(steps, 0, stop);
            |Bodies(calls)| + (if StopExit(env, stop) == Raised then 1 else 0) == NonEmptyReads(env, calls)
  {
    var before, last := Rounds(steps, 0, stop - 1), steps[stop - 1].round;
    RoundsSnoc(steps, 0, stop);
    BodiesAppend(before, last);
    NonEmptyReadsAppend(env, before, last);
  }

  lemma PullRequestReadPaired(cfg: Config, title: string, env: Env)
    requires Complete(env)
    ensures Paired(cfg, title, env, [FetchPullRequest])
  {
    assert GenerationPaired(cfg, title, env, [FetchPullRequest], 0);
    assert PublishPaired(env, [FetchPullRequest], 0);
  }

  /** Iterations whose calls each belong to their own page make a run whose calls all do. */
  lemma LoopPaired(cfg: Config, title: string, env: Env, steps: seq<Step>)
    requires Complete(env) && |steps| == MaxPages
    requires forall i {:trigger Paired(cfg, title, env, steps[i].round)} :: 0 <= i < MaxPages ==> Paired(cfg, title, env, steps[i].round)
    ensures Paired(cfg, title, env, [FetchPullRequest] + Rounds(steps, 0, PagesRead(env)))
  {
    PullRequestReadPaired(cfg, title, env);
    RoundsPaired(cfg, title, env, steps, 0, PagesRead(env));
    PairedAppend(cfg, title, env, [FetchPullRequest], Rounds(steps, 0, PagesRead(env)));
  }

  /**
   * The files pages are requested as 1, 2, ... in order, at most ten of them:
   * every page up to the stopping page, the stopping page itself, and none after.
   */
  lemma RunFetches(cfg: Config, env: Env)
    requires Complete(env)
    ensures var fetched := FetchedPages(Outcome(cfg, env).calls);
            fetched == (if Proceeds(cfg, env) then Range(1, PagesRead(env) + 1) else []) &&
            |fetched| <= MaxPages &&
            (forall i :: 0 <= i < |fetched| ==> fetched[i] == i + 1)
  {
    if Proceeds(cfg, env) {
      var title := env.pullRequest.data.title;
      RunIsLoop(cfg, env);
      StepsFetches(cfg, title, env);
      LoopFetches(Steps(cfg, title, env), PagesRead(env));
    } else {
      AfterPullRequestRead([]);
    }
  }

  /**
   * A failed pull-request read, an existing description or a rejected author
   * end the run with 0 before anything else is requested; a run that gets
   * past them always makes further requests.
   */
  lemma EarlyStops(cfg: Config, env: Env)
    requires Complete(env)
    ensures Outcome(cfg, env).calls == [FetchPullRequest] <==> !Proceeds(cfg, env)
    ensures !Proceeds(cfg, env) ==> Outcome(cfg, env).exit == Returned(0)
    ensures env.pullRequest.status == StatusOk && HasDescription(env.pullRequest.data) ==>
              Outcome(cfg, env) == Run(Returned(0), [FetchPullRequest])
    ensures env.pullRequest.status == StatusOk && !HasDescription(env.pullRequest.data) ==>
              (Outcome(cfg, env) == Run(Returned(0), [FetchPullRequest]) <==>
               !AuthorAllowed(cfg.allowedUsers, env.pullRequest.data.author))
  {
    if Proceeds(cfg, env) {
      RunFetches(cfg, env);
      assert FetchedPages(Outcome(cfg, env).calls) != [];
    }
  }

  /**
   * How a proceeding run ends is decided by its stopping page: a failed files
   * read returns 0, an empty page falls through, a generated text that
   * post-processing cannot capitalise raises, a failed publish returns 1, and
   * getting through all ten pages falls through.
   */
  lemma RunExit(cfg: Config, env: Env)
    requires Complete(env)
    ensures Outcome(cfg, env).exit ==
              if Proceeds(cfg, env) then StopExit(env, StopPage(env)) else Returned(0)
  {
    if Proceeds(cfg, env) {
      RunIsLoop(cfg, env);
    }
  }

  /**
   * The process exits with a non-zero status exactly when the stopping page was
   * read successfully and was not empty, i.e. when its publish failed or its
   * generated text could not be capitalised. A failed files read exits with 0.
   */
  lemma RunExitStatus(cfg: Config, env: Env)
    requires Complete(env)
    ensures ExitStatus(Outcome(cfg, env).exit) != 0 <==>
              Proceeds(cfg, env) && StopPage(env) <= MaxPages && PageRead(env, StopPage(env))
    ensures ExitStatus(Outcome(cfg, env).exit) == 0 || ExitStatus(Outcome(cfg, env).exit) == 1
  {
    RunExit(cfg, env);
  }

  /**
   * When the loop stops at a page whose read failed or came back empty, the
   * read of that page is the run's last call, so nothing is generated or
   * published for it; a failed read returns 0 and an empty page falls through.
   */
  lemma UnreadPageEndsRun(cfg: Config, env: Env)
    requires Complete(env) && Proceeds(cfg, env)
    requires StopPage(env) <= MaxPages && !PageRead(env, StopPage(env))
    ensures var r := Outcome(cfg, env);
            |r.calls| >= 2 && r.calls[|r.calls| - 1] == FetchFiles(StopPage(env)) &&
            r.exit == (if env.pages[StopPage(env) - 1].status != StatusOk then Returned(0) else FellThrough)
  {
    var title, stop := env.pullRequest.data.title, StopPage(env);
    var steps := Steps(cfg, title, env);
    RunIsLoop(cfg, env);
    assert PagesRead(env) == stop;
    RoundsSnoc(steps, 0, stop);
    assert steps[stop - 1] == PageStep(cfg, title, env, stop);
    StepRound(cfg, title, env, stop);
    assert steps[stop - 1].round == [FetchFiles(stop)];
    ConcatAssociative([FetchPullRequest], Rounds(steps, 0, stop - 1), [FetchFiles(stop)]);
  }

  /**
   * The run publishes the description generated for every page it gets
   * through, in page order, plus the stopping page's when its publish failed
   * (the run then returns 1).
   */
  lemma RunBodies(cfg: Config, env: Env)
    requires Complete(env)
    ensures Bodies(Outcome(cfg, env).calls) ==
              if !Proceeds(cfg, env) then []
              else DoneBodies(env, 1, StopPage(env)) +
                   PublishedAt(env, StopPage(env))
    ensures Proceeds(cfg, env) && Publishes(env, StopPage(env)) ==> Outcome(cfg, env).exit == Returned(1)
  {
    RunExit(cfg, env);
    if Proceeds(cfg, env) {
      var title := env.pullRequest.data.title;
      RunIsLoop(cfg, env);
      StepsBodies(cfg, title, env);
      LoopBodies(env, Steps(cfg, title, env));
    } else {
      assert Bodies([FetchPullRequest]) == [] + Bodies([]);
    }
  }

  /**
   * The number of publishes equals the number of non-empty pages read, less
   * one when the last such page's text made the capitalisation raise.
   */
  lemma RunPublishCount(cfg: Config, env: Env)
    requires Complete(env)
    ensures var r := Outcome(cfg, env);
            |Bodies(r.calls)| + (if r.exit == Raised then 1 else 0) == NonEmptyReads(env, r.calls)
  {
    if Proceeds(cfg, env) {
      var title := env.pullRequest.data.title;
      RunIsLoop(cfg, env);
      StepsBodies(cfg, title, env);
      StepsReads(cfg, title, env);
      LoopPublishCount(env, Steps(cfg, title, env));
    } else {
      assert Bodies([FetchPullRequest]) == [] + Bodies([]);
      assert NonEmptyReads(env, [FetchPullRequest]) == 0 + NonEmptyReads(env, []);
    }
  }

  /**
   * Every generation request of the run carries the prompt of the page read
   * just before it and nothing from earlier pages; every publish sends the
   * post-processed text generated for that page.
   */
  lemma RunPaired(cfg: Config, env: Env)
    requires Complete(env)
    ensures Paired(cfg, env.pullRequest.data.title, env, Outcome(cfg, env).calls)
  {
    var title := env.pullRequest.data.title;
    if Proceeds(cfg, env) {
      RunIsLoop(cfg, env);
      StepsPaired(cfg, title, env);
      LoopPaired(cfg, title, env, Steps(cfg, title, env));
    } else {
      assert GenerationPaired(cfg, title, env, [FetchPullRequest], 0);
      assert PublishPaired(env, [FetchPullRequest], 0);
    }
  }
}
