# Pull-request description generator, modelled in Dafny

`generate_pr.py` is a GitHub Action script that writes a description for a
pull request. The script runs in these steps:

1. It reads the pull request from the hosting API.
2. It stops early when the request fails, when a description already exists,
   or when an allow-list of authors is configured and does not contain the
   author.
3. It then walks the files pages 1 to 10. For each
   non-empty page it builds a prompt from a fixed header that embeds the title.
4. It adds one `Changes in file <name>: <patch>` line for every entry that
   carries a patch, then cuts the prompt to `max_prompt_token * 4` characters.
5. It asks the text-generation service for a description.
6. It removes a known redundant first sentence from the answer and upper-cases
   the first character.
7. It publishes the result as the pull request's body.

The loop stops at the first failed read (return 0), the first empty page
(`break`) or the first failed publish (return 1).

The model keeps the decision and string logic of `main` and treats every
remote answer as an input. The pieces are:

- The hosting records (`Hosting`) and the configuration record (`Settings`).
- The allow-list test over Python's `str.split(",")` (`Eligibility`).
- Prompt assembly and truncation (`Prompt`).
- Prefix stripping and capitalisation (`Description`).
- The generation request (`Generation`).
- The run itself (`Driver`). `RunAction`, `RunPages` and `RunPage` are
  imperative methods that follow the script's statements, with its early
  returns and its `break`. The per-file `+=` loop is `Prompt.AssemblePrompt`.
  Each method is proved equal to a functional description, `Driver.Outcome`.

A run is described by two things:

- how it ends (`Returned(code)`, `FellThrough` for falling off the end of
  `main`, or `Raised` for the uncaught `IndexError`);
- the sequence of remote calls it issues (pull-request read, files read of
  page `n`, generation request, publish of a body).

`RunProperties` states what that sequence contains:

- which pages are read, and in which order;
- where the loop stops, and with which exit;
- what is published, and how often;
- that each generation request carries the prompt of the page read just
  before it, and each publish carries the text generated for that page.

`Scenarios` works through the concrete situations: the pagination stop, the
pagination cap, the two failure paths and one complete run.

Four behaviours of the script that are easy to miss:

- **A failed files read exits 0.** The script returns 0 when a files page
  cannot be read (`generate_pr.py:101-103`). Only a failed publish returns 1
  (`generate_pr.py:154-157`).
- **The prompt is rebuilt on every page.** `ai_prompt` is reassigned at the
  top of every iteration (`generate_pr.py:109`), so a prompt holds only its
  own page's files.
- **Each page is generated and published on its own.** One generation and one
  publish happen per non-empty page, inside the loop.
- **An exception can escape.** When nothing is left after the prefix is
  stripped, `generated_pr_description[0]` raises `IndexError`
  (`generate_pr.py:149`). The model records this as the exit `Raised`, with
  process status 1.

## Model

| member | source | states |
|---|---|---|
| Eligibility.Split | generate_pr.py:67 | Split yields at least one piece, and no piece contains a comma. |
| Eligibility.JoinSplit | generate_pr.py:67 | Re-joining the pieces of a split with `","` gives back the original allow-list string: nothing is lost or trimmed. |
| Eligibility.SplitJoin | generate_pr.py:67 | Splitting a comma-joined list of comma-free names gives back exactly those names, empty names included. |
| Eligibility.AllowListMembership | generate_pr.py:65-91 | A non-empty allow-list written as comma-separated names accepts an author if and only if the author equals one of those names. |
| Eligibility.NoWhitespaceTrimming | generate_pr.py:67-91 | Names are not trimmed. With "alice, bob", the author " bob" is accepted and "bob" is rejected. |
| Eligibility.CommaNameRejected | generate_pr.py:67-91 | A non-empty allow-list never accepts an author whose name contains a comma. |
| Eligibility.Decide | generate_pr.py:85-93 | An existing (truthy) body stops the run first. Otherwise the author is rejected exactly when the allow-list is non-empty and the author is not among its pieces. The run proceeds exactly when there is no body and the author is allowed; an empty allow-list accepts everyone. |
| Prompt.ChangesAppend | generate_pr.py:115-122 | The changes of two runs of entries, one after the other, are the changes of the first followed by those of the second, so lines keep input order. |
| Prompt.PatchedEntryLine | generate_pr.py:120-122 | A patched entry contributes exactly `Changes in file <name>: <patch>` and a newline. |
| Prompt.PatchlessEntrySkipped | generate_pr.py:118-119 | Removing an entry without a patch from any position leaves the changes the same. |
| Prompt.PatchlessPageIsHeader | generate_pr.py:109-122 | A page whose entries all lack a patch yields exactly the fixed header with the title. |
| Prompt.AssemblePrompt | generate_pr.py:109-122 | The `+=` loop builds exactly the header with the title, then the line of every patched entry of this page, in order. |
| Prompt.TruncateResult | generate_pr.py:126-129 | The cut prompt is a prefix of the assembled prompt. For a non-negative budget it is at most `max_prompt_token * 4` long. It is unchanged when the prompt fits, and exactly the budget long when the prompt does not fit. A negative budget drops characters from the end, as Python slicing does. |
| Prompt.TruncateIdempotent | generate_pr.py:126-129 | With a non-negative budget, cutting an already-cut prompt changes nothing. |
| Description.StripPrefixResult | generate_pr.py:146-148 | A text that starts with the redundant sentence equals that sentence followed by the stripped result. Any other text is left unchanged. |
| Description.StripPrefixOnce | generate_pr.py:146-148 | Only one copy of the sentence is removed. A doubled sentence leaves one copy in front. |
| Description.StripPrefixEmpty | generate_pr.py:146-149 | Stripping leaves nothing exactly for the empty text and for the bare sentence. These are the two inputs on which capitalisation raises. |
| Description.UpperChar | generate_pr.py:149 | The result is never an ASCII lower-case letter. Lower-case ASCII letters map to their upper-case letter, and every other character is unchanged. |
| Description.CapitalizeResult | generate_pr.py:149 | The result has the same length, its first character is upper-cased, and every later character is unchanged. |
| Description.CapitalizeIdempotent | generate_pr.py:149 | Capitalising twice is the same as capitalising once. |
| Description.PostprocessResult | generate_pr.py:146-149 | Post-processing fails (the IndexError) if and only if the text is empty or is exactly the sentence. A prefixed text yields the rest after the sentence with its first character upper-cased. Any other text yields itself with its first character upper-cased. |
| Driver.RunPage | generate_pr.py:98-157 | One iteration reads its page. A failed read returns 0 and an empty page breaks. Otherwise it assembles and cuts the prompt, sends the generation request and post-processes the answer. An empty remainder raises. Otherwise it publishes the result, and a failed publish returns 1. |
| Driver.RunPages | generate_pr.py:97-157 | The page loop makes the calls of every iteration up to the first one that ends the run, and ends as that one does. It falls through after page 10. |
| Driver.RunAction | generate_pr.py:77-157 | The whole run: the pull-request read (a failure returns 0), the description and author checks (each returns 0), then the page loop. |
| RunProperties.FirstStop | generate_pr.py:97-157 | The stopping page is the first page the loop does not get through, or 11 when it gets through all ten. Every page before it was read, was non-empty, had its text post-processed and was published successfully. |
| RunProperties.StepStop | generate_pr.py:101-157 | One iteration goes on to the next page if and only if its page was read, was non-empty, its text survived post-processing and its publish succeeded. Otherwise it returns 0, breaks, raises or returns 1, in that order of checks. |
| RunProperties.StepRound | generate_pr.py:99-152 | An iteration whose read failed or whose page was empty issues only the read. Otherwise it issues the read and the generation request of that page's prompt, and the publish when the text survives post-processing. |
| RunProperties.StepFetches | generate_pr.py:99 | An iteration reads exactly its own page. |
| RunProperties.StepBodies | generate_pr.py:149-152 | An iteration publishes exactly one body, the post-processed text, when its page is non-empty and the text survives. Otherwise it publishes nothing. |
| RunProperties.StepReads | generate_pr.py:99-108 | An iteration counts one successful non-empty read exactly when its page is read successfully and is non-empty. |
| RunProperties.StepPaired | generate_pr.py:109-152 | The generation request of an iteration carries the cut prompt of its own page. Its publish sends its own page's post-processed text. |
| RunProperties.LoopShape | generate_pr.py:97-157 | A loop over any sequence of iterations makes the calls of each one up to and including the first that ends the run, and ends as that one does. It falls through if none ends the run. |
| RunProperties.RunIsLoop | generate_pr.py:95-157 | A run that gets past the eligibility checks reads the pull request, runs the iterations of pages 1 up to the stopping page (at most 10), and ends as the stopping page dictates. |
| RunProperties.EarlyStops | generate_pr.py:80-93 | A failed pull-request read, an existing body or a rejected author ends the run with 0 after the pull-request read alone: no files read, generation or publish. A run that gets past these checks always issues more calls. With no body, the run stops there exactly when the author is not allowed. |
| RunProperties.RunFetches | generate_pr.py:97-108 | The files pages are read as 1, 2, … in order, at most ten of them, up to and including the stopping page and none after it. A run stopped by the checks reads none. |
| RunProperties.RunExit | generate_pr.py:80-157 | The exit is Returned(0) when the checks stop the run. Otherwise the stopping page decides it: a failed read gives Returned(0), an empty page falls through, an unusable text raises, a failed publish gives Returned(1), and getting through all ten pages falls through. |
| RunProperties.RunExitStatus | generate_pr.py:80-157 | The process status is 0 or 1. It is non-zero if and only if the loop stopped at a page that was read successfully and was non-empty. In particular, a failed files read exits 0. |
| RunProperties.UnreadPageEndsRun | generate_pr.py:101-108 | When the loop stops at a failed or empty page, reading that page is the run's last call: there is no generation and no publish for it. It returns 0 on a failed read and falls through on an empty page. |
| RunProperties.RunBodies | generate_pr.py:131-157 | The run publishes the post-processed text of every page it gets through, in page order. It also publishes the stopping page's text when that text survived post-processing, and the run then returns 1. A run stopped by the checks publishes nothing. |
| RunProperties.RunPublishCount | generate_pr.py:107-157 | The number of publishes equals the number of successful non-empty page reads, less one when the run ends by raising. |
| RunProperties.RunPaired | generate_pr.py:109-152 | Every generation request directly follows a files read and carries the cut prompt of that page alone, with nothing from earlier pages. Every publish directly follows that generation and sends that page's post-processed text. |
| Scenarios.EmptySecondPage | generate_pr.py:97-108 | Page 1 done and page 2 empty: exactly pages 1 and 2 are read, page 1's text is published once, and the run falls through. |
| Scenarios.TenFullPages | generate_pr.py:97-157 | All ten pages done: pages 1 to 10 are read, ten bodies are published, no eleventh page is read, and the run falls through. |
| Scenarios.FirstFilesReadFails | generate_pr.py:101-103 | A failed read of page 1 yields exactly the pull-request read and that one files read, and the run returns 0. |
| Scenarios.FirstPublishFails | generate_pr.py:154-157 | A failed first publish returns 1 after a single publish, and page 2 is never read. |
| Scenarios.ValgrindDescription | generate_pr.py:146-149 | "adds valgrind" is published as "Adds valgrind". |
| Scenarios.ValgrindPrompt | generate_pr.py:109-129 | A page with one patched and one unpatched file yields the header and the patched file's line only, uncut under the default budget of 1048 tokens. |
| Scenarios.ValgrindPullRequest | generate_pr.py:77-157 | The complete run for an undescribed pull request with no allow-list, one mixed page, then an empty page. Its calls are, in order: the pull-request read, read of page 1, one generation, the publish of "Adds valgrind", read of page 2. It then falls through. |

## Left out

- Network I/O is left out: `requests.get`/`requests.patch`, the authentication header and URL formatting. Every response is an input with its status code. That includes the files URL at `generate_pr.py:98`, which is not scoped to the repository or pull request; this only affects the URL string.
- Exceptions raised by the remote calls themselves are not modelled: a `requests` connection error, an error raised by `openai.Completion.create`, or an empty `choices` list (`generate_pr.py:145`). The model's only `Raised` is the `IndexError` at `generate_pr.py:149`.
- `openai.Completion.create` is a foreign call. Its answer, the first choice's content, is an input string per page, and the request is modelled as the record it is built from.
- Argument parsing and environment reads are left out, along with `int(...)` and their defaults (`gpt-3.5-turbo`, 1048). The model takes a configuration record instead. The `--allowed-users` flag (`generate_pr.py:56`) is parsed but never used, so it has no field; only `INPUT_ALLOWED_USERS` is modelled.
- The temperature is a float that is only passed through, so it is not part of the request record.
- `json.loads` and dictionary access are left out: responses are typed records, and `body` is an optional string whose truthiness is modelled.
- `print` output is left out.
- The unused `max_allowed_tokens = 2048` (`generate_pr.py:125`) is left out.
- The `if __name__ == "__main__"` block sits indented inside `main` (`generate_pr.py:159-160`), so running the file never calls `main`. The model describes one call of `main`: falling off its end is `FellThrough`, and `Driver.ExitStatus` maps each ending to the status `sys.exit(main())` would give. The nested recursive call on fall-through is not modelled.
- Description.UpperChar: upper-cases ASCII letters only. Python's `str.upper` follows Unicode and can change the length of the string, for example 'ß' becomes "SS".
- `SAMPLE_PROMPT` and `RESPONSE_SAMPLE` (`generate_pr.py:9-47`) are opaque configuration strings passed through to the request; their text is not reproduced.
- The environment is assumed to answer every request the loop can make (`Driver.Complete`: ten pages, texts and publish statuses). Entries beyond those the run asks for are ignored.
