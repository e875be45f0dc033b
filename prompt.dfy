/**
 * The per-page prompt: a fixed instruction header embedding the title, one
 * "Changes in file" line per entry that carries a patch, then a hard cut to
 * the character budget.
 */
module Prompt {
  import opened Wrappers
  import opened Hosting
  import opened Sequences

  /** Characters assumed per token when turning the token budget into a length. */
  const CharsPerToken: int := 4

  const HeaderLead: string :=
    "\nWrite a pull request description focusing on the motivation behind the change and why it improves the project.\nGo straight to the point.\n\nThe title of the pull request is \""
  const HeaderTail: string := "\" and the following changes took place: \n\n"

  /** The instruction text every page's prompt starts from. */
  function Header(title: string): string {
    HeaderLead + title + HeaderTail
  }

  /** The line one patched file contributes. */
  function FileLine(filename: string, patch: string): string {
    "Changes in file " + filename + ": " + patch + "\n"
  }

  /** What one entry adds to the prompt: its line if it has a patch, nothing otherwise. */
  function Contribution(entry: Entry): string {
    match entry.patch
    case Some(patch) => FileLine(entry.filename, patch)
    case None => []
  }

  /** The contributions of a page's entries, concatenated in input order. */
  function Changes(entries: seq<Entry>): (changes: string)
    decreases |entries|
  {
    if entries == [] then [] else Contribution(entries[0]) + Changes(entries[1..])
  }

  /** The prompt for one page: built only from the title and that page's entries. */
  function PagePrompt(title: string, entries: seq<Entry>): (prompt: string) {
    Header(title) + Changes(entries)
  }

  /** Changes distributes over concatenation: the lines appear in input order. */
  lemma {:induction false} ChangesAppend(front: seq<Entry>, back: seq<Entry>)
    ensures Changes(front + back) == Changes(front) + Changes(back)
    decreases |front|
  {
    if front == [] {
      assert front + back == back;
    } else {
      assert (front + back)[0] == front[0];
      assert (front + back)[1..] == front[1..] + back;
      ChangesAppend(front[1..], back);
    }
  }

  /** A single patched entry contributes exactly its "Changes in file" line. */
  lemma PatchedEntryLine(name: string, patch: string)
    ensures Changes([Entry(name, Some(patch))]) == FileLine(name, patch)
  {
    assert [Entry(name, Some(patch))][1..] == [];
  }

  /** An entry without a patch contributes nothing, wherever it sits in the page. */
  lemma PatchlessEntrySkipped(front: seq<Entry>, entry: Entry, back: seq<Entry>)
    requires entry.patch.None?
    ensures Changes(front + [entry] + back) == Changes(front + back)
  {
    assert [entry][1..] == [];
    assert Changes([entry]) == [];
    ChangesAppend(front, [entry]);
    assert Changes(front + [entry]) == Changes(front);
    ChangesAppend(front + [entry], back);
    ChangesAppend(front, back);
  }

  /** A page of patchless entries leaves the prompt equal to the header. */
  lemma {:induction false} PatchlessPageIsHeader(title: string, entries: seq<Entry>)
    requires forall i :: 0 <= i < |entries| ==> entries[i].patch.None?
    ensures PagePrompt(title, entries) == Header(title)
    decreases |entries|
  {
    if entries != [] {
      PatchlessPageIsHeader(title, entries[1..]);
    }
  }

  /** Extending the processed prefix of a page by one entry adds that entry's contribution. */
  lemma ChangesStep(entries: seq<Entry>, i: nat)
    requires i < |entries|
    ensures Changes(entries[..i + 1]) == Changes(entries[..i]) + Contribution(entries[i])
  {
    assert entries[..i + 1] == entries[..i] + [entries[i]];
    ChangesAppend(entries[..i], [entries[i]]);
    assert [entries[i]][1..] == [];
  }

  /** The prompt assembly loop: start from the header, append one line per patched entry. */
  method AssemblePrompt(title: string, entries: seq<Entry>) returns (prompt: string)
    ensures prompt == PagePrompt(title, entries)
  {
    var header := Header(title);
    prompt := header;
    var i := 0;
    while i < |entries|
      invariant 0 <= i <= |entries|
      invariant prompt == header + Changes(entries[..i])
    {
      var entry := entries[i];
      ChangesStep(entries, i);
      if entry.patch.None? {
        assert Changes(entries[..i + 1]) == Changes(entries[..i]);
        i := i + 1;
        continue;
      }
      var line := FileLine(entry.filename, entry.patch.value);
      assert Changes(entries[..i + 1]) == Changes(entries[..i]) + line;
      ConcatAssociative(header, Changes(entries[..i]), line);
      prompt := prompt + line;
      i := i + 1;
    }
    assert entries[..i] == entries;
  }

  function Max(a: int, b: int): int { if a >= b then a else b }

  /** Python's `s[:stop]`, where a negative `stop` counts from the end. */
  function SliceTo(s: string, stop: int): (slice: string) {
    if stop >= 0 then (if stop <= |s| then s[..stop] else s)
    else if |s| + stop >= 0 then s[..|s| + stop]
    else []
  }

  /** The hard cut to `maxPromptToken * 4` characters. */
  function Truncate(prompt: string, maxPromptToken: int): (cut: string) {
    var maxAllowedChars := maxPromptToken * CharsPerToken;
    if |prompt| > maxAllowedChars then SliceTo(prompt, maxAllowedChars) else prompt
  }

  /**
   * The cut always yields a prefix of the prompt. For a non-negative budget it
   * is at most the budget long, it is the whole prompt when that fits, and it
   * is exactly the budget long otherwise; a negative budget drops that many
   * characters from the end, as Python's slicing does.
   */
  lemma TruncateResult(prompt: string, maxPromptToken: int)
    ensures Truncate(prompt, maxPromptToken) <= prompt
    ensures maxPromptToken >= 0 ==> |Truncate(prompt, maxPromptToken)| <= maxPromptToken * CharsPerToken
    ensures maxPromptToken >= 0 && |prompt| <= maxPromptToken * CharsPerToken ==>
              Truncate(prompt, maxPromptToken) == prompt
    ensures maxPromptToken >= 0 && |prompt| > maxPromptToken * CharsPerToken ==>
              |Truncate(prompt, maxPromptToken)| == maxPromptToken * CharsPerToken
    ensures maxPromptToken < 0 ==>
              |Truncate(prompt, maxPromptToken)| == Max(0, |prompt| + maxPromptToken * CharsPerToken)
  {
  }

  /** With a non-negative budget, cutting a second time changes nothing. */
  lemma TruncateIdempotent(prompt: string, maxPromptToken: int)
    requires maxPromptToken >= 0
    ensures Truncate(Truncate(prompt, maxPromptToken), maxPromptToken) == Truncate(prompt, maxPromptToken)
  {
    TruncateResult(prompt, maxPromptToken);
    TruncateResult(Truncate(prompt, maxPromptToken), maxPromptToken);
  }
}
