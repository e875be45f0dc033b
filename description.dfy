/** Post-processing of the generated text before it is published. */
module Description {
  import opened Wrappers

  /** The sentence the script removes from the front of a generated description. */
  const RedundantPrefix: string := "This pull request description was generated by an AI assistant."

  /** Removes one leading copy of the redundant sentence, if present. */
  function StripPrefix(text: string): (stripped: string) {
    if RedundantPrefix <= text then text[|RedundantPrefix|..] else text
  }

  /**
   * A text that starts with the redundant sentence loses exactly that
   * sentence; any other text is left as it is.
   */
  lemma StripPrefixResult(text: string)
    ensures RedundantPrefix <= text ==> text == RedundantPrefix + StripPrefix(text)
    ensures !(RedundantPrefix <= text) ==> StripPrefix(text) == text
  {
  }

  /** The prefix goes only once: a doubled prefix leaves one copy behind. */
  lemma StripPrefixOnce(rest: string)
    ensures StripPrefix(RedundantPrefix + rest) == rest
    ensures StripPrefix(RedundantPrefix + RedundantPrefix + rest) == RedundantPrefix + rest
  {
    assert RedundantPrefix + RedundantPrefix + rest == RedundantPrefix + (RedundantPrefix + rest);
    StripPrefixResult(RedundantPrefix + rest);
    StripPrefixResult(RedundantPrefix + RedundantPrefix + rest);
  }

  /** Stripping leaves nothing exactly for the empty text and for the bare prefix. */
  lemma StripPrefixEmpty(text: string)
    ensures StripPrefix(text) == [] <==> text == [] || text == RedundantPrefix
  {
    StripPrefixResult(text);
    if RedundantPrefix <= text && StripPrefix(text) == [] {
      assert text == RedundantPrefix + [];
    }
  }

  predicate IsAsciiLower(c: char) { 'a' <= c <= 'z' }

  /** Upper-casing of one character, restricted to ASCII letters. */
  function UpperChar(c: char): (u: char)
    ensures !IsAsciiLower(u)
    ensures !IsAsciiLower(c) ==> u == c
    ensures IsAsciiLower(c) ==> u as int == c as int - 32
  {
    if IsAsciiLower(c) then (c as int - 32) as char else c
  }

  /** `s[0].upper() + s[1:]`. */
  function Capitalize(s: string): (capitalized: string)
    requires s != []
  {
    [UpperChar(s[0])] + s[1..]
  }

  /** Capitalizing keeps the length, upper-cases the first character and leaves every other one untouched. */
  lemma CapitalizeResult(s: string)
    requires s != []
    ensures |Capitalize(s)| == |s|
    ensures Capitalize(s)[0] == UpperChar(s[0])
    ensures forall i :: 1 <= i < |s| ==> Capitalize(s)[i] == s[i]
  {
  }

  /** Capitalizing twice is capitalizing once. */
  lemma CapitalizeIdempotent(s: string)
    requires s != []
    ensures Capitalize(Capitalize(s)) == Capitalize(s)
  {
    assert Capitalize(Capitalize(s))[1..] == Capitalize(s)[1..];
  }

  /**
   * Strip, then capitalize. `None` stands for the IndexError the script raises
   * when nothing is left to capitalize.
   */
  function Postprocess(text: string): (published: Option<string>) {
    var stripped := StripPrefix(text);
    if stripped == [] then None else Some(Capitalize(stripped))
  }

  /**
   * Post-processing fails exactly on the empty text and on the bare prefix.
   * Otherwise a prefixed text yields what follows the prefix with its first
   * character upper-cased, and any other text yields itself with its first
   * character upper-cased.
   */
  lemma PostprocessResult(text: string)
    ensures Postprocess(text).None? <==> text == [] || text == RedundantPrefix
    ensures Postprocess(text).Some? && RedundantPrefix <= text ==>
              var n := |RedundantPrefix|;
              var r := Postprocess(text).value;
              |r| == |text| - n && r[0] == UpperChar(text[n]) && r[1..] == text[n + 1..]
    ensures Postprocess(text).Some? && !(RedundantPrefix <= text) ==>
              var r := Postprocess(text).value;
              |r| == |text| && r[0] == UpperChar(text[0]) && r[1..] == text[1..]
  {
    StripPrefixEmpty(text);
    StripPrefixResult(text);
  }
}
