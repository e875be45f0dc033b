/**
 * The configuration record the script builds from its arguments and environment.
 * Only the settings that influence the modelled behaviour are kept.
 */
module Settings {
  /**
   * `allowedUsers` is the raw INPUT_ALLOWED_USERS string (empty when unset);
   * `samplePrompt`/`sampleResponse` are the few-shot pair, passed through untouched.
   */
  datatype Config = Config(
    allowedUsers: string,
    model: string,
    maxPromptToken: int,
    samplePrompt: string,
    sampleResponse: string)
}
