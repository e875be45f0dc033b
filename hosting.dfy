/**
 * The records the hosting API returns, as typed values. Every response carries
 * its HTTP status; only 200 counts as success.
 */
module Hosting {
  import opened Wrappers

  /** The status the script compares every response against. */
  const StatusOk: int := 200

  /** One changed-file entry of a files page; `patch` is absent e.g. for removed binary files. */
  datatype Entry = Entry(filename: string, patch: Option<string>)

  /** The pull-request metadata the script reads: `title`, `body` (nullable) and `user.login`. */
  datatype PullRequest = PullRequest(title: string, body: Option<string>, author: string)

  /** Response to the pull-request read. */
  datatype PullRequestResponse = PullRequestResponse(status: int, data: PullRequest)

  /** Response to one files-page read. */
  datatype FilesResponse = FilesResponse(status: int, entries: seq<Entry>)

  /** Python truthiness of `body`: neither null nor the empty string. */
  predicate HasDescription(pr: PullRequest) {
    pr.body.Some? && pr.body.value != []
  }
}
