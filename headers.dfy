/** The headers sent with every request to the hosting service's API. */
module Headers {
  import opened Wrappers

  const MediaType := "application/vnd.github+json"

  /**
   * An Accept header always; a bearer Authorization header when there is a
   * token: the request's own when it is non-empty, else the ambient one
   * (`env`, the process environment's token), when that is non-empty.
   */
  function GithubHeaders(token: Option<string>, env: Option<string>): (h: map<string, string>)
    ensures "Accept" in h && h["Accept"] == MediaType
    ensures h.Keys <= {"Accept", "Authorization"}
    ensures token.Some? && token.value != "" ==>
      "Authorization" in h && h["Authorization"] == "Bearer " + token.value
    ensures (token.None? || token.value == "") && env.Some? && env.value != "" ==>
      "Authorization" in h && h["Authorization"] == "Bearer " + env.value
    ensures (token.None? || token.value == "") && (env.None? || env.value == "") ==>
      "Authorization" !in h
  {
    var base := map["Accept" := MediaType];
    var effective := if token.Some? && token.value != "" then token else env;
    if effective.Some? && effective.value != "" then base["Authorization" := "Bearer " + effective.value]
    else base
  }
}
