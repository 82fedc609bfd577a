/**
 * `src/derpi-api.js`: the local API-key guard and the check on the external user
 * service's answer.  The HTTP request and JSON parsing are not modelled: the parsed
 * body the service would answer with is a parameter, and the result records whether
 * the request was issued at all.
 */
module DerpiApi {
  import opened Wrappers
  import opened JsValues

  /** A character of the class `[A-Za-z\d]` (`\d` is ASCII 0-9 in a regex without the `u` flag). */
  predicate IsKeyChar(c: char)
  {
    'A' <= c <= 'Z' || 'a' <= c <= 'z' || '0' <= c <= '9'
  }

  /** `/^[A-Za-z\d]+$/.test(s)`: one class character, then any number more, then the end. */
  function MatchesKeyPattern(s: string): (r: bool)
    ensures r <==> |s| > 0 && forall j :: 0 <= j < |s| ==> IsKeyChar(s[j])
  {
    |s| > 0 && IsKeyChar(s[0]) && (|s| == 1 || MatchesKeyPattern(s[1..]))
  }

  /** The guard of checkApiKey: a string matching the key pattern. */
  predicate KeyGuardPasses(key: JsValue)
  {
    key.JsString? && MatchesKeyPattern(key.s)
  }

  /** fetchUser's last step: resolve with the parsed body when `_.isObject`, reject otherwise. */
  function FetchUser(response: JsValue): (r: Option<JsValue>)
    ensures r.Some? <==> IsObject(response)
    ensures r.Some? ==> r.value == response
  {
    if IsObject(response) then Some(response) else None
  }

  /**
   * How checkApiKey's promise settles.  `Unsettled`: fetchUser rejected and the promise
   * built at lines 24-29 has no rejection path, so it never settles.
   */
  datatype AuthOutcome = Resolved(user: JsValue) | Rejected | Unsettled

  /** `fetched` is the key sent to the external service, if a request was made. */
  datatype KeyCheck = KeyCheck(fetched: Option<string>, outcome: AuthOutcome)

  /** checkApiKey, given the parsed body the external service answers with. */
  function CheckApiKey(key: JsValue, response: JsValue): (r: KeyCheck)
    ensures r.fetched.Some? <==> key.JsString? && |key.s| > 0 && forall j :: 0 <= j < |key.s| ==> IsKeyChar(key.s[j])
    ensures r.fetched.Some? ==> r.fetched.value == key.s
    ensures r.outcome.Rejected? <==> r.fetched.None?
    ensures r.outcome.Resolved? <==> r.fetched.Some? && IsObject(response)
    ensures r.outcome.Resolved? ==> r.outcome.user == response
  {
    if !KeyGuardPasses(key) then KeyCheck(None, Rejected)
    else
      match FetchUser(response)
      case Some(user) => KeyCheck(Some(key.s), if user != JsBool(false) then Resolved(user) else Unsettled)
      case None => KeyCheck(Some(key.s), Unsettled)
  }
}
