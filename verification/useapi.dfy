/**
 * The `useApi` composable: one request helper that dispatches on the HTTP
 * method, a loading flag, and a local notification bar that failed requests
 * fill in by the kind of failure. The transport's outcome is an input.
 */
module UseApi {
  import opened Wrappers
  import opened Text

  /** The composable's own notification bar. */
  datatype Bar = Bar(show: bool, text: string, color: string, timeout: nat)

  datatype ApiState = ApiState(bar: Bar, loading: bool)

  /** A fresh composable: hidden bar with the success colour, not loading. */
  const Initial: ApiState := ApiState(Bar(false, "", "success", 3000), false)

  /**
   * A failed request: a reply with its status and body message, no reply at
   * all, or a failure before sending (including the helper's own error).
   */
  datatype Failure =
    | Responded(status: nat, message: Option<string>)
    | NoResponse
    | NotSent(reason: string)

  /** A body message JavaScript treats as present: sent and not empty. */
  predicate HasMessage(m: Option<string>)
  {
    m.Some? && m.value != ""
  }

  const SessionExpired: string := "Your session has expired. Please log in again."
  const NoResponseText: string := "No response from server. Please check your connection."

  /**
   * `handleApiError`: a 422 with a message shows it as a warning; a 401 the
   * session-expired text; any other reply "Server error: " with its message
   * or 'Unknown error'; no reply the connection text; otherwise "Error: " and
   * the error's message. Every case but the first is an error, and the bar
   * is always shown.
   */
  function HandleApiError(b: Bar, f: Failure): (r: Bar)
    ensures r.show && r.timeout == b.timeout
    ensures r.color == "warning" <==> f.Responded? && f.status == 422 && HasMessage(f.message)
    ensures r.color != "warning" ==> r.color == "error"
    ensures r.color == "warning" ==> r.text == f.message.value
    ensures f.Responded? && f.status == 401 ==> r.text == SessionExpired
    ensures f.Responded? && f.status != 401 && !(f.status == 422 && HasMessage(f.message)) ==>
            r.text == "Server error: " + (if HasMessage(f.message) then f.message.value else "Unknown error")
    ensures f.NoResponse? ==> r.text == NoResponseText
    ensures f.NotSent? ==> r.text == "Error: " + f.reason
  {
    match f
    case Responded(status, message) =>
      if status == 422 && HasMessage(message) then b.(text := message.value, color := "warning", show := true)
      else if status == 401 then b.(text := SessionExpired, color := "error", show := true)
      else b.(text := "Server error: " + (if HasMessage(message) then message.value else "Unknown error"), color := "error", show := true)
    case NoResponse => b.(text := NoResponseText, color := "error", show := true)
    case NotSent(m) => b.(text := "Error: " + m, color := "error", show := true)
  }

  /** What the bar says after a failure depends on the failure alone, never on what it said before. */
  lemma HandledFailureForgetsBar(b: Bar, c: Bar, f: Failure)
    requires b.timeout == c.timeout
    ensures HandleApiError(b, f) == HandleApiError(c, f)
  {
  }

  /** A 422 without a message is reported like any server error. */
  lemma BareValidationFailureIsServerError(b: Bar)
    ensures HandleApiError(b, Responded(422, None)).text == "Server error: Unknown error"
    ensures HandleApiError(b, Responded(422, Some(""))).color == "error"
  {
  }

  /** The options a caller may pass. */
  datatype ApiOptions = ApiOptions(showSuccessNotification: bool, successMessage: Option<string>)

  /** The transport's outcome for a request that was sent. */
  datatype Outcome<T> = Succeeded(data: T) | Failed(failure: Failure)

  /** The four methods the helper sends, matched after lower-casing. */
  predicate Supported(verb: string)
  {
    var m := ToLower(verb);
    m == "get" || m == "post" || m == "put" || m == "delete"
  }

  /**
   * `apiRequest`: an unsupported method fails before sending with
   * "Unsupported method: " and the method; a failure is handled and yields
   * null; a success yields the reply's data and, when asked, shows the success
   * message (or the generic one) in the success colour. Loading is off at the end.
   */
  function ApiRequest<T>(st: ApiState, verb: string, options: ApiOptions, outcome: Outcome<T>): (result: (ApiState, Option<T>))
    ensures !result.0.loading
    ensures result.1.Some? <==> Supported(verb) && outcome.Succeeded?
    ensures result.1.Some? ==> result.1.value == outcome.data
    ensures !Supported(verb) ==> result.0.bar == HandleApiError(st.bar, NotSent("Unsupported method: " + verb))
    ensures Supported(verb) && outcome.Failed? ==> result.0.bar == HandleApiError(st.bar, outcome.failure)
    ensures result.1.Some? && options.showSuccessNotification ==>
            result.0.bar == st.bar.(text := if HasMessage(options.successMessage) then options.successMessage.value else "Operation completed successfully",
                                    color := "success", show := true)
    ensures result.1.Some? && !options.showSuccessNotification ==> result.0.bar == st.bar
  {
    if !Supported(verb) then
      (ApiState(HandleApiError(st.bar, NotSent("Unsupported method: " + verb)), false), None)
    else
      match outcome
      case Failed(f) => (ApiState(HandleApiError(st.bar, f), false), None)
      case Succeeded(data) =>
        var bar := if !options.showSuccessNotification then st.bar
                   else st.bar.(text := if HasMessage(options.successMessage) then options.successMessage.value else "Operation completed successfully",
                                color := "success", show := true);
        (ApiState(bar, false), Some(data))
  }

  /** Lower-casing twice is lower-casing once. */
  lemma ToLowerIdempotent(s: string)
    ensures ToLower(ToLower(s)) == ToLower(s)
  {
    assert forall i :: 0 <= i < |s| ==> LowerChar(LowerChar(s[i])) == LowerChar(s[i]);
  }

  /** The method is matched whatever its case: "GET" and "get" are the same request. */
  lemma MethodCaseIgnored<T>(st: ApiState, verb: string, options: ApiOptions, outcome: Outcome<T>)
    requires Supported(verb)
    ensures ApiRequest(st, ToLower(verb), options, outcome) == ApiRequest(st, verb, options, outcome)
  {
    ToLowerIdempotent(verb);
  }

  /** "PATCH" is not one of the four methods; "Get" is "get" in another case. */
  lemma MethodExamples()
    ensures !Supported("PATCH") && Supported("Get")
  {
    assert ToLower("PATCH") == "patch" by {
      assert "PATCH"[0] == 'P' && "PATCH"[1] == 'A';
    }
    assert ToLower("Get") == "get";
  }

  /** An unsupported method never reaches the server: the bar reports it and the result is null. */
  lemma UnsupportedMethodReported<T>(st: ApiState, options: ApiOptions, outcome: Outcome<T>)
    ensures ApiRequest(st, "PATCH", options, outcome).1.None?
    ensures ApiRequest(st, "PATCH", options, outcome).0.bar.text == "Error: Unsupported method: PATCH"
    ensures ApiRequest(st, "Get", options, outcome).1.Some? <==> outcome.Succeeded?
  {
    MethodExamples();
  }
}
