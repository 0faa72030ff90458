/**
 * The shared error formatter: every thrown value becomes one line of text
 * whose opening words name the kind of failure.
 */
module ErrorHandler {
  import opened Wrappers
  import opened Text

  /** An error reply: status, status text, and the body's `message` and `errors` when sent. */
  datatype Response = Response(status: nat, statusText: string, message: Option<string>, errors: Option<seq<seq<string>>>)

  /** What a failed call may throw: an HTTP client error, a plain `Error`, or anything else. */
  datatype Thrown =
    | ClientError(response: Option<Response>, requestSent: bool, reason: string)
    | PlainError(reason: string)
    | OtherValue

  /** The seven kinds of failure the text distinguishes. */
  datatype Kind = Validation | ApiMessage | ApiStatus | Network | RequestFailed | ErrorObject | Unknown

  const NetworkText: string := "Network error: " + "Could not connect to the server. Please check your connection."
  const UnknownText: string := "An unknown error occurred"

  predicate HasMessage(m: Option<string>)
  {
    m.Some? && m.value != ""
  }

  /** The kind of a thrown value, checked in the formatter's order. */
  function KindOf(e: Thrown): Kind
  {
    match e
    case ClientError(response, requestSent, _) =>
      if response.Some? then
        if response.value.status == 422 && response.value.errors.Some? then Validation
        else if HasMessage(response.value.message) then ApiMessage
        else ApiStatus
      else if requestSent then Network
      else RequestFailed
    case PlainError(_) => ErrorObject
    case OtherValue => Unknown
  }

  /**
   * `formatErrorMessage`: validation errors flattened and joined with ", ";
   * otherwise the reply's status with its message or status text; the fixed
   * network text when the request got no reply; the client's or the error's
   * own message; or the fixed unknown-error text.
   */
  function FormatErrorMessage(e: Thrown): (m: string)
    ensures KindOf(e) == Validation ==>
            m == "Validation error: " + Join(Flatten(e.response.value.errors.value), ", ")
    ensures KindOf(e) == ApiMessage ==>
            m == "API error (" + NatToString(e.response.value.status) + "): " + e.response.value.message.value
    ensures KindOf(e) == ApiStatus ==>
            m == "API error: " + NatToString(e.response.value.status) + " " + e.response.value.statusText
    ensures KindOf(e) == Network ==> m == NetworkText
    ensures KindOf(e) == RequestFailed ==> m == "Request error: " + e.reason
    ensures KindOf(e) == ErrorObject ==> m == "Error: " + e.reason
    ensures KindOf(e) == Unknown ==> m == UnknownText
  {
    match e
    case ClientError(response, requestSent, reason) =>
      if response.Some? then
        var r := response.value;
        if r.status == 422 && r.errors.Some? then "Validation error: " + Join(Flatten(r.errors.value), ", ")
        else if HasMessage(r.message) then "API error (" + NatToString(r.status) + "): " + r.message.value
        else "API error: " + NatToString(r.status) + " " + r.statusText
      else if requestSent then NetworkText
      else "Request error: " + reason
    case PlainError(reason) => "Error: " + reason
    case OtherValue => UnknownText
  }

  /** The kind a formatted text announces, read from its opening words. */
  function KindOfText(m: string): Kind
  {
    if IsPrefix("Validation error: ", m) then Validation
    else if IsPrefix("API error (", m) then ApiMessage
    else if IsPrefix("API error: ", m) then ApiStatus
    else if IsPrefix("Network error: ", m) then Network
    else if IsPrefix("Request error: ", m) then RequestFailed
    else if IsPrefix("Error: ", m) then ErrorObject
    else Unknown
  }

  lemma PrefixOfConcat(p: string, rest: string)
    ensures IsPrefix(p, p + rest)
  {
    assert (p + rest)[..|p|] == p;
  }

  /** The opening words the formatter gives each kind. */
  function KindPrefix(k: Kind): string
  {
    match k
    case Validation => "Validation error: "
    case ApiMessage => "API error ("
    case ApiStatus => "API error: "
    case Network => "Network error: "
    case RequestFailed => "Request error: "
    case ErrorObject => "Error: "
    case Unknown => UnknownText
  }

  /** A text that opens with a kind's words is read back as that kind. */
  lemma KindOfPrefixed(k: Kind, rest: string)
    requires k != Unknown
    ensures KindOfText(KindPrefix(k) + rest) == k
  {
    var p := KindPrefix(k);
    var m := p + rest;
    PrefixOfConcat(p, rest);
    if k == ErrorObject {
      assert m[0] == 'E';
    } else {
      assert m[0] == p[0] && m[9] == p[9];
    }
  }

  /** The text never misleads: its opening words always name the kind of the failure that produced it. */
  lemma TextNamesKind(e: Thrown)
    ensures KindOfText(FormatErrorMessage(e)) == KindOf(e)
  {
    var m := FormatErrorMessage(e);
    var k := KindOf(e);
    if k == Unknown {
      assert m[0] == 'A' && m[1] == 'n';
    } else {
      var rest := m[|KindPrefix(k)|..];
      assert m == KindPrefix(k) + rest by {
        if k == Network {
          assert m == KindPrefix(k) + "Could not connect to the server. Please check your connection.";
        }
      }
      KindOfPrefixed(k, rest);
    }
  }

  /** A validation reply's text names every message of every field. */
  lemma ValidationNamesEveryMessage(r: Response, requestSent: bool, reason: string, i: nat, j: nat)
    requires r.status == 422 && r.errors.Some? && i < |r.errors.value| && j < |r.errors.value[i]|
    ensures ContainsText(FormatErrorMessage(ClientError(Some(r), requestSent, reason)), r.errors.value[i][j])
  {
    var flat := Flatten(r.errors.value);
    FlattenHas(r.errors.value, i, j);
    var k :| 0 <= k < |flat| && flat[k] == r.errors.value[i][j];
    JoinHas(flat, ", ", k);
    ContainsAfterPrefix("Validation error: ", Join(flat, ", "), flat[k]);
  }

  /** A validation reply lists every field's messages in order, one level flattened. */
  lemma ValidationListsMessages(text: string, message: Option<string>)
    ensures FormatErrorMessage(ClientError(Some(Response(422, text, message, Some([["a"], ["b", "c"]]))), true, ""))
            == "Validation error: a, b, c"
  {
    var parts := ["a", "b", "c"];
    assert Flatten([["a"], ["b", "c"]]) == parts by {
      assert [["a"], ["b", "c"]][1..] == [["b", "c"]];
    }
    assert Join(parts, ", ") == "a, b, c" by {
      assert parts[1..] == ["b", "c"];
      assert ["b", "c"][1..] == ["c"];
    }
  }

  /**
   * `handleApiError`: the returned text is the formatted one; the logged line
   * carries it behind "[context] " when a context is given.
   */
  function HandleApiError(e: Thrown, context: string): (result: (string, string))
    ensures result.0 == FormatErrorMessage(e)
    ensures context == "" ==> result.1 == result.0
    ensures context != "" ==> IsPrefix("[" + context + "] ", result.1) && result.1[|context| + 3..] == result.0
  {
    var m := FormatErrorMessage(e);
    var line := (if context != "" then "[" + context + "] " else "") + m;
    assert context != "" ==> IsPrefix("[" + context + "] ", line) by {
      if context != "" {
        PrefixOfConcat("[" + context + "] ", m);
      }
    }
    (m, line)
  }
}
