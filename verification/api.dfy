/** The HTTP client wrapper of `src/services/api.js`: the request interceptor
    that attaches the session token, and the teacher-directory lookup used by
    the class-creation dialog. The transport itself is not modelled; the
    lookup's response is a parameter.
 */
module ApiClient {
  import opened Common
  import opened Text

  /** Request headers, by name. */
  type Headers = map<string, string>

  /** A session token is attached only when it is a non-empty string
      (`if (token)`; `sessionStorage.getItem` yields `null` when absent). */
  predicate HasToken(token: Option<string>) {
    token.Some? && token.value != ""
  }

  /** The request interceptor: sets `Authorization: Bearer <token>` when a
      token is present, and otherwise leaves the headers as the caller built
      them. */
  function WithAuthorization(headers: Headers, token: Option<string>): (r: Headers)
    ensures HasToken(token) ==> "Authorization" in r && r["Authorization"] == "Bearer " + token.value
    ensures !HasToken(token) ==> r == headers
    ensures r.Keys == headers.Keys + (if HasToken(token) then {"Authorization"} else {})
    ensures forall h :: h in headers && h != "Authorization" ==> h in r && r[h] == headers[h]
  {
    if HasToken(token) then headers["Authorization" := "Bearer " + token.value] else headers
  }

  /** `name.trim().replace(/\s+/g, ' ')`: the teacher name sent to the
      directory. */
  function NormalizeName(name: string): (r: string)
    ensures NoEdgeSpace(r) && SingleSpaced(r)
  {
    Collapse(Trim(name))
  }

  /** Normalising an already normalised name changes nothing. */
  lemma NormalizeNameIdempotent(name: string)
    ensures NormalizeName(NormalizeName(name)) == NormalizeName(name)
  {
    var r := NormalizeName(name);
    TrimNoEdge(r);
    CollapseFixed(r);
  }

  /** Normalisation only touches whitespace: the visible characters of the
      name survive, all of them and in order. */
  lemma NormalizeNameKeepsVisible(name: string)
    ensures Filter(NormalizeName(name), Visible) == Filter(name, Visible)
  {
    TrimKeepsVisible(name);
    CollapseKeepsVisible(Trim(name));
  }

  /** The normalised name is the name's words joined by single spaces. */
  lemma NormalizeNameIsWords(name: string)
    ensures NormalizeName(name) == JoinSpace(SplitWs(Trim(name)))
  {
    JoinSplitIsCollapse(Trim(name));
  }

  /** What the directory request returned: a failure (network error or error
      status, caught by the lookup) or a body with an optional `email`. */
  datatype EmailResponse = RequestFailed | Answered(email: Option<string>)

  /** `getTeacherEmailByName`'s result: the email in the response, or the
      empty string when it is absent, empty, or the request failed. */
  function TeacherEmail(response: EmailResponse): (r: string)
    ensures r != "" <==> response.Answered? && response.email.Some? && response.email.value != ""
    ensures r != "" ==> r == response.email.value
  {
    match response
    case RequestFailed => ""
    case Answered(email) => email.GetOr("")
  }
}
