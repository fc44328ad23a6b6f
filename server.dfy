/**
 * The request handler of the signature server: it reads `file`,
 * `signature` and `sleep` from the query, rejects a request missing either
 * of the first two, signs `file` with the server's secret key, keeps the
 * first 16 hex characters of that signature, runs the leaky comparison
 * against the candidate and maps its verdict to a response.
 *
 * The keyed digest (HMAC-SHA256 in hex) and `parseInt` are foreign code:
 * the handler receives them as functions. The secret key is an opaque
 * parameter.
 */
module SignatureServer {

  import opened Wrappers
  import opened TimingCompare

  /** The query parameters the handler reads; each may be absent. */
  datatype Query = Query(file: Option<string>, signature: Option<string>, sleep: Option<string>)

  /** The status line and body the handler writes. */
  datatype Response = Response(status: int, body: string)

  /** A handled request: the response and the comparison run to produce it. */
  datatype Exchange = Exchange(response: Response, comparison: seq<Event>)

  const BadRequest: int := 400
  const Ok: int := 200
  const ServerError: int := 500

  /** The delay used when the query carries no `sleep`. */
  const DefaultSleep: int := 50

  /** How many hex characters of the digest the server compares. */
  const SignatureLength: nat := 16

  /**
   * The `sleep` value: the default when the parameter is absent or empty
   * (both are falsy), otherwise whatever `parseInt` makes of it, NaN
   * included.
   */
  function SleepParam(raw: Option<string>, parseInt: string -> Sleep): (s: Sleep)
    ensures raw.None? || raw == Some("") ==> s == Millis(DefaultSleep)
    ensures raw.Some? && raw.value != "" ==> s == parseInt(raw.value)
  {
    if raw.Some? && raw.value != "" then parseInt(raw.value) else Millis(DefaultSleep)
  }

  /**
   * The expected signature: the first 16 characters of the hex digest, or
   * all of it when it is shorter (`substr(0, 16)`).
   */
  function ExpectedSignature(digest: string): (sig: string)
    ensures |sig| == if |digest| < SignatureLength then |digest| else SignatureLength
    ensures sig == digest[..|sig|]
  {
    if |digest| <= SignatureLength then digest else digest[..SignatureLength]
  }

  /**
   * The handler's decision for one request, given the secret key, the keyed
   * hex digest `hmacHex(key, file)` and `parseInt`.
   */
  function Handle(key: string, q: Query, hmacHex: (string, string) -> string, parseInt: string -> Sleep): (x: Exchange)
    ensures x.response.status in {BadRequest, Ok, ServerError}
    ensures x.response.status != Ok ==> x.response.body == ""
    ensures x.response.status == BadRequest <==> q.file.None? || q.signature.None?
  {
    var sleep := SleepParam(q.sleep, parseInt);
    if q.file.None? || q.signature.None? then
      Exchange(Response(BadRequest, ""), [])
    else
      var expected := ExpectedSignature(hmacHex(key, q.file.value));
      var events := InsecureCompare(expected, q.signature.value, sleep);
      if Verdict(events) then
        Exchange(Response(Ok, expected), events)
      else
        Exchange(Response(ServerError, ""), events)
  }

  /**
   * A request missing `file` or `signature` gets 400 with an empty body and
   * runs no comparison; its outcome does not depend on the digest at all,
   * so no signature is computed for it.
   */
  lemma MissingParameterIsBadRequest(key: string, q: Query, h1: (string, string) -> string,
                                     h2: (string, string) -> string, parseInt: string -> Sleep)
    requires q.file.None? || q.signature.None?
    ensures Handle(key, q, h1, parseInt) == Exchange(Response(BadRequest, ""), [])
    ensures Handle(key, q, h1, parseInt) == Handle(key, q, h2, parseInt)
  {
  }

  /**
   * With both parameters present, the response is 200 carrying the expected
   * signature exactly when the candidate equals it, and 500 with an empty
   * body otherwise.
   */
  lemma VerdictMapsToStatus(key: string, q: Query, hmacHex: (string, string) -> string, parseInt: string -> Sleep)
    requires q.file.Some? && q.signature.Some?
    ensures var expected := ExpectedSignature(hmacHex(key, q.file.value));
      Handle(key, q, hmacHex, parseInt).response
      == if q.signature.value == expected then Response(Ok, expected) else Response(ServerError, "")
  {
    var expected := ExpectedSignature(hmacHex(key, q.file.value));
    CompareIsExact(expected, q.signature.value, SleepParam(q.sleep, parseInt));
    assert q.signature.value == expected <==>
      |expected| == |q.signature.value| && forall i :: 0 <= i < |expected| ==> expected[i] == q.signature.value[i];
  }

  /**
   * The timing signal of a handled request: one delay per leading
   * character the candidate shares with the expected signature, every one
   * of the branch the `sleep` parameter selects.
   */
  lemma ResponseTimeLeaksPrefix(key: string, q: Query, hmacHex: (string, string) -> string, parseInt: string -> Sleep)
    requires q.file.Some? && q.signature.Some?
    ensures var expected := ExpectedSignature(hmacHex(key, q.file.value));
      var t := Handle(key, q, hmacHex, parseInt).comparison;
      |t| == CommonPrefix(expected, q.signature.value) + 1 &&
      forall i :: 0 <= i < |t| - 1 ==> t[i] == Wait(KindOf(SleepParam(q.sleep, parseInt)), i)
  {
    var expected := ExpectedSignature(hmacHex(key, q.file.value));
    CompareLeaksPrefix(expected, q.signature.value, SleepParam(q.sleep, parseInt));
    CompareDelaysInOrder(expected, q.signature.value, SleepParam(q.sleep, parseInt));
  }

  /**
   * Omitting `sleep` (or sending it empty) behaves exactly like `sleep=50`,
   * provided `parseInt` reads "50" as 50.
   */
  lemma DefaultSleepIsFifty(key: string, file: Option<string>, signature: Option<string>,
                            hmacHex: (string, string) -> string, parseInt: string -> Sleep)
    requires parseInt("50") == Millis(50)
    ensures Handle(key, Query(file, signature, None), hmacHex, parseInt)
         == Handle(key, Query(file, signature, Some("50")), hmacHex, parseInt)
    ensures Handle(key, Query(file, signature, Some("")), hmacHex, parseInt)
         == Handle(key, Query(file, signature, Some("50")), hmacHex, parseInt)
  {
  }

  /**
   * The correct truncated signature for a file is always accepted, with
   * itself as the body.
   */
  lemma CorrectSignatureIsAccepted(key: string, file: string, sleep: Option<string>,
                                   hmacHex: (string, string) -> string, parseInt: string -> Sleep)
    ensures var expected := ExpectedSignature(hmacHex(key, file));
      Handle(key, Query(Some(file), Some(expected), sleep), hmacHex, parseInt).response == Response(Ok, expected)
  {
    var expected := ExpectedSignature(hmacHex(key, file));
    VerdictMapsToStatus(key, Query(Some(file), Some(expected), sleep), hmacHex, parseInt);
  }

  /**
   * A candidate whose first character is wrong is refused with 500 after
   * no delay at all, whatever `sleep` is.
   */
  lemma WrongFirstCharacterFailsFast(key: string, q: Query, hmacHex: (string, string) -> string, parseInt: string -> Sleep)
    requires q.file.Some? && q.signature.Some?
    requires var expected := ExpectedSignature(hmacHex(key, q.file.value));
      |expected| > 0 && |q.signature.value| > 0 && q.signature.value[0] != expected[0]
    ensures Handle(key, q, hmacHex, parseInt) == Exchange(Response(ServerError, ""), [Callback(false)])
  {
    var expected := ExpectedSignature(hmacHex(key, q.file.value));
    FirstMismatchHasNoDelay(expected, q.signature.value, SleepParam(q.sleep, parseInt));
  }
}
