# Leaky HMAC check of the cryptopals challenge-31 server

This project models the signature server of `srv/C31.js`: an HTTP handler
that signs the `file` query parameter with a secret key (HMAC-SHA256, hex,
cut to 16 characters) and checks the `signature` parameter against it with
`insecureCompare`, a comparison that walks both strings from index 0, stops
at once on the first difference or when either string runs out, and sleeps
`sleep` milliseconds after every matching character. The time a request
takes therefore reveals how many leading characters of the candidate are
right, which is the timing side channel the challenge is about.

Time is modelled as events. A comparison produces a trace of
`Wait(kind, digit)` events, one per delay, tagged with the branch that
would have carried it out (`BusyWait`, the blocking spin taken when
`sleep < 50`, or `Scheduled`, the `setTimeout` taken otherwise) and the
index whose match it follows, and ends with one `Callback(result)` event
for the call of the completion callback. The number of `Wait` events is
the timing signal.

- `wrappers.dfy` — `Option`, for query parameters that may be absent.
- `compare.dfy` (module `TimingCompare`) — `insecureCompare` and its
  `cmpDigit` continuation: the recursive definition `CmpDigit`, the loop
  `Compare` proved equal to it, the reference definition `CommonPrefix` of
  the leaked quantity, and the lemmas about exactness and the leak.
- `server.dfy` (module `SignatureServer`) — the handler's decision as a
  pure function `Handle` returning the response and the comparison trace,
  with the HMAC digest and `parseInt` passed in as functions and the
  secret key as an opaque parameter.

`sleep` is `Millis(n)` or `NotANumber`: `parseInt` yields NaN for text
that is not a number, the code does not fall back to 50 in that case, and
since `NaN < 50` is false such a request takes the `setTimeout` branch.
Only an absent or empty `sleep` gives 50 (srv/C31.js:46); an unparsable
one does not fall back to the default.

In the model every comparison terminates: `CmpDigit` is a total function
whose recursion decreases `|a| - digit`, and `Compare`'s loop has the same
measure. The running program can instead die of stack exhaustion on a long
busy-wait run (see "## Left out").

## Model

| member | source | states |
|---|---|---|
| TimingCompare.KindOf | srv/C31.js:29 | a delay busy-waits exactly when `sleep` is a number below 50; every other value, NaN included, goes through `setTimeout` |
| TimingCompare.CmpDigit | srv/C31.js:17-38 | the continuation at index `digit` always ends in a call of the callback, after at most as many delays as there are indexes left in the shorter string |
| TimingCompare.InsecureCompare | srv/C31.js:16-40 | the whole comparison ends in a call of the callback and delays at most `min(|a|, |b|)` times |
| TimingCompare.CmpDigitMeasures | srv/C31.js:17-38 | from index `digit`, the number of delays is the longest common prefix of the two remaining suffixes and the callback gets `true` exactly when those suffixes are equal |
| TimingCompare.CmpDigitDelaysInOrder | srv/C31.js:29-35 | every event before the callback is a delay of the branch `sleep` selects, and the i-th one follows the match at index `digit + i` |
| TimingCompare.CompareDelaysInOrder | srv/C31.js:29-39 | the comparison's delays all take the same branch and follow indexes 0, 1, 2, ... in turn, so index i+1 is compared only after the delay for index i; no event before the last is a callback, so the callback is called exactly once |
| TimingCompare.CompareIsExact | srv/C31.js:19-28 | the callback gets `true` if and only if both strings have the same length and the same character at every index |
| TimingCompare.CompareLeaksPrefix | srv/C31.js:27-35 | the number of delays equals the length of the longest common prefix, and each delay follows a matching character |
| TimingCompare.EqualStringsDelayFully | srv/C31.js:19-35 | comparing a string with itself delays once per character and then succeeds |
| TimingCompare.FirstMismatchHasNoDelay | srv/C31.js:27-28 | a mismatch at index 0 calls back `false` with no delay, whatever `sleep` is |
| TimingCompare.ExhaustedStringStopsComparison | srv/C31.js:21-26 | when one string is a proper prefix of the other, the comparison delays once per character of the shorter one and then fails with no further delay |
| TimingCompare.SleepOnlyChoosesTheBranch | srv/C31.js:29-35 | neither the verdict nor the number of delays depends on `sleep` |
| TimingCompare.ProbeRevealsNextCharacter | srv/C31.js:27-35 | a candidate right on its first k characters delays more than k times exactly when its character k is right too, and exactly k times otherwise: the per-character search the leak allows |
| TimingCompare.Delay | srv/C31.js:29-35 | one delay step takes the busy-wait branch when `sleep < 50` and the timer branch otherwise, and records the index it follows |
| TimingCompare.Compare | srv/C31.js:16-40 | the loop over the index produces exactly the events of the recursive definition |
| SignatureServer.SleepParam | srv/C31.js:46 | `sleep` is 50 when the parameter is absent or empty, and otherwise whatever `parseInt` makes of it |
| SignatureServer.ExpectedSignature | srv/C31.js:53-55 | the expected signature is the prefix of the hex digest of length `min(16, |digest|)` |
| SignatureServer.Handle | srv/C31.js:43-66 | the status is 400, 200 or 500; it is 400 exactly when `file` or `signature` is missing; only 200 has a non-empty body |
| SignatureServer.MissingParameterIsBadRequest | srv/C31.js:47-51 | a request missing `file` or `signature` gets 400 with an empty body, runs no comparison, and its outcome does not depend on the digest |
| SignatureServer.VerdictMapsToStatus | srv/C31.js:57-66 | with both parameters present, the response is 200 with the expected signature as body when the candidate equals it, and 500 with an empty body otherwise |
| SignatureServer.ResponseTimeLeaksPrefix | srv/C31.js:53-57 | a handled request delays once per leading character the candidate shares with the expected signature, every delay of the branch its `sleep` selects |
| SignatureServer.DefaultSleepIsFifty | srv/C31.js:46 | omitting `sleep`, or sending it empty, is handled exactly like `sleep=50` |
| SignatureServer.CorrectSignatureIsAccepted | srv/C31.js:53-60 | the correct truncated signature for a file is always accepted, with itself as the body |
| SignatureServer.WrongFirstCharacterFailsFast | srv/C31.js:53-63 | a candidate whose first character is wrong gets 500 after no delay at all |

## Left out

- `randStr` and `secretKey` (srv/C31.js:5-14): the key comes from `Math.random`, floating point; the model takes the key as an opaque parameter.
- `crypto.createHmac('sha256', ...).update(file).digest('hex')` (srv/C31.js:53): a foreign library call; the handler receives it as a function `hmacHex(key, file)`, and nothing about SHA-256 or HMAC is specified.
- `parseInt` (srv/C31.js:46): the handler receives it as a function to a number or NaN; its treatment of signs, whitespace, trailing text and `0x` prefixes is not modelled.
- Wall-clock time: the `new Date()` spin loop (srv/C31.js:30-32) and the `setTimeout` timer (srv/C31.js:35) are counted as tagged delay events, not as durations; how long a NaN or negative delay really lasts is not modelled.
- Event-loop interleaving: other requests that may run while a `setTimeout` delay is pending are not modelled; each comparison is a sequential trace.
- HTTP plumbing: `http.createServer`, `url.parse`, `listen` and `console.log` (srv/C31.js:42-43, 67-69); the query is taken as a record of optional strings, and a parameter given several times (which `url.parse` turns into an array) is not modelled.
- The `Content-Type: text/plain` header written with every response (srv/C31.js:48, 59, 62): the response is its status and body only.
- TimingCompare.CmpDigit: strings are sequences of Unicode characters, while srv/C31.js:19-27 indexes `length` and `charAt` in UTF-16 code units. A character outside the Basic Multilingual Plane counts as one index in the model and as two (one delay per surrogate half) in the program, so `CompareLeaksPrefix` counts the common prefix in characters, and a string with a lone surrogate cannot be represented. Through the handler the expected signature is at most 16 ASCII hex characters, so the two counts agree there.
- TimingCompare.CmpDigit: when `sleep < 50` the program recurses synchronously, one stack frame per match (srv/C31.js:33), so a long enough common prefix throws `RangeError` and the callback is never called. The model has no stack bound and always ends in a callback. Through the handler the depth is at most 17, so this cannot happen there.
