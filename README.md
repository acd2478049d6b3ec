# Protein structure viewer: the fetch and validation core, in Dafny

The application is a Streamlit page. It gets a protein structure in one of two
ways: it downloads a precomputed model from the AlphaFold protein structure
database, or it submits an amino-acid sequence to the ESMFold prediction
service. This project models the three pieces of logic in
`streamlit_app.py` that do more than call a library:

- `clean_seq` validates a sequence (module `Validation`, file `validation.dfy`).
  It upper-cases the input and deletes whitespace and invisible separators.
  Then it rejects an empty result, then the first character outside the
  24-letter residue alphabet (reported with its 1-indexed position), then
  anything longer than 4000 characters.
- `fetch_af_pdb` is the AlphaFold DB lookup (module `AlphaFoldDb`, file
  `alphafold.dfy`). It sends one GET per URL template, v4 before v3, and
  returns the raw body of the first response that passes the acceptance test.
  If none passes, only the last response decides the outcome.
- `esmfold` is the ESMFold retry loop (module `EsmFold`, file `esmfold.dfy`).
  It makes at most `tries` POSTs with exponential backoff and jitter. It
  separates retryable statuses (429 from section 4 of RFC 6585; 500, 502, 503
  and 504 from section 15.6 of RFC 9110) from other 4xx/5xx statuses, network
  errors, and non-error statuses that are not accepted.

Both fetchers share one acceptance test (module `Http`, file
`transport.dfy`): status 200, and a body whose `strip()` starts with `HEADER`.
`HEADER` is the first record of the title section of a wwPDB PDB-format file.
Module `PyText` (file `text.dfy`) models the Python string primitives the
code relies on.

The network is replaced by a scripted transport. A call's n-th request
(counting from 0) gets `script[n]`, which is either `Response(status, body)` or
`NetworkError` (the `requests.RequestException` raised by `get`/`post`). If
the script has run out, the request gets `NetworkError`. The values of
`np.random.rand()` come from a sequence of draws in [0, 1), and 0 once that
runs out. Each `time.sleep` is recorded with its attempt number and delay.
A call ends in a `CallResult`: a returned text, `None`, or one of the
exceptions `HTTPError`, network error, `ValueError`, `OverflowError` and
`RuntimeError`.

Both fetchers are methods with `while` loops, like the source's `for` loops.
`FetchAfPdb` states its whole behaviour in its postconditions. `Esmfold` is
proved equal to `Run`, a recursive state machine with one step per attempt.
The properties of the retry policy are lemmas about `Run`.

## Behaviour of the code worth noting

- The residue alphabet `VALID_AA` has 24 letters: the 26 capitals without O and U.
- In `esmfold`, a non-retryable 4xx/5xx status does not end the call at once.
  The `HTTPError` from `raise_for_status()` is a `RequestException`, so the
  `except` clause catches it. It is then retried like a network error and
  re-raised only on the last attempt. `NotFoundIsRetried` shows this for 404.
- A retryable status on the last attempt still sleeps before `RuntimeError`
  is raised.
- The jitter factor `1 + 0.25 * np.random.rand()` lies in [1, 1.25).
- The backoff code sits inside the `try` block and inside the `except`
  clause, but the exceptions it can raise are not `RequestException`s, so
  they end the call. These are `ValueError` from `time.sleep` for a negative
  delay, and `OverflowError` for a delay beyond the range of `time.sleep`
  (2^63 ns, about 292 years) or for 2^(k-1) beyond the float range. With the
  default base this first happens at attempt 34 (`DefaultBaseLimit`). A base
  of 10^12 raises it after the first retryable status (`HugeBaseOverflows`).
- When no candidate is accepted, `fetch_af_pdb` calls `raise_for_status()`
  on the last response only. It raises that response's `HTTPError`, or
  returns `None` when the status is not 4xx/5xx.

## Model

| member | source | states |
|---|---|---|
| `PyText.UpperCharTable` | streamlit_app.py:23 | upper-casing agrees with the two alphabet tables: the i-th lower-case letter becomes the i-th capital, the lower-case letters are exactly the table's, any other character is kept, and upper-casing twice is upper-casing once |
| `PyText.StripStartsWithIff` | streamlit_app.py:64 | for a prefix with no whitespace, `strip()` then `startswith` agrees with `lstrip()` then `startswith` |
| `Http.AcceptedIff` | streamlit_app.py:75 | a response is accepted iff its status is 200 and its body, with leading whitespace trimmed, starts with HEADER |
| `Http.AcceptedBodyShape` | streamlit_app.py:64-65 | an accepted body is whitespace followed by HEADER, so a returned document begins with the header record |
| `Validation.RemoveSeparatorsShape` | streamlit_app.py:23 | the substitution leaves no separator, keeps only input characters, is empty iff the input is all separators, and leaves separator-free text unchanged |
| `Validation.NormalizeShape` | streamlit_app.py:23 | the normalised text holds no separator and no lower-case ASCII letter, is no longer than the input, and is empty iff the input is blank |
| `Validation.NormalizeIdempotent` | streamlit_app.py:23 | normalising twice equals normalising once |
| `Validation.BadTokensFromFirst` | streamlit_app.py:26-28 | the list of invalid tokens is empty iff all characters are valid; its first entry is the first invalid character and its index |
| `Validation.ValidTokenShape` | streamlit_app.py:17 | the residue codes are exactly the capital letters other than O and U, so a valid token is never a separator nor a lower-case letter |
| `Validation.CleanSeqAccepts` | streamlit_app.py:22-32 | success iff the normalised input is non-empty, at most 4000 long and all valid; the result is the normalised input |
| `Validation.CleanSeqKeepsValid` | streamlit_app.py:22-32 | a non-empty, valid sequence of length at most 4000 comes back unchanged |
| `Validation.CleanSeqIdempotent` | streamlit_app.py:32 | cleaning a cleaned sequence again returns it unchanged |
| `Validation.CleanSeqEmptyIff` | streamlit_app.py:23-25 | the empty error is raised iff every input character is a separator |
| `Validation.CleanSeqInvalidToken` | streamlit_app.py:26-29 | the invalid-token error is raised iff some normalised character is invalid, whatever the length; it names the first one and its 1-indexed position |
| `Validation.CleanSeqTooLongIff` | streamlit_app.py:30-31 | the too-long error is raised iff all characters are valid and there are more than 4000 |
| `Validation.LengthBoundary` | streamlit_app.py:30-31 | 4000 valid letters are accepted; 4001 are too long |
| `Validation.InvalidBeforeTooLong` | streamlit_app.py:26-31 | a 5000-character input ending in '#' reports the token at position 5000, not the length |
| `Validation.InvalidTokenExample` | streamlit_app.py:26-29 | "AXZ#Q" is rejected with token '#' at position 4 |
| `Validation.CleanExample` | streamlit_app.py:22-32 | " a\nC" is cleaned to "AC" |
| `Validation.BlankExample` | streamlit_app.py:24-25 | a string of spaces, CR and LF is rejected as empty |
| `AlphaFoldDb.FetchAfPdb` | streamlit_app.py:59-66 | one or two GETs, to the URLs built from the templates in order (v4 then v3); every reply before the last was a response that was not accepted; returns the raw body iff the last reply is accepted; a network error propagates at once; otherwise HTTPError for a last 4xx/5xx status and None for any other |
| `AlphaFoldDb.FallsBackToV3` | streamlit_app.py:61-65 | a 404 on v4 and a document on v3 return the document after both URLs were asked for |
| `AlphaFoldDb.StopsAtV4` | streamlit_app.py:61-65 | a document on v4 is returned without asking for v3 |
| `AlphaFoldDb.NetworkErrorStopsAtV4` | streamlit_app.py:61-63 | a network error on the v4 request propagates without asking for v3 |
| `AlphaFoldDb.LastNotFoundRaises` | streamlit_app.py:61-66 | a 500 on v4 and a 404 on v3 raise the HTTPError of the 404 |
| `AlphaFoldDb.LastNonDocumentGivesNone` | streamlit_app.py:61-66 | a 404 on v4 and a 200 page that is not a PDB document on v3 give None |
| `EsmFold.Esmfold` | streamlit_app.py:68-89 | the result, the number of POSTs and the sleeps equal those of the state machine `Run`, whose properties are the lemmas below |
| `EsmFold.SleepBackoff` | streamlit_app.py:78-80 | the backoff code after attempt k ends as `PauseAfter` says: OverflowError when 2^(k-1) is no float or the delay is out of the range of `time.sleep`, else ValueError for a negative delay, else a sleep of the backoff delay, which is then non-negative and below 2^63 ns |
| `EsmFold.PauseFits` | streamlit_app.py:78-80 | with a non-negative base and the longest delay of attempt m within range, the backoff code after any attempt up to m raises nothing and sleeps exactly the backoff delay |
| `EsmFold.BackoffBounds` | streamlit_app.py:78-79 | the delay after attempt k lies between base*2^(k-1) and 1.25*base*2^(k-1), strictly below the upper bound when base > 0, and is negative iff base is |
| `EsmFold.RunShape` | streamlit_app.py:72 | from attempt k, the call sends between k-1 and tries POSTs, only appends sleeps, at most one per POST, and never returns None |
| `EsmFold.PostsBounded` | streamlit_app.py:72-89 | at most `tries` POSTs; none, and RuntimeError, when tries <= 0; at most one sleep per POST; never returns None |
| `EsmFold.RunReturnsFirstAccepted` | streamlit_app.py:75-76 | a returned body is that of the last reply, which is accepted, and no earlier reply from attempt k on was accepted |
| `EsmFold.RunStopsAtFirstAccepted` | streamlit_app.py:75-76 | when the delays of the attempts before it fit, the first accepted reply within `tries` ends the call with its body after exactly that many POSTs |
| `EsmFold.EsmfoldReturnsFirstAccepted` | streamlit_app.py:72-76 | both directions for a whole call: a returned body is the first accepted reply's raw body, and such a reply within `tries`, with the delays before it within range, is returned |
| `EsmFold.RunFailureCauses` | streamlit_app.py:77-89 | HTTPError and network errors come only from the last attempt's reply; ValueError and OverflowError only from the backoff after an attempt that sleeps, ValueError only for a negative base and OverflowError only when the delays do not fit; RuntimeError only after every attempt, the last one retryable or non-error |
| `EsmFold.RunExhausted` | streamlit_app.py:82-89 | when the delays fit and no reply is accepted, every attempt is made and the last reply alone decides: its exception is re-raised, or RuntimeError |
| `EsmFold.EsmfoldFailures` | streamlit_app.py:77-89 | the failure classes of a whole call, and the converse: when the delays fit and nothing is accepted, the last reply decides |
| `EsmFold.SleepingAttemptsShape` | streamlit_app.py:77-88 | the attempts that sleep are listed in increasing order, and an attempt is listed iff it got a retryable status, or caught an exception before the last attempt |
| `EsmFold.RunSleptAt` | streamlit_app.py:77-88 | from attempt k on, the run sleeps once after each attempt that gets 429/500/502/503/504, on any attempt including the last, or that raises a network or HTTP error before the last attempt, in attempt order and after no other attempt; when the backoff code raises, the attempt it followed has no sleep |
| `EsmFold.RunDelays` | streamlit_app.py:78-80 | every sleep the run adds lasts the backoff of its attempt with the jitter draw of its rank among the sleeps |
| `EsmFold.EsmfoldSleepAttempts` | streamlit_app.py:77-88 | a call sleeps exactly after retryable statuses (the last attempt included) and after exceptions before the last attempt, never after a non-error status, in increasing order; a call ended by the backoff code's own exception lacks only the last attempt's sleep |
| `EsmFold.DelaysWithinBackoff` | streamlit_app.py:86-87 | each recorded delay that follows the schedule lies within its attempt's backoff bounds |
| `EsmFold.EsmfoldSleepDelays` | streamlit_app.py:78-80 | every sleep follows an attempt that was made and lasts between base*2^(k-1) and 1.25*base*2^(k-1) |
| `EsmFold.DefaultBaseLimit` | streamlit_app.py:68-80 | with the default base, the delays of the default five tries, and of up to 33 attempts, fit; after attempt 34 the backoff raises OverflowError whatever the jitter |
| `EsmFold.HugeBaseOverflows` | streamlit_app.py:77-80 | with base 10^12, a 503 ends the call with OverflowError after one POST and no sleep |
| `EsmFold.RecoversAfterTransientErrors` | streamlit_app.py:75-81 | replies 503, 429 and a document give the document after 3 POSTs and sleeps after attempts 1 and 2 |
| `EsmFold.ExhaustedByTransientErrors` | streamlit_app.py:77-89 | five 503s with five tries give five POSTs, five sleeps and RuntimeError, with no sixth POST |
| `EsmFold.NotFoundIsRetried` | streamlit_app.py:82-88 | with the default five tries, a 404 on every attempt gives five POSTs, four sleeps and the HTTPError(404) of the fifth |
| `EsmFold.NoContentMovesOn` | streamlit_app.py:75-82 | a 204 followed by a document returns the document with no sleep |
| `EsmFold.NoTries` | streamlit_app.py:72-89 | with tries <= 0 nothing is sent and RuntimeError is raised |

## Left out

- `render` (3D view through py3Dmol/stmol) and `parse_bfactor_mean` (temporary file, PDB parsing by biotite, numpy averaging with NaN replacement and rounding): foreign libraries, file I/O and floating point.
- The Streamlit page, its widgets and the wiring that calls `clean_seq` before `esmfold`: user-interface glue.
- Real HTTP is not modelled: no `requests.Session`, request headers, JSON payload or timeouts. Transport failures are collapsed into one network-error reply. The sequence sent to ESMFold is not a parameter, because it never affects the control flow.
- `Validation.Normalize`: upper-cases ASCII letters only. Python's `str.upper()` also maps other letters, some to ASCII (e.g. 'ı' to 'I', 'ſ' to 'S'), and can lengthen a string ('ß' to 'SS'). The model can therefore reject inputs that Python would accept. For inputs both reject, the reported token and position can differ: for "é" the model reports 'é' where Python reports 'É', and for "ßX#" it reports 'ß' at position 1 where Python reports '#' at position 4.
- `PyText.IsSpace` follows Python's whitespace table, the set used by both the `\s` class and `str.strip()`. The table is written out as constants; Unicode data is not consulted.
- Only the messages' data are modelled (the reason, and the position and character of an invalid token), not their text.
- Floating-point rounding of the delays, and NaN or infinite `base` values: delays are exact reals. The range check of `time.sleep` is therefore exact only up to rounding at 2^63 ns. A product of `base` and 2^(k-1) beyond the float range becomes infinite in Python. It then gives OverflowError, or ValueError for NaN when the jitter draw is 0. The model reports OverflowError for every such delay.
- The actual waiting of `time.sleep`: only each sleep's attempt and duration are recorded.
