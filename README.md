# Codeforces login proxy: session check and login protocol

This project models the core of a proxy that fetches pages from Codeforces for
callers who know only a short alias. The proxy looks the alias up to get a URL,
a domain and a pair of credentials. It fetches the page through a fresh HTTP
session and logs in first if the site shows its login page.

The model covers three functions of `server/index.ts`:

- `requiresLogin`. It decides from a parsed page whether the session is
  anonymous. The page is a login page only when its first `form#linkEnterForm`
  holds an `input[name="csrf_token"]`.
- `ensureValidSession`. It probes the target URL. If the probe shows the login
  page, it fetches `https://<domain>/enter`, reads the csrf token, posts the
  login form and classifies the answer. Every failure ends the run.
- `fetchCodeforces`. It creates a fresh session and runs the protocol. On
  success it GETs the URL once more and returns that text. On failure it
  returns the error message behind a fixed prefix.

Modules:

- `Wrappers` (`wrappers.dfy`): `Option` and `Result`.
- `Text` (`text.dfy`): JavaScript's `String.prototype.includes`.
- `Html` (`html.dfy`): an abstract parsed page and the login-page marker. A
  page is kept only as its forms and inputs in document order. A form has its
  optional `id` and its inputs. An input has its `name` and its optional
  `value`. `FirstMatch` stands for `querySelector`: the first match in
  document order.
- `Transport` (`transport.dfy`): the session agent. It is a class whose `log`
  field records every request it sends. It reads each response from a
  scripted `Server`. A `Server` maps the session's request history, with the
  current request last, to the response text or to a transport error message.
  A server that answers according to the history stands for the cookies the
  real agent collects. A fresh agent has an empty log.
- `Codeforces` (`codeforces.dfy`): the protocol. The pure functions
  `SessionRun` and `FetchRun` give the outcome and the full request log of
  `ensureValidSession` and `fetchCodeforces`. The methods `EnsureValidSession`
  and `FetchCodeforces` run the protocol step by step on an `Agent` and are
  proved equal to those functions. The lemmas state the protocol's promises
  about the functions.

These collaborators are parameters:

- the HTML parser: `parse: string -> Document`;
- the remote site and its network: `server: Server`.

## Model

| member | source | states |
|---|---|---|
| Html.FirstMatch | server/index.ts:17 | finds the first element in document order that matches, as `querySelector` does; None exactly when nothing matches; a match is unique |
| Html.RequiresLogin | server/index.ts:12-22 | the login-page marker; a page that requires login has a first `form#linkEnterForm` (the full characterisation is `Html.RequiresLoginIff`) |
| Html.RequiresLoginIff | server/index.ts:12-22 | the page requires login exactly when the first `form#linkEnterForm` exists and holds an `input[name="csrf_token"]` |
| Html.NoLoginFormMeansAuthenticated | server/index.ts:17-18 | a page with no `form#linkEnterForm` counts as authenticated, whatever else it contains |
| Html.LooseInputIsIgnored | server/index.ts:17-21 | adding an input outside every form, a `csrf_token` input included, anywhere in the page does not change the decision |
| Html.UniqueLoginForm | server/index.ts:17-21 | when the page has at most one login form, the decision is "some login form holds a csrf input" |
| Html.FormsConcat | server/index.ts:17 | the forms of two concatenated node lists are the forms of each, in order |
| Html.InputsConcat | server/index.ts:52 | the inputs of two concatenated node lists are the inputs of each, in order |
| Html.FormInputIsDocumentInput | server/index.ts:21 | every input inside a form is also found by a document-wide input query |
| Text.Includes | server/index.ts:76 | JavaScript's `includes`; a text can only include a needle no longer than itself (the full characterisation is `Text.IncludesIffOccurs`) |
| Text.IncludesIffOccurs | server/index.ts:76 | `Includes` holds exactly when the needle occurs at some position of the text |
| Codeforces.ExtractCsrfToken | server/index.ts:52-61 | the document-wide token lookup; a token it yields is never empty, and it fails only with "CSRF token not found in login page" or "CSRF token value is empty" (the full characterisation is `Codeforces.ExtractCsrfTokenSpec`) |
| Codeforces.ExtractCsrfTokenSpec | server/index.ts:52-61 | "not found" exactly when no input of the page is named `csrf_token`; otherwise the first such input decides: no value or an empty value gives "empty", else its value is the token; a token is never empty |
| Codeforces.LoginVerdict | server/index.ts:76-82 | the reading of the login answer; it accepts only an answer without the bad-credentials text that is not the login page, and fails only with the two login-failure messages (the order of the checks is `Codeforces.LoginAnswerClassification`) |
| Codeforces.LaterContentKeepsToken | server/index.ts:52 | the token comes from the first csrf input in document order: content after it, other csrf inputs included, does not change the token |
| Codeforces.LooseTokenIsUsed | server/index.ts:52-58 | the lookup is document-wide: a csrf input with a value that precedes every form supplies the token, though it is outside the login form |
| Codeforces.LoginPageHasToken | server/index.ts:21 | on a page that requires login, the document-wide token lookup never reports the token missing |
| Codeforces.LoginRun | server/index.ts:49-82 | the login step adds one or two requests to the log: first GET of the `/enter` page, then a POST to it; it succeeds only after the POST; each failure is a protocol error or the error of the last request sent; a failed request ends the step with that request's error, and every earlier request was answered; a found token is always followed by the POST |
| Codeforces.SessionRun | server/index.ts:41-83 | the session check adds one to three requests to the log: probe GET of the test URL, then GET of `/enter`, then POST to `/enter`; it never succeeds after exactly two requests; each failure is a protocol error or the error of the last request sent; a failed request (probe, login-page GET or POST) ends the check with that request's error, and every earlier request was answered; a probe that shows the login page is always followed by the GET of `/enter`, and a found token by the POST |
| Codeforces.FetchRun | server/index.ts:91-102 | the log starts with the probe GET; on success it is probe and final GET, or probe, GET `/enter`, POST `/enter` and final GET, and the result is the final response verbatim; every failure message starts with "Group standings retrieval failed: "; a failed request ends the fetch with its error behind that prefix, and every earlier request was answered |
| Transport.Agent.constructor | server/index.ts:91 | a new agent belongs to the given server and has sent nothing yet: a fresh session |
| Transport.Agent.Get | server/index.ts:41 | a GET appends exactly one GET request with no form fields to the log and returns the server's answer to the log so far |
| Transport.Agent.PostForm | server/index.ts:64-73 | a form POST appends exactly one POST request with the given fields to the log and returns the server's answer to the log so far |
| Codeforces.EnsureValidSession | server/index.ts:33-83 | run step by step on the agent, it returns the outcome `SessionRun` predicts and leaves the agent's log equal to `SessionRun`'s log |
| Codeforces.FetchCodeforces | server/index.ts:85-103 | run on a fresh agent, it returns the result and the request log that `FetchRun` predicts |
| Codeforces.FetchTwice | server/index.ts:91 | two fetches in a row share no session: each starts with its own probe, and the second sends the same requests as the first |
| Codeforces.AuthenticatedProbeSkipsLogin | server/index.ts:41-46 | if the probe does not show the login page, the session check succeeds after one request and sends no login GET or POST |
| Codeforces.MissingTokenStopsBeforePost | server/index.ts:49-56 | if the login page holds no `csrf_token` input, the outcome is "CSRF token not found in login page" and no POST is sent |
| Codeforces.EmptyTokenStopsBeforePost | server/index.ts:58-61 | if the first `csrf_token` input has no value or an empty one, the outcome is "CSRF token value is empty" and no POST is sent |
| Codeforces.LoginPostCarriesCredentials | server/index.ts:64-73 | the POST goes to `https://<domain>/enter` with exactly `csrf_token` (the non-empty token from the login page), `action=enter`, `handleOrEmail`, `password` and `remember=on` |
| Codeforces.LoginAnswerClassification | server/index.ts:76-82 | the answer to the POST is read in order: the bad-credentials text gives "Login failed: Invalid credentials" even on a login page; otherwise a login page gives "Login failed: Possible CAPTCHA or session issue"; otherwise the login succeeds |
| Codeforces.LoginSucceedsIff | server/index.ts:41-82 | a login succeeds exactly when the probe shows the login page, the login page yields a token, the POST is answered, and the answer neither reports bad credentials nor is the login page again |
| Codeforces.FailedProbeIsFatal | server/index.ts:93-101 | a failed probe GET ends the fetch after that one request, with the probe's error behind the prefix |
| Codeforces.FailedLoginPageGetIsFatal | server/index.ts:49 | a probe that shows the login page is always followed by the GET of `/enter`; if that GET fails, its error is the outcome and nothing more is sent |
| Codeforces.FailedLoginPostIsFatal | server/index.ts:64-73 | a found token is always followed by the login POST; if the POST fails, its error is the outcome and nothing more is sent |
| Codeforces.TokenLeadsToPost | server/index.ts:58-73 | once the login page yields a token, the session check sends all three requests, whatever the login page's own forms hold |
| Codeforces.LoginFormPageReachesPostOrEmptyToken | server/index.ts:49-61 | when the fetched login page shows the login form, the run never stops with "CSRF token not found": it reaches the POST or stops on an empty token |
| Codeforces.FailedSessionSkipsFinalGet | server/index.ts:95-101 | when the session check fails, no final GET is sent and the message is the prefix followed by the inner message |
| Codeforces.ValidSessionEndsWithFinalGet | server/index.ts:95-101 | after a valid session exactly one more request, a GET of the same URL, is sent; its text is returned unchanged, or its error is returned behind the prefix |

## Left out

- `server/db.ts` is not part of this model. It holds database connection setup, schema creation and environment defaults.
- The HTTP route at `server/index.ts:105-127` is not modelled: the alias lookup, the 404 response and server start-up are routing and I/O glue.
- HTML parsing and CSS selector matching are not modelled. The parser is a parameter that returns an abstract page. Selector details such as case-insensitive id matching in quirks-mode documents are not modelled.
- Networking and cookie merging are not modelled. A scripted `Server` that sees the session's request history stands for both. An HTTP error status and a network failure are both a `Failure` with the agent's message. Redirects are treated as part of the server's answer.
- The server depends only on the history of its own session. Global site state, such as rate limits that would let two sessions affect each other, is not modelled. `FetchTwice` relies on this.
- The "Already authenticated" console message (`server/index.ts:44`) is left out. So are async scheduling and concurrency between requests: only the order of requests within one fetch matters here.
- Only thrown `Error` values are modelled, through their messages. The case that formats a non-`Error` throwable (`server/index.ts:100`) cannot arise in this model.
- A response with no text (`res.text` undefined) is not modelled. Every successful response has a string body.
