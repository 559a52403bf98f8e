/**
 * The session-validity decision and login protocol of the Codeforces login
 * proxy: probe the target page, log in with the stored credentials when the
 * probe lands on the login page, then fetch the target page with the
 * authenticated session.
 *
 * `SessionRun` and `FetchRun` say, as values, what the two protocol methods
 * return and which requests they send; the lemmas below state the protocol's
 * promises about them.
 */
module Codeforces {
  import opened Wrappers
  import opened Text
  import opened Html
  import opened Transport

  /** The HTML parser, a collaborator outside this model. */
  type Parser = string -> Document

  const CsrfNotFound := "CSRF token not found in login page"
  const CsrfEmpty := "CSRF token value is empty"
  const InvalidCredentialsMarker := "Invalid handle/email or password"
  const InvalidCredentials := "Login failed: Invalid credentials"
  const ChallengeRequired := "Login failed: Possible CAPTCHA or session issue"
  const RetrievalFailedPrefix := "Group standings retrieval failed: "

  /** The errors the protocol raises itself, as opposed to transport errors. */
  const ProtocolErrors: set<string> := {CsrfNotFound, CsrfEmpty, InvalidCredentials, ChallengeRequired}

  /** What a protocol step yields, and the session's whole request log after it. */
  datatype Run<T> = Run(result: Result<T, string>, log: seq<Request>)

  function EnterUrl(domain: string): string
  {
    "https://" + domain + "/enter"
  }

  /** The login form as it is submitted, field by field. */
  function LoginFields(token: string, login: string, password: string): seq<(string, string)>
  {
    [("csrf_token", token), ("action", "enter"), ("handleOrEmail", login),
     ("password", password), ("remember", "on")]
  }

  function LoginRequest(domain: string, token: string, login: string, password: string): Request
  {
    Request(POST, EnterUrl(domain), LoginFields(token, login, password))
  }

  /** JavaScript falsiness of an attribute read: absent (`null`) or empty. */
  predicate Blank(v: Option<string>)
  {
    v.None? || v.value == ""
  }

  /**
   * The csrf token of the login page, looked up in the whole document (not
   * only inside the login form): the `value` of the first input named
   * `csrf_token`.
   */
  function ExtractCsrfToken(doc: Document): (r: Result<string, string>)
    ensures r.Success? ==> r.value != ""
    ensures r.Failure? ==> r.error == CsrfNotFound || r.error == CsrfEmpty
  {
    var inputs := Inputs(doc.nodes);
    match FirstMatch(inputs, IsCsrfInput)
    case None => Failure(CsrfNotFound)
    case Some(k) =>
      var v := inputs[k].value;
      if Blank(v) then Failure(CsrfEmpty) else Success(v.value)
  }

  /**
   * The lookup fails with "not found" exactly when no input of the page is
   * named `csrf_token`; otherwise the first such input decides: its value is
   * the token, and a missing or empty value fails with "empty".
   */
  lemma ExtractCsrfTokenSpec(doc: Document)
    ensures ExtractCsrfToken(doc) == Failure(CsrfNotFound) <==>
      forall k :: 0 <= k < |Inputs(doc.nodes)| ==> !IsCsrfInput(Inputs(doc.nodes)[k])
    ensures forall k :: IsFirst(Inputs(doc.nodes), IsCsrfInput, k) ==>
      ExtractCsrfToken(doc) == (if Blank(Inputs(doc.nodes)[k].value) then Failure(CsrfEmpty)
                                else Success(Inputs(doc.nodes)[k].value.value))
    ensures ExtractCsrfToken(doc).Success? ==> ExtractCsrfToken(doc).value != ""
  {
    var inputs := Inputs(doc.nodes);
    var found := FirstMatch(inputs, IsCsrfInput);
    if found.Some? {
      var first := found.value;
      assert IsCsrfInput(inputs[first]);
      assert |CsrfNotFound| != |CsrfEmpty|;
    }
  }

  /** How the answer to the login POST is read: the bad-credentials text is
      looked for first, the login page second. */
  function LoginVerdict(body: string, doc: Document): (r: Result<(), string>)
    ensures r.Success? ==> !Includes(body, InvalidCredentialsMarker) && !RequiresLogin(doc)
    ensures r.Failure? ==> r.error == InvalidCredentials || r.error == ChallengeRequired
  {
    if Includes(body, InvalidCredentialsMarker) then Failure(InvalidCredentials)
    else if RequiresLogin(doc) then Failure(ChallengeRequired)
    else Success(())
  }

  /**
   * The login step of `ensureValidSession`, run after `history`: fetch the
   * login page, read its token, post the credentials and read the answer.
   */
  function LoginRun(server: Server, parse: Parser, history: seq<Request>,
                    domain: string, login: string, password: string): (run: Run<()>)
    ensures |history| + 1 <= |run.log| <= |history| + 2 && run.log[..|history|] == history
    ensures run.log[|history|] == GetRequest(EnterUrl(domain))
    ensures |run.log| == |history| + 2 ==>
      run.log[|history| + 1].verb == POST && run.log[|history| + 1].url == EnterUrl(domain)
    ensures run.result.Success? ==> |run.log| == |history| + 2
    ensures run.result.Failure? ==>
      run.result.error in ProtocolErrors || server(run.log) == Failure(run.result.error)
    ensures server(run.log).Failure? ==> run.result == Failure(server(run.log).error)
    ensures forall i :: |history| < i < |run.log| ==> server(run.log[..i]).Success?
    ensures var page := server(history + [GetRequest(EnterUrl(domain))]);
      page.Success? && ExtractCsrfToken(parse(page.value)).Success? ==> |run.log| == |history| + 2
  {
    var enter := history + [GetRequest(EnterUrl(domain))];
    match server(enter)
    case Failure(e) => Run(Failure(e), enter)
    case Success(page) =>
      match ExtractCsrfToken(parse(page))
      case Failure(e) => Run(Failure(e), enter)
      case Success(token) =>
        var posted := enter + [LoginRequest(domain, token, login, password)];
        match server(posted)
        case Failure(e) => Run(Failure(e), posted)
        case Success(answer) => Run(LoginVerdict(answer, parse(answer)), posted)
  }

  /**
   * The requests `ensureValidSession` sends after `history` and its outcome.
   * Every failure is terminal: nothing is sent after it.
   */
  function SessionRun(server: Server, parse: Parser, history: seq<Request>,
                      domain: string, login: string, password: string, testUrl: string): (run: Run<()>)
    ensures |history| + 1 <= |run.log| <= |history| + 3 && run.log[..|history|] == history
    ensures run.log[|history|] == GetRequest(testUrl)
    ensures |run.log| >= |history| + 2 ==> run.log[|history| + 1] == GetRequest(EnterUrl(domain))
    ensures |run.log| == |history| + 3 ==>
      run.log[|history| + 2].verb == POST && run.log[|history| + 2].url == EnterUrl(domain)
    ensures run.result.Success? ==> |run.log| != |history| + 2
    ensures run.result.Failure? ==>
      run.result.error in ProtocolErrors || server(run.log) == Failure(run.result.error)
    ensures server(run.log).Failure? ==> run.result == Failure(server(run.log).error)
    ensures forall i :: |history| < i < |run.log| ==> server(run.log[..i]).Success?
    ensures var probe := server(history + [GetRequest(testUrl)]);
      probe.Success? && RequiresLogin(parse(probe.value)) ==> |run.log| >= |history| + 2
    ensures var probe := server(history + [GetRequest(testUrl)]);
      var page := server(history + [GetRequest(testUrl)] + [GetRequest(EnterUrl(domain))]);
      (probe.Success? && RequiresLogin(parse(probe.value)) &&
       page.Success? && ExtractCsrfToken(parse(page.value)).Success?) ==> |run.log| == |history| + 3
  {
    var probed := history + [GetRequest(testUrl)];
    match server(probed)
    case Failure(e) => Run(Failure(e), probed)
    case Success(body) =>
      if !RequiresLogin(parse(body)) then Run(Success(()), probed)
      else LoginRun(server, parse, probed, domain, login, password)
  }

  /**
   * The requests `fetchCodeforces` sends from a fresh session and what it
   * returns: the final page text on success, the wrapped message otherwise.
   */
  function FetchRun(server: Server, parse: Parser,
                    url: string, domain: string, login: string, password: string): (run: Run<string>)
    ensures |run.log| >= 1 && run.log[0] == GetRequest(url)
    ensures run.result.Success? ==>
      (run.log == [GetRequest(url), GetRequest(url)] ||
       (|run.log| == 4 && run.log[1] == GetRequest(EnterUrl(domain)) &&
        run.log[2].verb == POST && run.log[2].url == EnterUrl(domain) && run.log[3] == GetRequest(url)))
    ensures run.result.Success? ==> server(run.log) == run.result
    ensures run.result.Failure? ==> RetrievalFailedPrefix <= run.result.error
    ensures server(run.log).Failure? ==>
      run.result == Failure(RetrievalFailedPrefix + server(run.log).error)
    ensures forall i :: 0 < i < |run.log| ==> server(run.log[..i]).Success?
  {
    var session := SessionRun(server, parse, [], domain, login, password, url);
    match session.result
    case Failure(e) => Run(Failure(RetrievalFailedPrefix + e), session.log)
    case Success(_) =>
      var log := session.log + [GetRequest(url)];
      assert forall i :: 0 < i <= |session.log| ==> log[..i] == session.log[..i];
      match server(log)
      case Success(text) => Run(Success(text), log)
      case Failure(e) => Run(Failure(RetrievalFailedPrefix + e), log)
  }

  /** Probe the session with `testUrl` and log in when the probe shows the
      login page. */
  method EnsureValidSession(agent: Agent, parse: Parser, domain: string, login: string,
                            password: string, testUrl: string) returns (r: Result<(), string>)
    modifies agent
    ensures Run(r, agent.log) == SessionRun(agent.server, parse, old(agent.log), domain, login, password, testUrl)
  {
    var probe := agent.Get(testUrl);
    if probe.Failure? {
      return Failure(probe.error);
    }
    if !RequiresLogin(parse(probe.value)) {
      return Success(());
    }
    var loginPage := agent.Get(EnterUrl(domain));
    if loginPage.Failure? {
      return Failure(loginPage.error);
    }
    var token := ExtractCsrfToken(parse(loginPage.value));
    if token.Failure? {
      return Failure(token.error);
    }
    var answer := agent.PostForm(EnterUrl(domain), LoginFields(token.value, login, password));
    if answer.Failure? {
      return Failure(answer.error);
    }
    if Includes(answer.value, InvalidCredentialsMarker) {
      return Failure(InvalidCredentials);
    }
    if RequiresLogin(parse(answer.value)) {
      return Failure(ChallengeRequired);
    }
    return Success(());
  }

  /** Fetch `url` through a fresh session, logging in first when needed. The
      requests the session sent are returned beside the result. */
  method FetchCodeforces(server: Server, parse: Parser, url: string, domain: string,
                         login: string, password: string) returns (r: Result<string, string>, sent: seq<Request>)
    ensures Run(r, sent) == FetchRun(server, parse, url, domain, login, password)
  {
    var agent := new Agent(server);
    var session := EnsureValidSession(agent, parse, domain, login, password, url);
    if session.Failure? {
      r, sent := Failure(RetrievalFailedPrefix + session.error), agent.log;
      return;
    }
    var page := agent.Get(url);
    if page.Failure? {
      r := Failure(RetrievalFailedPrefix + page.error);
    } else {
      r := Success(page.value);
    }
    sent := agent.log;
  }

  /** Two fetches in a row share nothing: the second creates its own session,
      probes again and, if it must, logs in again, exactly as the first did. */
  method FetchTwice(server: Server, parse: Parser, url: string, domain: string,
                    login: string, password: string)
    returns (first: Result<string, string>, second: Result<string, string>,
             firstSent: seq<Request>, secondSent: seq<Request>)
    ensures |firstSent| >= 1 && firstSent[0] == GetRequest(url)
    ensures |secondSent| >= 1 && secondSent[0] == GetRequest(url)
    ensures first == second && firstSent == secondSent
  {
    first, firstSent := FetchCodeforces(server, parse, url, domain, login, password);
    second, secondSent := FetchCodeforces(server, parse, url, domain, login, password);
  }

  // ---------------------------------------------------------------------------
  // Properties of the protocol

  /** An authenticated probe ends the protocol: one request, no login GET, no POST. */
  lemma AuthenticatedProbeSkipsLogin(server: Server, parse: Parser, history: seq<Request>,
                                     domain: string, login: string, password: string, testUrl: string, body: string)
    requires server(history + [GetRequest(testUrl)]) == Success(body)
    requires !RequiresLogin(parse(body))
    ensures SessionRun(server, parse, history, domain, login, password, testUrl)
         == Run(Success(()), history + [GetRequest(testUrl)])
  {
  }

  /** A login page with no csrf input anywhere stops the protocol before the POST. */
  lemma MissingTokenStopsBeforePost(server: Server, parse: Parser, history: seq<Request>,
                                    domain: string, login: string, password: string, testUrl: string,
                                    probe: string, page: string)
    requires server(history + [GetRequest(testUrl)]) == Success(probe) && RequiresLogin(parse(probe))
    requires server(history + [GetRequest(testUrl)] + [GetRequest(EnterUrl(domain))]) == Success(page)
    requires forall k :: 0 <= k < |Inputs(parse(page).nodes)| ==> !IsCsrfInput(Inputs(parse(page).nodes)[k])
    ensures SessionRun(server, parse, history, domain, login, password, testUrl)
         == Run(Failure(CsrfNotFound), history + [GetRequest(testUrl)] + [GetRequest(EnterUrl(domain))])
  {
  }

  /** A csrf input without a value, or with an empty one, stops the protocol before the POST. */
  lemma EmptyTokenStopsBeforePost(server: Server, parse: Parser, history: seq<Request>,
                                  domain: string, login: string, password: string, testUrl: string,
                                  probe: string, page: string, k: nat)
    requires server(history + [GetRequest(testUrl)]) == Success(probe) && RequiresLogin(parse(probe))
    requires server(history + [GetRequest(testUrl)] + [GetRequest(EnterUrl(domain))]) == Success(page)
    requires IsFirst(Inputs(parse(page).nodes), IsCsrfInput, k) && Blank(Inputs(parse(page).nodes)[k].value)
    ensures SessionRun(server, parse, history, domain, login, password, testUrl)
         == Run(Failure(CsrfEmpty), history + [GetRequest(testUrl)] + [GetRequest(EnterUrl(domain))])
  {
    ExtractCsrfTokenSpec(parse(page));
  }

  /** The one POST the protocol may send goes to the login endpoint and carries
      the token read from the login page and the stored credentials. */
  lemma LoginPostCarriesCredentials(server: Server, parse: Parser, history: seq<Request>,
                                    domain: string, login: string, password: string, testUrl: string)
    requires |SessionRun(server, parse, history, domain, login, password, testUrl).log| == |history| + 3
    ensures var run := SessionRun(server, parse, history, domain, login, password, testUrl);
      var page := server(history + [GetRequest(testUrl)] + [GetRequest(EnterUrl(domain))]);
      page.Success? && ExtractCsrfToken(parse(page.value)).Success? &&
      ExtractCsrfToken(parse(page.value)).value != "" &&
      run.log == history + [GetRequest(testUrl)] + [GetRequest(EnterUrl(domain))]
                 + [LoginRequest(domain, ExtractCsrfToken(parse(page.value)).value, login, password)]
  {
  }

  /** The answer to the login POST is classified in a fixed order: the
      bad-credentials text wins even over a page that still asks for a login. */
  lemma LoginAnswerClassification(server: Server, parse: Parser, history: seq<Request>,
                                  domain: string, login: string, password: string, testUrl: string)
    requires var run := SessionRun(server, parse, history, domain, login, password, testUrl);
      |run.log| == |history| + 3 && server(run.log).Success?
    ensures var run := SessionRun(server, parse, history, domain, login, password, testUrl);
      var answer := server(run.log).value;
      (Includes(answer, InvalidCredentialsMarker) ==> run.result == Failure(InvalidCredentials)) &&
      (!Includes(answer, InvalidCredentialsMarker) && RequiresLogin(parse(answer)) ==>
         run.result == Failure(ChallengeRequired)) &&
      (!Includes(answer, InvalidCredentialsMarker) && !RequiresLogin(parse(answer)) ==>
         run.result == Success(()))
  {
  }

  /**
   * A login succeeds exactly when the probe asked for a login, the login page
   * came back with a non-empty token, the POST was answered, and the answer
   * neither reports bad credentials nor is still the login page.
   */
  lemma LoginSucceedsIff(server: Server, parse: Parser, history: seq<Request>,
                         domain: string, login: string, password: string, testUrl: string)
    ensures var run := SessionRun(server, parse, history, domain, login, password, testUrl);
      var probed := history + [GetRequest(testUrl)];
      var enter := probed + [GetRequest(EnterUrl(domain))];
      (run.result.Success? && |run.log| == |history| + 3) <==>
        (server(probed).Success? && RequiresLogin(parse(server(probed).value)) &&
         server(enter).Success? && ExtractCsrfToken(parse(server(enter).value)).Success? &&
         var posted := enter + [LoginRequest(domain, ExtractCsrfToken(parse(server(enter).value)).value, login, password)];
         server(posted).Success? && !Includes(server(posted).value, InvalidCredentialsMarker) &&
         !RequiresLogin(parse(server(posted).value)))
  {
  }

  /** A page that asks for a login always holds a csrf input, so the document-wide
      lookup on it never reports the token missing. */
  lemma LoginPageHasToken(doc: Document)
    requires RequiresLogin(doc)
    ensures ExtractCsrfToken(doc) != Failure(CsrfNotFound)
  {
    var forms := Forms(doc.nodes);
    RequiresLoginIff(doc);
    var k :| IsFirst(forms, IsLoginForm, k) && HasCsrfInput(forms[k]);
    var i :| 0 <= i < |forms[k].inputs| && IsCsrfInput(forms[k].inputs[i]);
    FormInputIsDocumentInput(doc.nodes, k, i);
    var j :| 0 <= j < |Inputs(doc.nodes)| && Inputs(doc.nodes)[j] == forms[k].inputs[i];
    assert IsCsrfInput(Inputs(doc.nodes)[j]);
  }

  /** A failed session step is reported with the prefix and stops the fetch:
      no final GET is sent. */
  lemma FailedSessionSkipsFinalGet(server: Server, parse: Parser,
                                   url: string, domain: string, login: string, password: string)
    requires SessionRun(server, parse, [], domain, login, password, url).result.Failure?
    ensures var session := SessionRun(server, parse, [], domain, login, password, url);
      FetchRun(server, parse, url, domain, login, password)
        == Run(Failure(RetrievalFailedPrefix + session.result.error), session.log)
  {
  }

  /** After a valid session the fetch sends exactly one more request, a GET of
      the same url, and returns its text unchanged or its error wrapped. */
  lemma ValidSessionEndsWithFinalGet(server: Server, parse: Parser,
                                     url: string, domain: string, login: string, password: string)
    requires SessionRun(server, parse, [], domain, login, password, url).result.Success?
    ensures var session := SessionRun(server, parse, [], domain, login, password, url);
      var run := FetchRun(server, parse, url, domain, login, password);
      var final := server(session.log + [GetRequest(url)]);
      run.log == session.log + [GetRequest(url)] &&
      (final.Success? ==> run.result == final) &&
      (final.Failure? ==> run.result == Failure(RetrievalFailedPrefix + final.error))
  {
  }

  /** A failed probe is fatal: the fetch sends nothing else and reports the
      transport error behind the prefix. */
  lemma FailedProbeIsFatal(server: Server, parse: Parser,
                           url: string, domain: string, login: string, password: string, e: string)
    requires server([GetRequest(url)]) == Failure(e)
    ensures FetchRun(server, parse, url, domain, login, password)
         == Run(Failure(RetrievalFailedPrefix + e), [GetRequest(url)])
  {
    assert [] + [GetRequest(url)] == [GetRequest(url)];
  }

  /** A probe that shows the login page is always followed by the GET of the
      login page; if that GET fails, its error ends the session check. */
  lemma FailedLoginPageGetIsFatal(server: Server, parse: Parser, history: seq<Request>,
                                  domain: string, login: string, password: string, testUrl: string,
                                  probe: string, e: string)
    requires server(history + [GetRequest(testUrl)]) == Success(probe) && RequiresLogin(parse(probe))
    requires server(history + [GetRequest(testUrl)] + [GetRequest(EnterUrl(domain))]) == Failure(e)
    ensures SessionRun(server, parse, history, domain, login, password, testUrl)
         == Run(Failure(e), history + [GetRequest(testUrl)] + [GetRequest(EnterUrl(domain))])
  {
  }

  /** A token found on the login page is always followed by the login POST; if
      the POST fails, its error ends the session check. */
  lemma FailedLoginPostIsFatal(server: Server, parse: Parser, history: seq<Request>,
                               domain: string, login: string, password: string, testUrl: string,
                               probe: string, page: string, token: string, e: string)
    requires server(history + [GetRequest(testUrl)]) == Success(probe) && RequiresLogin(parse(probe))
    requires server(history + [GetRequest(testUrl)] + [GetRequest(EnterUrl(domain))]) == Success(page)
    requires ExtractCsrfToken(parse(page)) == Success(token)
    requires server(history + [GetRequest(testUrl)] + [GetRequest(EnterUrl(domain))]
                    + [LoginRequest(domain, token, login, password)]) == Failure(e)
    ensures SessionRun(server, parse, history, domain, login, password, testUrl)
         == Run(Failure(e), history + [GetRequest(testUrl)] + [GetRequest(EnterUrl(domain))]
                            + [LoginRequest(domain, token, login, password)])
  {
  }

  /** Once the login page yields a token, the POST is sent: the session check
      sends all three requests, whatever the page's own forms hold. */
  lemma TokenLeadsToPost(server: Server, parse: Parser, history: seq<Request>,
                         domain: string, login: string, password: string, testUrl: string,
                         probe: string, page: string)
    requires server(history + [GetRequest(testUrl)]) == Success(probe) && RequiresLogin(parse(probe))
    requires server(history + [GetRequest(testUrl)] + [GetRequest(EnterUrl(domain))]) == Success(page)
    requires ExtractCsrfToken(parse(page)).Success?
    ensures |SessionRun(server, parse, history, domain, login, password, testUrl).log| == |history| + 3
  {
  }

  /** When the login page itself still shows the login form, the token lookup
      cannot report it missing: the run either reaches the POST or stops on an
      empty token. */
  lemma LoginFormPageReachesPostOrEmptyToken(server: Server, parse: Parser, history: seq<Request>,
                                             domain: string, login: string, password: string,
                                             testUrl: string, probe: string, page: string)
    requires server(history + [GetRequest(testUrl)]) == Success(probe) && RequiresLogin(parse(probe))
    requires server(history + [GetRequest(testUrl)] + [GetRequest(EnterUrl(domain))]) == Success(page)
    requires RequiresLogin(parse(page))
    ensures var run := SessionRun(server, parse, history, domain, login, password, testUrl);
      |run.log| == |history| + 3 || run.result == Failure(CsrfEmpty)
  {
    LoginPageHasToken(parse(page));
  }

  /** The token comes from the first csrf input in document order: whatever
      follows it in the page, csrf inputs included, does not change the token. */
  lemma LaterContentKeepsToken(a: seq<Node>, b: seq<Node>)
    requires exists k :: 0 <= k < |Inputs(a)| && IsCsrfInput(Inputs(a)[k])
    ensures ExtractCsrfToken(Document(a + b)) == ExtractCsrfToken(Document(a))
  {
    InputsConcat(a, b);
    var inputs, more := Inputs(a), Inputs(b);
    var first := FirstMatch(inputs, IsCsrfInput).value;
    assert IsFirst(inputs + more, IsCsrfInput, first);
    assert (inputs + more)[first] == inputs[first];
  }

  /** The lookup is document-wide: a csrf input before every form supplies the
      token, even though it is outside the login form. */
  lemma LooseTokenIsUsed(x: Input, rest: seq<Node>)
    requires IsCsrfInput(x) && !Blank(x.value)
    ensures ExtractCsrfToken(Document([InputNode(x)] + rest)) == Success(x.value.value)
  {
    assert Inputs([InputNode(x)]) == [x];
    assert IsCsrfInput(Inputs([InputNode(x)])[0]);
    LaterContentKeepsToken([InputNode(x)], rest);
  }
}
