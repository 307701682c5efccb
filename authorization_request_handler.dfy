/** The authorization request handler and its notifier: building the
    authorization request URL from a service configuration and a request, and
    delivering a completed (request, response, error) triple to the
    application's single registered listener. */
module AuthorizationHandler {
  import opened Wrappers
  import CryptoUtils

  /** The endpoints of an authorization service. Only `authorizationEndpoint`
      is used here. */
  datatype AuthorizationServiceConfiguration = AuthorizationServiceConfiguration(
    authorizationEndpoint: string,
    tokenEndpoint: string,
    revocationEndpoint: string,
    userInfoEndpoint: Option<string>,
    endSessionEndpoint: Option<string>)

  /** The fields of an authorization request that the URL is built from. */
  datatype AuthorizationRequest = AuthorizationRequest(
    responseType: string,
    clientId: string,
    redirectUri: string,
    scope: string,
    state: string,
    extras: Option<map<string, string>>)

  datatype AuthorizationResponse = AuthorizationResponse(code: string, state: string)

  datatype AuthorizationError = AuthorizationError(
    error: string,
    errorDescription: Option<string>,
    errorUri: Option<string>,
    state: Option<string>)

  /** What a completed authorization flow settles to. */
  datatype AuthorizationRequestResponse = AuthorizationRequestResponse(
    request: AuthorizationRequest,
    response: Option<AuthorizationResponse>,
    error: Option<AuthorizationError>)

  /** A listener callback, known by its identity. */
  datatype AuthorizationListener = AuthorizationListener(id: nat)

  /** One call of a listener, with the arguments it was passed. */
  datatype Invocation = Invocation(listener: AuthorizationListener, arguments: AuthorizationRequestResponse)

  /** The single-slot listener registry. The ghost fields record what the
      callbacks observe: every call of `OnAuthorizationComplete` and every call
      of the registered listener. */
  class AuthorizationNotifier {
    var listener: Option<AuthorizationListener>
    ghost var received: seq<AuthorizationRequestResponse>
    ghost var invocations: seq<Invocation>

    /** A fresh notifier has no listener. */
    constructor ()
      ensures listener == None
      ensures received == [] && invocations == []
    {
      listener := None;
      received := [];
      invocations := [];
    }

    /** Installs `l`, replacing any earlier listener: the last registration wins. */
    method SetAuthorizationListener(l: AuthorizationListener)
      modifies this
      ensures listener == Some(l)
      ensures received == old(received) && invocations == old(invocations)
    {
      listener := Some(l);
    }

    /** Calls the registered listener once with exactly these arguments; without a
        listener it does nothing and does not fail. */
    method OnAuthorizationComplete(request: AuthorizationRequest, response: Option<AuthorizationResponse>,
                                   error: Option<AuthorizationError>)
      modifies this
      ensures listener == old(listener)
      ensures received == old(received) + [AuthorizationRequestResponse(request, response, error)]
      ensures invocations == old(invocations) +
        if listener.Some? then [Invocation(listener.value, AuthorizationRequestResponse(request, response, error))]
        else []
    {
      received := received + [AuthorizationRequestResponse(request, response, error)];
      if listener.Some? {
        invocations := invocations + [Invocation(listener.value, AuthorizationRequestResponse(request, response, error))];
      }
    }
  }

  /** The parameter names an extra may not override. */
  const BUILT_IN_PARAMETERS: seq<string> := ["redirect_uri", "client_id", "response_type", "state", "scope"]

  /** The built-in names as a set: five distinct strings. */
  lemma BuiltInNames()
    ensures (set p | p in BUILT_IN_PARAMETERS) == {"redirect_uri", "client_id", "response_type", "state", "scope"}
    ensures |set p | p in BUILT_IN_PARAMETERS| == 5
  {
    FiveNames();
  }

  lemma FiveNames()
    ensures |{"redirect_uri", "client_id", "response_type", "state", "scope"}| == 5
  {
    var s1: set<string> := {"redirect_uri"};
    assert "client_id" !in s1 by { assert |"client_id"| != |"redirect_uri"|; }
    var s2 := s1 + {"client_id"};
    assert |s2| == 2;
    assert "response_type" !in s2 by { assert |"response_type"| == 13; }
    var s3 := s2 + {"response_type"};
    assert |s3| == 3;
    assert "state" !in s3 by { assert |"state"| == 5; }
    var s4 := s3 + {"state"};
    assert |s4| == 4;
    assert "scope" !in s4 by { assert "scope"[1] != "state"[1]; }
    var s5 := s4 + {"scope"};
    assert |s5| == 5;
    assert s5 == {"redirect_uri", "client_id", "response_type", "state", "scope"};
  }

  /** The query-string collaborator; `stringify` is left uninterpreted. */
  datatype QueryStringUtils = QueryStringUtils(stringify: map<string, string> -> string)

  /** The extras of a request; absent extras copy nothing. */
  function ExtrasOf(request: AuthorizationRequest): map<string, string>
  {
    if request.extras.Some? then request.extras.value else map[]
  }

  /** The five built-in parameters with the request's own values. */
  function BuiltIns(request: AuthorizationRequest): (m: map<string, string>)
    ensures m.Keys == set p | p in BUILT_IN_PARAMETERS
    ensures m["redirect_uri"] == request.redirectUri && m["client_id"] == request.clientId
    ensures m["response_type"] == request.responseType && m["state"] == request.state
    ensures m["scope"] == request.scope
  {
    BuiltInNames();
    map["redirect_uri" := request.redirectUri,
        "client_id" := request.clientId,
        "response_type" := request.responseType,
        "state" := request.state,
        "scope" := request.scope]
  }

  /** The extras among `visited` that the loop of `buildRequestUrl` has copied:
      those whose name is not built-in, with their value unchanged. */
  function Copied(extras: map<string, string>, visited: set<string>): (m: map<string, string>)
    ensures m.Keys <= extras.Keys
    ensures forall p :: p in BUILT_IN_PARAMETERS ==> p !in m
  {
    map k | k in extras && k in visited && k !in BUILT_IN_PARAMETERS :: extras[k]
  }

  /** Visiting one more extra copies it exactly when its name is not built-in. */
  lemma CopiedStep(extras: map<string, string>, visited: set<string>, extra: string)
    requires extra in extras
    ensures extra !in BUILT_IN_PARAMETERS ==> Copied(extras, visited + {extra}) == Copied(extras, visited)[extra := extras[extra]]
    ensures extra in BUILT_IN_PARAMETERS ==> Copied(extras, visited + {extra}) == Copied(extras, visited)
  {
  }

  /** Updating a union updates its right-hand operand. */
  lemma UnionUpdate<K, V>(left: map<K, V>, right: map<K, V>, k: K, v: V)
    ensures (left + right)[k := v] == left + right[k := v]
  {
  }

  /** The parameter map `buildRequestUrl` passes to `stringify`: the built-ins,
      plus every extra whose name is not built-in, with its value unchanged. */
  function RequestMap(request: AuthorizationRequest): (m: map<string, string>)
    ensures m.Keys == (set p | p in BUILT_IN_PARAMETERS) + ExtrasOf(request).Keys
    ensures m["redirect_uri"] == request.redirectUri && m["client_id"] == request.clientId
    ensures m["response_type"] == request.responseType && m["state"] == request.state
    ensures m["scope"] == request.scope
    ensures forall k :: k in ExtrasOf(request) && k !in BUILT_IN_PARAMETERS ==> m[k] == ExtrasOf(request)[k]
  {
    var extras := ExtrasOf(request);
    var copied := Copied(extras, extras.Keys);
    assert BUILT_IN_PARAMETERS == ["redirect_uri", "client_id", "response_type", "state", "scope"];
    assert "redirect_uri" in BUILT_IN_PARAMETERS && "client_id" in BUILT_IN_PARAMETERS;
    assert "response_type" in BUILT_IN_PARAMETERS && "state" in BUILT_IN_PARAMETERS;
    assert "scope" in BUILT_IN_PARAMETERS;
    BuiltIns(request) + copied
  }

  /** An extra named like a built-in parameter is never copied: adding or
      changing one leaves the parameter map as it was. */
  lemma ExtrasCannotOverride(request: AuthorizationRequest, name: string, value: string)
    requires name in BUILT_IN_PARAMETERS
    ensures RequestMap(request.(extras := Some(ExtrasOf(request)[name := value]))) == RequestMap(request)
  {
    var request' := request.(extras := Some(ExtrasOf(request)[name := value]));
    var m, m' := RequestMap(request), RequestMap(request');
    assert BuiltIns(request') == BuiltIns(request);
    forall k | k in m'
      ensures k in m && m'[k] == m[k]
    {
      if k == name {
        assert k in BuiltIns(request);
      }
    }
  }

  /** Without extras, or with empty ones, the map holds exactly the five
      built-in parameters. */
  lemma NoExtrasGiveBuiltIns(request: AuthorizationRequest)
    requires request.extras.None? || request.extras == Some(map[])
    ensures RequestMap(request) == BuiltIns(request)
    ensures |RequestMap(request)| == 5
  {
    BuiltInNames();
  }

  /** `&` when the endpoint already has a query, `?` otherwise. */
  function Separator(endpoint: string): string
  {
    if '?' in endpoint then "&" else "?"
  }

  /** A request whose extras try to override `client_id`: the request's own
      client id is kept, the other extra is copied. */
  lemma ClientIdExtraIsIgnored()
    ensures var request := AuthorizationRequest("code", "abc", "https://app/cb", "openid", "xyz",
                                                 Some(map["prompt" := "login", "client_id" := "evil"]));
            RequestMap(request)["client_id"] == "abc" && "prompt" in RequestMap(request)
            && RequestMap(request)["prompt"] == "login"
  {
    var request := AuthorizationRequest("code", "abc", "https://app/cb", "openid", "xyz",
                                        Some(map["prompt" := "login", "client_id" := "evil"]));
    assert "prompt" !in BUILT_IN_PARAMETERS;
  }

  class AuthorizationRequestHandler {
    const utils: QueryStringUtils
    const crypto: CryptoUtils.CryptoProvider
    var notifier: AuthorizationNotifier?

    constructor (utils: QueryStringUtils, crypto: CryptoUtils.CryptoProvider)
      ensures this.utils == utils && this.crypto == crypto
      ensures notifier == null
    {
      this.utils := utils;
      this.crypto := crypto;
      notifier := null;
    }

    /** `buildRequestUrl`: the endpoint, the separator, then the stringified
        parameter map, which the loop fills from the extras. */
    method BuildRequestUrl(configuration: AuthorizationServiceConfiguration, request: AuthorizationRequest)
      returns (url: string)
      ensures url == configuration.authorizationEndpoint + Separator(configuration.authorizationEndpoint)
                     + utils.stringify(RequestMap(request))
      ensures configuration.authorizationEndpoint <= url
      ensures url[|configuration.authorizationEndpoint|..|configuration.authorizationEndpoint| + 1]
              == Separator(configuration.authorizationEndpoint)
    {
      var requestMap := BuiltIns(request);
      if request.extras.Some? {
        var extras := request.extras.value;
        var pending := extras.Keys;
        while pending != {}
          invariant pending <= extras.Keys
          invariant requestMap == BuiltIns(request) + Copied(extras, extras.Keys - pending)
          decreases pending
        {
          var extra :| extra in pending;
          CopiedStep(extras, extras.Keys - pending, extra);
          assert extras.Keys - (pending - {extra}) == (extras.Keys - pending) + {extra};
          if extra !in BUILT_IN_PARAMETERS {
            UnionUpdate(BuiltIns(request), Copied(extras, extras.Keys - pending), extra, extras[extra]);
            requestMap := requestMap[extra := extras[extra]];
          }
          pending := pending - {extra};
        }
        assert extras.Keys - pending == extras.Keys;
      } else {
        assert Copied(ExtrasOf(request), {}) == map[];
      }
      assert requestMap == RequestMap(request);
      var query := utils.stringify(requestMap);
      var baseUrl := configuration.authorizationEndpoint;
      url := baseUrl + Separator(baseUrl) + query;
    }

    function NotifierFrame(): set<object>
      reads this
    {
      if notifier == null then {} else {notifier}
    }

    /** `completeAuthorizationRequestIfPossible`. `result` is what the concrete
        strategy's `completeAuthorizationRequest` settled to. A result is passed
        on to the notifier, once, exactly when there is one and a notifier is set. */
    method CompleteAuthorizationRequestIfPossible(result: Option<AuthorizationRequestResponse>)
      modifies NotifierFrame()
      ensures notifier == old(notifier)
      ensures notifier != null ==> notifier.listener == old(notifier.listener)
      ensures notifier != null ==>
        notifier.received == old(notifier.received) + if result.Some? then [result.value] else []
      ensures notifier != null ==>
        notifier.invocations == old(notifier.invocations) +
          if result.Some? && notifier.listener.Some? then [Invocation(notifier.listener.value, result.value)] else []
    {
      if result.Some? && notifier != null {
        notifier.OnAuthorizationComplete(result.value.request, result.value.response, result.value.error);
      }
    }

    /** `setAuthorizationNotifier`: replaces the notifier and returns this handler. */
    method SetAuthorizationNotifier(n: AuthorizationNotifier) returns (self: AuthorizationRequestHandler)
      modifies this
      ensures notifier == n
      ensures self == this
    {
      notifier := n;
      self := this;
    }
  }

  /** A client of the handler: a result is computed before any listener is
      registered (nothing is delivered), then two listeners are registered in turn
      and a second result arrives. Only the last listener is called, once, with
      the result's three fields. */
  method LastListenerReceivesResultOnce(utils: QueryStringUtils, crypto: CryptoUtils.CryptoProvider,
                                        first: AuthorizationListener, second: AuthorizationListener,
                                        early: AuthorizationRequestResponse, late: AuthorizationRequestResponse)
  {
    var notifier := new AuthorizationNotifier();
    var handler := new AuthorizationRequestHandler(utils, crypto);
    handler.CompleteAuthorizationRequestIfPossible(Some(early));
    var same := handler.SetAuthorizationNotifier(notifier);
    same.CompleteAuthorizationRequestIfPossible(Some(early));
    assert notifier.invocations == [];
    notifier.SetAuthorizationListener(first);
    notifier.SetAuthorizationListener(second);
    handler.CompleteAuthorizationRequestIfPossible(None);
    handler.CompleteAuthorizationRequestIfPossible(Some(late));
    assert notifier.invocations == [Invocation(second, late)];
  }
}
