/** The client's endpoint table and its classification of failed API calls. */
module ApiRoutes {
  import opened Wrappers
  import opened Text

  const DefaultHost: string := "http://localhost:5000"
  const ApiVersion: string := "/api/v1"

  /** JavaScript `a || fallback` where `a` is a string that may be undefined:
      the empty string and `undefined` are falsy. */
  function OrElse(a: Option<string>, fallback: string): (r: string)
    ensures a.Some? && a.value != "" ==> r == a.value
    ensures a.None? || a.value == "" ==> r == fallback
  {
    if a.Some? && a.value != "" then a.value else fallback
  }

  /** BASE_HOST from the optional REACT_APP_API_HOST setting. It is never
      empty: a non-empty setting is the host, an unset or empty one yields the
      local default. */
  function BaseHost(env: Option<string>): (h: string)
    ensures h != ""
    ensures env.Some? && env.value != "" ==> h == env.value
    ensures env.None? || env.value == "" ==> h == DefaultHost
  {
    OrElse(env, DefaultHost)
  }

  /** createEndpoint */
  function CreateEndpoint(base: string, path: string): string {
    base + ApiVersion + path
  }

  /** Every endpoint is the host and the version prefix followed by the path,
      so the path can be read back from it. */
  lemma EndpointSplits(base: string, path: string)
    ensures |CreateEndpoint(base, path)| == |base| + |ApiVersion| + |path|
    ensures CreateEndpoint(base, path)[..|base| + |ApiVersion|] == base + ApiVersion
    ensures CreateEndpoint(base, path)[|base| + |ApiVersion|..] == path
  {
  }

  /** Different paths give different endpoints on the same host. */
  lemma EndpointInjective(base: string, p: string, q: string)
    requires CreateEndpoint(base, p) == CreateEndpoint(base, q)
    ensures p == q
  {
    EndpointSplits(base, p);
    EndpointSplits(base, q);
  }

  datatype AuthRoutes = AuthRoutes(
    login: string,
    register: string,
    logout: string,
    setAvatar: string,
    allUsers: string,
    healthCheck: string)

  datatype MessageRoutes = MessageRoutes(send: string, receive: string)

  /** authRoutes */
  function AuthRoutesAt(base: string): AuthRoutes {
    AuthRoutes(
      CreateEndpoint(base, "/auth/login"),
      CreateEndpoint(base, "/auth/register"),
      CreateEndpoint(base, "/auth/logout"),
      CreateEndpoint(base, "/auth/setavatar"),
      CreateEndpoint(base, "/auth/allusers"),
      CreateEndpoint(base, "/health"))
  }

  /** messageRoutes */
  function MessageRoutesAt(base: string): MessageRoutes {
    MessageRoutes(
      CreateEndpoint(base, "/messages/addmsg"),
      CreateEndpoint(base, "/messages/getmsg"))
  }

  /** The flat names kept for older imports (`recieveMessageRoute` keeps the
      original spelling). */
  datatype LegacyRoutes = LegacyRoutes(
    host: string,
    loginRoute: string,
    registerRoute: string,
    logoutRoute: string,
    allUsersRoute: string,
    sendMessageRoute: string,
    recieveMessageRoute: string,
    setAvatarRoute: string,
    healthCheckRoute: string)

  function LegacyAt(base: string): LegacyRoutes {
    var auth, messages := AuthRoutesAt(base), MessageRoutesAt(base);
    LegacyRoutes(
      base,
      auth.login,
      auth.register,
      auth.logout,
      auth.allUsers,
      messages.send,
      messages.receive,
      auth.setAvatar,
      auth.healthCheck)
  }

  /** Every route of both tables, in declaration order. */
  function AllRoutes(base: string): (routes: seq<string>)
    ensures |routes| == 8
  {
    var auth, messages := AuthRoutesAt(base), MessageRoutesAt(base);
    [auth.login, auth.register, auth.logout, auth.setAvatar, auth.allUsers, auth.healthCheck,
     messages.send, messages.receive]
  }

  /** Every route lives under the host followed by "/api/v1". */
  lemma AllRoutesVersioned(base: string)
    ensures forall k :: 0 <= k < |AllRoutes(base)| ==>
      |base + ApiVersion| <= |AllRoutes(base)[k]| && AllRoutes(base)[k][..|base + ApiVersion|] == base + ApiVersion
  {
  }

  /** No two routes of the tables coincide, whatever the host. */
  lemma AllRoutesDistinct(base: string)
    ensures forall i, j :: 0 <= i < j < |AllRoutes(base)| ==> AllRoutes(base)[i] != AllRoutes(base)[j]
  {
    var routes := AllRoutes(base);
    var paths := ["/auth/login", "/auth/register", "/auth/logout", "/auth/setavatar", "/auth/allusers",
                  "/health", "/messages/addmsg", "/messages/getmsg"];
    forall i, j | 0 <= i < j < 8 ensures routes[i] != routes[j] {
      assert routes[i] == CreateEndpoint(base, paths[i]);
      assert routes[j] == CreateEndpoint(base, paths[j]);
      assert paths[i] != paths[j] by {
        assert |paths[i]| != |paths[j]| || paths[i][6] != paths[j][6]
            || (|paths[i]| == 16 && paths[i][10] != paths[j][10]);
      }
      if routes[i] == routes[j] {
        EndpointInjective(base, paths[i], paths[j]);
      }
    }
  }

  /** Each legacy name is the same string as its grouped counterpart, and the
      legacy host is BASE_HOST. */
  lemma LegacyAliasesAgree(base: string)
    ensures LegacyAt(base).host == base
    ensures LegacyAt(base).loginRoute == AuthRoutesAt(base).login
    ensures LegacyAt(base).registerRoute == AuthRoutesAt(base).register
    ensures LegacyAt(base).logoutRoute == AuthRoutesAt(base).logout
    ensures LegacyAt(base).allUsersRoute == AuthRoutesAt(base).allUsers
    ensures LegacyAt(base).sendMessageRoute == MessageRoutesAt(base).send
    ensures LegacyAt(base).recieveMessageRoute == MessageRoutesAt(base).receive
    ensures LegacyAt(base).setAvatarRoute == AuthRoutesAt(base).setAvatar
    ensures LegacyAt(base).healthCheckRoute == AuthRoutesAt(base).healthCheck
  {
  }

  // ---------------------------------------------------------------------
  // handleApiError

  /** `error.response`: the HTTP status and the `message` of the body, when
      the body carries one. */
  datatype ErrorResponse = ErrorResponse(status: int, dataMessage: Option<string>)

  /** The parts of an axios error that handleApiError reads. */
  datatype ApiError = ApiError(response: Option<ErrorResponse>, hasRequest: bool, message: string)

  /** The `code` field: the HTTP status, or a fixed tag. */
  datatype ErrorCode = HttpStatus(status: int) | Tag(name: string)

  datatype ErrorResult = ErrorResult(status: bool, message: string, code: ErrorCode)

  const RequestFailed: string := "API request failed"
  const NoResponse: ErrorResult :=
    ErrorResult(false, "No response from server. Check your connection.", Tag("NETWORK_ERROR"))
  const SetupFailed: ErrorResult :=
    ErrorResult(false, "Request configuration error", Tag("REQUEST_ERROR"))

  /** handleApiError (the console logging is not modelled). */
  function HandleApiError(e: ApiError): (r: ErrorResult)
    ensures !r.status
    ensures r.message != ""
  {
    if e.response.Some? then
      ErrorResult(false, OrElse(e.response.value.dataMessage, RequestFailed), HttpStatus(e.response.value.status))
    else if e.hasRequest then
      NoResponse
    else
      SetupFailed
  }

  /** The code tells which of the three branches was taken, in both
      directions: a status exactly when a response is present, the network tag
      exactly when only a request is, the setup tag otherwise. */
  lemma CodeClassifiesError(e: ApiError)
    ensures HandleApiError(e).code.HttpStatus? <==> e.response.Some?
    ensures HandleApiError(e).code == Tag("NETWORK_ERROR") <==> e.response.None? && e.hasRequest
    ensures HandleApiError(e).code == Tag("REQUEST_ERROR") <==> e.response.None? && !e.hasRequest
  {
  }

  /** With a response, the code is its status and the message is the body's
      non-empty message, falling back to the fixed text. */
  lemma ResponseReported(e: ApiError)
    requires e.response.Some?
    ensures HandleApiError(e).code == HttpStatus(e.response.value.status)
    ensures var m := e.response.value.dataMessage;
      HandleApiError(e).message == if m.Some? && m.value != "" then m.value else RequestFailed
  {
  }

  /** A response takes precedence: the result depends on it alone, not on the
      request or on the error's own message. */
  lemma ResponseTakesPrecedence(e: ApiError, hasRequest: bool, message: string)
    requires e.response.Some?
    ensures HandleApiError(e.(hasRequest := hasRequest, message := message)) == HandleApiError(e)
  {
  }

  /** Without a response the error's own message is never surfaced. */
  lemma SetupMessageNotSurfaced(e: ApiError, message: string)
    requires e.response.None?
    ensures HandleApiError(e.(message := message)) == HandleApiError(e)
    ensures HandleApiError(e) == NoResponse || HandleApiError(e) == SetupFailed
  {
  }
}
