/** The OAuth2 authorization-code login: a one-request callback listener that stores the code
    in the module-level `auth_code`, and the authenticator that resets that code, lets the
    listener serve its one request, then exchanges the code for a token and looks up the user. */
module OAuth {
  import opened Wrappers

  const RedirectUri := "http://localhost:8000/callback"
  const TokenPath := "/oauth/token"
  const UserPath := "/api/v4/user"

  /** A parsed query string: each parameter name with its values, as `parse_qs` returns it. */
  type Query = map<string, seq<string>>

  /** The requests the authenticator sends to the identity provider. */
  datatype Request =
    | TokenRequest(url: string, clientId: string, clientSecret: string, code: string, grantType: string, redirectUri: string)
    | UserRequest(url: string, authorization: string)

  /** The status and the field the script reads from each reply. */
  datatype TokenReply = TokenReply(status: int, accessToken: string)
  datatype UserReply = UserReply(status: int, username: string)

  /** The non-null `(access_token, username)` pair. */
  datatype Credentials = Credentials(token: string, user: string)

  /** The exchange after the listener has run: with a (non-empty) captured code, POST it to the
      token endpoint; on 200, GET the user with the access token as bearer; on 200 again, the
      pair. Every other path gives no credentials. The result is paired with the requests sent. */
  function Exchange(server: string, clientId: string, clientSecret: string, code: Option<string>,
                    postToken: Request -> TokenReply, getUser: Request -> UserReply): (r: (Option<Credentials>, seq<Request>))
    ensures code.None? || code.value == "" ==> r == (None, [])
    ensures |r.1| <= 2
    ensures code.Some? && code.value != "" ==> r.1 != []
    ensures r.1 != [] && postToken(r.1[0]).status == 200 ==> |r.1| == 2
    ensures r.1 != [] ==> r.1[0] == TokenRequest(server + TokenPath, clientId, clientSecret, code.value, "authorization_code", RedirectUri)
    ensures |r.1| == 2 ==> postToken(r.1[0]).status == 200
                           && r.1[1] == UserRequest(server + UserPath, "Bearer " + postToken(r.1[0]).accessToken)
    ensures r.0.Some? <==> |r.1| == 2 && getUser(r.1[1]).status == 200
    ensures r.0.Some? ==> r.0.value == Credentials(postToken(r.1[0]).accessToken, getUser(r.1[1]).username)
  {
    if code.None? || code.value == "" then (None, [])
    else
      var tokenRequest := TokenRequest(server + TokenPath, clientId, clientSecret, code.value, "authorization_code", RedirectUri);
      var token := postToken(tokenRequest);
      if token.status != 200 then (None, [tokenRequest])
      else
        var userRequest := UserRequest(server + UserPath, "Bearer " + token.accessToken);
        var user := getUser(userRequest);
        if user.status != 200 then (None, [tokenRequest, userRequest])
        else (Some(Credentials(token.accessToken, user.username)), [tokenRequest, userRequest])
  }

  /** Credentials come back exactly along "code captured, token 200, user 200". */
  lemma ExchangeSucceedsOnlyOnHappyPath(server: string, clientId: string, clientSecret: string, code: Option<string>,
                                        postToken: Request -> TokenReply, getUser: Request -> UserReply)
    ensures code.None? ==> Exchange(server, clientId, clientSecret, code, postToken, getUser).0.None?
    ensures code.Some? ==>
              var r := Exchange(server, clientId, clientSecret, code, postToken, getUser);
              var token := postToken(TokenRequest(server + TokenPath, clientId, clientSecret, code.value, "authorization_code", RedirectUri));
              r.0.Some? <==>
                && code.value != ""
                && token.status == 200
                && getUser(UserRequest(server + UserPath, "Bearer " + token.accessToken)).status == 200
  {
  }

  /** The process-wide OAuth state: the client id and secret read from the environment at start,
      and the `auth_code` slot the listener writes and the authenticator reads. */
  class Session {
    const clientId: Option<string>
    const clientSecret: Option<string>
    var authCode: Option<string>

    constructor (clientId: Option<string>, clientSecret: Option<string>)
      ensures this.clientId == clientId && this.clientSecret == clientSecret
      ensures authCode == None
    {
      this.clientId := clientId;
      this.clientSecret := clientSecret;
      authCode := None;
    }

    /** The listener's one GET: store the first `code` value and answer 200, or answer 400 and
        leave the stored code alone. (`parse_qs` never maps a name to an empty list.) */
    method HandleCallback(query: Query) returns (status: int)
      requires "code" in query ==> query["code"] != []
      modifies this
      ensures "code" in query ==> status == 200 && authCode == Some(query["code"][0])
      ensures "code" !in query ==> status == 400 && authCode == old(authCode)
    {
      if "code" in query {
        authCode := Some(query["code"][0]);
        status := 200;
      } else {
        status := 400;
      }
    }

    /** `sso_authenticate`: without a client id and secret, fail at once and touch nothing;
        otherwise reset the stored code, let the listener serve the one request whose query is
        `callback`, and run the exchange on whatever code that left. */
    method Authenticate(server: string, callback: Query, postToken: Request -> TokenReply, getUser: Request -> UserReply)
      returns (credentials: Option<Credentials>, sent: seq<Request>)
      requires "code" in callback ==> callback["code"] != []
      modifies this
      ensures clientId.None? || clientSecret.None? ==>
                credentials == None && sent == [] && authCode == old(authCode)
      ensures clientId.Some? && clientSecret.Some? ==>
                && authCode == (if "code" in callback then Some(callback["code"][0]) else None)
                && (credentials, sent) == Exchange(server, clientId.value, clientSecret.value, authCode, postToken, getUser)
    {
      if clientId.None? || clientSecret.None? {
        return None, [];
      }
      authCode := None;
      var _ := HandleCallback(callback);
      var r := Exchange(server, clientId.value, clientSecret.value, authCode, postToken, getUser);
      credentials, sent := r.0, r.1;
    }
  }
}
