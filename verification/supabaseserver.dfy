/** Server-side access to the hosted backend: building the privileged
    client from the environment, and authenticating a request by the
    bearer token in its `authorization` header. The token check itself is
    the backend's and is a parameter here. */
module SupabaseServer {
  import opened Domain
  import opened Text

  const MissingServerEnvMessage := "Missing Supabase server environment variables"
  const NoHeaderMessage := "No authorization header"
  const MissingPublicEnvMessage := "Missing Supabase public environment variables"
  const InvalidTokenMessage := "Invalid token"
  const BearerPrefix := "Bearer "

  /** The environment variables read: the project URL, the public anon
      key and the service-role key. */
  datatype Env = Env(url: Option<string>, anonKey: Option<string>, serviceKey: Option<string>)

  /** The arguments a client is created with. */
  datatype ClientConfig = ClientConfig(url: string, key: string, autoRefreshToken: bool, persistSession: bool)

  /** `getSupabaseServerClient`: fails unless both the URL and the
      service-role key are set and non-empty; the client neither refreshes
      tokens nor persists a session. */
  function ServerClient(env: Env): (r: Result<ClientConfig>)
    ensures r.Err? <==> !Truthy(env.url) || !Truthy(env.serviceKey)
    ensures r.Err? ==> r.message == MissingServerEnvMessage
    ensures r.Ok? ==> r.value.url == env.url.value && r.value.key == env.serviceKey.value
    ensures r.Ok? ==> !r.value.autoRefreshToken && !r.value.persistSession
  {
    if !Truthy(env.url) || !Truthy(env.serviceKey) then Err(MissingServerEnvMessage)
    else Ok(ClientConfig(env.url.value, env.serviceKey.value, false, false))
  }

  datatype User = User(id: string)

  /** What verifying a token produced: the backend's answer (a user or
      none, and an error whose message is `""` when empty or missing), or
      the message of an exception thrown on the way. */
  datatype Verdict =
    | Answer(user: Option<User>, error: Option<string>)
    | Threw(message: string)

  datatype AuthResult = AuthResult(user: Option<User>, error: Option<string>)

  /** `authHeader.split(" ")[1]` for a header that starts with "Bearer ":
      the text after the prefix up to the next space, possibly empty. */
  function BearerToken(header: string): (token: string)
    requires StartsWith(header, BearerPrefix)
    ensures ' ' !in token
    ensures StartsWith(header[|BearerPrefix|..], token)
    ensures |token| == |header| - |BearerPrefix| || header[|BearerPrefix| + |token|] == ' '
  {
    var rest := header[|BearerPrefix|..];
    assert header == "Bearer" + [' '] + rest;
    SplitAfterWord("Bearer", rest, ' ');
    SplitFirst(rest, ' ');
    Split(header, ' ')[1]
  }

  /** `getAuthenticatedUser`: the header check, then the environment
      check, then the token check, each failing with its own message. */
  function GetAuthenticatedUser(header: Option<string>, env: Env, verify: string -> Verdict): (r: AuthResult)
    // success and failure are exclusive and exhaustive
    ensures r.user.Some? <==> r.error.None?
    ensures header.None? || !StartsWith(header.value, BearerPrefix) ==>
      r == AuthResult(None, Some(NoHeaderMessage))
    ensures header.Some? && StartsWith(header.value, BearerPrefix) && (!Truthy(env.url) || !Truthy(env.anonKey)) ==>
      r == AuthResult(None, Some(MissingPublicEnvMessage))
    ensures r.user.Some? ==>
      header.Some? && StartsWith(header.value, BearerPrefix) && Truthy(env.url) && Truthy(env.anonKey)
      && verify(BearerToken(header.value)) == Answer(r.user, None)
    // an exception thrown while verifying is caught and its message returned
    ensures (&& header.Some? && StartsWith(header.value, BearerPrefix) && Truthy(env.url) && Truthy(env.anonKey)
             && verify(BearerToken(header.value)).Threw?) ==>
      r == AuthResult(None, Some(verify(BearerToken(header.value)).message))
  {
    if header.None? || !StartsWith(header.value, BearerPrefix) then
      AuthResult(None, Some(NoHeaderMessage))
    else if !Truthy(env.url) || !Truthy(env.anonKey) then
      AuthResult(None, Some(MissingPublicEnvMessage))
    else
      match verify(BearerToken(header.value))
      case Threw(message) => AuthResult(None, Some(message))
      case Answer(user, error) =>
        if error.Some? || user.None? then
          AuthResult(None, Some(if error.Some? && error.value != "" then error.value else InvalidTokenMessage))
        else
          AuthResult(user, None)
  }

  /** The header and environment checks come first: when either fails the
      verifier is never consulted, so any two verifiers give the same
      result. */
  lemma ChecksPrecedeVerifier(header: Option<string>, env: Env, v1: string -> Verdict, v2: string -> Verdict)
    requires header.None? || !StartsWith(header.value, BearerPrefix) || !Truthy(env.url) || !Truthy(env.anonKey)
    ensures GetAuthenticatedUser(header, env, v1) == GetAuthenticatedUser(header, env, v2)
    ensures GetAuthenticatedUser(header, env, v1).user.None?
  {
  }

  /** A verifier answer with an error or without a user fails with the
      verifier's message when it has one, and with "Invalid token"
      otherwise. */
  lemma RejectedTokenMessage(header: string, env: Env, verify: string -> Verdict)
    requires StartsWith(header, BearerPrefix) && Truthy(env.url) && Truthy(env.anonKey)
    requires verify(BearerToken(header)).Answer?
    ensures var v := verify(BearerToken(header));
      var r := GetAuthenticatedUser(Some(header), env, verify);
      && (v.error.Some? && v.error.value != "" ==> r == AuthResult(None, v.error))
      && ((v.error.Some? && v.error.value == "") || (v.error.None? && v.user.None?) ==>
            r == AuthResult(None, Some(InvalidTokenMessage)))
      && (v.error.None? && v.user.Some? ==> r == AuthResult(v.user, None))
  {
  }

  /** The verifier sees the second space-separated field of the header:
      for "Bearer abc def" that is "abc". */
  lemma TokenIsSecondField()
    ensures BearerToken("Bearer abc def") == "abc"
  {
    assert "Bearer abc def" == "Bearer" + [' '] + ("abc" + [' '] + "def");
    SplitAfterWord("Bearer", "abc" + [' '] + "def", ' ');
    SplitAfterWord("abc", "def", ' ');
  }

  /** A second space right after the prefix hands the verifier the empty
      token. */
  lemma TokenMayBeEmpty()
    ensures BearerToken("Bearer  abc") == ""
    ensures BearerToken("Bearer ") == ""
  {
    assert "Bearer  abc"[7] == ' ';
  }
}
