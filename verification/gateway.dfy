/** The request gateway: bearer-token extraction and the authenticate-if-valid
    gate of `JwtAuthenticationFilter`, and the shape of the login reply that
    issues the token.

    Signing, parsing and validating tokens, password checking and loading a
    user's details are library calls; they enter as function arguments.
 */
module Gateway {
  import opened Wrappers
  import opened Text

  const BEARER: string := "Bearer "

  /** `getTokenFromRequest`: the trimmed text after a case-sensitive "Bearer " prefix. */
  function TokenFromHeader(header: Option<string>): (r: Option<string>)
    ensures r.Some? <==> header.Some? && StartsWith(header.value, BEARER)
    ensures r.Some? ==> Trimmed(r.value)
    ensures r.Some? ==> exists i :: Surrounds(header.value[|BEARER|..], r.value, i)
  {
    if HasText(header) && StartsWith(header.value, BEARER) then
      Some(Trim(header.value[7..]))
    else
      assert header.Some? && StartsWith(header.value, BEARER) ==> !IsBlank(header.value[0]);
      None
  }

  /** A token with no surrounding blanks survives the trip through the header. */
  lemma BearerRoundTrip(token: string)
    requires Trimmed(token)
    ensures TokenFromHeader(Some(BEARER + token)) == Some(token)
  {
    assert (BEARER + token)[..7] == BEARER;
    assert (BEARER + token)[7..] == token;
    TrimOfTrimmed(token);
  }

  /** An extracted token is already trimmed: `trim` changes nothing more. */
  lemma ExtractedTokenIsTrimmed(header: Option<string>)
    requires TokenFromHeader(header).Some?
    ensures Trim(TokenFromHeader(header).value) == TokenFromHeader(header).value
  {
    TrimOfTrimmed(TokenFromHeader(header).value);
  }

  /** A lower-case scheme, a missing space and a missing header give no token. */
  lemma NoTokenExamples()
    ensures TokenFromHeader(Some("bearer x")) == None
    ensures TokenFromHeader(Some("Bearer")) == None
    ensures TokenFromHeader(None) == None
  {
    assert "bearer x"[..7] != BEARER by {
      assert "bearer x"[0] != BEARER[0];
    }
  }

  /** What the filter leaves behind: the authenticated principal, if any, and whether the chain ran. */
  datatype FilterOutcome = FilterOutcome(principal: Option<string>, continued: bool)

  /** `doFilterInternal`: authenticates only when the token has text and `validate` accepts it.
      `subject` reads the username from a token; `load` is the user-details lookup, giving the
      principal's name or `None` where it throws, which ends the request before the chain runs.
      Otherwise the request is passed on, authenticated or not. */
  function DoFilter(header: Option<string>, validate: string -> bool, subject: string -> string,
                    load: string -> Option<string>)
    : (o: FilterOutcome)
    ensures var token := TokenFromHeader(header);
      o.principal.Some? <==>
        token.Some? && token.value != [] && validate(token.value) && load(subject(token.value)).Some?
    ensures o.principal.Some? ==> o.principal == load(subject(TokenFromHeader(header).value))
    ensures var token := TokenFromHeader(header);
      !o.continued <==>
        token.Some? && token.value != [] && validate(token.value) && load(subject(token.value)).None?
    ensures !o.continued ==> o.principal.None?
  {
    var token := TokenFromHeader(header);
    assert token.Some? ==> (HasText(token) <==> token.value != []) by {
      if token.Some? {
        HasTextIffTrimNonEmpty(token.value);
        TrimOfTrimmed(token.value);
      }
    }
    if HasText(token) && validate(token.value) then
      match load(subject(token.value))
      case Some(name) => FilterOutcome(Some(name), true)
      case None => FilterOutcome(None, false)
    else
      FilterOutcome(None, true)
  }

  /** A request without a token, or with one the validator refuses, passes on unauthenticated,
      whatever the user lookup would say. */
  lemma UnauthenticatedPassesOn(header: Option<string>, validate: string -> bool, subject: string -> string,
                                load: string -> Option<string>)
    requires TokenFromHeader(header).None? || !validate(TokenFromHeader(header).value)
    ensures DoFilter(header, validate, subject, load) == FilterOutcome(None, true)
  {
  }

  /** The login reply: status code and body. */
  datatype LoginReply = LoginReply(status: int, body: string)

  const LOGIN_FAILED: string := "Invalid username/email or password"

  /** `authenticateUser`: `authenticated` is the principal the authentication manager
      accepted, if any; `generateToken` is the token provider. */
  function Login(authenticated: Option<string>, generateToken: string -> string): (r: LoginReply)
    ensures authenticated.Some? <==> r.status == 200
    ensures authenticated.None? ==> r == LoginReply(401, LOGIN_FAILED)
    ensures authenticated.Some? ==> StartsWith(r.body, BEARER)
  {
    match authenticated
    case Some(principal) =>
      var body := BEARER + generateToken(principal);
      assert body[..7] == BEARER;
      LoginReply(200, body)
    case None => LoginReply(401, LOGIN_FAILED)
  }

  /** A successful login body, sent back as the Authorization header, yields the issued token. */
  lemma LoginThenFilter(principal: string, generateToken: string -> string)
    requires Trimmed(generateToken(principal))
    ensures TokenFromHeader(Some(Login(Some(principal), generateToken).body)) == Some(generateToken(principal))
  {
    BearerRoundTrip(generateToken(principal));
  }

  /** A login body sent back as the Authorization header authenticates its principal again,
      when the validator accepts the issued token and the lookup finds its subject. */
  lemma LoginAuthenticates(principal: string, generateToken: string -> string, validate: string -> bool,
                           subject: string -> string, load: string -> Option<string>)
    requires Trimmed(generateToken(principal)) && generateToken(principal) != []
    requires validate(generateToken(principal)) && load(subject(generateToken(principal))) == Some(principal)
    ensures DoFilter(Some(Login(Some(principal), generateToken).body), validate, subject, load)
         == FilterOutcome(Some(principal), true)
  {
    LoginThenFilter(principal, generateToken);
  }

  /** The failure body carries no token. */
  lemma FailedLoginCarriesNoToken(generateToken: string -> string)
    ensures TokenFromHeader(Some(Login(None, generateToken).body)) == None
  {
    assert LOGIN_FAILED[0] != BEARER[0];
  }
}
