/**
 The bearer-token request filter. Token parsing, token validation and the
 user lookup are oracles the filter calls; each one either returns or raises.
 Only a `JwtException` is caught, and it ends the request with a 403; any
 other exception leaves the filter.
 */
module JwtFilter {
  import opened Results
  import opened Text

  const BearerPrefix := "Bearer "
  const JsonContentType := "application/json"
  const ForbiddenBody := "{\"error\": \"Invalid or expired token. Please log in again.\"}"

  /** What an oracle can raise: a `JwtException`, or anything else. */
  datatype Failure = JwtFailure | OtherFailure

  datatype Call<+T> = Returns(value: T) | Raises(failure: Failure)

  /** The `UserDetails` the user lookup loads. */
  datatype UserDetails = UserDetails(username: string, authorities: set<string>)

  datatype Response = Response(status: int, contentType: string, body: string)

  /** How one pass through the filter ends: the response it wrote, the
      authentication the security context holds afterwards, whether the rest
      of the chain ran, and whether an exception left the filter. */
  datatype Run = Run(written: Option<Response>, authentication: Option<UserDetails>, chainInvoked: bool, escaped: bool)

  /** The three oracles: `JwtUtil.extractEmail`, `CustomUserDetailsService.loadUserByUsername`
      and `JwtUtil.validateToken`. */
  datatype Oracles = Oracles(
    extractEmail: string -> Call<Option<string>>,
    loadUser: string -> Call<UserDetails>,
    validateToken: (string, string) -> Call<bool>)

  predicate HasBearer(header: Option<string>) {
    header.Some? && StartsWith(header.value, BearerPrefix)
  }

  /** The token: the header without its first seven characters. */
  function Token(header: Option<string>): (token: string)
    requires HasBearer(header)
    ensures header.value == BearerPrefix + token
  {
    header.value[|BearerPrefix|..]
  }

  /** The oracles accept `token` for `user`: it names an email, the email
      loads `user`, and the token is valid for that user's name. */
  predicate Grants(o: Oracles, token: string, user: UserDetails) {
    && o.extractEmail(token).Returns?
    && o.extractEmail(token).value.Some?
    && o.loadUser(o.extractEmail(token).value.value) == Returns(user)
    && o.validateToken(token, user.username) == Returns(true)
  }

  /** Some oracle the filter calls for `token` raises `f`. The email is parsed
      first; the user is loaded and the token validated only for a parsed
      email and an unauthenticated context; a raise ends the sequence. */
  predicate RaisedOnPath(o: Oracles, token: string, authentication: Option<UserDetails>, f: Failure) {
    || o.extractEmail(token) == Raises(f)
    || (&& o.extractEmail(token).Returns?
        && o.extractEmail(token).value.Some?
        && authentication.None?
        && var email := o.extractEmail(token).value.value;
           || o.loadUser(email) == Raises(f)
           || (o.loadUser(email).Returns? && o.validateToken(token, o.loadUser(email).value.username) == Raises(f)))
  }

  /** The body of the `try` block: the authentication it leaves in the
      context, or what it raised. */
  function Authenticate(o: Oracles, token: string, authentication: Option<UserDetails>): Call<Option<UserDetails>> {
    match o.extractEmail(token)
    case Raises(f) => Raises(f)
    case Returns(email) =>
      if email.None? || authentication.Some? then Returns(authentication)
      else
        match o.loadUser(email.value)
        case Raises(f) => Raises(f)
        case Returns(user) =>
          match o.validateToken(token, user.username)
          case Raises(f) => Raises(f)
          case Returns(valid) => Returns(if valid then Some(user) else authentication)
  }

  /** How the `try` block ends: it raises exactly what an oracle on the path
      raised, and it changes the authentication only to a user the oracles
      grant, in a context that had none. */
  lemma AuthenticateEnds(o: Oracles, token: string, authentication: Option<UserDetails>)
    ensures forall f :: Authenticate(o, token, authentication) == Raises(f) <==> RaisedOnPath(o, token, authentication, f)
    ensures var a := Authenticate(o, token, authentication);
      a.Returns? && a.value != authentication ==>
        authentication.None? && a.value.Some? && Grants(o, token, a.value.value)
  {
  }

  /** `doFilterInternal`. */
  function DoFilterInternal(header: Option<string>, authentication: Option<UserDetails>, o: Oracles): (r: Run)
    // Exactly one ending.
    ensures (if r.written.Some? then 1 else 0) + (if r.chainInvoked then 1 else 0) + (if r.escaped then 1 else 0) == 1
    ensures r.written.Some? ==> r.written.value == Response(403, JsonContentType, ForbiddenBody)
    ensures !HasBearer(header) ==> r == Run(None, authentication, true, false)
    // An existing authentication is never replaced.
    ensures authentication.Some? ==> r.authentication == authentication
    // Authentication is granted exactly when the oracles accept the token.
    ensures r.authentication != authentication ==>
      HasBearer(header) && r.chainInvoked && r.authentication.Some? && Grants(o, Token(header), r.authentication.value)
    ensures HasBearer(header) && authentication.None? ==>
      forall user :: Grants(o, Token(header), user) ==> r == Run(None, Some(user), true, false)
    // Token parsing runs even for an authenticated context.
    ensures HasBearer(header) && o.extractEmail(Token(header)) == Raises(JwtFailure) ==> r.written.Some?
    ensures HasBearer(header) && o.extractEmail(Token(header)) == Raises(OtherFailure) ==> r.escaped
    ensures r.written.Some? || r.escaped ==> r.authentication == authentication
    // The 403 is written exactly when an oracle raised a `JwtException`, and an
    // exception escapes exactly when an oracle raised anything else.
    ensures r.written.Some? <==> HasBearer(header) && RaisedOnPath(o, Token(header), authentication, JwtFailure)
    ensures r.escaped <==> HasBearer(header) && RaisedOnPath(o, Token(header), authentication, OtherFailure)
    // A token the oracles decline without raising lets the request through
    // with the context as it was.
    ensures HasBearer(header)
            && !RaisedOnPath(o, Token(header), authentication, JwtFailure)
            && !RaisedOnPath(o, Token(header), authentication, OtherFailure)
            && (authentication.Some? || forall user :: !Grants(o, Token(header), user)) ==>
      r == Run(None, authentication, true, false)
  {
    if !HasBearer(header) then Run(None, authentication, true, false)
    else
      AuthenticateEnds(o, Token(header), authentication);
      match Authenticate(o, Token(header), authentication)
      case Returns(a) => Run(None, a, true, false)
      case Raises(JwtFailure) => Run(Some(Response(403, JsonContentType, ForbiddenBody)), authentication, false, false)
      case Raises(OtherFailure) => Run(None, authentication, false, true)
  }

  /** A second pass with the authentication the first left behind ends the same
      way: the filter is idempotent. */
  lemma Idempotent(header: Option<string>, authentication: Option<UserDetails>, o: Oracles)
    ensures var first := DoFilterInternal(header, authentication, o);
      DoFilterInternal(header, first.authentication, o) == first
  {
  }

  /** Oracles that answer alike for the token give the same run: nothing but
      the part of the header after the prefix is examined. */
  lemma OnlyTokenIsExamined(header: Option<string>, authentication: Option<UserDetails>, o: Oracles, o': Oracles)
    requires HasBearer(header)
    requires o.extractEmail(Token(header)) == o'.extractEmail(Token(header))
    requires forall email :: o.loadUser(email) == o'.loadUser(email)
    requires forall name :: o.validateToken(Token(header), name) == o'.validateToken(Token(header), name)
    ensures DoFilterInternal(header, authentication, o) == DoFilterInternal(header, authentication, o')
  {
  }
}
