/**
 * JwtFilter.doFilterInternal. Public routes go straight to the filter chain;
 * on every other route a "Bearer " header is cut down to its token, which is
 * validated and, when valid, has its username extracted and then dropped.
 * The chain is called once on every route. The calls the filter makes are
 * returned as a trace of effects. The JwtUtil checks are parameters.
 */
module JwtFilter {
  import opened Common

  /** The parts of an HttpServletRequest the filter reads. */
  datatype Request = Request(uri: string, authorization: Option<string>)

  /** A call the filter makes: to JwtUtil or to the rest of the chain. */
  datatype Effect =
    | ValidateToken(token: string)
    | ExtractUsername(token: string)
    | DoFilter(request: Request)

  const LoginPath := "/api/auth/login"
  const RegisterPath := "/api/users/register"
  const ForgotPasswordPath := "/api/auth/forgot-password"
  const BearerPrefix := "Bearer "

  /** A route that needs no token: the URI starts with one of the three public paths. */
  predicate IsPublic(uri: string) {
    LoginPath <= uri || RegisterPath <= uri || ForgotPasswordPath <= uri
  }

  /**
   * The token of an Authorization header: present exactly when the header is
   * there and starts with "Bearer ", and it is the rest of the header.
   */
  function BearerToken(header: Option<string>): (token: Option<string>)
    ensures token.Some? <==> header.Some? && BearerPrefix <= header.value
    ensures token.Some? ==> header.value == BearerPrefix + token.value
  {
    if header.Some? && BearerPrefix <= header.value then
      var h := header.value;
      assert h == h[..7] + h[7..];
      Some(h[7..])
    else None
  }

  /**
   * doFilterInternal(request, response, chain), with JwtUtil.validateToken
   * as validateToken. The request reaches the chain unchanged, exactly once
   * and as the last step, whatever the token. A public route or a missing
   * bearer token reaches it directly; otherwise the token is validated first,
   * and the username is extracted exactly when it is valid.
   */
  function DoFilterInternal(request: Request, validateToken: string -> bool): (trace: seq<Effect>)
    ensures |trace| >= 1 && trace[|trace| - 1] == DoFilter(request)
    ensures forall i :: 0 <= i < |trace| - 1 ==> !trace[i].DoFilter?
    ensures IsPublic(request.uri) || BearerToken(request.authorization).None? ==> trace == [DoFilter(request)]
    ensures !IsPublic(request.uri) && BearerToken(request.authorization).Some? ==>
      var token := BearerToken(request.authorization).value;
      && trace[0] == ValidateToken(token)
      && (ExtractUsername(token) in trace <==> validateToken(token))
  {
    if IsPublic(request.uri) then [DoFilter(request)]
    else
      match BearerToken(request.authorization)
      case None => [DoFilter(request)]
      case Some(token) =>
        if validateToken(token) then [ValidateToken(token), ExtractUsername(token), DoFilter(request)]
        else [ValidateToken(token), DoFilter(request)]
  }

  /** The public check is by prefix: any longer path under a public path is public too. */
  lemma PublicByPrefix(uri: string, rest: string)
    requires IsPublic(uri)
    ensures IsPublic(uri + rest)
  {
    if LoginPath <= uri {
      assert (uri + rest)[..|LoginPath|] == uri[..|LoginPath|];
    } else if RegisterPath <= uri {
      assert (uri + rest)[..|RegisterPath|] == uri[..|RegisterPath|];
    } else {
      assert (uri + rest)[..|ForgotPasswordPath|] == uri[..|ForgotPasswordPath|];
    }
  }

  /** Prefixing a token with "Bearer " and extracting it gives the token back. */
  lemma BearerRoundTrip(token: string)
    ensures BearerToken(Some(BearerPrefix + token)) == Some(token)
  {
    var h := BearerPrefix + token;
    assert h[..|BearerPrefix|] == BearerPrefix;
    assert h[7..] == token;
  }

  /** The comparison is case-sensitive: a lower-case "bearer " header carries no token. */
  lemma LowerCaseBearerIgnored(token: string)
    ensures BearerToken(Some("bearer " + token)).None?
  {
    var h := "bearer " + token;
    assert h[0] == 'b' != BearerPrefix[0];
  }
}
