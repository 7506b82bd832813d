/** `JwtAuthGuard.handleRequest`: the decision taken after passport's JWT
    strategy has run, from the strategy's error, the user it found, the
    info it reported, and the route's `skipExpiredTokenCheck` and `isPublic`
    metadata (an absent flag reads as false). */
module JwtGuard {
  import opened Common

  /** What the guard does with the request. */
  datatype Decision<U, E> =
    | Admit(user: Option<U>)  // returns the user (possibly absent on a public route)
    | Rethrow(err: E)         // `throw err`
    | Reject(message: string) // UnauthorizedException

  const TokenExpiredName := "TokenExpiredError"
  const TokenExpiredMessage := "Token expired"
  /** `new UnauthorizedException()` carries Nest's default message. */
  const DefaultUnauthorized := "Unauthorized"

  /** `info?.name === 'TokenExpiredError'`. */
  predicate ReportsExpiredToken(info: Option<string>)
  {
    info == Some(TokenExpiredName)
  }

  function HandleRequest<U, E>(err: Option<E>, user: Option<U>, info: Option<string>,
                               skipExpiredTokenCheck: bool, isPublic: bool): Decision<U, E>
  {
    if err.Some? then Rethrow(err.value)
    else if ReportsExpiredToken(info) && !skipExpiredTokenCheck then Reject(TokenExpiredMessage)
    else if user.Some? || isPublic then Admit(user)
    else Reject(DefaultUnauthorized)
  }

  /** The access policy stated on its own: no strategy error, no expired
      token unless the route skips that check, and a user or a public route. */
  predicate Admissible<U, E>(err: Option<E>, user: Option<U>, info: Option<string>,
                             skipExpiredTokenCheck: bool, isPublic: bool)
  {
    err.None? && (skipExpiredTokenCheck || !ReportsExpiredToken(info)) && (user.Some? || isPublic)
  }

  /** The guard admits exactly the admissible requests, passing the strategy's
      user through unchanged; a strategy error wins over every other input; a
      refusal is "Token expired" exactly when an expired token is not
      skipped, and the bare Unauthorized otherwise. */
  lemma HandleRequestSpec<U, E>(err: Option<E>, user: Option<U>, info: Option<string>,
                                skipExpiredTokenCheck: bool, isPublic: bool)
    ensures var d := HandleRequest(err, user, info, skipExpiredTokenCheck, isPublic);
      && (d.Admit? <==> Admissible(err, user, info, skipExpiredTokenCheck, isPublic))
      && (d.Admit? ==> d.user == user)
      && (d.Rethrow? <==> err.Some?)
      && (d.Rethrow? ==> d.err == err.value)
      && (d == Reject(TokenExpiredMessage) <==>
            err.None? && ReportsExpiredToken(info) && !skipExpiredTokenCheck)
      && (d == Reject(DefaultUnauthorized) <==>
            err.None? && (skipExpiredTokenCheck || !ReportsExpiredToken(info)) && user.None? && !isPublic)
  {
  }

  /** An expired token is refused even on a public route, unless the route
      skips the check; with the skip set, expiry alone never refuses. */
  lemma ExpiryOverridesPublic<U, E>(user: Option<U>, skipExpiredTokenCheck: bool, isPublic: bool)
    ensures var d := HandleRequest<U, E>(None, user, Some(TokenExpiredName), skipExpiredTokenCheck, isPublic);
      (!skipExpiredTokenCheck ==> d == Reject(TokenExpiredMessage))
      && (skipExpiredTokenCheck ==>
            d == HandleRequest<U, E>(None, user, None, skipExpiredTokenCheck, isPublic))
  {
  }
}
