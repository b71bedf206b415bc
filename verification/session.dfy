/**
 * The client's session gate: the token kept in local storage, the login page
 * that stores it, the navigation bar's logout that clears it, and
 * ProtectedRoute, which renders a view only while a token is stored.
 */
module Session {
  import opened Common

  /** What ProtectedRoute renders: the wrapped view, or a redirect. */
  datatype Route<V> =
    | Render(children: V)
    | Navigate(to: string, replace: bool, from: string)

  const LoginRoute := "/login"

  /** JavaScript's `!!` on a stored string: null and "" are false, any other string true. */
  predicate Truthy(value: Option<string>) {
    value.Some? && value.value != ""
  }

  /**
   * ProtectedRoute, with the stored token and the current location passed in.
   * It renders the children unchanged exactly when the token is truthy, and
   * otherwise redirects to the login route, replacing the history entry and
   * remembering where the user was. The requested path never decides which.
   */
  function ProtectedRoute<V>(token: Option<string>, location: string, children: V): (r: Route<V>)
    ensures r.Render? <==> token.Some? && |token.value| > 0
    ensures r.Render? ==> r.children == children
    ensures r.Navigate? ==> r.to == LoginRoute && r.replace && r.from == location
  {
    if Truthy(token) then Render(children) else Navigate(LoginRoute, true, location)
  }

  /** The entries of the browser's local storage the client uses. */
  class LocalStorage {
    var token: Option<string>
    var username: Option<string>

    constructor (token: Option<string>, username: Option<string>)
      ensures this.token == token && this.username == username
    {
      this.token := token;
      this.username := username;
    }

    /**
     * The login page's handling of a login reply: a truthy token is stored,
     * after which every protected view renders; anything else leaves the
     * storage as it was.
     */
    method StoreLoginToken(replyToken: Option<string>)
      modifies this
      ensures Truthy(replyToken) ==> token == replyToken
      ensures !Truthy(replyToken) ==> token == old(token)
      ensures username == old(username)
      ensures Truthy(replyToken) ==> forall location: string :: ProtectedRoute(token, location, 0).Render?
    {
      if Truthy(replyToken) {
        token := replyToken;
      }
    }

    /**
     * The navigation bar's logout: the token and the username are removed,
     * after which every protected view redirects to the login route.
     */
    method Logout()
      modifies this
      ensures token == None && username == None
      ensures forall location: string :: ProtectedRoute(token, location, 0) == Navigate(LoginRoute, true, location)
    {
      token := None;
      username := None;
    }
  }
}
