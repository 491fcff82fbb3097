/**
 * The client's session: the `state` object and `localStorage` entries set at
 * login and cleared at logout, and the 401 path of `authFetch`.
 */
module Session {

  import opened Wrappers

  const SessionKeys: set<string> := {"token", "role", "username"}

  /** `${state.token}`: a missing token is written as "null". */
  function AuthorizationHeader(token: Option<string>): (h: string)
    ensures token.Some? ==> h == "Bearer " + token.value
    ensures token.None? ==> h == "Bearer null"
  {
    "Bearer " + (if token.Some? then token.value else "null")
  }

  class ClientSession {
    var token: Option<string>
    var role: Option<string>
    var username: Option<string>
    /** `localStorage`. */
    var storage: map<string, string>
    /** How many times the page was reloaded. */
    var reloads: nat

    /** The page loads its state from storage. */
    constructor (stored: map<string, string>)
      ensures storage == stored && reloads == 0
      ensures token == (if "token" in stored then Some(stored["token"]) else None)
      ensures role == (if "role" in stored then Some(stored["role"]) else None)
      ensures username == (if "username" in stored then Some(stored["username"]) else None)
    {
      storage := stored;
      token := if "token" in stored then Some(stored["token"]) else None;
      role := if "role" in stored then Some(stored["role"]) else None;
      username := if "username" in stored then Some(stored["username"]) else None;
      reloads := 0;
    }

    /** State and storage tell the same story. */
    predicate InSync()
      reads this
    {
      (token.Some? <==> "token" in storage) && (token.Some? ==> storage["token"] == token.value)
      && (role.Some? <==> "role" in storage) && (role.Some? ==> storage["role"] == role.value)
      && (username.Some? <==> "username" in storage) && (username.Some? ==> storage["username"] == username.value)
    }

    /** A successful `login`: state and storage take the token, its role and the display name. */
    method Login(newToken: string, newRole: string, displayName: string)
      modifies this
      ensures token == Some(newToken) && role == Some(newRole) && username == Some(displayName)
      ensures storage == old(storage)["token" := newToken]["role" := newRole]["username" := displayName]
      ensures reloads == old(reloads)
      ensures InSync()
    {
      token := Some(newToken);
      role := Some(newRole);
      username := Some(displayName);
      storage := storage["token" := newToken];
      storage := storage["role" := newRole];
      storage := storage["username" := displayName];
    }

    /** `logout`: the three keys leave storage and state, and the page reloads. */
    method Logout()
      modifies this
      ensures token.None? && role.None? && username.None?
      ensures storage == old(storage) - SessionKeys
      ensures forall k :: k in storage <==> k in old(storage) && k !in SessionKeys
      ensures reloads == old(reloads) + 1
      ensures InSync()
    {
      storage := storage - {"token"};
      storage := storage - {"role"};
      storage := storage - {"username"};
      token := None;
      role := None;
      username := None;
      reloads := reloads + 1;
    }

    /**
     * `authFetch`: the request carries the header; a 401 answer logs out and
     * yields nothing, any other answer is handed back unchanged.
     */
    method AuthFetch(status: int) returns (header: string, response: Option<int>)
      modifies this
      ensures header == AuthorizationHeader(old(token))
      ensures status == 401 ==> (response.None? && token.None? && role.None? && username.None?
                                 && storage == old(storage) - SessionKeys && reloads == old(reloads) + 1)
      ensures status != 401 ==> (response == Some(status) && token == old(token) && role == old(role)
                                 && username == old(username) && storage == old(storage) && reloads == old(reloads))
    {
      header := AuthorizationHeader(token);
      if status == 401 {
        Logout();
        return header, None;
      }
      return header, Some(status);
    }
  }
}
