/** The two global stores: who is signed in, and the current chat session. */
module Stores {
  import opened Wrappers

  class AuthStore {
    var userId: Option<string>
    var isAuthenticated: bool

    /** Authenticated exactly when a user id is held: set up by the
        constructor and kept by every method. */
    ghost predicate Valid()
      reads this
    {
      isAuthenticated == userId.Some?
    }

    constructor ()
      ensures Valid()
      ensures userId == None && !isAuthenticated
    {
      userId := None;
      isAuthenticated := false;
    }

    method Login(id: string)
      requires Valid()
      modifies this
      ensures Valid()
      ensures userId == Some(id) && isAuthenticated
    {
      userId := Some(id);
      isAuthenticated := true;
    }

    method Logout()
      requires Valid()
      modifies this
      ensures Valid()
      ensures userId == None && !isAuthenticated
    {
      userId := None;
      isAuthenticated := false;
    }
  }

  class SessionStore {
    var sessionId: Option<string>

    constructor ()
      ensures sessionId == None
    {
      sessionId := None;
    }

    /** The last id set wins. */
    method SetSessionId(id: string)
      modifies this
      ensures sessionId == Some(id)
    {
      sessionId := Some(id);
    }

    /** Back to the initial state, whatever happened before. */
    method ClearSession()
      modifies this
      ensures sessionId == None
    {
      sessionId := None;
    }
  }
}
