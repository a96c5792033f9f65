/** The credential check that guards every endpoint: a `username:password`
    header compared against a fixed user table and a required role. */
module Auth {
  import opened Wrappers
  import opened Text

  /** One entry of the user table: a plaintext password and the list of roles
      ("basic", "admin") the user holds. */
  datatype User = User(password: string, auth: seq<string>)

  /** The four hard-coded users. */
  const UserList: map<string, User> := map[
    "alice" := User("wonderland", ["basic"]),
    "bob" := User("builder", ["basic"]),
    "clementine" := User("mandarine", ["basic"]),
    "admin" := User("4dm1N", ["basic", "admin"])
  ]

  /** The table holds four users, all with the "basic" role; only `admin`
      holds "admin"; no name or password contains a colon. */
  lemma UserListShape()
    ensures UserList.Keys == {"alice", "bob", "clementine", "admin"}
    ensures forall u :: u in UserList ==> "basic" in UserList[u].auth
    ensures forall u :: u in UserList ==> ("admin" in UserList[u].auth <==> u == "admin")
    ensures forall u :: u in UserList ==> ':' !in u && ':' !in UserList[u].password
  {
  }

  /** The five ways the check fails; the first four are HTTP 401, the last 403. */
  datatype AuthError =
    | NoHeader
    | MalformedHeader
    | UnknownUser(username: string)
    | PasswordMismatch
    | Unauthorized(username: string)
  {
    function Status(): (code: int)
      ensures code == 403 <==> Unauthorized?
      ensures code == 401 <==> !Unauthorized?
    {
      if Unauthorized? then 403 else 401
    }

    /** The human-readable detail sent with the error response. */
    function Detail(): (msg: string)
      ensures |msg| > 0
    {
      match this
      case NoHeader => "No Authorization header"
      case MalformedHeader => "Authorization header " + "should be in the form username:password"
      case UnknownUser(u) => "Specified username " + u + " does not exist"
      case PasswordMismatch => "Mismatch password"
      case Unauthorized(u) => "Unauthorized action for user " + u
    }
  }

  /** The first letter of each detail message. */
  lemma DetailInitial(e: AuthError)
    ensures e.Detail()[0] == match e
                             case NoHeader => 'N'
                             case MalformedHeader => 'A'
                             case UnknownUser(_) => 'S'
                             case PasswordMismatch => 'M'
                             case Unauthorized(_) => 'U'
  {
  }

  /** The detail message identifies the error, and the username it names. */
  lemma DetailIdentifiesError(e1: AuthError, e2: AuthError)
    requires e1.Detail() == e2.Detail()
    ensures e1 == e2
  {
    var m := e1.Detail();
    DetailInitial(e1);
    DetailInitial(e2);
    if e1.UnknownUser? && e2.UnknownUser? {
      assert e1.username == m[19..|m| - 15] == e2.username;
    } else if e1.Unauthorized? && e2.Unauthorized? {
      assert e1.username == m[29..] == e2.username;
    }
  }

  /** The header names a known user and carries that user's exact password. */
  predicate Authenticates(users: map<string, User>, header: string) {
    var parts := Split(header, ':');
    |parts| == 2 && parts[0] in users && parts[1] == users[parts[0]].password
  }

  /** `verify_authorization`: succeeds or fails with the first failing check,
      in the order absent header, shape, username, password, role. The user
      table is a parameter; the service passes `UserList`. */
  function VerifyAuthorization(users: map<string, User>, authHeader: Option<string>, authLevel: string)
    : (r: Outcome<AuthError>)
    ensures authHeader.None? <==> r == Fail(NoHeader)
    ensures r == Fail(MalformedHeader) <==> authHeader.Some? && |Split(authHeader.value, ':')| != 2
    ensures authHeader.Some? && |Split(authHeader.value, ':')| == 2 ==>
              var parts := Split(authHeader.value, ':');
              && (r == Fail(UnknownUser(parts[0])) <==> parts[0] !in users)
              && (r == Fail(PasswordMismatch) <==> parts[0] in users && parts[1] != users[parts[0]].password)
    ensures r.Pass? || (r.Fail? && r.error.Unauthorized?) <==>
              authHeader.Some? && Authenticates(users, authHeader.value)
    ensures r.Pass? ==> authLevel in users[Split(authHeader.value, ':')[0]].auth
    ensures r.Fail? && r.error.Unauthorized? ==>
              r.error.username == Split(authHeader.value, ':')[0]
              && authLevel !in users[r.error.username].auth
  {
    if authHeader.None? then Fail(NoHeader)
    else
      var parts := Split(authHeader.value, ':');
      if |parts| != 2 then Fail(MalformedHeader)
      else if parts[0] !in users then Fail(UnknownUser(parts[0]))
      else if parts[1] != users[parts[0]].password then Fail(PasswordMismatch)
      else if authLevel !in users[parts[0]].auth then Fail(Unauthorized(parts[0]))
      else Pass
  }

  /** A header with no colon, or with two or more, is rejected as malformed
      whatever the user table holds: the lookup is never reached. */
  lemma MalformedIgnoresUsers(users: map<string, User>, header: string, authLevel: string)
    requires multiset(header)[':'] != 1
    ensures VerifyAuthorization(users, Some(header), authLevel) == Fail(MalformedHeader)
  {
    SplitCount(header, ':');
  }

  /** A known user presenting the right password gets through or is refused
      with 403, never 401. */
  lemma CorrectCredential(users: map<string, User>, username: string, authLevel: string)
    requires username in users
    requires ':' !in username && ':' !in users[username].password
    ensures VerifyAuthorization(users, Some(username + ":" + users[username].password), authLevel)
            == if authLevel in users[username].auth then Pass else Fail(Unauthorized(username))
  {
    SplitPair(username, users[username].password, ':');
  }

  /** The check passes exactly when the header is `u:p` for a user `u` of the
      table whose password is `p` and who holds the required role. */
  lemma VerifySucceedsIff(users: map<string, User>, authHeader: Option<string>, authLevel: string)
    ensures VerifyAuthorization(users, authHeader, authLevel).Pass? <==>
              authHeader.Some? &&
              exists u :: u in users && ':' !in u && ':' !in users[u].password
                       && authHeader.value == u + ":" + users[u].password
                       && authLevel in users[u].auth
  {
    if VerifyAuthorization(users, authHeader, authLevel).Pass? {
      var parts := Split(authHeader.value, ':');
      SplitPairInverse(authHeader.value, ':');
      var u := parts[0];
      assert authHeader.value == u + ":" + users[u].password;
    }
    if authHeader.Some? &&
       exists u :: u in users && ':' !in u && ':' !in users[u].password
                && authHeader.value == u + ":" + users[u].password
                && authLevel in users[u].auth
    {
      var u :| u in users && ':' !in u && ':' !in users[u].password
             && authHeader.value == u + ":" + users[u].password
             && authLevel in users[u].auth;
      CorrectCredential(users, u, authLevel);
    }
  }

  /** A header that does not authenticate always fails with 401, and a refusal
      with 403 names the user the header authenticated. */
  lemma StatusFollowsOrder(users: map<string, User>, authHeader: Option<string>, authLevel: string)
    ensures var r := VerifyAuthorization(users, authHeader, authLevel);
            !(authHeader.Some? && Authenticates(users, authHeader.value)) ==> r.Fail? && r.error.Status() == 401
    ensures var r := VerifyAuthorization(users, authHeader, authLevel);
            r.Fail? && r.error.Status() == 403 ==>
              authHeader == Some(r.error.username + ":" + users[r.error.username].password)
  {
    var r := VerifyAuthorization(users, authHeader, authLevel);
    if r.Fail? && r.error.Unauthorized? {
      SplitPairInverse(authHeader.value, ':');
    }
  }

  /** Every built-in user logs in with their own password and gets the
      "basic" role. */
  lemma BuiltInUsersAreBasic(username: string)
    requires username in UserList
    ensures VerifyAuthorization(UserList, Some(username + ":" + UserList[username].password), "basic") == Pass
  {
    CorrectCredential(UserList, username, "basic");
  }

  /** `alice:wonderland` passes the "basic" check. */
  lemma AliceLogsIn()
    ensures VerifyAuthorization(UserList, Some("alice:wonderland"), "basic") == Pass
  {
    assert "alice:wonderland" == "alice" + ":" + UserList["alice"].password;
    BuiltInUsersAreBasic("alice");
  }

  /** Only `admin` may perform admin actions; `bob`, for one, is refused with 403. */
  lemma OnlyAdminIsAdmin(username: string)
    requires username in UserList
    ensures VerifyAuthorization(UserList, Some(username + ":" + UserList[username].password), "admin")
            == if username == "admin" then Pass else Fail(Unauthorized(username))
    ensures Unauthorized("bob").Detail() == "Unauthorized action for user bob"
  {
    CorrectCredential(UserList, username, "admin");
  }
}
