/** Session handling (services/AuthService.java): login with a generated
    token, session validity, the session's user and logout. The clock
    reading used in the token is a parameter. */
module AuthServices {
  import opened Errors
  import opened Text
  import opened UserModel
  import opened UserRepo

  /** login: an unknown user or a wrong password is refused with
      "Login ou senha inválidos." and opens no session; otherwise a new
      token, starting with the login and "_", is mapped to the user. */
  method Login(repo: UserRepository, login: string, senha: string, millis: nat) returns (r: Result<string>)
    requires repo.Valid()
    modifies repo
    ensures repo.Valid() && repo.users == old(repo.users)
    ensures r.Err? <==> !(login in repo.users && repo.users[login].password == senha)
    ensures r.Err? ==> r.error == InvalidAuth(InvalidAuthMessage("Login ou senha inválidos."))
                       && repo.sessions == old(repo.sessions)
    ensures r.Ok? ==> r.value == SessionId(login, millis)
                      && repo.sessions == old(repo.sessions)[r.value := login]
                      && repo.GetUserBySession(r.value) == Ok(repo.users[login])
  {
    var user := repo.GetUserByLogin(login);
    if user.None? || user.value.password != senha {
      return Err(InvalidAuth(InvalidAuthMessage("Login ou senha inválidos.")));
    }
    var sessionId := SessionId(login, millis);
    repo.AddSession(sessionId, login);
    r := Ok(sessionId);
  }

  /** isValidSession: false for a null token; for any other token the lookup
      either finds the session or throws NotFoundUserException, so it never
      answers false. */
  function IsValidSession(repo: UserRepository, sessionId: Option<string>): (r: Result<bool>)
    reads repo
    requires repo.Valid()
    ensures sessionId.None? ==> r == Ok(false)
    ensures sessionId.Some? ==> r != Ok(false)
    ensures sessionId.Some? ==> (r == Ok(true) <==> sessionId.value in repo.sessions)
    ensures r.Err? ==> r.error == NotFoundUser(UserNotRegistered)
  {
    if sessionId.None? then Ok(false)
    else
      match repo.GetUserBySession(sessionId.value)
      case Ok(_) => Ok(true)
      case Err(e) => Err(e)
  }

  /** getUserFromSession: the repository's lookup, which never yields null. */
  function GetUserFromSession(repo: UserRepository, sessionId: string): (r: Result<User>)
    reads repo
    requires repo.Valid()
    ensures r.Ok? <==> sessionId in repo.sessions
    ensures r.Ok? ==> r.value.login == repo.sessions[sessionId] && r.value == repo.users[r.value.login]
  {
    repo.GetUserBySession(sessionId)
  }

  /** logout: a registered token is removed and true returned; a null token
      gives false; an unknown token throws from the validity check. */
  method Logout(repo: UserRepository, sessionId: Option<string>) returns (r: Result<bool>)
    requires repo.Valid()
    modifies repo
    ensures repo.Valid() && repo.users == old(repo.users)
    ensures sessionId.None? ==> r == Ok(false) && repo.sessions == old(repo.sessions)
    ensures sessionId.Some? && sessionId.value in old(repo.sessions) ==>
              r == Ok(true) && repo.sessions == old(repo.sessions) - {sessionId.value}
    ensures sessionId.Some? && sessionId.value !in old(repo.sessions) ==>
              r == Err(NotFoundUser(UserNotRegistered)) && repo.sessions == old(repo.sessions)
  {
    var valid := IsValidSession(repo, sessionId);
    if valid.Err? {
      return Err(valid.error);
    }
    if valid.value {
      repo.RemoveSession(sessionId.value);
      return Ok(true);
    }
    r := Ok(false);
  }
}
