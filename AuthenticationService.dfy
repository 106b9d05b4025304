/** The alternative login service (services/AuthenticationService.java),
    which compares passwords with checkPassword and reports failures with the
    "loginSenha" tag. */
module AuthenticationServices {
  import opened Errors
  import opened Text
  import opened UserModel
  import opened UserRepo

  /** login: refused with the "loginSenha" message and no new session when
      the user is unknown or the password does not match; otherwise the
      returned token, starting with the login and "_", maps to the user. */
  method Login(repo: UserRepository, login: string, senha: string, millis: nat) returns (r: Result<string>)
    requires repo.Valid()
    modifies repo
    ensures repo.Valid() && repo.users == old(repo.users)
    ensures r.Err? <==> !(login in repo.users && repo.users[login].CheckPassword(senha))
    ensures r.Err? ==> r.error == InvalidAuth("Login ou senha inválidos.") && repo.sessions == old(repo.sessions)
    ensures r.Ok? ==> |r.value| > |login| + 1 && r.value[..|login| + 1] == login + "_"
    ensures r.Ok? ==> repo.sessions == old(repo.sessions)[r.value := login]
                      && repo.GetUserBySession(r.value) == Ok(repo.users[login])
  {
    var user := repo.GetUserByLogin(login);
    if user.None? || !user.value.CheckPassword(senha) {
      return Err(InvalidAuth(InvalidAuthMessage("loginSenha")));
    }
    var sessionId := SessionId(login, millis);
    repo.AddSession(sessionId, login);
    r := Ok(sessionId);
  }
}
