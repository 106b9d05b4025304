/** Users (services/UserService.java): registration, profile attributes,
    profile edits including a change of login, the login-based idol, crush
    and enemy operations, and the removal of a user. Each operation that
    changes state is a transition on the store; the method that performs it
    on the repositories is proved to follow it. */
module UserServices {
  import opened Lists
  import opened Text
  import opened Errors
  import opened Recados
  import opened FriendsModel
  import opened UserModel
  import opened UserRepo
  import CR = CommunityRepo
  import RS = RelationshipServices
  import CS = CommunityServices

  // ---------------------------------------------------------- createUser

  /** The refusals of createUser, in order: the login rule, the password
      rule, a taken login. */
  function CreateUserCheck(users: Users, login: Option<string>, senha: Option<string>): (o: Outcome)
    ensures o == Done <==> !InvalidLogin(login) && !InvalidPassword(senha) && login.value !in users
    ensures InvalidLogin(login) ==> o == Failed(InvalidAuth(InvalidAuthMessage("login")))
    ensures !InvalidLogin(login) && InvalidPassword(senha) ==> o == Failed(InvalidAuth(InvalidAuthMessage("senha")))
    ensures !InvalidLogin(login) && !InvalidPassword(senha) && login.value in users ==> o == Failed(UserAlreadyExists)
  {
    if InvalidLogin(login) then Failed(InvalidAuth(InvalidAuthMessage("login")))
    else if InvalidPassword(senha) then Failed(InvalidAuth(InvalidAuthMessage("senha")))
    else if login.value in users then Failed(UserAlreadyExists)
    else Done
  }

  /** A null name is stored as the empty string. */
  function NameOrEmpty(nome: Option<string>): (r: string)
    ensures nome.Some? ==> r == nome.value
    ensures nome.None? ==> r == ""
  {
    if nome.Some? then nome.value else ""
  }

  /** createUser as a transition: a refusal changes nothing. */
  function CreateUserStep(users: Users, login: Option<string>, senha: Option<string>, nome: Option<string>): (r: (Outcome, Users))
    ensures r.0 == CreateUserCheck(users, login, senha)
    ensures r.0.Failed? ==> r.1 == users
  {
    var o := CreateUserCheck(users, login, senha);
    if o.Failed? then (o, users)
    else (Done, users[login.value := NewUser(NameOrEmpty(nome), login.value, senha.value)])
  }

  /** A registered user is a fresh record under its login (empty lists and
      queues, the given password, the name or ""); nobody else changes, and
      every store invariant is kept, since no stored list can mention a login
      that was not stored. */
  lemma CreateUserEffect(users: Users, login: Option<string>, senha: Option<string>, nome: Option<string>)
    requires Keyed(users) && AllValid(users) && Closed(users) && FriendsSymmetric(users) && FansMirrorIdols(users)
    requires CreateUserCheck(users, login, senha) == Done
    ensures var us, l := CreateUserStep(users, login, senha, nome).1, login.value;
      && us.Keys == users.Keys + {l}
      && (forall k :: k in users ==> us[k] == users[k])
      && us[l] == NewUser(NameOrEmpty(nome), l, senha.value)
      && Keyed(us) && AllValid(us) && Closed(us) && FriendsSymmetric(us) && FansMirrorIdols(us)
  {
    var l := login.value;
    FreshUserKeepsStore(users, NewUser(NameOrEmpty(nome), l, senha.value));
  }

  /** Storing a user with empty relationship lists under a login nobody
      stores keeps every store invariant. */
  lemma FreshUserKeepsStore(users: Users, u: User)
    requires Keyed(users) && AllValid(users) && Closed(users) && FriendsSymmetric(users) && FansMirrorIdols(users)
    requires u.login !in users && u.Valid() && Links(u) == [] && u.fans == [] && u.idols == []
    requires u.friends.friendsList == []
    ensures var us := users[u.login := u];
      Keyed(us) && AllValid(us) && Closed(us) && FriendsSymmetric(us) && FansMirrorIdols(us)
  {
    var us, l := users[u.login := u], u.login;
    FreshUserKeepsClosed(users, u);
    forall a, b | a in us && b in us ensures us[a].IsFriend(b) <==> us[b].IsFriend(a) {
      if a == l || b == l {
        var other := if a == l then b else a;
        if other != l {
          assert l !in Links(users[other]);
        }
      } else {
        assert users[a].IsFriend(b) <==> users[b].IsFriend(a);
      }
    }
    forall a, b | a in us && b in us ensures b in us[a].idols <==> a in us[b].fans {
      if a == l || b == l {
        var other := if a == l then b else a;
        if other != l {
          assert l !in Links(users[other]);
        }
      } else {
        assert b in users[a].idols <==> a in users[b].fans;
      }
    }
  }

  lemma FreshUserKeepsClosed(users: Users, u: User)
    requires Closed(users) && u.login !in users && Links(u) == []
    ensures Closed(users[u.login := u])
  {
    var us := users[u.login := u];
    forall k, x | k in us && x in Links(us[k]) ensures x in us {
      if k != u.login {
        assert x in Links(users[k]);
      }
    }
  }

  /** createUser, on the repository. */
  method CreateUser(repo: UserRepository, login: Option<string>, senha: Option<string>, nome: Option<string>) returns (o: Outcome)
    requires repo.Valid()
    modifies repo
    ensures repo.Valid() && repo.sessions == old(repo.sessions)
    ensures (o, repo.users) == CreateUserStep(old(repo.users), login, senha, nome)
  {
    if InvalidLogin(login) {
      return Failed(InvalidAuth(InvalidAuthMessage("login")));
    }
    if InvalidPassword(senha) {
      return Failed(InvalidAuth(InvalidAuthMessage("senha")));
    }
    if repo.UserExists(login.value) {
      return Failed(UserAlreadyExists);
    }
    var name := if nome.None? then "" else nome.value;
    repo.AddUser(NewUser(name, login.value, senha.value));
    o := Done;
  }

  // ---------------------------------------------------- getUserAttribute

  /** getUserAttribute: the three fields by name, any other key from the
      free-form attributes, which must be present and non-empty. */
  function GetUserAttribute(repo: UserRepository, login: string, atributo: string): (r: Result<string>)
    reads repo
    ensures login !in repo.users ==> r == Err(NotFoundUser(UserNotRegistered))
    ensures login in repo.users && atributo == "nome" ==> r == Ok(repo.users[login].name)
    ensures login in repo.users && atributo == "senha" ==> r == Ok(repo.users[login].password)
    ensures login in repo.users && atributo == "login" ==> r == Ok(repo.users[login].login)
    ensures login in repo.users && atributo !in {"nome", "senha", "login"} ==>
              (r.Ok? <==> atributo in repo.users[login].attributes && repo.users[login].attributes[atributo] != "")
              && (r.Ok? ==> r.value == repo.users[login].attributes[atributo])
              && (r.Err? ==> r.error == NotFilledAttribute)
  {
    match repo.GetUserByLogin(login)
    case None => Err(NotFoundUser(UserNotRegistered))
    case Some(user) =>
      match atributo
      case "nome" => Ok(user.name)
      case "senha" => Ok(user.password)
      case "login" => Ok(user.login)
      case _ => user.GetAttributeExtra(atributo)
  }

  // ----------------------------------------------------- editUserProfile

  /** A change of login: the cascade of removeUserCompletely on the old
      login (which also scrubs the user's own record, still held by the
      caller, and drops its sessions), then the scrubbed record stored under
      the new login. */
  function Rekey(users: Users, sessions: Sessions, me: string, valor: string): (Users, Sessions)
    requires me in users
  {
    var owned := users[me].communitiesJoined;
    (CascadeUsers(users, me, owned)[valor := Scrubbed(users[me], me, owned).(login := valor)],
     DropSessions(sessions, me))
  }

  /** editUserProfile as a transition: the name, the password, the login
      (checked by the login rule and for a login held by someone else) or a
      free-form attribute of the session user. */
  function EditProfileStep(users: Users, sessions: Sessions, sessionId: string, atributo: string, valor: string): (r: (Outcome, Users, Sessions))
    ensures r.0.Failed? ==> r.1 == users && r.2 == sessions
    ensures r.0.Failed? <==> (|| SessionLogin(users, sessions, sessionId).Err?
                              || (atributo == "login" && InvalidLogin(Some(valor)))
                              || (atributo == "login" && valor in users && valor != sessions[sessionId]))
    ensures SessionLogin(users, sessions, sessionId).Ok? && atributo == "login" && InvalidLogin(Some(valor)) ==>
              r.0 == Failed(InvalidAuth(InvalidAuthMessage("login")))
    ensures (SessionLogin(users, sessions, sessionId).Ok? && atributo == "login" && !InvalidLogin(Some(valor))
             && valor in users && valor != sessions[sessionId]) ==> r.0 == Failed(UserAlreadyExists)
  {
    match SessionLogin(users, sessions, sessionId)
    case Err(e) => (Failed(e), users, sessions)
    case Ok(me) =>
      var u := users[me];
      match atributo
      case "nome" => (Done, users[me := u.(name := valor)], sessions)
      case "senha" => (Done, users[me := u.(password := valor)], sessions)
      case "login" =>
        if InvalidLogin(Some(valor)) then (Failed(InvalidAuth(InvalidAuthMessage("login"))), users, sessions)
        else if valor in users && valor != me then (Failed(UserAlreadyExists), users, sessions)
        else var (us, ss) := Rekey(users, sessions, me, valor); (Done, us, ss)
      case _ => (Done, users[me := u.SetAttributeExtra(atributo, valor)], sessions)
  }

  /** What a change of login leaves: the record under the new login keeps
      the name, password, attributes and community queue, loses the messages
      it sent itself and every joined community; the old login is gone
      (unless unchanged), nobody else mentions it, no session is left for it,
      and the store keeps its invariants. */
  lemma RekeyEffect(users: Users, sessions: Sessions, me: string, valor: string)
    requires Keyed(users) && AllValid(users) && SessionsOk(users, sessions)
    requires me in users && (valor !in users || valor == me)
    ensures var (us, ss) := Rekey(users, sessions, me, valor);
      && us.Keys == users.Keys - {me} + {valor}
      && us[valor].login == valor && us[valor].name == users[me].name
      && us[valor].password == users[me].password && us[valor].attributes == users[me].attributes
      && us[valor].communitiesMessages == users[me].communitiesMessages
      && us[valor].recados == NotFrom(users[me].recados, me)
      && us[valor].communitiesJoined == []
      && (forall k :: k in us ==> NoReference(us[k], me))
      && (forall t :: t in ss ==> ss[t] != me && ss[t] == sessions[t])
      && Keyed(us) && AllValid(us) && SessionsOk(us, ss)
  {
    RekeyRecord(users, sessions, me, valor);
    RekeyStore(users, sessions, me, valor);
  }

  /** The renamed record: profile and queues kept, old login's own messages
      gone, no community joined. */
  lemma RekeyRecord(users: Users, sessions: Sessions, me: string, valor: string)
    requires me in users
    ensures var us := Rekey(users, sessions, me, valor).0;
      && valor in us && us[valor].login == valor && us[valor].name == users[me].name
      && us[valor].password == users[me].password && us[valor].attributes == users[me].attributes
      && us[valor].communitiesMessages == users[me].communitiesMessages
      && us[valor].recados == NotFrom(users[me].recados, me)
      && us[valor].communitiesJoined == []
  {
    var owned := users[me].communitiesJoined;
    ScrubbedFacts(users[me], me, owned);
    KeepNone(owned, owned);
  }

  /** The store after a rename: keys moved, no reference to the old login,
      its sessions gone, and the invariants kept. */
  lemma RekeyStore(users: Users, sessions: Sessions, me: string, valor: string)
    requires Keyed(users) && AllValid(users) && SessionsOk(users, sessions)
    requires me in users && (valor !in users || valor == me)
    ensures var (us, ss) := Rekey(users, sessions, me, valor);
      && us.Keys == users.Keys - {me} + {valor}
      && (forall k :: k in us ==> NoReference(us[k], me))
      && (forall t :: t in ss ==> ss[t] != me && ss[t] == sessions[t])
      && Keyed(us) && AllValid(us) && SessionsOk(us, ss)
  {
    var owned := users[me].communitiesJoined;
    var cs := CascadeUsers(users, me, owned);
    var us := cs[valor := Scrubbed(users[me], me, owned).(login := valor)];
    RemoveUserCompletelyFacts(users, sessions, me);
    ScrubbedFacts(users[me], me, owned);
    assert users[me].Valid();
    forall k | k in us ensures us[k].login == k && us[k].Valid() && NoReference(us[k], me) {
      if k != valor {
        assert us[k] == cs[k];
      }
    }
  }

  /** Keeping none of a list's elements leaves nothing. */
  lemma {:induction false} KeepNone(xs: seq<string>, drop: seq<string>)
    requires forall y :: y in xs ==> y in drop
    ensures Keep(xs, drop) == []
  {
    if xs != [] {
      KeepNone(xs[1..], drop);
    }
  }

  /** A change of login breaks mutual friendship: the renamed user keeps its
      friends, while they, scrubbed by the cascade, no longer list it under
      either login. */
  lemma RekeyBreaksSymmetry(users: Users, sessions: Sessions, me: string, valor: string, friend: string)
    requires Keyed(users) && AllValid(users) && Closed(users)
    requires me in users && valor !in users
    requires friend in users && friend != me && users[me].IsFriend(friend)
    ensures var us := Rekey(users, sessions, me, valor).0;
      friend in us && valor in us && us[valor].IsFriend(friend) && !us[friend].IsFriend(valor)
      && !FriendsSymmetric(us)
  {
    var owned := users[me].communitiesJoined;
    var us := Rekey(users, sessions, me, valor).0;
    ScrubbedFacts(users[me], me, owned);
    ScrubbedFacts(users[friend], me, owned);
    assert valor !in Links(users[friend]);
    assert us[friend] == Scrubbed(users[friend], me, owned);
    assert !users[friend].IsFriend(valor);
  }

  /** A change of login never touches the community store: a community the
      renamed user shared with another member still lists the old login,
      which no longer exists, while the cascade took the community out of
      that other member's joined list, so the store stops being
      consistent. */
  lemma RekeyStrandsCommunities(users: Users, sessions: Sessions, communities: CR.Communities,
                                me: string, valor: string, m: string, n: string)
    requires me in users && m in users && m != me && valor !in users
    requires n in communities && me in communities[n].members && m in communities[n].members
    requires n in users[me].communitiesJoined
    ensures var us := Rekey(users, sessions, me, valor).0;
      && me !in us && communities[n].IsMember(me)
      && m in us && n !in us[m].communitiesJoined
      && !CS.MembersJoined(us, communities)
  {
    var owned := users[me].communitiesJoined;
    var us := Rekey(users, sessions, me, valor).0;
    ScrubbedFacts(users[m], me, owned);
    assert us[m] == Scrubbed(users[m], me, owned);
  }

  /** Editing the name, the password or a free-form attribute of the
      session user succeeds, changes that one field of that one user and
      nothing else, and reads back: the name and password as the new
      value, a free-form attribute (set non-empty) as the new value. */
  lemma EditThenGet(users: Users, sessions: Sessions, sessionId: string, atributo: string, valor: string)
    requires SessionLogin(users, sessions, sessionId).Ok?
    requires atributo != "login" && (atributo !in {"nome", "senha"} ==> valor != "")
    ensures var (o, us, ss) := EditProfileStep(users, sessions, sessionId, atributo, valor);
      var me := sessions[sessionId];
      && o == Done && ss == sessions && us.Keys == users.Keys
      && (forall k :: k in users && k != me ==> us[k] == users[k])
      && (atributo == "nome" ==> us[me] == users[me].(name := valor))
      && (atributo == "senha" ==> us[me] == users[me].(password := valor))
      && (atributo !in {"nome", "senha"} ==>
            us[me] == users[me].(attributes := us[me].attributes)
            && us[me].GetAttributeExtra(atributo) == Ok(valor))
  {
  }

  /** The login branch of editUserProfile: the cascade delete of the old
      login, then the held record, scrubbed like every other, stored under
      the new login. */
  method Rename(repo: UserRepository, user: User, valor: string)
    requires repo.Valid() && user.login in repo.users && repo.users[user.login] == user
    requires valor !in repo.users || valor == user.login
    modifies repo
    ensures repo.Valid()
    ensures (repo.users, repo.sessions) == Rekey(old(repo.users), old(repo.sessions), user.login, valor)
  {
    var owned := user.communitiesJoined;
    var removed := repo.RemoveUserCompletely(user.login);
    // the cascade scrubbed the very record the caller still holds
    var scrubbed := ScrubUser(user, user.login, owned);
    repo.AddUser(scrubbed.(login := valor));
  }

  /** editUserProfile, on the repository. */
  method EditUserProfile(repo: UserRepository, sessionId: string, atributo: string, valor: string) returns (o: Outcome)
    requires repo.Valid()
    modifies repo
    ensures repo.Valid()
    ensures (o, repo.users, repo.sessions) == EditProfileStep(old(repo.users), old(repo.sessions), sessionId, atributo, valor)
  {
    var found := repo.GetUserBySession(sessionId);
    if found.Err? {
      return Failed(found.error);
    }
    var user := found.value;
    if atributo == "nome" {
      repo.users := repo.users[user.login := user.(name := valor)];
    } else if atributo == "senha" {
      repo.users := repo.users[user.login := user.(password := valor)];
    } else if atributo == "login" {
      if InvalidLogin(Some(valor)) {
        return Failed(InvalidAuth(InvalidAuthMessage("login")));
      }
      if repo.UserExists(valor) && valor != user.login {
        return Failed(UserAlreadyExists);
      }
      Rename(repo, user, valor);
    } else {
      repo.users := repo.users[user.login := user.SetAttributeExtra(atributo, valor)];
    }
    o := Done;
  }

  // ------------------------------------------------------------- idols

  /** The effect of addIdol: the de-duplicating adders on both sides. */
  function Idolize(users: Users, fan: string, idol: string): Users
    requires fan in users && idol in users
  {
    var us := users[fan := users[fan].AddIdol(idol)];
    us[idol := us[idol].AddFan(fan)]
  }

  /** addIdol as a transition: unknown idol, unknown user (a
      NullPointerException), already an idol, self, the idol lists the user
      as enemy (the exception carries only the idol's name). */
  function AddIdolStep(users: Users, userLogin: string, idolLogin: string): (r: (Outcome, Users))
    ensures r.0.Failed? ==> r.1 == users
    ensures r.0 == Done <==> (userLogin in users && idolLogin in users && idolLogin !in users[userLogin].idols
                              && userLogin != idolLogin && userLogin !in users[idolLogin].enemies)
  {
    if idolLogin !in users then (Failed(NotFoundUser(UserNotRegistered)), users)
    else if userLogin !in users then (Failed(NullPointer), users)
    else if idolLogin in users[userLogin].idols then (Failed(IdolAlreadyAdded), users)
    else if userLogin == idolLogin then (Failed(FanOfItself), users)
    else if userLogin in users[idolLogin].enemies then (Failed(EnemyException(users[idolLogin].name)), users)
    else (Done, Idolize(users, userLogin, idolLogin))
  }

  /** On a store whose idols and fans mirror each other, addIdol by login
      does exactly what adicionarIdolo does for the same user's session:
      same refusals in the same order, except for the enemy message, and the
      same plain appends. */
  lemma AddIdolAgreesWithAdicionarIdolo(users: Users, sessions: Sessions, session: string, idolLogin: string)
    requires AllValid(users) && FansMirrorIdols(users)
    requires SessionLogin(users, sessions, session).Ok?
    ensures var me := sessions[session];
      var (o, us) := AddIdolStep(users, me, idolLogin);
      var (p, vs) := RS.AdicionarIdoloStep(users, sessions, session, idolLogin);
      && (o == Done <==> p == Done) && us == vs
      && (o.Failed? && !o.error.EnemyException? ==> o == p)
  {
    var me := sessions[session];
    if AddIdolStep(users, me, idolLogin).0 == Done {
      assert me !in users[idolLogin].fans;
      assert users[me].AddIdol(idolLogin).idols == users[me].idols + [idolLogin];
    }
  }

  /** addIdol, on the repository. */
  method AddIdol(repo: UserRepository, userLogin: string, idolLogin: string) returns (o: Outcome)
    requires repo.Valid()
    modifies repo
    ensures repo.Valid() && repo.sessions == old(repo.sessions)
    ensures (o, repo.users) == AddIdolStep(old(repo.users), userLogin, idolLogin)
  {
    var u := repo.GetUserByLogin(userLogin);
    var i := repo.GetUserByLogin(idolLogin);
    if i.None? {
      return Failed(NotFoundUser(UserNotRegistered));
    }
    if u.None? {
      return Failed(NullPointer);
    }
    var user, idol := u.value, i.value;
    if idolLogin in user.idols {
      return Failed(IdolAlreadyAdded);
    }
    if userLogin == idolLogin {
      return Failed(FanOfItself);
    }
    if userLogin in idol.enemies {
      return Failed(EnemyException(idol.name));
    }
    repo.users := repo.users[userLogin := user.AddIdol(idolLogin)];
    repo.users := repo.users[idolLogin := repo.users[idolLogin].AddFan(userLogin)];
    o := Done;
  }

  /** isFan: false for an unknown user. */
  function IsFan(repo: UserRepository, userLogin: string, idolLogin: string): (r: bool)
    reads repo
    ensures r <==> userLogin in repo.users && idolLogin in repo.users[userLogin].idols
  {
    match repo.GetUserByLogin(userLogin)
    case None => false
    case Some(user) => idolLogin in user.idols
  }

  /** isCrush: false for an unknown user. */
  function IsCrush(repo: UserRepository, userLogin: string, crushLogin: string): (r: bool)
    reads repo
    ensures r <==> userLogin in repo.users && crushLogin in repo.users[userLogin].crushes
  {
    match repo.GetUserByLogin(userLogin)
    case None => false
    case Some(user) => crushLogin in user.crushes
  }

  /** isEnemy: false for an unknown user. */
  function IsEnemy(repo: UserRepository, userLogin: string, enemyLogin: string): (r: bool)
    reads repo
    ensures r <==> userLogin in repo.users && enemyLogin in repo.users[userLogin].enemies
  {
    match repo.GetUserByLogin(userLogin)
    case None => false
    case Some(user) => enemyLogin in user.enemies
  }

  /** The formatted getters: a brace list of a known user's list; an
      unknown user is a NullPointerException. */
  function GetIdolsFormatted(repo: UserRepository, userLogin: string): (r: Result<string>)
    reads repo
    ensures r.Ok? <==> userLogin in repo.users
    ensures r.Ok? ==> r.value == FormatList(repo.users[userLogin].idols)
  {
    match repo.GetUserByLogin(userLogin)
    case None => Err(NullPointer)
    case Some(user) => Ok(FormatList(user.idols))
  }

  function GetFansFormatted(repo: UserRepository, userLogin: string): (r: Result<string>)
    reads repo
    ensures r.Ok? <==> userLogin in repo.users
    ensures r.Ok? ==> r.value == FormatList(repo.users[userLogin].fans)
  {
    match repo.GetUserByLogin(userLogin)
    case None => Err(NullPointer)
    case Some(user) => Ok(FormatList(user.fans))
  }

  function GetCrushesFormatted(repo: UserRepository, userLogin: string): (r: Result<string>)
    reads repo
    ensures r.Ok? <==> userLogin in repo.users
    ensures r.Ok? ==> r.value == FormatList(repo.users[userLogin].crushes)
  {
    match repo.GetUserByLogin(userLogin)
    case None => Err(NullPointer)
    case Some(user) => Ok(FormatList(user.crushes))
  }

  function GetEnemiesFormatted(repo: UserRepository, userLogin: string): (r: Result<string>)
    reads repo
    ensures r.Ok? <==> userLogin in repo.users
    ensures r.Ok? ==> r.value == FormatList(repo.users[userLogin].enemies)
  {
    match repo.GetUserByLogin(userLogin)
    case None => Err(NullPointer)
    case Some(user) => Ok(FormatList(user.enemies))
  }

  /** removeIdol as a transition: unknown user (a NullPointerException),
      not an idol; then the removals of removerIdolo. */
  function RemoveIdolStep(users: Users, userLogin: string, idolLogin: string): (r: (Outcome, Users))
    ensures r.0.Failed? && r.0 != Failed(NullPointer) ==> r.1 == users
    ensures userLogin !in users ==> r == (Failed(NullPointer), users)
    ensures userLogin in users && idolLogin !in users[userLogin].idols ==> r == (Failed(Runtime(RS.NotIdol)), users)
  {
    if userLogin !in users then (Failed(NullPointer), users)
    else if idolLogin !in users[userLogin].idols then (Failed(Runtime(RS.NotIdol)), users)
    else RS.StopBeingFan(users, userLogin, idolLogin)
  }

  /** Adding an idol and then removing it restores the store exactly. */
  lemma IdolRoundTrip(users: Users, userLogin: string, idolLogin: string)
    requires AllValid(users) && FansMirrorIdols(users)
    requires AddIdolStep(users, userLogin, idolLogin).0 == Done
    ensures RemoveIdolStep(AddIdolStep(users, userLogin, idolLogin).1, userLogin, idolLogin) == (Done, users)
  {
    var us := AddIdolStep(users, userLogin, idolLogin).1;
    assert userLogin !in users[idolLogin].fans;
    assert us == RS.BecomeFan(users, userLogin, idolLogin);
    RS.FanUndo(users, userLogin, idolLogin);
  }

  /** removeCrush as a transition: only the user's own list changes. */
  function RemoveCrushStep(users: Users, userLogin: string, crushLogin: string): (r: (Outcome, Users))
    ensures r.0.Failed? ==> r.1 == users
    ensures r.0 == Done <==> userLogin in users && crushLogin in users[userLogin].crushes
    ensures userLogin in users && crushLogin !in users[userLogin].crushes ==> r.0 == Failed(Runtime(RS.NotCrush))
  {
    if userLogin !in users then (Failed(NullPointer), users)
    else if crushLogin !in users[userLogin].crushes then (Failed(Runtime(RS.NotCrush)), users)
    else (Done, RS.RemoveCrushFrom(users, userLogin, crushLogin))
  }

  /** removeEnemy as a transition: only the user's own list changes. */
  function RemoveEnemyStep(users: Users, userLogin: string, enemyLogin: string): (r: (Outcome, Users))
    ensures r.0.Failed? ==> r.1 == users
    ensures r.0 == Done <==> userLogin in users && enemyLogin in users[userLogin].enemies
    ensures userLogin in users && enemyLogin !in users[userLogin].enemies ==> r.0 == Failed(Runtime(RS.NotEnemy))
  {
    if userLogin !in users then (Failed(NullPointer), users)
    else if enemyLogin !in users[userLogin].enemies then (Failed(Runtime(RS.NotEnemy)), users)
    else (Done, RS.RemoveEnemyFrom(users, userLogin, enemyLogin))
  }

  method RemoveIdol(repo: UserRepository, userLogin: string, idolLogin: string) returns (o: Outcome)
    requires repo.Valid()
    modifies repo
    ensures repo.Valid() && repo.sessions == old(repo.sessions)
    ensures (o, repo.users) == RemoveIdolStep(old(repo.users), userLogin, idolLogin)
  {
    var u := repo.GetUserByLogin(userLogin);
    if u.None? {
      return Failed(NullPointer);
    }
    var user := u.value;
    if idolLogin !in user.idols {
      return Failed(Runtime(RS.NotIdol));
    }
    repo.users := repo.users[userLogin := user.(idols := RemoveFirst(user.idols, idolLogin))];
    var i := repo.GetUserByLogin(idolLogin);
    if i.None? {
      return Failed(NullPointer);
    }
    repo.users := repo.users[idolLogin := i.value.(fans := RemoveFirst(i.value.fans, userLogin))];
    o := Done;
  }

  method RemoveCrush(repo: UserRepository, userLogin: string, crushLogin: string) returns (o: Outcome)
    requires repo.Valid()
    modifies repo
    ensures repo.Valid() && repo.sessions == old(repo.sessions)
    ensures (o, repo.users) == RemoveCrushStep(old(repo.users), userLogin, crushLogin)
  {
    var u := repo.GetUserByLogin(userLogin);
    if u.None? {
      return Failed(NullPointer);
    }
    var user := u.value;
    if crushLogin !in user.crushes {
      return Failed(Runtime(RS.NotCrush));
    }
    repo.users := repo.users[userLogin := user.(crushes := RemoveFirst(user.crushes, crushLogin))];
    o := Done;
  }

  method RemoveEnemy(repo: UserRepository, userLogin: string, enemyLogin: string) returns (o: Outcome)
    requires repo.Valid()
    modifies repo
    ensures repo.Valid() && repo.sessions == old(repo.sessions)
    ensures (o, repo.users) == RemoveEnemyStep(old(repo.users), userLogin, enemyLogin)
  {
    var u := repo.GetUserByLogin(userLogin);
    if u.None? {
      return Failed(NullPointer);
    }
    var user := u.value;
    if enemyLogin !in user.enemies {
      return Failed(Runtime(RS.NotEnemy));
    }
    repo.users := repo.users[userLogin := user.(enemies := RemoveFirst(user.enemies, enemyLogin))];
    o := Done;
  }

  // ----------------------------------------------------------- crushes

  /** addCrush as a transition: after the existence checks the crush is
      recorded first, so the enemy refusal that follows keeps it; a mutual
      crush then notifies both sides. */
  function AddCrushStep(users: Users, userLogin: string, crushLogin: string): (r: (Outcome, Users))
    ensures crushLogin !in users ==> r == (Failed(NotFoundUser(UserNotRegistered)), users)
    ensures crushLogin in users && userLogin !in users ==> r == (Failed(NullPointer), users)
    ensures r.0 == Done <==> (userLogin in users && crushLogin in users && userLogin !in users[crushLogin].enemies)
  {
    if crushLogin !in users then (Failed(NotFoundUser(UserNotRegistered)), users)
    else if userLogin !in users then (Failed(NullPointer), users)
    else
      var us := users[userLogin := users[userLogin].AddCrush(crushLogin)];
      if userLogin in us[crushLogin].enemies then (Failed(EnemyException(us[crushLogin].name)), us)
      else if userLogin in us[crushLogin].crushes then (Done, RS.NotifyMutual(us, userLogin, crushLogin))
      else (Done, us)
  }

  /** Whenever both users exist the crush ends up recorded, even when the
      target's enmity refuses the operation; that refusal changes only the
      user's crush list. */
  lemma AddCrushRecordsBeforeRefusing(users: Users, userLogin: string, crushLogin: string)
    requires userLogin in users && crushLogin in users
    ensures var (o, us) := AddCrushStep(users, userLogin, crushLogin);
      && userLogin in us && crushLogin in us[userLogin].crushes
      && (userLogin in users[crushLogin].enemies ==>
            && o == Failed(EnemyException(users[crushLogin].name))
            && us == users[userLogin := users[userLogin].AddCrush(crushLogin)])
  {
  }

  /** A successful addCrush between two distinct users notifies both sides,
      each with the other's name, exactly when the target already had the
      user as crush; otherwise no queue changes. */
  lemma AddCrushNotifies(users: Users, userLogin: string, crushLogin: string)
    requires userLogin in users && crushLogin in users && userLogin != crushLogin
    requires AddCrushStep(users, userLogin, crushLogin).0 == Done
    ensures var us := AddCrushStep(users, userLogin, crushLogin).1;
      && us.Keys == users.Keys
      && (forall k :: k in users && k != userLogin && k != crushLogin ==> us[k] == users[k])
      && (userLogin in users[crushLogin].crushes ==>
            && us[userLogin].recados == users[userLogin].recados + [Recado("jackut", RS.CrushNotice(users[crushLogin].name), userLogin)]
            && us[crushLogin].recados == users[crushLogin].recados + [Recado("jackut", RS.CrushNotice(users[userLogin].name), crushLogin)])
      && (userLogin !in users[crushLogin].crushes ==>
            us[userLogin].recados == users[userLogin].recados && us[crushLogin] == users[crushLogin])
  {
  }

  /** A crush on oneself counts as mutual: the user receives two notices
      from "jackut", both naming itself. */
  lemma SelfCrushNotifiesTwice(users: Users, userLogin: string)
    requires userLogin in users && userLogin !in users[userLogin].enemies
    ensures var (o, us) := AddCrushStep(users, userLogin, userLogin);
      var notice := Recado("jackut", RS.CrushNotice(users[userLogin].name), userLogin);
      o == Done && us[userLogin].recados == users[userLogin].recados + [notice, notice]
  {
    var u := users[userLogin];
    var notice := Recado("jackut", RS.CrushNotice(u.name), userLogin);
    assert u.recados + [notice] + [notice] == u.recados + [notice, notice];
  }

  method AddCrush(repo: UserRepository, userLogin: string, crushLogin: string) returns (o: Outcome)
    requires repo.Valid()
    modifies repo
    ensures repo.Valid() && repo.sessions == old(repo.sessions)
    ensures (o, repo.users) == AddCrushStep(old(repo.users), userLogin, crushLogin)
  {
    var u := repo.GetUserByLogin(userLogin);
    var c := repo.GetUserByLogin(crushLogin);
    if c.None? {
      return Failed(NotFoundUser(UserNotRegistered));
    }
    if u.None? {
      return Failed(NullPointer);
    }
    repo.users := repo.users[userLogin := u.value.AddCrush(crushLogin)];
    var user, crush := repo.users[userLogin], repo.users[crushLogin];
    if userLogin in crush.enemies {
      return Failed(EnemyException(crush.name));
    }
    if userLogin in crush.crushes {
      var toUser := Recado("jackut", RS.CrushNotice(crush.name), userLogin);
      var toCrush := Recado("jackut", RS.CrushNotice(user.name), crushLogin);
      repo.users := repo.users[userLogin := repo.users[userLogin].IncomingMessage(toUser)];
      repo.users := repo.users[crushLogin := repo.users[crushLogin].IncomingMessage(toCrush)];
    }
    o := Done;
  }

  // ----------------------------------------------------------- enemies

  /** addEnemy as a transition: only existence is checked; duplicates are
      ignored by the adder and oneself is accepted. */
  function AddEnemyStep(users: Users, userLogin: string, enemyLogin: string): (r: (Outcome, Users))
    ensures enemyLogin !in users ==> r == (Failed(NotFoundUser(UserNotRegistered)), users)
    ensures enemyLogin in users && userLogin !in users ==> r == (Failed(NullPointer), users)
    ensures r.0 == Done <==> userLogin in users && enemyLogin in users
    ensures r.0 == Done ==> r.1.Keys == users.Keys && enemyLogin in r.1[userLogin].enemies
                            && (forall k :: k in users && k != userLogin ==> r.1[k] == users[k])
                            && r.1[userLogin] == users[userLogin].(enemies := r.1[userLogin].enemies)
  {
    if enemyLogin !in users then (Failed(NotFoundUser(UserNotRegistered)), users)
    else if userLogin !in users then (Failed(NullPointer), users)
    else (Done, users[userLogin := users[userLogin].AddEnemy(enemyLogin)])
  }

  /** Adding the same enemy twice is the same as adding it once. */
  lemma AddEnemyIdempotent(users: Users, userLogin: string, enemyLogin: string)
    requires userLogin in users && enemyLogin in users
    ensures var us := AddEnemyStep(users, userLogin, enemyLogin).1;
      AddEnemyStep(us, userLogin, enemyLogin) == (Done, us)
  {
    var us := AddEnemyStep(users, userLogin, enemyLogin).1;
    assert us[userLogin].AddEnemy(enemyLogin) == us[userLogin];
    assert us[userLogin := us[userLogin]] == us;
  }

  /** Adding an enemy that was not one and removing it restores the store
      exactly. */
  lemma EnemyRoundTrip(users: Users, userLogin: string, enemyLogin: string)
    requires userLogin in users && enemyLogin in users && enemyLogin !in users[userLogin].enemies
    ensures RemoveEnemyStep(AddEnemyStep(users, userLogin, enemyLogin).1, userLogin, enemyLogin) == (Done, users)
  {
    assert AddEnemyStep(users, userLogin, enemyLogin).1 == RS.AddEnemyTo(users, userLogin, enemyLogin);
    RS.EnemyUndo(users, userLogin, enemyLogin);
  }

  method AddEnemy(repo: UserRepository, userLogin: string, enemyLogin: string) returns (o: Outcome)
    requires repo.Valid()
    modifies repo
    ensures repo.Valid() && repo.sessions == old(repo.sessions)
    ensures (o, repo.users) == AddEnemyStep(old(repo.users), userLogin, enemyLogin)
  {
    var u := repo.GetUserByLogin(userLogin);
    var e := repo.GetUserByLogin(enemyLogin);
    if e.None? {
      return Failed(NotFoundUser(UserNotRegistered));
    }
    if u.None? {
      return Failed(NullPointer);
    }
    repo.users := repo.users[userLogin := u.value.AddEnemy(enemyLogin)];
    o := Done;
  }

  // -------------------------------------------------------- removeUser

  /** The communities left once every name in `drop` is removed. */
  function WithoutNames(communities: CR.Communities, drop: seq<string>): (r: CR.Communities)
    ensures forall n :: n in r <==> n in communities && n !in drop
    ensures forall n :: n in r ==> r[n] == communities[n]
  {
    map n | n in communities && n !in drop :: communities[n]
  }

  /** removeUser as a transition: every community in the user's joined list
      is deleted, then the cascade of removeUserCompletely runs. */
  function RemoveUserStep(users: Users, sessions: Sessions, communities: CR.Communities, login: string): (r: (Result<bool>, Users, Sessions, CR.Communities))
    ensures login !in users ==> r == (Err(NotFoundUser(UserNotRegistered)), users, sessions, communities)
    ensures login in users ==> r.0 == Ok(true)
  {
    if login !in users then (Err(NotFoundUser(UserNotRegistered)), users, sessions, communities)
    else
      var joined := users[login].communitiesJoined;
      (Ok(true), CascadeUsers(users, login, joined), DropSessions(sessions, login), WithoutNames(communities, joined))
  }

  /** After removeUser nothing refers to the login: no user, no list, no
      session; none of its joined communities survives, every other
      community is kept; and the store keeps its invariants. */
  lemma RemoveUserEffect(users: Users, sessions: Sessions, communities: CR.Communities, login: string)
    requires Keyed(users) && AllValid(users) && SessionsOk(users, sessions) && Closed(users)
    requires FriendsSymmetric(users) && FansMirrorIdols(users)
    requires login in users
    ensures var (_, us, ss, cs) := RemoveUserStep(users, sessions, communities, login);
      && us.Keys == users.Keys - {login}
      && (forall k :: k in us ==> NoReference(us[k], login))
      && (forall t :: t in ss ==> ss[t] != login)
      && (forall n :: n in cs <==> n in communities && n !in users[login].communitiesJoined)
      && Keyed(us) && AllValid(us) && SessionsOk(us, ss) && Closed(us)
      && FriendsSymmetric(us) && FansMirrorIdols(us)
  {
    var joined := users[login].communitiesJoined;
    RemoveUserCompletelyFacts(users, sessions, login);
    CascadeKeepsClosed(users, login, joined);
    CascadeKeepsSymmetry(users, login, joined);
    CascadeKeepsMirror(users, login, joined);
  }

  /** removeUser and the community store: a consistent store stays
      consistent, and no surviving community lists the removed login as a
      member (so not as manager either), since every community it was a
      member of is in its joined list and was deleted. */
  lemma RemoveUserKeepsCommunities(users: Users, sessions: Sessions, communities: CR.Communities, login: string)
    requires Keyed(users) && AllValid(users) && SessionsOk(users, sessions)
    requires login in users && CS.Consistent(users, communities)
    ensures var (_, us, _, cs) := RemoveUserStep(users, sessions, communities, login);
      && CS.Consistent(us, cs)
      && (forall n :: n in cs ==> !cs[n].IsMember(login) && !cs[n].IsManager(login))
  {
    var joined := users[login].communitiesJoined;
    var (_, us, _, cs) := RemoveUserStep(users, sessions, communities, login);
    RemoveUserCompletelyFacts(users, sessions, login);
    forall n, m | n in cs && m in cs[n].members && m in us
      ensures n in us[m].communitiesJoined
    {
      assert n in users[m].communitiesJoined;
    }
    forall n | n in cs
      ensures !cs[n].IsMember(login) && !cs[n].IsManager(login)
    {
      assert communities[n].Valid();
    }
  }

  /** As written, removeUser deletes every community the user joined, not
      only those it manages: a community managed by another, still stored,
      user disappears when a mere member is removed. */
  lemma RemoveUserDeletesForeignCommunity(users: Users, sessions: Sessions, communities: CR.Communities,
                                          login: string, n: string)
    requires login in users && n in users[login].communitiesJoined && n in communities
    requires communities[n].manager != login && communities[n].manager in users
    ensures var (_, us, _, cs) := RemoveUserStep(users, sessions, communities, login);
      n !in cs && communities[n].manager in us
  {
  }

  /** The deletion evidently intended: the communities the removed user
      manages. */
  function RemoveOwnedCommunities(communities: CR.Communities, login: string): (r: CR.Communities)
    ensures forall n :: n in r <==> n in communities && !communities[n].IsManager(login)
    ensures forall n :: n in r ==> r[n] == communities[n]
  {
    map n | n in communities && !communities[n].IsManager(login) :: communities[n]
  }

  /** With the intended deletion a community survives exactly when the
      removed user does not manage it, and every surviving community still
      has a manager that is a member. */
  lemma RemoveOwnedCommunitiesEffect(communities: CR.Communities, login: string)
    requires CR.AllValid(communities)
    ensures var cs := RemoveOwnedCommunities(communities, login);
      && CR.AllValid(cs)
      && (forall n :: n in cs ==> cs[n].manager != login)
      && (forall n :: n in communities && communities[n].manager != login ==> n in cs)
  {
  }

  /** Removing one more name is one more map removal. */
  lemma WithoutNamesSnoc(communities: CR.Communities, drop: seq<string>, n: string)
    ensures WithoutNames(communities, drop) - {n} == WithoutNames(communities, drop + [n])
  {
  }

  /** The loop of removeUser over the joined list: each name is removed
      from the community store. */
  method DeleteCommunities(communityRepo: CR.CommunityRepository, owned: seq<string>)
    requires communityRepo.Valid()
    modifies communityRepo
    ensures communityRepo.Valid()
    ensures communityRepo.communities == WithoutNames(old(communityRepo.communities), owned)
  {
    var i := 0;
    while i < |owned|
      invariant 0 <= i <= |owned|
      invariant communityRepo.Valid()
      invariant communityRepo.communities == WithoutNames(old(communityRepo.communities), owned[..i])
    {
      assert owned[..i + 1] == owned[..i] + [owned[i]];
      WithoutNamesSnoc(old(communityRepo.communities), owned[..i], owned[i]);
      var removed := communityRepo.RemoveCommunity(owned[i]);
      i := i + 1;
    }
    assert owned[..i] == owned;
  }

  /** removeUser, on both repositories: the loop over the joined list, then
      the cascade. */
  method RemoveUser(userRepo: UserRepository, communityRepo: CR.CommunityRepository, login: string) returns (r: Result<bool>)
    requires userRepo.Valid() && communityRepo.Valid()
    modifies userRepo, communityRepo
    ensures userRepo.Valid() && communityRepo.Valid()
    ensures (r, userRepo.users, userRepo.sessions, communityRepo.communities)
         == RemoveUserStep(old(userRepo.users), old(userRepo.sessions), old(communityRepo.communities), login)
  {
    var u := userRepo.GetUserByLogin(login);
    if u.None? {
      return Err(NotFoundUser(UserNotRegistered));
    }
    DeleteCommunities(communityRepo, u.value.communitiesJoined);
    var result := userRepo.RemoveUserCompletely(login);
    r := Ok(result);
  }
}
