/** Friendship (services/FriendshipService.java): the friend-request state
    machine, rejection of a request and the friend queries. Each operation
    that changes users is given as a transition on the user map, and the
    method that performs it in place is proved to follow that transition. */
module FriendshipServices {
  import opened Lists
  import opened Errors
  import opened FriendsModel
  import opened UserModel
  import opened UserRepo

  const SelfFriend := "Usuário não pode adicionar a si mesmo como amigo."
  const AlreadyFriend := "Usuário já está adicionado como amigo."
  const AlreadyRequested := "Usuário já está adicionado como amigo, esperando aceitação do convite."

  /** areFriends: NotFoundUserException for an unknown login; otherwise
      whether `amigo` is in that user's friend list. */
  function AreFriends(repo: UserRepository, login: string, amigo: string): (r: Result<bool>)
    reads repo
    ensures r.Err? <==> login !in repo.users
    ensures r.Err? ==> r.error == NotFoundUser(UserNotRegistered)
    ensures r.Ok? ==> (r.value <==> amigo in repo.users[login].friends.friendsList)
  {
    match repo.GetUserByLogin(login)
    case None => Err(NotFoundUser(UserNotRegistered))
    case Some(user) => Ok(user.friends.Contains(amigo))
  }

  /** The users after an accepted request: each becomes the other's friend. */
  function Accept(users: Users, me: string, friendLogin: string): Users
    requires me in users && friendLogin in users
  {
    users[me := users[me].AddFriend(friendLogin)][friendLogin := users[friendLogin].AddFriend(me)]
  }

  /** The users after a recorded request. */
  function Request(users: Users, me: string, friendLogin: string): Users
    requires friendLogin in users
  {
    users[friendLogin := users[friendLogin].AddFriendSolicitation(me)]
  }

  /** The checks addFriend makes before changing anything, in the source's
      order: the session's user, an unknown target, self, the target lists
      the actor as enemy, already friends, already requested. */
  function AddFriendCheck(users: Users, sessions: Sessions, sessionId: string, friendLogin: string): (o: Outcome)
    ensures o == Done ==> sessionId in sessions && sessions[sessionId] in users
                          && friendLogin in users && sessions[sessionId] != friendLogin
  {
    if sessionId !in sessions || sessions[sessionId] !in users then Failed(NotFoundUser(UserNotRegistered))
    else
      var me := sessions[sessionId];
      if friendLogin !in users then Failed(NotFoundUser(UserNotRegistered))
      else if me == friendLogin then Failed(InvalidFriendOp(SelfFriend))
      else if me in users[friendLogin].enemies then Failed(InvalidFriendOp(EnemyMessage(users[friendLogin].name)))
      else if users[me].friends.Contains(friendLogin) then Failed(InvalidFriendOp(AlreadyFriend))
      else if me in users[friendLogin].friends.friendSolicitations then Failed(InvalidFriendOp(AlreadyRequested))
      else Done
  }

  /** addFriend as a transition on the users: a refused request changes
      nothing; an accepted one goes to both sides when the target had asked
      first, otherwise a request is recorded at the target. */
  function AddFriendStep(users: Users, sessions: Sessions, sessionId: string, friendLogin: string): (r: (Outcome, Users))
    ensures r.0 == AddFriendCheck(users, sessions, sessionId, friendLogin)
    ensures r.0.Failed? ==> r.1 == users
  {
    var o := AddFriendCheck(users, sessions, sessionId, friendLogin);
    if o.Failed? then (o, users)
    else
      var me := sessions[sessionId];
      if friendLogin in users[me].friends.friendSolicitations then (Done, Accept(users, me, friendLogin))
      else (Done, Request(users, me, friendLogin))
  }

  /** The refusals, in order: unknown target, self, the target lists the
      actor as enemy, already friends, already requested; the request goes
      through exactly when none applies. */
  lemma AddFriendRefusals(users: Users, sessions: Sessions, sessionId: string, friendLogin: string)
    requires sessionId in sessions && sessions[sessionId] in users
    ensures var me, o := sessions[sessionId], AddFriendCheck(users, sessions, sessionId, friendLogin);
      && (friendLogin !in users ==> o == Failed(NotFoundUser(UserNotRegistered)))
      && (friendLogin in users && me == friendLogin ==> o == Failed(InvalidFriendOp(SelfFriend)))
      && (friendLogin in users && me != friendLogin && me in users[friendLogin].enemies ==>
            o == Failed(InvalidFriendOp(EnemyMessage(users[friendLogin].name))))
      && ((friendLogin in users && me != friendLogin && me !in users[friendLogin].enemies
           && friendLogin in users[me].friends.friendsList) ==> o == Failed(InvalidFriendOp(AlreadyFriend)))
      && ((friendLogin in users && me != friendLogin && me !in users[friendLogin].enemies
           && friendLogin !in users[me].friends.friendsList
           && me in users[friendLogin].friends.friendSolicitations) ==> o == Failed(InvalidFriendOp(AlreadyRequested)))
      && (o == Done <==> (friendLogin in users && me != friendLogin && me !in users[friendLogin].enemies
                          && friendLogin !in users[me].friends.friendsList
                          && me !in users[friendLogin].friends.friendSolicitations))
  {
  }

  lemma AcceptFacts(users: Users, me: string, friendLogin: string)
    requires me in users && friendLogin in users && me != friendLogin
    ensures var us := Accept(users, me, friendLogin);
      && us.Keys == users.Keys
      && (forall k :: k in users && k != me && k != friendLogin ==> us[k] == users[k])
      && us[me] == users[me].AddFriend(friendLogin)
      && us[friendLogin] == users[friendLogin].AddFriend(me)
  {
  }

  lemma RequestFacts(users: Users, me: string, friendLogin: string)
    requires friendLogin in users
    ensures var us := Request(users, me, friendLogin);
      && us.Keys == users.Keys
      && (forall k :: k in users && k != friendLogin ==> us[k] == users[k])
      && us[friendLogin] == users[friendLogin].AddFriendSolicitation(me)
  {
  }

  /** A successful addFriend either makes the two users friends of each
      other, the target leaving the actor's pending requests, when the target
      had asked first; or records the actor once among the target's pending
      requests, leaving the actor unchanged. Nobody else changes. */
  lemma AddFriendEffect(users: Users, sessions: Sessions, sessionId: string, friendLogin: string)
    requires AllValid(users)
    requires AddFriendStep(users, sessions, sessionId, friendLogin).0 == Done
    ensures var me, us := sessions[sessionId], AddFriendStep(users, sessions, sessionId, friendLogin).1;
      && us.Keys == users.Keys
      && (forall k :: k in users && k != me && k != friendLogin ==> us[k] == users[k])
      && (friendLogin in users[me].friends.friendSolicitations ==>
            us[me].IsFriend(friendLogin) && us[friendLogin].IsFriend(me)
            && friendLogin !in us[me].friends.friendSolicitations)
      && (friendLogin !in users[me].friends.friendSolicitations ==>
            us[me] == users[me] && me in us[friendLogin].friends.friendSolicitations
            && us[friendLogin].friends.friendsList == users[friendLogin].friends.friendsList)
  {
    var me := sessions[sessionId];
    if friendLogin in users[me].friends.friendSolicitations {
      AcceptFacts(users, me, friendLogin);
      assert users[me].Valid();
    } else {
      RequestFacts(users, me, friendLogin);
    }
  }

  lemma AcceptKeepsStore(users: Users, me: string, friendLogin: string)
    requires Keyed(users) && AllValid(users)
    requires me in users && friendLogin in users && me != friendLogin
    ensures Keyed(Accept(users, me, friendLogin)) && AllValid(Accept(users, me, friendLogin))
  {
    AcceptFacts(users, me, friendLogin);
    assert users[me].Valid() && users[friendLogin].Valid();
  }

  lemma RequestKeepsStore(users: Users, me: string, friendLogin: string)
    requires Keyed(users) && AllValid(users)
    requires friendLogin in users
    ensures Keyed(Request(users, me, friendLogin)) && AllValid(Request(users, me, friendLogin))
  {
    RequestFacts(users, me, friendLogin);
    assert users[friendLogin].Valid();
  }

  lemma AcceptKeepsSymmetry(users: Users, me: string, friendLogin: string)
    requires FriendsSymmetric(users)
    requires me in users && friendLogin in users && me != friendLogin
    ensures FriendsSymmetric(Accept(users, me, friendLogin))
  {
    AcceptFacts(users, me, friendLogin);
    PairKeepsSymmetry(users, Accept(users, me, friendLogin), me, friendLogin);
  }

  lemma RequestKeepsSymmetry(users: Users, me: string, friendLogin: string)
    requires FriendsSymmetric(users)
    requires friendLogin in users
    ensures FriendsSymmetric(Request(users, me, friendLogin))
  {
    RequestFacts(users, me, friendLogin);
    PairKeepsSymmetry(users, Request(users, me, friendLogin), friendLogin, friendLogin);
  }

  /** addFriend keeps every user keyed by its login, every list
      duplicate-free, and friendship mutual (friends are only ever added in
      pairs). */
  lemma AddFriendKeepsStore(users: Users, sessions: Sessions, sessionId: string, friendLogin: string)
    requires Keyed(users) && AllValid(users)
    ensures var us := AddFriendStep(users, sessions, sessionId, friendLogin).1;
      Keyed(us) && AllValid(us) && (FriendsSymmetric(users) ==> FriendsSymmetric(us))
  {
    var r := AddFriendStep(users, sessions, sessionId, friendLogin);
    if r.0 == Done {
      var me := sessions[sessionId];
      if friendLogin in users[me].friends.friendSolicitations {
        assert r.1 == Accept(users, me, friendLogin);
        AcceptKeepsStore(users, me, friendLogin);
        if FriendsSymmetric(users) { AcceptKeepsSymmetry(users, me, friendLogin); }
      } else {
        assert r.1 == Request(users, me, friendLogin);
        RequestKeepsStore(users, me, friendLogin);
        if FriendsSymmetric(users) { RequestKeepsSymmetry(users, me, friendLogin); }
      }
    }
  }

  /** addFriend, in place. */
  method AddFriend(repo: UserRepository, sessionId: string, friendLogin: string) returns (o: Outcome)
    requires repo.Valid()
    modifies repo
    ensures repo.Valid() && repo.sessions == old(repo.sessions)
    ensures (o, repo.users) == AddFriendStep(old(repo.users), old(repo.sessions), sessionId, friendLogin)
  {
    var u := repo.GetUserBySession(sessionId);
    if u.Err? {
      return Failed(u.error);
    }
    var user := u.value;
    var f := repo.GetUserByLogin(friendLogin);
    if f.None? {
      return Failed(NotFoundUser(UserNotRegistered));
    }
    var friend := f.value;
    if user.login == friendLogin {
      return Failed(InvalidFriendOp(SelfFriend));
    }
    if user.login in friend.enemies {
      return Failed(InvalidFriendOp(EnemyMessage(friend.name)));
    }
    if user.friends.Contains(friendLogin) {
      return Failed(InvalidFriendOp(AlreadyFriend));
    }
    if user.login in friend.friends.friendSolicitations {
      return Failed(InvalidFriendOp(AlreadyRequested));
    }
    if friend.login in user.friends.friendSolicitations {
      repo.users := repo.users[user.login := user.AddFriend(friend.login)];
      repo.users := repo.users[friend.login := friend.AddFriend(user.login)];
      assert repo.users == Accept(old(repo.users), user.login, friendLogin);
    } else {
      repo.users := repo.users[friend.login := friend.AddFriendSolicitation(user.login)];
    }
    o := Done;
  }

  /** rejectFriendRequest as a transition: InvalidFriendOpException("default")
      when the requester is not pending, otherwise the request is dropped. */
  function RejectFriendRequestStep(users: Users, sessions: Sessions, sessionId: string, solicitante: string): (r: (Outcome, Users))
    ensures r.0.Failed? ==> r.1 == users
  {
    if sessionId !in sessions || sessions[sessionId] !in users then (Failed(NotFoundUser(UserNotRegistered)), users)
    else
      var me := sessions[sessionId];
      if solicitante !in users[me].friends.friendSolicitations then (Failed(InvalidFriendOp("default")), users)
      else (Done, users[me := users[me].(friends := users[me].friends.RemoveFriendSolicitation(solicitante).1)])
  }

  /** A rejection removes the request and nothing else: every friend list is
      untouched, so friendship stays mutual and lists stay duplicate-free. */
  lemma RejectFriendRequestEffect(users: Users, sessions: Sessions, sessionId: string, solicitante: string)
    requires AllValid(users)
    ensures var (o, us) := RejectFriendRequestStep(users, sessions, sessionId, solicitante);
      && us.Keys == users.Keys
      && (forall k :: k in us ==> us[k].friends.friendsList == users[k].friends.friendsList)
      && AllValid(us)
      && (FriendsSymmetric(users) ==> FriendsSymmetric(us))
      && (o == Done ==> solicitante !in us[sessions[sessionId]].friends.friendSolicitations)
      && (o == Done <==> sessionId in sessions && sessions[sessionId] in users
                         && solicitante in users[sessions[sessionId]].friends.friendSolicitations)
  {
    var (o, us) := RejectFriendRequestStep(users, sessions, sessionId, solicitante);
    if o == Done {
      assert users[sessions[sessionId]].Valid();
    }
  }

  /** rejectFriendRequest, in place. */
  method RejectFriendRequest(repo: UserRepository, sessionId: string, solicitante: string) returns (o: Outcome)
    requires repo.Valid()
    modifies repo
    ensures repo.Valid() && repo.sessions == old(repo.sessions)
    ensures (o, repo.users) == RejectFriendRequestStep(old(repo.users), old(repo.sessions), sessionId, solicitante)
  {
    var u := repo.GetUserBySession(sessionId);
    if u.Err? {
      return Failed(u.error);
    }
    var user := u.value;
    if solicitante !in user.friends.friendSolicitations {
      return Failed(InvalidFriendOp("default"));
    }
    var (_, friends) := user.friends.RemoveFriendSolicitation(solicitante);
    repo.users := repo.users[user.login := user.(friends := friends)];
    o := Done;
  }

  /** getFriendsList: the brace-formatted friend list of a known user. */
  function GetFriendsList(repo: UserRepository, login: string): (r: Result<string>)
    reads repo
    ensures r.Err? <==> login !in repo.users
    ensures r.Err? ==> r.error == NotFoundUser(UserNotRegistered)
    ensures r.Ok? ==> r.value == FormatList(repo.users[login].friends.friendsList)
  {
    match repo.GetUserByLogin(login)
    case None => Err(NotFoundUser(UserNotRegistered))
    case Some(user) => Ok(user.friends.FormattedFriendsList())
  }

  /** getPendingFriendRequests: the pending list of a known user. */
  function GetPendingFriendRequests(repo: UserRepository, login: string): (r: Result<seq<string>>)
    reads repo
    ensures r.Err? <==> login !in repo.users
    ensures r.Ok? ==> r.value == repo.users[login].friends.friendSolicitations
  {
    match repo.GetUserByLogin(login)
    case None => Err(NotFoundUser(UserNotRegistered))
    case Some(user) => Ok(user.friends.friendSolicitations)
  }
}
