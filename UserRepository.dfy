/** The user store (repositories/UserRepository.java): users keyed by login
    and sessions keyed by token. A session records the login of the user it
    was opened for. */
module UserRepo {
  import opened Lists
  import opened Errors
  import opened Recados
  import opened FriendsModel
  import opened UserModel

  type Users = map<string, User>
  type Sessions = map<string, string>

  /** Every user is stored under its own login (addUser puts by getLogin). */
  ghost predicate Keyed(users: Users) {
    forall k :: k in users ==> users[k].login == k
  }

  /** Every stored user keeps its de-duplicated lists duplicate-free. */
  ghost predicate AllValid(users: Users) {
    forall k :: k in users ==> users[k].Valid()
  }

  /** Every session belongs to a stored user. */
  ghost predicate SessionsOk(users: Users, sessions: Sessions) {
    forall t :: t in sessions ==> sessions[t] in users
  }

  /** Friendship is mutual between stored users. */
  ghost predicate FriendsSymmetric(users: Users) {
    forall a, b :: a in users && b in users ==>
      (users[a].IsFriend(b) <==> users[b].IsFriend(a))
  }

  /** The idol and fan lists mirror each other: b is one of a's idols
      exactly when a is one of b's fans. */
  ghost predicate FansMirrorIdols(users: Users) {
    forall a, b :: a in users && b in users ==> (b in users[a].idols <==> a in users[b].fans)
  }

  /** getUserBySession on the state: the login a token was opened for, or
      NotFoundUserException. */
  function SessionLogin(users: Users, sessions: Sessions, sessionId: string): (r: Result<string>)
    ensures r.Ok? <==> sessionId in sessions && sessions[sessionId] in users
    ensures r.Ok? ==> r.value == sessions[sessionId]
    ensures r.Err? ==> r.error == NotFoundUser(UserNotRegistered)
  {
    if sessionId in sessions && sessions[sessionId] in users then Ok(sessions[sessionId])
    else Err(NotFoundUser(UserNotRegistered))
  }

  /** Nothing in u's lists or direct-message queue mentions `login`. */
  ghost predicate NoReference(u: User, login: string) {
    && login !in u.friends.friendsList
    && login !in u.friends.friendSolicitations
    && login !in u.fans && login !in u.idols && login !in u.crushes && login !in u.enemies
    && forall m :: m in u.recados ==> m.remetente != login
  }

  /** What the cascade does to one user (the body of the loop over
      users.values()): `login` leaves every list and its messages leave the
      queue, and the communities in `owned` leave the joined list. */
  function Scrubbed(u: User, login: string, owned: seq<string>): User
  {
    u.(friends := Friends(RemoveFirst(u.friends.friendsList, login),
                          RemoveFirst(u.friends.friendSolicitations, login)),
       fans := RemoveFirst(u.fans, login),
       idols := RemoveFirst(u.idols, login),
       crushes := RemoveFirst(u.crushes, login),
       enemies := RemoveFirst(u.enemies, login),
       recados := NotFrom(u.recados, login),
       communitiesJoined := RemoveEach(u.communitiesJoined, u.communitiesJoined, owned))
  }

  /** A scrubbed user keeps its identity and profile, keeps its lists
      duplicate-free, no longer refers to `login` (given duplicate-free
      lists, since List.remove drops one occurrence), keeps every other
      login and keeps its other messages in order; its joined list loses
      exactly the names in `owned`. */
  lemma ScrubbedFacts(u: User, login: string, owned: seq<string>)
    ensures var v := Scrubbed(u, login, owned);
      && v.login == u.login && v.name == u.name && v.password == u.password
      && v.attributes == u.attributes && v.communitiesMessages == u.communitiesMessages
      && v.recados == NotFrom(u.recados, login)
      && v.communitiesJoined == Keep(u.communitiesJoined, owned)
      && (forall y :: y != login ==> (v.IsFriend(y) <==> u.IsFriend(y)))
      && (u.Valid() ==> v.Valid() && NoReference(v, login))
  {
    RemoveFirstFacts(u.friends.friendsList, login);
    RemoveFirstFacts(u.friends.friendSolicitations, login);
    RemoveFirstFacts(u.fans, login);
    RemoveFirstFacts(u.idols, login);
    RemoveFirstFacts(u.crushes, login);
    RemoveFirstFacts(u.enemies, login);
    RemoveEachOfSelf(u.communitiesJoined, owned);
  }

  /** The users left by removeUserCompletely(login): every user scrubbed,
      then `login` itself dropped. */
  function CascadeUsers(users: Users, login: string, owned: seq<string>): Users
  {
    map k | k in users && k != login :: Scrubbed(users[k], login, owned)
  }

  /** The sessions left by removeUserCompletely(login). */
  function DropSessions(sessions: Sessions, login: string): (r: Sessions)
    ensures forall t :: t in r <==> t in sessions && sessions[t] != login
    ensures forall t :: t in r ==> r[t] == sessions[t]
  {
    map t | t in sessions && sessions[t] != login :: sessions[t]
  }

  /** After a successful removal the login is gone, no remaining user and
      no session refers to it, remaining messages keep their order, every
      name of the removed user's joined list leaves every joined list, and
      the store invariants still hold. */
  lemma {:induction false} RemoveUserCompletelyFacts(users: Users, sessions: Sessions, login: string)
    requires Keyed(users) && AllValid(users) && SessionsOk(users, sessions)
    requires login in users
    ensures var us, ss := CascadeUsers(users, login, users[login].communitiesJoined), DropSessions(sessions, login);
      && us.Keys == users.Keys - {login}
      && (forall k :: k in us ==> NoReference(us[k], login))
      && (forall k :: k in us ==> us[k].recados == NotFrom(users[k].recados, login))
      && (forall k :: k in us ==> us[k].communitiesJoined
                                  == Keep(users[k].communitiesJoined, users[login].communitiesJoined))
      && (forall t :: t in ss ==> ss[t] != login)
      && Keyed(us) && AllValid(us) && SessionsOk(us, ss)
  {
    var owned := users[login].communitiesJoined;
    var us := CascadeUsers(users, login, owned);
    forall k | k in us
      ensures us[k].login == k && us[k].Valid() && NoReference(us[k], login)
      ensures us[k].recados == NotFrom(users[k].recados, login)
      ensures us[k].communitiesJoined == Keep(users[k].communitiesJoined, owned)
    {
      ScrubbedFacts(users[k], login, owned);
    }
  }

  /** The cascade keeps friendship mutual: it removes the deleted login from
      everyone and touches no other friendship. */
  lemma {:induction false} CascadeKeepsSymmetry(users: Users, login: string, owned: seq<string>)
    requires FriendsSymmetric(users)
    ensures FriendsSymmetric(CascadeUsers(users, login, owned))
  {
    var us := CascadeUsers(users, login, owned);
    forall a, b | a in us && b in us
      ensures us[a].IsFriend(b) <==> us[b].IsFriend(a)
    {
      ScrubbedFacts(users[a], login, owned);
      ScrubbedFacts(users[b], login, owned);
    }
  }

  /** The map the loop leaves, minus the deleted login, is CascadeUsers. */
  lemma CascadeFromScrubbed(users: Users, scrubbed: Users, login: string, owned: seq<string>)
    requires scrubbed.Keys == users.Keys
    requires forall k :: k in scrubbed ==> scrubbed[k] == Scrubbed(users[k], login, owned)
    ensures scrubbed - {login} == CascadeUsers(users, login, owned)
  {
  }

  /** Removing the collected tokens is DropSessions. */
  lemma DropSessionsIs(sessions: Sessions, tokens: set<string>, login: string)
    requires forall t :: t in tokens <==> t in sessions && sessions[t] == login
    ensures sessions - tokens == DropSessions(sessions, login)
  {
  }

  /** The cascade keeps every user under its own login and every remaining
      session pointing at a remaining user. */
  lemma CascadeKeepsStore(users: Users, sessions: Sessions, login: string, owned: seq<string>)
    requires Keyed(users) && SessionsOk(users, sessions)
    ensures Keyed(CascadeUsers(users, login, owned))
    ensures SessionsOk(CascadeUsers(users, login, owned), DropSessions(sessions, login))
  {
  }

  /** Every login u's relationship lists mention. */
  function Links(u: User): seq<string> {
    u.friends.friendsList + u.friends.friendSolicitations + u.fans + u.idols + u.crushes + u.enemies
  }

  /** No dangling references: every login a stored user's lists mention is a
      stored user. */
  ghost predicate Closed(users: Users) {
    forall k, x :: k in users && x in Links(users[k]) ==> x in users
  }

  /** Scrubbing removes `login` and nothing else from each relationship
      list (given duplicate-free lists). */
  lemma ScrubbedLists(u: User, login: string, owned: seq<string>)
    requires u.Valid()
    ensures var v := Scrubbed(u, login, owned);
      && (forall y :: y in Links(v) ==> y != login && y in Links(u))
      && (forall y :: y != login ==> (y in v.fans <==> y in u.fans) && (y in v.idols <==> y in u.idols))
  {
    var v := Scrubbed(u, login, owned);
    ScrubbedFacts(u, login, owned);
    RemoveFirstFacts(u.friends.friendsList, login);
    RemoveFirstFacts(u.friends.friendSolicitations, login);
    RemoveFirstFacts(u.fans, login);
    RemoveFirstFacts(u.idols, login);
    RemoveFirstFacts(u.crushes, login);
    RemoveFirstFacts(u.enemies, login);
  }

  /** The cascade leaves no dangling reference: the deleted login leaves
      every list, and every other mentioned login is still stored. */
  lemma CascadeKeepsClosed(users: Users, login: string, owned: seq<string>)
    requires AllValid(users) && Closed(users)
    ensures Closed(CascadeUsers(users, login, owned))
  {
    var us := CascadeUsers(users, login, owned);
    forall k, x | k in us && x in Links(us[k]) ensures x in us {
      ScrubbedLists(users[k], login, owned);
    }
  }

  /** A change that leaves every login, idol list and fan list as it was
      keeps the store keyed and the mirror between idols and fans. */
  lemma SameLinksKeepMirror(users: Users, us: Users)
    requires Keyed(users) && FansMirrorIdols(users) && us.Keys == users.Keys
    requires forall k :: k in us ==> us[k].login == users[k].login && us[k].idols == users[k].idols && us[k].fans == users[k].fans
    ensures Keyed(us) && FansMirrorIdols(us)
  {
    forall a, b | a in us && b in us ensures b in us[a].idols <==> a in us[b].fans {
      assert b in users[a].idols <==> a in users[b].fans;
    }
  }

  /** Replacing one user by a valid record with the same login, idols and
      fans keeps the store. */
  lemma ReplaceKeepsStore(users: Users, k0: string, v: User)
    requires Keyed(users) && AllValid(users) && FansMirrorIdols(users) && k0 in users
    requires v.Valid() && v.login == users[k0].login && v.idols == users[k0].idols && v.fans == users[k0].fans
    ensures var us := users[k0 := v]; Keyed(us) && AllValid(us) && FansMirrorIdols(us)
  {
    SameLinksKeepMirror(users, users[k0 := v]);
  }

  /** Replacing one user by a valid record with the same login keeps the
      store keyed and every user valid. */
  lemma ReplaceKeepsValid(users: Users, k0: string, v: User)
    requires Keyed(users) && AllValid(users) && k0 in users
    requires v.Valid() && v.login == users[k0].login
    ensures Keyed(users[k0 := v]) && AllValid(users[k0 := v])
  {
  }

  /** Linking or unlinking one fan and one idol keeps the mirror when the
      fan's idols and the idol's fans change in that pair only and agree on
      it afterwards. */
  lemma PairKeepsMirror(users: Users, us: Users, fan: string, idol: string)
    requires FansMirrorIdols(users) && us.Keys == users.Keys && fan in users && idol in users && fan != idol
    requires forall k :: k in us && k != fan && k != idol ==> us[k].idols == users[k].idols && us[k].fans == users[k].fans
    requires us[fan].fans == users[fan].fans && us[idol].idols == users[idol].idols
    requires forall y :: y != idol ==> (y in us[fan].idols <==> y in users[fan].idols)
    requires forall y :: y != fan ==> (y in us[idol].fans <==> y in users[idol].fans)
    requires idol in us[fan].idols <==> fan in us[idol].fans
    ensures FansMirrorIdols(us)
  {
    forall a, b | a in us && b in us ensures b in us[a].idols <==> a in us[b].fans {
      assert b in users[a].idols <==> a in users[b].fans;
    }
  }

  /** A change confined to the friends of two users keeps friendship
      mutual when each of the two changes only toward the other and the two
      agree on each other afterwards. */
  lemma PairKeepsSymmetry(users: Users, us: Users, a0: string, b0: string)
    requires FriendsSymmetric(users) && us.Keys == users.Keys && a0 in users && b0 in users
    requires forall k :: k in us && k != a0 && k != b0 ==> us[k].friends.friendsList == users[k].friends.friendsList
    requires forall y :: y != b0 ==> (us[a0].IsFriend(y) <==> users[a0].IsFriend(y))
    requires forall y :: y != a0 ==> (us[b0].IsFriend(y) <==> users[b0].IsFriend(y))
    requires us[a0].IsFriend(b0) <==> us[b0].IsFriend(a0)
    ensures FriendsSymmetric(us)
  {
    forall a, b | a in us && b in us ensures us[a].IsFriend(b) <==> us[b].IsFriend(a) {
      assert users[a].IsFriend(b) <==> users[b].IsFriend(a);
      if a != a0 && a != b0 {
        assert us[a].IsFriend(b) <==> users[a].IsFriend(b);
      }
      if b != a0 && b != b0 {
        assert us[b].IsFriend(a) <==> users[b].IsFriend(a);
      }
    }
  }

  /** The cascade keeps idols and fans mirrored. */
  lemma CascadeKeepsMirror(users: Users, login: string, owned: seq<string>)
    requires AllValid(users) && FansMirrorIdols(users)
    ensures FansMirrorIdols(CascadeUsers(users, login, owned))
  {
    var us := CascadeUsers(users, login, owned);
    forall a, b | a in us && b in us ensures b in us[a].idols <==> a in us[b].fans {
      ScrubbedLists(users[a], login, owned);
      ScrubbedLists(users[b], login, owned);
      assert b in users[a].idols <==> a in users[b].fans;
    }
  }

  /** The rebuild of one direct-message queue (the inner loop over
      getMessages()). */
  method RebuildQueue(q: seq<Recado>, login: string) returns (updated: seq<Recado>)
    ensures updated == NotFrom(q, login)
  {
    updated := [];
    var i := 0;
    while i < |q|
      invariant 0 <= i <= |q|
      invariant updated == NotFrom(q[..i], login)
    {
      NotFromAppend(q[..i], [q[i]], login);
      assert q[..i + 1] == q[..i] + [q[i]];
      assert [q[i]][1..] == [];
      assert NotFrom([q[i]], login) == if q[i].remetente != login then [q[i]] else [];
      if q[i].remetente != login {
        updated := updated + [q[i]];
      }
      i := i + 1;
    }
    assert q[..i] == q;
  }

  /** The loop over a copy of the joined list that removes each name also
      held in `owned`. */
  method ScrubJoined(joined: seq<string>, owned: seq<string>) returns (current: seq<string>)
    ensures current == Keep(joined, owned)
  {
    current := joined;
    var i := 0;
    while i < |joined|
      invariant 0 <= i <= |joined|
      invariant RemoveEach(current, joined[i..], owned) == RemoveEach(joined, joined, owned)
    {
      assert joined[i..][0] == joined[i] && joined[i..][1..] == joined[i + 1..];
      if joined[i] in owned {
        current := RemoveFirst(current, joined[i]);
      }
      i := i + 1;
    }
    RemoveEachOfSelf(joined, owned);
  }

  /** The work of one iteration of the cascade over users.values(). */
  method ScrubUser(u: User, login: string, owned: seq<string>) returns (v: User)
    ensures v == Scrubbed(u, login, owned)
  {
    v := u.(friends := Friends(RemoveFirst(u.friends.friendsList, login),
                               RemoveFirst(u.friends.friendSolicitations, login)));
    v := v.(fans := RemoveFirst(v.fans, login));
    v := v.(idols := RemoveFirst(v.idols, login));
    v := v.(crushes := RemoveFirst(v.crushes, login));
    v := v.(enemies := RemoveFirst(v.enemies, login));
    var updatedMessages := RebuildQueue(v.recados, login);
    v := v.(recados := updatedMessages);
    var joined := ScrubJoined(v.communitiesJoined, owned);
    RemoveEachOfSelf(u.communitiesJoined, owned);
    v := v.(communitiesJoined := joined);
  }

  /** The loop over users.values(): every user scrubbed, none removed. */
  method ScrubAll(users: Users, login: string, owned: seq<string>) returns (us: Users)
    ensures us.Keys == users.Keys
    ensures forall k :: k in us ==> us[k] == Scrubbed(users[k], login, owned)
  {
    us := map[];
    var todo := users.Keys;
    while todo != {}
      invariant todo <= users.Keys && us.Keys == users.Keys - todo
      invariant forall k :: k in us ==> us[k] == Scrubbed(users[k], login, owned)
      decreases |todo|
    {
      var k :| k in todo;
      var v := ScrubUser(users[k], login, owned);
      us := us[k := v];
      todo := todo - {k};
    }
  }

  /** The first session loop: the tokens whose user has the given login. */
  method SessionsOf(sessions: Sessions, login: string) returns (sessionsToRemove: set<string>)
    ensures forall t :: t in sessionsToRemove <==> t in sessions && sessions[t] == login
  {
    sessionsToRemove := {};
    var scan := sessions.Keys;
    while scan != {}
      invariant scan <= sessions.Keys
      invariant forall t :: t in sessionsToRemove <==> t in sessions && t !in scan && sessions[t] == login
      decreases |scan|
    {
      var t :| t in scan;
      if sessions[t] == login {
        sessionsToRemove := sessionsToRemove + {t};
      }
      scan := scan - {t};
    }
  }

  /** The second session loop: removes each collected token. */
  method RemoveSessions(sessions: Sessions, tokens: set<string>) returns (ss: Sessions)
    ensures ss == sessions - tokens
  {
    ss := sessions;
    var todo := tokens;
    while todo != {}
      invariant todo <= tokens
      invariant ss == sessions - (tokens - todo)
      decreases |todo|
    {
      var t :| t in todo;
      ss := ss - {t};
      todo := todo - {t};
    }
  }

  class UserRepository {
    var users: Users
    var sessions: Sessions

    ghost predicate Valid()
      reads this
    {
      Keyed(users) && SessionsOk(users, sessions)
    }

    constructor ()
      ensures Valid() && users == map[] && sessions == map[]
    {
      users := map[];
      sessions := map[];
    }

    /** addUser: puts the user under its current login. */
    method AddUser(user: User)
      requires Valid()
      modifies this
      ensures Valid()
      ensures users == old(users)[user.login := user] && sessions == old(sessions)
    {
      users := users[user.login := user];
    }

    predicate UserExists(login: string)
      reads this
    {
      login in users
    }

    /** getUserByLogin: None stands for null. */
    function GetUserByLogin(login: string): (r: Option<User>)
      reads this
      ensures r.Some? <==> UserExists(login)
      ensures r.Some? ==> r.value == users[login]
    {
      if login in users then Some(users[login]) else None
    }

    method AddSession(sessionId: string, login: string)
      requires Valid() && login in users
      modifies this
      ensures Valid()
      ensures sessions == old(sessions)[sessionId := login] && users == old(users)
    {
      sessions := sessions[sessionId := login];
    }

    method RemoveSession(sessionId: string)
      requires Valid()
      modifies this
      ensures Valid()
      ensures sessions == old(sessions) - {sessionId} && users == old(users)
    {
      sessions := sessions - {sessionId};
    }

    /** getUserBySession: the session's user, never null; an unknown token
        throws NotFoundUserException. */
    function GetUserBySession(sessionId: string): (r: Result<User>)
      reads this
      requires Valid()
      ensures r.Ok? <==> sessionId in sessions
      ensures r.Ok? ==> r.value == users[sessions[sessionId]] && r.value.login == sessions[sessionId]
      ensures r.Err? ==> r.error == NotFoundUser(UserNotRegistered)
    {
      if sessionId in sessions then Ok(users[sessions[sessionId]])
      else Err(NotFoundUser(UserNotRegistered))
    }

    /** removeUserCompletely: the cascade delete. */
    method RemoveUserCompletely(login: string) returns (removed: bool)
      requires Valid()
      modifies this
      ensures Valid()
      ensures removed <==> login in old(users)
      ensures !removed ==> users == old(users) && sessions == old(sessions)
      ensures removed ==> users == CascadeUsers(old(users), login, old(users)[login].communitiesJoined)
      ensures removed ==> sessions == DropSessions(old(sessions), login)
    {
      if login !in users {
        return false;
      }
      var owned := users[login].communitiesJoined;
      var scrubbed := ScrubAll(users, login, owned);
      var sessionsToRemove := SessionsOf(sessions, login);
      DropSessionsIs(sessions, sessionsToRemove, login);
      sessions := RemoveSessions(sessions, sessionsToRemove);
      CascadeFromScrubbed(users, scrubbed, login, owned);
      CascadeKeepsStore(users, old(sessions), login, owned);
      users := scrubbed - {login};
      removed := true;
    }

    /** JoinCommunity: appends the name to the session user's joined list. */
    method JoinCommunity(session: string, name: string) returns (o: Outcome)
      requires Valid()
      modifies this
      ensures Valid() && sessions == old(sessions)
      ensures session !in sessions ==> o == Failed(NotFoundUser(UserNotRegistered)) && users == old(users)
      ensures session in sessions ==> (o == Done &&
        users == old(users)[sessions[session] := old(users)[sessions[session]].AddCommunity(name)])
    {
      var r := GetUserBySession(session);
      if r.Err? {
        return Failed(r.error);
      }
      users := users[r.value.login := r.value.AddCommunity(name)];
      o := Done;
    }

    /** LeaveCommunity: removes the name from the session user's joined list. */
    method LeaveCommunity(session: string, name: string) returns (o: Outcome)
      requires Valid()
      modifies this
      ensures Valid() && sessions == old(sessions)
      ensures session !in sessions ==> o == Failed(NotFoundUser(UserNotRegistered)) && users == old(users)
      ensures session in sessions ==> (o == Done &&
        users == old(users)[sessions[session] := old(users)[sessions[session]].RemoveCommunity(name)])
    {
      var r := GetUserBySession(session);
      if r.Err? {
        return Failed(r.error);
      }
      users := users[r.value.login := r.value.RemoveCommunity(name)];
      o := Done;
    }

    /** getCommunities: the joined list of a known user. */
    function GetCommunities(login: string): (r: Result<seq<string>>)
      reads this
      ensures r.Ok? <==> UserExists(login)
      ensures r.Ok? ==> r.value == users[login].communitiesJoined
      ensures r.Err? ==> r.error == NotFoundUser(UserNotRegistered)
    {
      if login in users then Ok(users[login].communitiesJoined) else Err(NotFoundUser(UserNotRegistered))
    }

    /** clearAll. */
    method ClearAll()
      modifies this
      ensures Valid() && users == map[] && sessions == map[]
    {
      users := map[];
      sessions := map[];
    }
  }
}
