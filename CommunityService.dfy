/** Communities (services/CommunityService.java): creating, joining,
    leaving, editing, handing over and deleting a community, posting to it
    and reading one's community messages. Each operation that changes state
    is a check (the refusals in the source's order, all made before any
    change) followed by an effect on the users and the communities; the
    method that performs it on the two repositories is proved to follow that
    transition. */
module CommunityServices {
  import opened Lists
  import opened Errors
  import opened CommunityModel
  import opened UserModel
  import opened UserRepo
  import CR = CommunityRepo

  type Communities = CR.Communities

  /** `new InvalidCommunityException(tag)`. */
  function Tag(tag: string): Error {
    InvalidCommunity(InvalidCommunityMessage(tag))
  }

  /** Every member of a community who is a stored user lists the community
      among the communities they joined. */
  ghost predicate MembersJoined(users: Users, communities: Communities) {
    forall n, m :: n in communities && m in communities[n].members && m in users ==>
      n in users[m].communitiesJoined
  }

  /** The invariant the community operations keep: each community has its
      manager among its members, no member twice, and its members list it
      as joined. */
  ghost predicate Consistent(users: Users, communities: Communities) {
    CR.AllValid(communities) && MembersJoined(users, communities)
  }

  /** The users differ at most in their joined-community lists. */
  ghost predicate OnlyJoinedChanged(users: Users, us: Users) {
    us.Keys == users.Keys
    && forall k :: k in users ==> us[k] == users[k].(communitiesJoined := us[k].communitiesJoined)
  }

  /** Store invariants of the user side hold after a change that touches
      only joined lists. */
  lemma OnlyJoinedKeepsStore(users: Users, us: Users)
    requires OnlyJoinedChanged(users, us)
    ensures Keyed(users) ==> Keyed(us)
    ensures AllValid(users) ==> AllValid(us)
    ensures FansMirrorIdols(users) ==> FansMirrorIdols(us)
    ensures FriendsSymmetric(users) ==> FriendsSymmetric(us)
  {
    assert forall k :: k in users ==>
      (&& us[k].login == users[k].login && us[k].idols == users[k].idols
       && us[k].fans == users[k].fans && us[k].friends == users[k].friends
       && us[k].crushes == users[k].crushes && us[k].enemies == users[k].enemies);
  }

  // ---------------------------------------------------------------- create

  function CreateCommunityCheck(users: Users, sessions: Sessions, communities: Communities, sessao: string, nome: string): (o: Outcome)
    ensures o == Done <==> SessionLogin(users, sessions, sessao).Ok? && nome !in communities
    ensures SessionLogin(users, sessions, sessao).Ok? && nome in communities ==> o == Failed(Tag("alreadyExists"))
  {
    match SessionLogin(users, sessions, sessao)
    case Err(e) => Failed(e)
    case Ok(_) => if nome in communities then Failed(Tag("alreadyExists")) else Done
  }

  /** The effect of createCommunity: the creator manages the new community,
      is its only member, and has it appended to their joined list. */
  function Found(users: Users, communities: Communities, me: string, nome: string, descricao: string): (Users, Communities)
    requires me in users
  {
    (users[me := users[me].AddCommunity(nome)], communities[nome := NewCommunity(nome, descricao, me)])
  }

  /** createCommunity as a transition: a refusal changes nothing. */
  function CreateCommunityStep(users: Users, sessions: Sessions, communities: Communities, sessao: string, nome: string, descricao: string): (r: (Outcome, Users, Communities))
    ensures r.0 == CreateCommunityCheck(users, sessions, communities, sessao, nome)
    ensures r.0.Failed? ==> r.1 == users && r.2 == communities
  {
    var o := CreateCommunityCheck(users, sessions, communities, sessao, nome);
    if o.Failed? then (o, users, communities)
    else var (us, cs) := Found(users, communities, sessions[sessao], nome, descricao); (Done, us, cs)
  }

  /** A founded community has the creator as manager and sole member, with
      an empty log; the creator's joined list gains its name; only that list
      changes and the invariant is kept. */
  lemma FoundEffect(users: Users, communities: Communities, me: string, nome: string, descricao: string)
    requires me in users && nome !in communities && Consistent(users, communities)
    ensures var (us, cs) := Found(users, communities, me, nome, descricao);
      && cs.Keys == communities.Keys + {nome}
      && cs[nome].IsManager(me) && cs[nome].members == [me] && cs[nome].messages == []
      && (forall n :: n in communities ==> cs[n] == communities[n])
      && us[me].communitiesJoined == users[me].communitiesJoined + [nome]
      && OnlyJoinedChanged(users, us)
      && Consistent(us, cs)
  {
    var (us, cs) := Found(users, communities, me, nome, descricao);
    forall n, m | n in cs && m in cs[n].members && m in us ensures n in us[m].communitiesJoined {
      if n != nome {
        assert n in users[m].communitiesJoined;
      }
    }
  }

  /** createCommunity, on both repositories. */
  method CreateCommunity(userRepo: UserRepository, communityRepo: CR.CommunityRepository,
                         sessao: string, nome: string, descricao: string) returns (o: Outcome)
    requires userRepo.Valid() && communityRepo.Valid()
    modifies userRepo, communityRepo
    ensures userRepo.Valid() && communityRepo.Valid() && userRepo.sessions == old(userRepo.sessions)
    ensures (o, userRepo.users, communityRepo.communities)
         == CreateCommunityStep(old(userRepo.users), old(userRepo.sessions), old(communityRepo.communities), sessao, nome, descricao)
    ensures communityRepo.names == if o == Done then old(communityRepo.names) + [nome] else old(communityRepo.names)
  {
    var u := userRepo.GetUserBySession(sessao);
    if u.Err? {
      return Failed(u.error);
    }
    if communityRepo.CommunityExists(nome) {
      return Failed(Tag("alreadyExists"));
    }
    var community := NewCommunity(nome, descricao, u.value.login);
    communityRepo.AddCommunity(community);
    var joined := userRepo.JoinCommunity(sessao, nome);
    o := Done;
  }

  // ------------------------------------------------------------ lookups

  /** getCommunity: InvalidCommunityException("notFound") for an unknown
      name. */
  function GetCommunity(communityRepo: CR.CommunityRepository, nome: string): (r: Result<Community>)
    reads communityRepo
    ensures r.Ok? <==> nome in communityRepo.communities
    ensures r.Ok? ==> r.value == communityRepo.communities[nome]
    ensures r.Err? ==> r.error == Tag("notFound")
  {
    match communityRepo.GetCommunityByName(nome)
    case None => Err(Tag("notFound"))
    case Some(c) => Ok(c)
  }

  function GetCommunityDescription(communityRepo: CR.CommunityRepository, nome: string): (r: Result<string>)
    reads communityRepo
    ensures r.Ok? <==> nome in communityRepo.communities
    ensures r.Ok? ==> r.value == communityRepo.communities[nome].description
  {
    match GetCommunity(communityRepo, nome)
    case Err(e) => Err(e)
    case Ok(c) => Ok(c.description)
  }

  function GetCommunityOwner(communityRepo: CR.CommunityRepository, nome: string): (r: Result<string>)
    reads communityRepo
    ensures r.Ok? <==> nome in communityRepo.communities
    ensures r.Ok? ==> communityRepo.communities[nome].IsManager(r.value)
  {
    match GetCommunity(communityRepo, nome)
    case Err(e) => Err(e)
    case Ok(c) => Ok(c.manager)
  }

  /** getCommunityMembers: the brace-formatted members; for a valid
      community these are the members in joining order. */
  function GetCommunityMembers(communityRepo: CR.CommunityRepository, nome: string): (r: Result<string>)
    reads communityRepo
    ensures r.Ok? <==> nome in communityRepo.communities
    ensures r.Ok? && communityRepo.communities[nome].Valid() ==>
              r.value == FormatList(communityRepo.communities[nome].members)
  {
    match GetCommunity(communityRepo, nome)
    case Err(e) => Err(e)
    case Ok(c) => GetMembersInOrder(c); Ok(FormatList(c.GetMembers()))
  }

  /** getCommunityByUser: the brace-formatted names of the communities that
      have the login as member. */
  function GetCommunityByUser(communityRepo: CR.CommunityRepository, login: string): (r: string)
    reads communityRepo
    requires communityRepo.Valid()
    ensures exists names :: r == FormatList(names) && NoDup(names)
              && (forall n :: n in names <==> n in communityRepo.communities && communityRepo.communities[n].IsMember(login))
  {
    var names := communityRepo.ListCommunitiesByUser(login);
    FormatList(names)
  }

  /** listCommunities(login): the brace-formatted joined list of a known
      user. */
  function ListCommunities(userRepo: UserRepository, login: string): (r: Result<string>)
    reads userRepo
    ensures r.Ok? <==> login in userRepo.users
    ensures r.Err? ==> r.error == NotFoundUser(UserNotRegistered)
    ensures r.Ok? ==> r.value == FormatList(userRepo.users[login].communitiesJoined)
  {
    match userRepo.GetCommunities(login)
    case Err(e) => Err(e)
    case Ok(joined) => Ok(FormatList(joined))
  }

  // ------------------------------------------------------------------ join

  function JoinCommunityCheck(users: Users, sessions: Sessions, communities: Communities, id: string, nome: string): (o: Outcome)
    ensures o == Done <==> (SessionLogin(users, sessions, id).Ok? && nome in communities
                            && !communities[nome].IsMember(sessions[id]))
  {
    match SessionLogin(users, sessions, id)
    case Err(e) => Failed(e)
    case Ok(me) =>
      if nome !in communities then Failed(Tag("notFound"))
      else if communities[nome].IsMember(me) then Failed(Tag("alreadyMember"))
      else Done
  }

  /** The effect of joinCommunity: the user joins the members and the name
      joins the user's list. */
  function Enrol(users: Users, communities: Communities, me: string, nome: string): (Users, Communities)
    requires me in users && nome in communities
  {
    (users[me := users[me].AddCommunity(nome)], communities[nome := communities[nome].AddMember(me).1])
  }

  function JoinCommunityStep(users: Users, sessions: Sessions, communities: Communities, id: string, nome: string): (r: (Outcome, Users, Communities))
    ensures r.0 == JoinCommunityCheck(users, sessions, communities, id, nome)
    ensures r.0.Failed? ==> r.1 == users && r.2 == communities
  {
    var o := JoinCommunityCheck(users, sessions, communities, id, nome);
    if o.Failed? then (o, users, communities)
    else var (us, cs) := Enrol(users, communities, sessions[id], nome); (Done, us, cs)
  }

  /** After joining, the user is a member (at the tail of the members) and
      the community is at the tail of the user's list; only those change and
      the invariant is kept. */
  lemma EnrolEffect(users: Users, communities: Communities, me: string, nome: string)
    requires me in users && nome in communities && !communities[nome].IsMember(me)
    requires Consistent(users, communities)
    ensures var (us, cs) := Enrol(users, communities, me, nome);
      && cs.Keys == communities.Keys
      && cs[nome] == communities[nome].(members := communities[nome].members + [me])
      && (forall n :: n in communities && n != nome ==> cs[n] == communities[n])
      && us[me].communitiesJoined == users[me].communitiesJoined + [nome]
      && OnlyJoinedChanged(users, us)
      && Consistent(us, cs)
  {
    var (us, cs) := Enrol(users, communities, me, nome);
    assert communities[nome].Valid();
    forall n, m | n in cs && m in cs[n].members && m in us ensures n in us[m].communitiesJoined {
      if m != me {
        assert m in communities[n].members;
      } else if n != nome {
        assert n in users[m].communitiesJoined;
      }
    }
  }

  method JoinCommunity(userRepo: UserRepository, communityRepo: CR.CommunityRepository, id: string, nome: string) returns (o: Outcome)
    requires userRepo.Valid() && communityRepo.Valid()
    modifies userRepo, communityRepo
    ensures userRepo.Valid() && communityRepo.Valid() && userRepo.sessions == old(userRepo.sessions)
    ensures communityRepo.names == old(communityRepo.names)
    ensures (o, userRepo.users, communityRepo.communities)
         == JoinCommunityStep(old(userRepo.users), old(userRepo.sessions), old(communityRepo.communities), id, nome)
  {
    var u := userRepo.GetUserBySession(id);
    if u.Err? {
      return Failed(u.error);
    }
    var user := u.value;
    var c := GetCommunity(communityRepo, nome);
    if c.Err? {
      return Failed(c.error);
    }
    var community := c.value;
    if community.IsMember(user.login) {
      return Failed(Tag("alreadyMember"));
    }
    var (_, updated) := community.AddMember(user.login);
    communityRepo.communities := communityRepo.communities[nome := updated];
    var joined := userRepo.JoinCommunity(id, nome);
    o := Done;
  }

  // ----------------------------------------------------------------- leave

  function LeaveCommunityCheck(users: Users, sessions: Sessions, communities: Communities, id: string, nome: string): (o: Outcome)
    ensures o == Done <==> (SessionLogin(users, sessions, id).Ok? && nome in communities
                            && !communities[nome].IsManager(sessions[id])
                            && communities[nome].IsMember(sessions[id]))
    ensures (SessionLogin(users, sessions, id).Ok? && nome in communities
             && communities[nome].IsManager(sessions[id])) ==> o == Failed(Tag("managerCantLeave"))
  {
    match SessionLogin(users, sessions, id)
    case Err(e) => Failed(e)
    case Ok(me) =>
      if nome !in communities then Failed(Tag("notFound"))
      else if communities[nome].IsManager(me) then Failed(Tag("managerCantLeave"))
      else if !communities[nome].IsMember(me) then Failed(Tag("notMember"))
      else Done
  }

  /** The effect of leaveCommunity: the user leaves the members and the name
      leaves the user's list (first occurrence). */
  function Withdraw(users: Users, communities: Communities, me: string, nome: string): (Users, Communities)
    requires me in users && nome in communities
  {
    (users[me := users[me].RemoveCommunity(nome)], communities[nome := communities[nome].RemoveMember(me).1])
  }

  function LeaveCommunityStep(users: Users, sessions: Sessions, communities: Communities, id: string, nome: string): (r: (Outcome, Users, Communities))
    ensures r.0 == LeaveCommunityCheck(users, sessions, communities, id, nome)
    ensures r.0.Failed? ==> r.1 == users && r.2 == communities
  {
    var o := LeaveCommunityCheck(users, sessions, communities, id, nome);
    if o.Failed? then (o, users, communities)
    else var (us, cs) := Withdraw(users, communities, sessions[id], nome); (Done, us, cs)
  }

  /** After leaving, the user is no longer a member, the manager is
      untouched, only that community and that user's list change, and the
      invariant is kept. */
  lemma WithdrawEffect(users: Users, communities: Communities, me: string, nome: string)
    requires me in users && nome in communities
    requires !communities[nome].IsManager(me) && communities[nome].IsMember(me)
    requires Consistent(users, communities)
    ensures var (us, cs) := Withdraw(users, communities, me, nome);
      && cs.Keys == communities.Keys
      && !cs[nome].IsMember(me) && cs[nome].manager == communities[nome].manager
      && (forall y :: y != me ==> (cs[nome].IsMember(y) <==> communities[nome].IsMember(y)))
      && (forall n :: n in communities && n != nome ==> cs[n] == communities[n])
      && multiset(us[me].communitiesJoined) == multiset(users[me].communitiesJoined) - multiset{nome}
      && OnlyJoinedChanged(users, us)
      && Consistent(us, cs)
  {
    var (us, cs) := Withdraw(users, communities, me, nome);
    assert communities[nome].Valid();
    RemoveFirstFacts(users[me].communitiesJoined, nome);
    RemoveFirstMultiset(users[me].communitiesJoined, nome);
    forall n, m | n in cs && m in cs[n].members && m in us ensures n in us[m].communitiesJoined {
      if n == nome {
        assert m != me && communities[n].IsMember(m);
      } else {
        assert m in communities[n].members;
        assert n in users[m].communitiesJoined;
      }
    }
  }

  method LeaveCommunity(userRepo: UserRepository, communityRepo: CR.CommunityRepository, id: string, nome: string) returns (o: Outcome)
    requires userRepo.Valid() && communityRepo.Valid()
    modifies userRepo, communityRepo
    ensures userRepo.Valid() && communityRepo.Valid() && userRepo.sessions == old(userRepo.sessions)
    ensures communityRepo.names == old(communityRepo.names)
    ensures (o, userRepo.users, communityRepo.communities)
         == LeaveCommunityStep(old(userRepo.users), old(userRepo.sessions), old(communityRepo.communities), id, nome)
  {
    var u := userRepo.GetUserBySession(id);
    if u.Err? {
      return Failed(u.error);
    }
    var user := u.value;
    var c := GetCommunity(communityRepo, nome);
    if c.Err? {
      return Failed(c.error);
    }
    var community := c.value;
    if community.IsManager(user.login) {
      return Failed(Tag("managerCantLeave"));
    }
    if !community.IsMember(user.login) {
      return Failed(Tag("notMember"));
    }
    var (_, updated) := community.RemoveMember(user.login);
    communityRepo.communities := communityRepo.communities[nome := updated];
    var left := userRepo.LeaveCommunity(id, nome);
    o := Done;
  }

  // ------------------------------------------------------ manager actions

  /** The refusals shared by the manager-only actions: unknown session,
      unknown community, caller not the manager. */
  function ManagerCheck(users: Users, sessions: Sessions, communities: Communities, id: string, nome: string): (o: Outcome)
    ensures o == Done <==> (SessionLogin(users, sessions, id).Ok? && nome in communities
                            && communities[nome].IsManager(sessions[id]))
    ensures (SessionLogin(users, sessions, id).Ok? && nome in communities
             && !communities[nome].IsManager(sessions[id])) ==> o == Failed(Tag("notManager"))
  {
    match SessionLogin(users, sessions, id)
    case Err(e) => Failed(e)
    case Ok(me) =>
      if nome !in communities then Failed(Tag("notFound"))
      else if !communities[nome].IsManager(me) then Failed(Tag("notManager"))
      else Done
  }

  /** editCommunityDescription as a transition: only the description of the
      named community changes, and only for its manager. */
  function EditDescriptionStep(users: Users, sessions: Sessions, communities: Communities, id: string, nome: string, descricao: string): (r: (Outcome, Communities))
    ensures r.0 == ManagerCheck(users, sessions, communities, id, nome)
    ensures r.0.Failed? ==> r.1 == communities
    ensures r.0 == Done ==> r.1.Keys == communities.Keys
                            && r.1[nome] == communities[nome].(description := descricao)
                            && (forall n :: n in communities && n != nome ==> r.1[n] == communities[n])
    ensures CR.AllValid(communities) ==> CR.AllValid(r.1)
  {
    var o := ManagerCheck(users, sessions, communities, id, nome);
    if o.Failed? then (o, communities)
    else (Done, communities[nome := communities[nome].SetDescription(descricao)])
  }

  method EditCommunityDescription(userRepo: UserRepository, communityRepo: CR.CommunityRepository,
                                  id: string, nome: string, descricao: string) returns (o: Outcome)
    requires userRepo.Valid() && communityRepo.Valid()
    modifies communityRepo
    ensures communityRepo.Valid() && communityRepo.names == old(communityRepo.names)
    ensures (o, communityRepo.communities)
         == EditDescriptionStep(userRepo.users, userRepo.sessions, old(communityRepo.communities), id, nome, descricao)
  {
    var u := userRepo.GetUserBySession(id);
    if u.Err? {
      return Failed(u.error);
    }
    var c := GetCommunity(communityRepo, nome);
    if c.Err? {
      return Failed(c.error);
    }
    if !c.value.IsManager(u.value.login) {
      return Failed(Tag("notManager"));
    }
    communityRepo.communities := communityRepo.communities[nome := c.value.SetDescription(descricao)];
    o := Done;
  }

  function TransferCheck(users: Users, sessions: Sessions, communities: Communities, id: string, nome: string, novoGerente: string): (o: Outcome)
    ensures o == Done <==> (SessionLogin(users, sessions, id).Ok? && novoGerente in users && nome in communities
                            && communities[nome].IsManager(sessions[id])
                            && communities[nome].IsMember(novoGerente))
  {
    match SessionLogin(users, sessions, id)
    case Err(e) => Failed(e)
    case Ok(me) =>
      if novoGerente !in users then Failed(NotFoundUser(UserNotRegistered))
      else if nome !in communities then Failed(Tag("notFound"))
      else if !communities[nome].IsManager(me) then Failed(Tag("notManager"))
      else if !communities[nome].IsMember(novoGerente) then Failed(Tag("notMember"))
      else Done
  }

  /** transferManagement as a transition: the manager hands the community
      to one of its members; only the manager field changes, so the manager
      stays a member and the invariant is kept. */
  function TransferStep(users: Users, sessions: Sessions, communities: Communities, id: string, nome: string, novoGerente: string): (r: (Outcome, Communities))
    ensures r.0 == TransferCheck(users, sessions, communities, id, nome, novoGerente)
    ensures r.0.Failed? ==> r.1 == communities
    ensures r.0 == Done ==> r.1.Keys == communities.Keys
                            && r.1[nome] == communities[nome].(manager := novoGerente)
                            && (forall n :: n in communities && n != nome ==> r.1[n] == communities[n])
    ensures Consistent(users, communities) ==> Consistent(users, r.1)
  {
    var o := TransferCheck(users, sessions, communities, id, nome, novoGerente);
    if o.Failed? then (o, communities)
    else (Done, communities[nome := communities[nome].SetManager(novoGerente)])
  }

  method TransferManagement(userRepo: UserRepository, communityRepo: CR.CommunityRepository,
                            id: string, nome: string, novoGerente: string) returns (o: Outcome)
    requires userRepo.Valid() && communityRepo.Valid()
    modifies communityRepo
    ensures communityRepo.Valid() && communityRepo.names == old(communityRepo.names)
    ensures (o, communityRepo.communities)
         == TransferStep(userRepo.users, userRepo.sessions, old(communityRepo.communities), id, nome, novoGerente)
  {
    var current := userRepo.GetUserBySession(id);
    if current.Err? {
      return Failed(current.error);
    }
    var newManager := userRepo.GetUserByLogin(novoGerente);
    if newManager.None? {
      return Failed(NotFoundUser(UserNotRegistered));
    }
    var c := GetCommunity(communityRepo, nome);
    if c.Err? {
      return Failed(c.error);
    }
    if !c.value.IsManager(current.value.login) {
      return Failed(Tag("notManager"));
    }
    if !c.value.IsMember(novoGerente) {
      return Failed(Tag("notMember"));
    }
    communityRepo.communities := communityRepo.communities[nome := c.value.SetManager(novoGerente)];
    o := Done;
  }

  /** deleteCommunity as a transition: the manager removes the community
      from the store; the users' joined lists are left as they are. */
  function DeleteCommunityStep(users: Users, sessions: Sessions, communities: Communities, id: string, nome: string): (r: (Outcome, Communities))
    ensures r.0 == ManagerCheck(users, sessions, communities, id, nome)
    ensures r.0.Failed? ==> r.1 == communities
    ensures r.0 == Done ==> r.1 == communities - {nome} && nome !in r.1
    ensures Consistent(users, communities) ==> Consistent(users, r.1)
  {
    var o := ManagerCheck(users, sessions, communities, id, nome);
    if o.Failed? then (o, communities) else (Done, communities - {nome})
  }

  method DeleteCommunity(userRepo: UserRepository, communityRepo: CR.CommunityRepository, id: string, nome: string) returns (o: Outcome)
    requires userRepo.Valid() && communityRepo.Valid()
    modifies communityRepo
    ensures communityRepo.Valid()
    ensures (o, communityRepo.communities)
         == DeleteCommunityStep(userRepo.users, userRepo.sessions, old(communityRepo.communities), id, nome)
    ensures communityRepo.names == if o == Done then RemoveFirst(old(communityRepo.names), nome) else old(communityRepo.names)
  {
    var u := userRepo.GetUserBySession(id);
    if u.Err? {
      return Failed(u.error);
    }
    var c := GetCommunity(communityRepo, nome);
    if c.Err? {
      return Failed(c.error);
    }
    if !c.value.IsManager(u.value.login) {
      return Failed(Tag("notManager"));
    }
    var removed := communityRepo.RemoveCommunity(nome);
    o := Done;
  }

  // -------------------------------------------------------------- messages

  /** The loop over getMembers(): each listed login that is a stored user
      gets the content at the tail of its community-message queue. */
  function FanOut(users: Users, members: seq<string>, content: string): Users
    decreases |members|
  {
    if members == [] then users
    else
      var us := FanOut(users, members[..|members| - 1], content);
      var m := members[|members| - 1];
      if m in us then us[m := us[m].AddCommunityMessage(content)] else us
  }

  /** Posting to a duplicate-free member list delivers the content exactly
      once, at the tail of the queue, to every listed stored user, and
      changes nobody else and nothing else. */
  lemma {:induction false} FanOutEffect(users: Users, members: seq<string>, content: string)
    requires NoDup(members)
    ensures var us := FanOut(users, members, content);
      && us.Keys == users.Keys
      && (forall k :: k in users && k in members ==>
            us[k] == users[k].(communitiesMessages := users[k].communitiesMessages + [content]))
      && (forall k :: k in users && k !in members ==> us[k] == users[k])
    decreases |members|
  {
    if members != [] {
      var init := members[..|members| - 1];
      var m := members[|members| - 1];
      assert members == init + [m];
      assert NoDup(init) && m !in init;
      FanOutEffect(users, init, content);
      forall k | k in users && k in init ensures k in members { }
    }
  }

  function SendMessageCheck(users: Users, sessions: Sessions, communities: Communities, sessionId: string, communityName: string): (o: Outcome)
    ensures o == Done <==> SessionLogin(users, sessions, sessionId).Ok? && communityName in communities
  {
    match SessionLogin(users, sessions, sessionId)
    case Err(e) => Failed(e)
    case Ok(_) => if communityName !in communities then Failed(Tag("notFound")) else Done
  }

  /** sendMessage as a transition: the content joins the community's log
      and is fanned out to its members. */
  function SendMessageStep(users: Users, sessions: Sessions, communities: Communities, sessionId: string, communityName: string, content: string): (r: (Outcome, Users, Communities))
    ensures r.0 == SendMessageCheck(users, sessions, communities, sessionId, communityName)
    ensures r.0.Failed? ==> r.1 == users && r.2 == communities
  {
    var o := SendMessageCheck(users, sessions, communities, sessionId, communityName);
    if o.Failed? then (o, users, communities)
    else
      var c := communities[communityName].AddMessage(content);
      (Done, FanOut(users, c.GetMembers(), content), communities[communityName := c])
  }

  /** A post reaches the tail of the log, and the tail of the community
      queue of exactly those stored users who are members, once each. */
  lemma SendMessageEffect(users: Users, sessions: Sessions, communities: Communities, sessionId: string, communityName: string, content: string)
    requires SendMessageCheck(users, sessions, communities, sessionId, communityName) == Done
    ensures var (_, us, cs) := SendMessageStep(users, sessions, communities, sessionId, communityName, content);
      && cs == communities[communityName := communities[communityName].(messages := communities[communityName].messages + [content])]
      && us.Keys == users.Keys
      && (forall k :: k in users && communities[communityName].IsMember(k) ==>
            us[k] == users[k].(communitiesMessages := users[k].communitiesMessages + [content]))
      && (forall k :: k in users && !communities[communityName].IsMember(k) ==> us[k] == users[k])
  {
    var c := communities[communityName].AddMessage(content);
    FanOutEffect(users, c.GetMembers(), content);
  }

  /** sendMessage, with the loop over the members. */
  method SendMessage(userRepo: UserRepository, communityRepo: CR.CommunityRepository,
                     sessionId: string, communityName: string, content: string) returns (o: Outcome)
    requires userRepo.Valid() && communityRepo.Valid()
    modifies userRepo, communityRepo
    ensures userRepo.Valid() && communityRepo.Valid()
    ensures userRepo.sessions == old(userRepo.sessions) && communityRepo.names == old(communityRepo.names)
    ensures (o, userRepo.users, communityRepo.communities)
         == SendMessageStep(old(userRepo.users), old(userRepo.sessions), old(communityRepo.communities), sessionId, communityName, content)
  {
    var u := userRepo.GetUserBySession(sessionId);
    if u.Err? {
      return Failed(u.error);
    }
    var found := communityRepo.GetCommunityByName(communityName);
    if found.None? {
      return Failed(Tag("notFound"));
    }
    var community := found.value.AddMessage(content);
    communityRepo.communities := communityRepo.communities[communityName := community];
    Broadcast(userRepo, community.GetMembers(), content);
    o := Done;
  }

  /** The loop over the members of the community: each stored member gets
      the text at the tail of its community-message queue. */
  method Broadcast(userRepo: UserRepository, members: seq<string>, content: string)
    requires userRepo.Valid()
    modifies userRepo
    ensures userRepo.Valid() && userRepo.sessions == old(userRepo.sessions)
    ensures userRepo.users == FanOut(old(userRepo.users), members, content)
  {
    var i := 0;
    while i < |members|
      invariant 0 <= i <= |members|
      invariant userRepo.Valid() && userRepo.sessions == old(userRepo.sessions)
      invariant userRepo.users == FanOut(old(userRepo.users), members[..i], content)
    {
      assert members[..i + 1][..i] == members[..i];
      var memberUser := userRepo.GetUserByLogin(members[i]);
      if memberUser.Some? {
        userRepo.users := userRepo.users[members[i] := memberUser.value.AddCommunityMessage(content)];
      }
      i := i + 1;
    }
    assert members[..i] == members;
  }

  /** readMessage as a transition: the head of the session user's community
      queue, which leaves it. */
  function ReadMessageStep(users: Users, sessions: Sessions, sessionId: string): (r: (Result<string>, Users))
    ensures r.0.Err? ==> r.1 == users
    ensures r.0.Err? <==> SessionLogin(users, sessions, sessionId).Err? || users[sessions[sessionId]].communitiesMessages == []
    ensures (SessionLogin(users, sessions, sessionId).Ok? && users[sessions[sessionId]].communitiesMessages == []) ==>
              r.0 == Err(NotFoundMessage("community"))
    ensures r.0.Ok? ==> var me := sessions[sessionId];
      && me in r.1 && r.1 == users[me := users[me].(communitiesMessages := r.1[me].communitiesMessages)]
      && [r.0.value] + r.1[me].communitiesMessages == users[me].communitiesMessages
  {
    match SessionLogin(users, sessions, sessionId)
    case Err(e) => (Err(e), users)
    case Ok(me) =>
      match users[me].ReadCommunitiesMessages()
      case Err(e) => (Err(e), users)
      case Ok((m, u)) => (Ok(m), users[me := u])
  }

  method ReadMessage(userRepo: UserRepository, sessionId: string) returns (r: Result<string>)
    requires userRepo.Valid()
    modifies userRepo
    ensures userRepo.Valid() && userRepo.sessions == old(userRepo.sessions)
    ensures (r, userRepo.users) == ReadMessageStep(old(userRepo.users), old(userRepo.sessions), sessionId)
  {
    var u := userRepo.GetUserBySession(sessionId);
    if u.Err? {
      return Err(u.error);
    }
    var read := u.value.ReadCommunitiesMessages();
    if read.Err? {
      return Err(read.error);
    }
    userRepo.users := userRepo.users[u.value.login := read.value.1];
    r := Ok(read.value.0);
  }

  /** A post to a community reaches each member: a member whose community
      queue was empty reads exactly the posted content next, and is then back
      to the state before the post. */
  lemma PostThenRead(users: Users, sessions: Sessions, communities: Communities, sessionId: string,
                     communityName: string, content: string, readerSession: string)
    requires SendMessageCheck(users, sessions, communities, sessionId, communityName) == Done
    requires readerSession in sessions && sessions[readerSession] in users
    requires communities[communityName].IsMember(sessions[readerSession])
    requires users[sessions[readerSession]].communitiesMessages == []
    ensures var us := SendMessageStep(users, sessions, communities, sessionId, communityName, content).1;
      var (text, vs) := ReadMessageStep(us, sessions, readerSession);
      text == Ok(content) && vs[sessions[readerSession]] == users[sessions[readerSession]]
  {
    var reader := sessions[readerSession];
    SendMessageEffect(users, sessions, communities, sessionId, communityName, content);
    var us := SendMessageStep(users, sessions, communities, sessionId, communityName, content).1;
    assert us[reader].communitiesMessages == [content];
    assert SessionLogin(us, sessions, readerSession) == Ok(reader);
  }
}
