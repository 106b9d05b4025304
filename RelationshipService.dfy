/** Idols and fans, crushes and enemies (services/RelationshipService.java).
    Every operation that changes users is a check (the refusals, in the
    source's order, all made before any change) followed by an effect on
    the user map; the method performing it in place is proved to follow
    that transition. */
module RelationshipServices {
  import opened Lists
  import opened Errors
  import opened Recados
  import opened UserModel
  import opened UserRepo

  const NotIdol := "Usuário não é seu ídolo"
  const NotCrush := "Usuário não é seu paquera"
  const NotEnemy := "Usuário não é seu inimigo"
  const CrushSelf := "Usuário não pode ser paquera de si mesmo."
  const EnemyTwice := "Usuário já está adicionado como inimigo."
  const EnemySelf := "Usuário não pode ser inimigo de si mesmo."

  /** The text of the notice each side of a mutual crush receives, naming
      the other side. */
  function CrushNotice(name: string): string {
    name + " é seu paquera - Recado do Jackut."
  }

  // ---------------------------------------------------------------- idols

  /** The refusals of adicionarIdolo: unknown session, unknown idol, already
      an idol, self, the idol lists the fan as enemy. */
  function AdicionarIdoloCheck(users: Users, sessions: Sessions, session: string, loginIdol: string): (o: Outcome)
    ensures o == Done <==> (SessionLogin(users, sessions, session).Ok?
                            && var me := sessions[session];
                               loginIdol in users && loginIdol !in users[me].idols && loginIdol != me
                               && me !in users[loginIdol].enemies)
  {
    match SessionLogin(users, sessions, session)
    case Err(e) => Failed(e)
    case Ok(me) =>
      if loginIdol !in users then Failed(NotFoundUser(UserNotRegistered))
      else if loginIdol in users[me].idols then Failed(IdolAlreadyAdded)
      else if loginIdol == me then Failed(FanOfItself)
      else if me in users[loginIdol].enemies then Failed(EnemyException(EnemyMessage(users[loginIdol].name)))
      else Done
  }

  /** The effect of adicionarIdolo: the idol joins the tail of the fan's
      idols, then the fan joins the tail of the idol's fans. */
  function BecomeFan(users: Users, fan: string, idol: string): Users
    requires fan in users && idol in users
  {
    var us := users[fan := users[fan].(idols := users[fan].idols + [idol])];
    us[idol := us[idol].(fans := us[idol].fans + [fan])]
  }

  /** adicionarIdolo as a transition: a refusal changes nothing. */
  function AdicionarIdoloStep(users: Users, sessions: Sessions, session: string, loginIdol: string): (r: (Outcome, Users))
    ensures r.0 == AdicionarIdoloCheck(users, sessions, session, loginIdol)
    ensures r.0.Failed? ==> r.1 == users
  {
    var o := AdicionarIdoloCheck(users, sessions, session, loginIdol);
    if o.Failed? then (o, users) else (Done, BecomeFan(users, sessions[session], loginIdol))
  }

  lemma BecomeFanFacts(users: Users, fan: string, idol: string)
    requires fan in users && idol in users && fan != idol
    ensures var us := BecomeFan(users, fan, idol);
      && us.Keys == users.Keys
      && (forall k :: k in users && k != fan && k != idol ==> us[k] == users[k])
      && us[fan] == users[fan].(idols := users[fan].idols + [idol])
      && us[idol] == users[idol].(fans := users[idol].fans + [fan])
  {
  }

  /** A successful adicionarIdolo makes the actor a fan of the idol (ehFa
      holds afterwards) and the idol's fans gain the actor; only these two
      lists change. */
  lemma AdicionarIdoloEffect(users: Users, sessions: Sessions, session: string, loginIdol: string)
    requires AdicionarIdoloCheck(users, sessions, session, loginIdol) == Done
    ensures var me, us := sessions[session], AdicionarIdoloStep(users, sessions, session, loginIdol).1;
      && us.Keys == users.Keys
      && (forall k :: k in users && k != me && k != loginIdol ==> us[k] == users[k])
      && us[me] == users[me].(idols := users[me].idols + [loginIdol])
      && us[loginIdol] == users[loginIdol].(fans := users[loginIdol].fans + [me])
      && loginIdol in us[me].idols && me in us[loginIdol].fans
  {
    BecomeFanFacts(users, sessions[session], loginIdol);
  }

  /** Becoming a fan keeps the store: users keyed by login, every list
      duplicate-free and the idol/fan lists mirroring each other. The fan
      list stays duplicate-free only because of the mirror: the fan was not
      among the idol's fans, since the idol was not among the fan's idols. */
  lemma BecomeFanKeepsStore(users: Users, fan: string, idol: string)
    requires Keyed(users) && AllValid(users) && FansMirrorIdols(users)
    requires fan in users && idol in users && fan != idol && idol !in users[fan].idols
    ensures var us := BecomeFan(users, fan, idol);
      Keyed(us) && AllValid(us) && FansMirrorIdols(us)
  {
    assert users[fan].Valid() && users[idol].Valid();
    assert fan !in users[idol].fans;
    NoDupSnoc(users[fan].idols, idol);
    NoDupSnoc(users[idol].fans, fan);
    var vs := users[fan := users[fan].(idols := users[fan].idols + [idol])];
    ReplaceKeepsValid(users, fan, vs[fan]);
    ReplaceKeepsValid(vs, idol, vs[idol].(fans := vs[idol].fans + [fan]));
    BecomeFanFacts(users, fan, idol);
    PairKeepsMirror(users, BecomeFan(users, fan, idol), fan, idol);
  }

  lemma AdicionarIdoloKeepsStore(users: Users, sessions: Sessions, session: string, loginIdol: string)
    requires Keyed(users) && AllValid(users) && FansMirrorIdols(users)
    ensures var us := AdicionarIdoloStep(users, sessions, session, loginIdol).1;
      Keyed(us) && AllValid(us) && FansMirrorIdols(us)
  {
    if AdicionarIdoloCheck(users, sessions, session, loginIdol) == Done {
      BecomeFanKeepsStore(users, sessions[session], loginIdol);
    }
  }

  /** adicionarIdolo, in place. */
  method AdicionarIdolo(repo: UserRepository, session: string, loginIdol: string) returns (o: Outcome)
    requires repo.Valid()
    modifies repo
    ensures repo.Valid() && repo.sessions == old(repo.sessions)
    ensures (o, repo.users) == AdicionarIdoloStep(old(repo.users), old(repo.sessions), session, loginIdol)
  {
    var f := repo.GetUserBySession(session);
    if f.Err? {
      return Failed(f.error);
    }
    var fan := f.value;
    var i := repo.GetUserByLogin(loginIdol);
    if i.None? {
      return Failed(NotFoundUser(UserNotRegistered));
    }
    var idol := i.value;
    if loginIdol in fan.idols {
      return Failed(IdolAlreadyAdded);
    }
    if loginIdol == fan.login {
      return Failed(FanOfItself);
    }
    if fan.login in idol.enemies {
      return Failed(EnemyException(EnemyMessage(idol.name)));
    }
    repo.users := repo.users[fan.login := fan.(idols := fan.idols + [loginIdol])];
    repo.users := repo.users[loginIdol := repo.users[loginIdol].(fans := repo.users[loginIdol].fans + [fan.login])];
    o := Done;
  }

  /** The effect of removerIdolo: the idol leaves the fan's idols; then, when
      the idol is a stored user, the fan leaves the idol's fans. An unknown
      idol fails with a NullPointerException after the first removal. */
  function StopBeingFan(users: Users, fan: string, idol: string): (r: (Outcome, Users))
    requires fan in users
  {
    var us := users[fan := users[fan].(idols := RemoveFirst(users[fan].idols, idol))];
    if idol !in us then (Failed(NullPointer), us)
    else (Done, us[idol := us[idol].(fans := RemoveFirst(us[idol].fans, fan))])
  }

  /** removerIdolo as a transition: unknown session, then "not your idol"
      refusals change nothing. */
  function RemoverIdoloStep(users: Users, sessions: Sessions, session: string, loginIdol: string): (r: (Outcome, Users))
    ensures SessionLogin(users, sessions, session).Err? ==> r == (Failed(NotFoundUser(UserNotRegistered)), users)
    ensures (SessionLogin(users, sessions, session).Ok? && loginIdol !in users[sessions[session]].idols) ==>
              r == (Failed(Runtime(NotIdol)), users)
  {
    match SessionLogin(users, sessions, session)
    case Err(e) => (Failed(e), users)
    case Ok(me) =>
      if loginIdol !in users[me].idols then (Failed(Runtime(NotIdol)), users)
      else StopBeingFan(users, me, loginIdol)
  }

  lemma StopBeingFanFacts(users: Users, fan: string, idol: string)
    requires fan in users && idol in users && fan != idol
    ensures var r := StopBeingFan(users, fan, idol);
      && r.0 == Done && r.1.Keys == users.Keys
      && (forall k :: k in users && k != fan && k != idol ==> r.1[k] == users[k])
      && r.1[fan] == users[fan].(idols := RemoveFirst(users[fan].idols, idol))
      && r.1[idol] == users[idol].(fans := RemoveFirst(users[idol].fans, fan))
  {
  }

  /** Removing an idol keeps the store and the mirror between idols and
      fans: the pair leaves both lists, and nothing else changes. */
  lemma StopBeingFanKeepsStore(users: Users, fan: string, idol: string)
    requires Keyed(users) && AllValid(users) && FansMirrorIdols(users)
    requires fan in users && idol in users && fan != idol
    ensures var us := StopBeingFan(users, fan, idol).1;
      && idol !in us[fan].idols && fan !in us[idol].fans
      && Keyed(us) && AllValid(us) && FansMirrorIdols(us)
  {
    assert users[fan].Valid() && users[idol].Valid();
    RemoveFirstFacts(users[fan].idols, idol);
    RemoveFirstFacts(users[idol].fans, fan);
    var vs := users[fan := users[fan].(idols := RemoveFirst(users[fan].idols, idol))];
    ReplaceKeepsValid(users, fan, vs[fan]);
    ReplaceKeepsValid(vs, idol, vs[idol].(fans := RemoveFirst(vs[idol].fans, fan)));
    StopBeingFanFacts(users, fan, idol);
    PairKeepsMirror(users, StopBeingFan(users, fan, idol).1, fan, idol);
  }

  /** Removing an idol just added restores the users exactly. */
  lemma FanUndo(users: Users, fan: string, idol: string)
    requires fan in users && idol in users && fan != idol
    requires idol !in users[fan].idols && fan !in users[idol].fans
    ensures StopBeingFan(BecomeFan(users, fan, idol), fan, idol) == (Done, users)
  {
    var us := BecomeFan(users, fan, idol);
    BecomeFanFacts(users, fan, idol);
    StopBeingFanFacts(us, fan, idol);
    RemoveFirstAfterPrefix(users[fan].idols, [idol]);
    RemoveFirstAfterPrefix(users[idol].fans, [fan]);
    assert users[fan].idols + [idol][1..] == users[fan].idols;
    assert users[idol].fans + [fan][1..] == users[idol].fans;
    var r := StopBeingFan(us, fan, idol).1;
    assert r[fan] == users[fan].(idols := users[fan].idols) == users[fan];
    assert r[idol] == users[idol].(fans := users[idol].fans) == users[idol];
    assert r.Keys == users.Keys;
    assert forall k :: k in users ==> r[k] == users[k];
    assert r == users;
  }

  /** removerIdolo undoes adicionarIdolo: removing the idol just added
      restores every user exactly. */
  lemma IdoloRoundTrip(users: Users, sessions: Sessions, session: string, loginIdol: string)
    requires AllValid(users) && FansMirrorIdols(users)
    requires AdicionarIdoloCheck(users, sessions, session, loginIdol) == Done
    ensures var us := AdicionarIdoloStep(users, sessions, session, loginIdol).1;
      RemoverIdoloStep(us, sessions, session, loginIdol) == (Done, users)
  {
    var me := sessions[session];
    var us := BecomeFan(users, me, loginIdol);
    assert AdicionarIdoloStep(users, sessions, session, loginIdol).1 == us;
    BecomeFanFacts(users, me, loginIdol);
    assert SessionLogin(us, sessions, session) == Ok(me);
    assert loginIdol in us[me].idols;
    assert me !in users[loginIdol].fans;
    FanUndo(users, me, loginIdol);
  }

  /** removerIdolo, in place. */
  method RemoverIdolo(repo: UserRepository, session: string, loginIdol: string) returns (o: Outcome)
    requires repo.Valid()
    modifies repo
    ensures repo.Valid() && repo.sessions == old(repo.sessions)
    ensures (o, repo.users) == RemoverIdoloStep(old(repo.users), old(repo.sessions), session, loginIdol)
  {
    var f := repo.GetUserBySession(session);
    if f.Err? {
      return Failed(f.error);
    }
    var fan := f.value;
    var idol := repo.GetUserByLogin(loginIdol);
    if loginIdol !in fan.idols {
      return Failed(Runtime(NotIdol));
    }
    repo.users := repo.users[fan.login := fan.(idols := RemoveFirst(fan.idols, loginIdol))];
    if idol.None? {
      return Failed(NullPointer);
    }
    repo.users := repo.users[loginIdol := repo.users[loginIdol].(fans := RemoveFirst(repo.users[loginIdol].fans, fan.login))];
    o := Done;
  }

  /** ehFa: false for an unknown user, otherwise whether the idol is among
      the user's idols. */
  function EhFa(repo: UserRepository, loginUser: string, loginIdol: string): (r: bool)
    reads repo
    ensures r <==> loginUser in repo.users && loginIdol in repo.users[loginUser].idols
  {
    match repo.GetUserByLogin(loginUser)
    case None => false
    case Some(user) => loginIdol in user.idols
  }

  /** getFas: the brace-formatted fans of a user; an unknown login is
      dereferenced as null. */
  function GetFas(repo: UserRepository, login: string): (r: Result<string>)
    reads repo
    ensures r.Err? <==> login !in repo.users
    ensures r.Err? ==> r.error == NullPointer
    ensures r.Ok? ==> r.value == FormatList(repo.users[login].fans)
  {
    match repo.GetUserByLogin(login)
    case None => Err(NullPointer)
    case Some(user) => Ok(FormatList(user.fans))
  }

  /** The formatted listing of one of the session user's lists. */
  function SessionList(repo: UserRepository, session: string, pick: User -> seq<string>): (r: Result<string>)
    reads repo
    ensures r.Err? <==> SessionLogin(repo.users, repo.sessions, session).Err?
    ensures r.Err? ==> r.error == NotFoundUser(UserNotRegistered)
    ensures r.Ok? ==> r.value == FormatList(pick(repo.users[repo.sessions[session]]))
  {
    match SessionLogin(repo.users, repo.sessions, session)
    case Err(e) => Err(e)
    case Ok(me) => Ok(FormatList(pick(repo.users[me])))
  }

  /** getIdolos. */
  function GetIdolos(repo: UserRepository, session: string): (r: Result<string>)
    reads repo
    ensures r.Ok? <==> SessionLogin(repo.users, repo.sessions, session).Ok?
    ensures r.Ok? ==> r.value == FormatList(repo.users[repo.sessions[session]].idols)
  {
    SessionList(repo, session, (u: User) => u.idols)
  }

  /** getPaqueras. */
  function GetPaqueras(repo: UserRepository, session: string): (r: Result<string>)
    reads repo
    ensures r.Ok? <==> SessionLogin(repo.users, repo.sessions, session).Ok?
    ensures r.Ok? ==> r.value == FormatList(repo.users[repo.sessions[session]].crushes)
  {
    SessionList(repo, session, (u: User) => u.crushes)
  }

  /** getInimigos. */
  function GetInimigos(repo: UserRepository, session: string): (r: Result<string>)
    reads repo
    ensures r.Ok? <==> SessionLogin(repo.users, repo.sessions, session).Ok?
    ensures r.Ok? ==> r.value == FormatList(repo.users[repo.sessions[session]].enemies)
  {
    SessionList(repo, session, (u: User) => u.enemies)
  }

  /** ehPaquera: whether the login is among the session user's crushes. */
  function EhPaquera(repo: UserRepository, session: string, paquera: string): (r: Result<bool>)
    reads repo
    ensures r.Err? <==> SessionLogin(repo.users, repo.sessions, session).Err?
    ensures r.Ok? ==> (r.value <==> paquera in repo.users[repo.sessions[session]].crushes)
  {
    match SessionLogin(repo.users, repo.sessions, session)
    case Err(e) => Err(e)
    case Ok(me) => Ok(paquera in repo.users[me].crushes)
  }

  /** ehInimigo: whether the login is among the session user's enemies. */
  function EhInimigo(repo: UserRepository, session: string, loginInimigo: string): (r: Result<bool>)
    reads repo
    ensures r.Err? <==> SessionLogin(repo.users, repo.sessions, session).Err?
    ensures r.Ok? ==> (r.value <==> loginInimigo in repo.users[repo.sessions[session]].enemies)
  {
    match SessionLogin(repo.users, repo.sessions, session)
    case Err(e) => Err(e)
    case Ok(me) => Ok(loginInimigo in repo.users[me].enemies)
  }

  // -------------------------------------------------------------- crushes

  /** The refusals of adicionarPaquera: unknown session, unknown target,
      already a crush, self, the target lists the actor as enemy. */
  function AdicionarPaqueraCheck(users: Users, sessions: Sessions, session: string, paquera: string): (o: Outcome)
    ensures o == Done <==> (SessionLogin(users, sessions, session).Ok?
                            && var me := sessions[session];
                               paquera in users && paquera !in users[me].crushes && paquera != me
                               && me !in users[paquera].enemies)
  {
    match SessionLogin(users, sessions, session)
    case Err(e) => Failed(e)
    case Ok(me) =>
      if paquera !in users then Failed(NotFoundUser(UserNotRegistered))
      else if paquera in users[me].crushes then Failed(CrushAlreadyAdded)
      else if paquera == me then Failed(CrushOfItself(CrushSelf))
      else if me in users[paquera].enemies then Failed(EnemyException(EnemyMessage(users[paquera].name)))
      else Done
  }

  /** The two notices of a mutual crush: each side receives, from "jackut",
      the other side's name. */
  function NotifyMutual(users: Users, me: string, paquera: string): Users
    requires me in users && paquera in users
  {
    var us := users[me := users[me].IncomingMessage(Recado("jackut", CrushNotice(users[paquera].name), me))];
    us[paquera := us[paquera].IncomingMessage(Recado("jackut", CrushNotice(users[me].name), paquera))]
  }

  /** The effect of adicionarPaquera: the crush joins the tail of the
      actor's crushes, and when the target already has the actor as crush
      both are notified. */
  function Court(users: Users, me: string, paquera: string): Users
    requires me in users && paquera in users
  {
    var us := AddCrushTo(users, me, paquera);
    if me in us[paquera].crushes then NotifyMutual(us, me, paquera) else us
  }

  /** The crush joins the tail of the actor's crushes. */
  function AddCrushTo(users: Users, me: string, x: string): Users
    requires me in users
  {
    users[me := users[me].(crushes := users[me].crushes + [x])]
  }

  /** The effect of removerPaquera: the first occurrence of the login leaves
      the actor's crushes. */
  function RemoveCrushFrom(users: Users, me: string, x: string): Users
    requires me in users
  {
    users[me := users[me].(crushes := RemoveFirst(users[me].crushes, x))]
  }

  /** Removing a crush just added restores the users exactly. */
  lemma CrushUndo(users: Users, me: string, x: string)
    requires me in users && x !in users[me].crushes
    ensures RemoveCrushFrom(AddCrushTo(users, me, x), me, x) == users
  {
    var c := users[me].crushes;
    RemoveFirstAfterPrefix(c, [x]);
    assert c + [x][1..] == c;
    assert RemoveCrushFrom(AddCrushTo(users, me, x), me, x) == users[me := users[me]];
  }

  /** adicionarPaquera as a transition: a refusal changes nothing. */
  function AdicionarPaqueraStep(users: Users, sessions: Sessions, session: string, paquera: string): (r: (Outcome, Users))
    ensures r.0 == AdicionarPaqueraCheck(users, sessions, session, paquera)
    ensures r.0.Failed? ==> r.1 == users
  {
    var o := AdicionarPaqueraCheck(users, sessions, session, paquera);
    if o.Failed? then (o, users) else (Done, Court(users, sessions[session], paquera))
  }

  /** A successful adicionarPaquera appends the crush to the actor's list.
      When the crush is mutual exactly one notice from "jackut" reaches the
      tail of each side's queue, naming the other side; otherwise no queue
      changes and the target is untouched. Nobody else changes. */
  lemma CourtEffect(users: Users, me: string, paquera: string)
    requires me in users && paquera in users && me != paquera
    ensures var us := Court(users, me, paquera);
      && us.Keys == users.Keys
      && (forall k :: k in users && k != me && k != paquera ==> us[k] == users[k])
      && us[me].crushes == users[me].crushes + [paquera]
      && us[paquera].crushes == users[paquera].crushes
      && (me in users[paquera].crushes ==>
            && us[me] == users[me].(crushes := us[me].crushes,
                                    recados := users[me].recados + [Recado("jackut", CrushNotice(users[paquera].name), me)])
            && us[paquera] == users[paquera].(recados := users[paquera].recados
                                              + [Recado("jackut", CrushNotice(users[me].name), paquera)]))
      && (me !in users[paquera].crushes ==>
            us[me] == users[me].(crushes := us[me].crushes) && us[paquera] == users[paquera])
  {
  }

  lemma CourtKeepsStore(users: Users, me: string, paquera: string)
    requires Keyed(users) && AllValid(users) && FansMirrorIdols(users)
    requires me in users && paquera in users && me != paquera && paquera !in users[me].crushes
    ensures var us := Court(users, me, paquera);
      Keyed(us) && AllValid(us) && FansMirrorIdols(us)
  {
    assert users[me].Valid();
    NoDupSnoc(users[me].crushes, paquera);
    ReplaceKeepsStore(users, me, users[me].(crushes := users[me].crushes + [paquera]));
    var us := AddCrushTo(users, me, paquera);
    if me in us[paquera].crushes {
      assert us[me].Valid() && us[paquera].Valid();
      var vs := us[me := us[me].IncomingMessage(Recado("jackut", CrushNotice(us[paquera].name), me))];
      ReplaceKeepsStore(us, me, vs[me]);
      assert vs[paquera] == us[paquera];
      ReplaceKeepsStore(vs, paquera, vs[paquera].IncomingMessage(Recado("jackut", CrushNotice(us[me].name), paquera)));
    }
  }

  lemma AdicionarPaqueraKeepsStore(users: Users, sessions: Sessions, session: string, paquera: string)
    requires Keyed(users) && AllValid(users) && FansMirrorIdols(users)
    ensures var us := AdicionarPaqueraStep(users, sessions, session, paquera).1;
      Keyed(us) && AllValid(us) && FansMirrorIdols(us)
  {
    if AdicionarPaqueraCheck(users, sessions, session, paquera) == Done {
      CourtKeepsStore(users, sessions[session], paquera);
    }
  }

  /** adicionarPaquera, in place. */
  method AdicionarPaquera(repo: UserRepository, session: string, paqueraLogin: string) returns (o: Outcome)
    requires repo.Valid()
    modifies repo
    ensures repo.Valid() && repo.sessions == old(repo.sessions)
    ensures (o, repo.users) == AdicionarPaqueraStep(old(repo.users), old(repo.sessions), session, paqueraLogin)
  {
    var u := repo.GetUserBySession(session);
    if u.Err? {
      return Failed(u.error);
    }
    var user := u.value;
    var p := repo.GetUserByLogin(paqueraLogin);
    if p.None? {
      return Failed(NotFoundUser(UserNotRegistered));
    }
    var paquera := p.value;
    if paqueraLogin in user.crushes {
      return Failed(CrushAlreadyAdded);
    }
    if paqueraLogin == user.login {
      return Failed(CrushOfItself(CrushSelf));
    }
    if user.login in paquera.enemies {
      return Failed(EnemyException(EnemyMessage(paquera.name)));
    }
    user := user.(crushes := user.crushes + [paqueraLogin]);
    repo.users := repo.users[user.login := user];
    if user.login in paquera.crushes {
      var systemMessage := Recado("jackut", CrushNotice(paquera.name), user.login);
      var systemMessagePaquera := Recado("jackut", CrushNotice(user.name), paquera.login);
      repo.users := repo.users[user.login := user.IncomingMessage(systemMessage)];
      repo.users := repo.users[paquera.login := paquera.IncomingMessage(systemMessagePaquera)];
    }
    o := Done;
  }

  /** removerPaquera as a transition: unknown session, then "not your
      crush", otherwise the login leaves the actor's crushes only. */
  function RemoverPaqueraStep(users: Users, sessions: Sessions, session: string, loginPaquera: string): (r: (Outcome, Users))
    ensures r.0.Failed? ==> r.1 == users
  {
    match SessionLogin(users, sessions, session)
    case Err(e) => (Failed(e), users)
    case Ok(me) =>
      if loginPaquera !in users[me].crushes then (Failed(Runtime(NotCrush)), users)
      else (Done, RemoveCrushFrom(users, me, loginPaquera))
  }

  /** A refused removerPaquera changes nothing; a successful one takes the
      login out of the actor's crushes (which stay duplicate-free), keeps
      the store, and touches no other list and no other user. */
  lemma RemoverPaqueraEffect(users: Users, sessions: Sessions, session: string, loginPaquera: string)
    requires Keyed(users) && AllValid(users) && FansMirrorIdols(users)
    ensures var (o, us) := RemoverPaqueraStep(users, sessions, session, loginPaquera);
      && (o.Failed? ==> us == users)
      && (o == Done <==> SessionLogin(users, sessions, session).Ok? && loginPaquera in users[sessions[session]].crushes)
      && (o == Done ==>
            && us.Keys == users.Keys
            && (forall k :: k in users && k != sessions[session] ==> us[k] == users[k])
            && loginPaquera !in us[sessions[session]].crushes
            && us[sessions[session]] == users[sessions[session]].(crushes := us[sessions[session]].crushes))
      && Keyed(us) && AllValid(us) && FansMirrorIdols(us)
  {
    var (o, us) := RemoverPaqueraStep(users, sessions, session, loginPaquera);
    if o == Done {
      var me := sessions[session];
      assert users[me].Valid();
      RemoveFirstFacts(users[me].crushes, loginPaquera);
      ReplaceKeepsStore(users, me, users[me].(crushes := RemoveFirst(users[me].crushes, loginPaquera)));
    }
  }

  /** A crush that was not mutual is undone by removerPaquera: every user
      is restored exactly. */
  lemma PaqueraRoundTrip(users: Users, sessions: Sessions, session: string, paquera: string)
    requires AdicionarPaqueraCheck(users, sessions, session, paquera) == Done
    requires sessions[session] !in users[paquera].crushes
    ensures var us := AdicionarPaqueraStep(users, sessions, session, paquera).1;
      RemoverPaqueraStep(us, sessions, session, paquera) == (Done, users)
  {
    var me := sessions[session];
    var us := AddCrushTo(users, me, paquera);
    assert AdicionarPaqueraStep(users, sessions, session, paquera).1 == us;
    assert SessionLogin(us, sessions, session) == Ok(me);
    assert paquera in us[me].crushes;
    CrushUndo(users, me, paquera);
  }

  /** removerPaquera, in place. */
  method RemoverPaquera(repo: UserRepository, session: string, loginPaquera: string) returns (o: Outcome)
    requires repo.Valid()
    modifies repo
    ensures repo.Valid() && repo.sessions == old(repo.sessions)
    ensures (o, repo.users) == RemoverPaqueraStep(old(repo.users), old(repo.sessions), session, loginPaquera)
  {
    var u := repo.GetUserBySession(session);
    if u.Err? {
      return Failed(u.error);
    }
    var user := u.value;
    if loginPaquera !in user.crushes {
      return Failed(Runtime(NotCrush));
    }
    repo.users := repo.users[user.login := user.(crushes := RemoveFirst(user.crushes, loginPaquera))];
    o := Done;
  }

  // -------------------------------------------------------------- enemies

  /** The effect of adicionarInimigo: the target joins the tail of the
      actor's enemies. */
  function AddEnemyTo(users: Users, me: string, x: string): Users
    requires me in users
  {
    users[me := users[me].(enemies := users[me].enemies + [x])]
  }

  /** The effect of removerInimigo: the first occurrence of the login leaves
      the actor's enemies. */
  function RemoveEnemyFrom(users: Users, me: string, x: string): Users
    requires me in users
  {
    users[me := users[me].(enemies := RemoveFirst(users[me].enemies, x))]
  }

  /** adicionarInimigo as a transition: unknown session, unknown target,
      already an enemy, self; otherwise the target joins the actor's
      enemies. */
  function AdicionarInimigoStep(users: Users, sessions: Sessions, session: string, loginInimigo: string): (r: (Outcome, Users))
    ensures r.0.Failed? ==> r.1 == users
  {
    match SessionLogin(users, sessions, session)
    case Err(e) => (Failed(e), users)
    case Ok(me) =>
      if loginInimigo !in users then (Failed(NotFoundUser(UserNotRegistered)), users)
      else if loginInimigo in users[me].enemies then (Failed(EnemyAlreadyAdded(EnemyTwice)), users)
      else if loginInimigo == me then (Failed(EnemyOfItself(EnemySelf)), users)
      else (Done, AddEnemyTo(users, me, loginInimigo))
  }

  /** adicionarInimigo succeeds exactly when the target is a known other
      user not yet an enemy; then only the actor's enemy list changes, the
      target becomes an enemy (ehInimigo holds), and the store is kept. */
  lemma AdicionarInimigoEffect(users: Users, sessions: Sessions, session: string, loginInimigo: string)
    requires Keyed(users) && AllValid(users) && FansMirrorIdols(users)
    ensures var (o, us) := AdicionarInimigoStep(users, sessions, session, loginInimigo);
      && (o == Done <==> SessionLogin(users, sessions, session).Ok? && loginInimigo in users
                         && loginInimigo !in users[sessions[session]].enemies && loginInimigo != sessions[session])
      && (o == Done ==>
            && us.Keys == users.Keys
            && (forall k :: k in users && k != sessions[session] ==> us[k] == users[k])
            && us[sessions[session]] == users[sessions[session]].(enemies := us[sessions[session]].enemies)
            && us[sessions[session]].enemies == users[sessions[session]].enemies + [loginInimigo])
      && Keyed(us) && AllValid(us) && FansMirrorIdols(us)
  {
    var (o, us) := AdicionarInimigoStep(users, sessions, session, loginInimigo);
    if o == Done {
      var me := sessions[session];
      assert users[me].Valid();
      NoDupSnoc(users[me].enemies, loginInimigo);
      ReplaceKeepsStore(users, me, users[me].(enemies := users[me].enemies + [loginInimigo]));
    }
  }

  /** adicionarInimigo, in place. */
  method AdicionarInimigo(repo: UserRepository, session: string, loginInimigo: string) returns (o: Outcome)
    requires repo.Valid()
    modifies repo
    ensures repo.Valid() && repo.sessions == old(repo.sessions)
    ensures (o, repo.users) == AdicionarInimigoStep(old(repo.users), old(repo.sessions), session, loginInimigo)
  {
    var u := repo.GetUserBySession(session);
    if u.Err? {
      return Failed(u.error);
    }
    var user := u.value;
    var enemy := repo.GetUserByLogin(loginInimigo);
    if enemy.None? {
      return Failed(NotFoundUser(UserNotRegistered));
    }
    if loginInimigo in user.enemies {
      return Failed(EnemyAlreadyAdded(EnemyTwice));
    }
    if loginInimigo == user.login {
      return Failed(EnemyOfItself(EnemySelf));
    }
    repo.users := repo.users[user.login := user.(enemies := user.enemies + [loginInimigo])];
    o := Done;
  }

  /** removerInimigo as a transition: unknown session, then "not your
      enemy", otherwise the login leaves the actor's enemies only. */
  function RemoverInimigoStep(users: Users, sessions: Sessions, session: string, loginInimigo: string): (r: (Outcome, Users))
    ensures r.0.Failed? ==> r.1 == users
    ensures r.0 == Done <==> SessionLogin(users, sessions, session).Ok? && loginInimigo in users[sessions[session]].enemies
    ensures SessionLogin(users, sessions, session).Ok? && loginInimigo !in users[sessions[session]].enemies ==>
              r.0 == Failed(Runtime(NotEnemy))
  {
    match SessionLogin(users, sessions, session)
    case Err(e) => (Failed(e), users)
    case Ok(me) =>
      if loginInimigo !in users[me].enemies then (Failed(Runtime(NotEnemy)), users)
      else (Done, RemoveEnemyFrom(users, me, loginInimigo))
  }

  /** A successful removerInimigo takes the login out of the actor's
      enemies (which stay duplicate-free), keeps every other enemy, keeps
      the store, and touches no other list and no other user. */
  lemma RemoverInimigoEffect(users: Users, sessions: Sessions, session: string, loginInimigo: string)
    requires Keyed(users) && AllValid(users) && FansMirrorIdols(users)
    ensures var (o, us) := RemoverInimigoStep(users, sessions, session, loginInimigo);
      && (o == Done ==>
            && us.Keys == users.Keys
            && (forall k :: k in users && k != sessions[session] ==> us[k] == users[k])
            && loginInimigo !in us[sessions[session]].enemies
            && (forall e :: e in users[sessions[session]].enemies && e != loginInimigo ==> e in us[sessions[session]].enemies)
            && us[sessions[session]] == users[sessions[session]].(enemies := us[sessions[session]].enemies))
      && Keyed(us) && AllValid(us) && FansMirrorIdols(us)
  {
    var (o, us) := RemoverInimigoStep(users, sessions, session, loginInimigo);
    if o == Done {
      var me := sessions[session];
      assert users[me].Valid();
      RemoveFirstFacts(users[me].enemies, loginInimigo);
      ReplaceKeepsStore(users, me, users[me].(enemies := RemoveFirst(users[me].enemies, loginInimigo)));
    }
  }

  /** Removing an enemy just added restores the users exactly. */
  lemma EnemyUndo(users: Users, me: string, x: string)
    requires me in users && x !in users[me].enemies
    ensures RemoveEnemyFrom(AddEnemyTo(users, me, x), me, x) == users
  {
    var e := users[me].enemies;
    RemoveFirstAfterPrefix(e, [x]);
    assert e + [x][1..] == e;
    assert RemoveEnemyFrom(AddEnemyTo(users, me, x), me, x) == users[me := users[me]];
  }

  /** removerInimigo undoes adicionarInimigo. */
  lemma InimigoRoundTrip(users: Users, sessions: Sessions, session: string, loginInimigo: string)
    requires AdicionarInimigoStep(users, sessions, session, loginInimigo).0 == Done
    ensures var us := AdicionarInimigoStep(users, sessions, session, loginInimigo).1;
      RemoverInimigoStep(us, sessions, session, loginInimigo) == (Done, users)
  {
    var me := sessions[session];
    var us := AddEnemyTo(users, me, loginInimigo);
    assert AdicionarInimigoStep(users, sessions, session, loginInimigo).1 == us;
    assert SessionLogin(us, sessions, session) == Ok(me);
    assert loginInimigo in us[me].enemies;
    EnemyUndo(users, me, loginInimigo);
  }

  /** removerInimigo, in place. */
  method RemoverInimigo(repo: UserRepository, session: string, loginInimigo: string) returns (o: Outcome)
    requires repo.Valid()
    modifies repo
    ensures repo.Valid() && repo.sessions == old(repo.sessions)
    ensures (o, repo.users) == RemoverInimigoStep(old(repo.users), old(repo.sessions), session, loginInimigo)
  {
    var u := repo.GetUserBySession(session);
    if u.Err? {
      return Failed(u.error);
    }
    var user := u.value;
    if loginInimigo !in user.enemies {
      return Failed(Runtime(NotEnemy));
    }
    repo.users := repo.users[user.login := user.(enemies := RemoveFirst(user.enemies, loginInimigo))];
    o := Done;
  }
}
