/** Direct messages (services/MessageService.java): sending a recado to
    another user's queue, and reading the oldest one of one's own queue. */
module MessageServices {
  import opened Errors
  import opened Recados
  import opened UserModel
  import opened UserRepo

  const NoMessages := "Não há recados."

  /** The refusals of sendMessage: unknown session, unknown recipient, self,
      the recipient lists the sender as enemy. */
  function SendMessageCheck(users: Users, sessions: Sessions, sessionId: string, destinatario: string): (o: Outcome)
    ensures o == Done <==> (SessionLogin(users, sessions, sessionId).Ok? && destinatario in users
                            && sessions[sessionId] != destinatario
                            && sessions[sessionId] !in users[destinatario].enemies)
  {
    match SessionLogin(users, sessions, sessionId)
    case Err(e) => Failed(e)
    case Ok(me) =>
      if destinatario !in users then Failed(NotFoundUser(UserNotRegistered))
      else if me == destinatario then Failed(SelfMessage)
      else if me in users[destinatario].enemies then Failed(InvalidFriendOp(EnemyMessage(users[destinatario].name)))
      else Done
  }

  /** The recado joins the tail of its recipient's queue. */
  function Deliver(users: Users, recado: Recado): Users
    requires recado.destinatario in users
  {
    users[recado.destinatario := users[recado.destinatario].IncomingMessage(recado)]
  }

  /** sendMessage as a transition: a refusal changes nothing. */
  function SendMessageStep(users: Users, sessions: Sessions, sessionId: string, destinatario: string, mensagem: string): (r: (Outcome, Users))
    ensures r.0 == SendMessageCheck(users, sessions, sessionId, destinatario)
    ensures r.0.Failed? ==> r.1 == users
  {
    var o := SendMessageCheck(users, sessions, sessionId, destinatario);
    if o.Failed? then (o, users) else (Done, Deliver(users, Recado(sessions[sessionId], mensagem, destinatario)))
  }

  /** A delivered message adds exactly one recado (sender, text, recipient)
      at the tail of the recipient's queue; the sender and everyone else are
      unchanged, and the store is kept. */
  lemma SendMessageEffect(users: Users, sessions: Sessions, sessionId: string, destinatario: string, mensagem: string)
    requires Keyed(users) && AllValid(users) && FansMirrorIdols(users)
    requires SendMessageCheck(users, sessions, sessionId, destinatario) == Done
    ensures var us := SendMessageStep(users, sessions, sessionId, destinatario, mensagem).1;
      && us.Keys == users.Keys
      && (forall k :: k in users && k != destinatario ==> us[k] == users[k])
      && us[sessions[sessionId]] == users[sessions[sessionId]]
      && us[destinatario] == users[destinatario].(recados := users[destinatario].recados
                                                 + [Recado(sessions[sessionId], mensagem, destinatario)])
      && Keyed(us) && AllValid(us) && FansMirrorIdols(us)
  {
    assert users[destinatario].Valid();
    ReplaceKeepsStore(users, destinatario,
                      users[destinatario].IncomingMessage(Recado(sessions[sessionId], mensagem, destinatario)));
  }

  /** sendMessage, in place. */
  method SendMessage(repo: UserRepository, sessionId: string, destinatario: string, mensagem: string) returns (o: Outcome)
    requires repo.Valid()
    modifies repo
    ensures repo.Valid() && repo.sessions == old(repo.sessions)
    ensures (o, repo.users) == SendMessageStep(old(repo.users), old(repo.sessions), sessionId, destinatario, mensagem)
  {
    var s := repo.GetUserBySession(sessionId);
    if s.Err? {
      return Failed(s.error);
    }
    var sender := s.value;
    var r := repo.GetUserByLogin(destinatario);
    if r.None? {
      return Failed(NotFoundUser(UserNotRegistered));
    }
    var recipient := r.value;
    if sender.login == destinatario {
      return Failed(SelfMessage);
    }
    if sender.login in recipient.enemies {
      return Failed(InvalidFriendOp(EnemyMessage(recipient.name)));
    }
    var recado := Recado(sender.login, mensagem, destinatario);
    repo.users := repo.users[destinatario := recipient.IncomingMessage(recado)];
    o := Done;
  }

  /** readMessage as a transition: the text of the oldest recado, which
      leaves the queue; "Não há recados." on an empty queue, with nothing
      changed. */
  function ReadMessageStep(users: Users, sessions: Sessions, sessionId: string): (r: (Result<string>, Users))
    ensures r.0.Err? ==> r.1 == users
    ensures r.0.Err? <==> SessionLogin(users, sessions, sessionId).Err? || users[sessions[sessionId]].recados == []
    ensures (SessionLogin(users, sessions, sessionId).Ok? && users[sessions[sessionId]].recados == []) ==>
              r.0 == Err(NotFoundMessage(NoMessages))
    ensures r.0.Ok? ==> var me := sessions[sessionId];
      && r.0.value == users[me].recados[0].mensagem
      && r.1 == users[me := users[me].(recados := users[me].recados[1..])]
  {
    match SessionLogin(users, sessions, sessionId)
    case Err(e) => (Err(e), users)
    case Ok(me) =>
      if users[me].recados == [] then (Err(NotFoundMessage(NoMessages)), users)
      else (Ok(users[me].recados[0].mensagem), users[me := users[me].(recados := users[me].recados[1..])])
  }

  /** readMessage, in place. */
  method ReadMessage(repo: UserRepository, sessionId: string) returns (r: Result<string>)
    requires repo.Valid()
    modifies repo
    ensures repo.Valid() && repo.sessions == old(repo.sessions)
    ensures (r, repo.users) == ReadMessageStep(old(repo.users), old(repo.sessions), sessionId)
  {
    var u := repo.GetUserBySession(sessionId);
    if u.Err? {
      return Err(u.error);
    }
    var user := u.value;
    if user.recados == [] {
      return Err(NotFoundMessage(NoMessages));
    }
    var recado := user.recados[0];
    repo.users := repo.users[user.login := user.(recados := user.recados[1..])];
    r := Ok(recado.mensagem);
  }

  /** Round trip: a message sent to a user whose queue is empty is what that
      user reads next, and reading it leaves every user as before the send. */
  lemma SendThenRead(users: Users, sessions: Sessions, sessionId: string, destinatario: string, mensagem: string,
                     readerSession: string)
    requires SendMessageCheck(users, sessions, sessionId, destinatario) == Done
    requires readerSession in sessions && sessions[readerSession] == destinatario
    requires users[destinatario].recados == []
    ensures var us := SendMessageStep(users, sessions, sessionId, destinatario, mensagem).1;
      ReadMessageStep(us, sessions, readerSession) == (Ok(mensagem), users)
  {
    var m := Recado(sessions[sessionId], mensagem, destinatario);
    var us := Deliver(users, m);
    assert SendMessageStep(users, sessions, sessionId, destinatario, mensagem).1 == us;
    assert us[destinatario].recados == [m] && [m][1..] == [];
    assert SessionLogin(us, sessions, readerSession) == Ok(destinatario);
    assert ReadMessageStep(us, sessions, readerSession)
        == (Ok(mensagem), us[destinatario := us[destinatario].(recados := [])]);
    assert us[destinatario].(recados := []) == users[destinatario];
    assert us[destinatario := users[destinatario]] == users;
  }

  /** The queue is first in, first out: when the recipient already has
      messages, sending and then reading gives the same text as reading
      first, and the same final users as reading then sending. */
  lemma SendThenReadFifo(users: Users, sessions: Sessions, sessionId: string, destinatario: string, mensagem: string,
                         readerSession: string)
    requires SendMessageCheck(users, sessions, sessionId, destinatario) == Done
    requires readerSession in sessions && sessions[readerSession] == destinatario
    requires users[destinatario].recados != []
    ensures var us := SendMessageStep(users, sessions, sessionId, destinatario, mensagem).1;
      var (text, vs) := ReadMessageStep(users, sessions, readerSession);
      && text.Ok?
      && ReadMessageStep(us, sessions, readerSession).0 == text
      && ReadMessageStep(us, sessions, readerSession).1 == Deliver(vs, Recado(sessions[sessionId], mensagem, destinatario))
  {
    var m := Recado(sessions[sessionId], mensagem, destinatario);
    var q := users[destinatario].recados;
    var us := Deliver(users, m);
    assert SendMessageStep(users, sessions, sessionId, destinatario, mensagem).1 == us;
    assert us[destinatario].recados == q + [m];
    assert (q + [m])[0] == q[0] && (q + [m])[1..] == q[1..] + [m];
  }
}
