/** The legacy store (Facade.java in the root package): users keyed by login
    and sessions keyed by token, with registration, sessions, profile edits,
    friendship and direct messages. Every refusal is a RuntimeException
    carrying a fixed message. A session holds the user object itself; here
    it records that user's current login, so a change of login re-points
    the sessions of that user. */
module LegacyFacade {
  import opened Lists
  import opened Text
  import opened Errors
  import opened LegacyMessages
  import opened LegacyUsers

  const UserNotFound := "Usuário não cadastrado."
  const InvalidLoginMessage := "Login inválido."
  const InvalidPasswordMessage := "Senha inválida."
  const AccountExists := "Conta com esse nome já existe."
  const BadCredentials := "Login ou senha inválidos."
  const SelfFriend := "Usuário não pode adicionar a si mesmo como amigo."
  const AlreadyFriend := "Usuário já está adicionado como amigo."
  const AlreadyRequested := "Usuário já está adicionado como amigo, esperando aceitação do convite."
  const SelfRecado := "Usuário não pode enviar recado para si mesmo."
  const NoMessages := "Não há recados."

  type Users = map<string, User>
  type Sessions = map<string, string>

  /** Every user is stored under its own login. */
  ghost predicate Keyed(users: Users) {
    forall k :: k in users ==> users[k].login == k
  }

  /** Every user keeps its friend and request lists duplicate-free. */
  ghost predicate AllValid(users: Users) {
    forall k :: k in users ==> users[k].Valid()
  }

  /** Every session belongs to a stored user. */
  ghost predicate SessionsOk(users: Users, sessions: Sessions) {
    forall t :: t in sessions ==> sessions[t] in users
  }

  /** Friendship is mutual between stored users. */
  ghost predicate FriendsSymmetric(users: Users) {
    forall a, b :: a in users && b in users ==> (b in users[a].friends <==> a in users[b].friends)
  }

  /** A change confined to the friends of two users keeps friendship
      mutual when each of the two changes only toward the other and the two
      agree on each other afterwards. */
  lemma PairKeepsSymmetry(users: Users, us: Users, a0: string, b0: string)
    requires FriendsSymmetric(users) && us.Keys == users.Keys && a0 in users && b0 in users
    requires forall k :: k in us && k != a0 && k != b0 ==> us[k].friends == users[k].friends
    requires forall y :: y != b0 ==> (y in us[a0].friends <==> y in users[a0].friends)
    requires forall y :: y != a0 ==> (y in us[b0].friends <==> y in users[b0].friends)
    requires b0 in us[a0].friends <==> a0 in us[b0].friends
    ensures FriendsSymmetric(us)
  {
    forall a, b | a in us && b in us ensures b in us[a].friends <==> a in us[b].friends {
      assert b in users[a].friends <==> a in users[b].friends;
      if a != a0 && a != b0 {
        assert us[a].friends == users[a].friends;
      }
      if b != a0 && b != b0 {
        assert us[b].friends == users[b].friends;
      }
    }
  }

  // ----------------------------------------------------------- criarUsuario

  /** criarUsuario as a transition: the login rule, the password rule, a
      taken login; otherwise a fresh user, a null name stored as "". */
  function CriarUsuarioStep(users: Users, login: Option<string>, senha: Option<string>, nome: Option<string>): (r: (Outcome, Users))
    ensures r.0.Failed? ==> r.1 == users
    ensures InvalidLogin(login) ==> r.0 == Failed(Runtime(InvalidLoginMessage))
    ensures !InvalidLogin(login) && InvalidPassword(senha) ==> r.0 == Failed(Runtime(InvalidPasswordMessage))
    ensures !InvalidLogin(login) && !InvalidPassword(senha) && login.value in users ==> r.0 == Failed(Runtime(AccountExists))
    ensures r.0 == Done <==> !InvalidLogin(login) && !InvalidPassword(senha) && login.value !in users
    ensures r.0 == Done ==> r.1 == users[login.value := NewUser(if nome.Some? then nome.value else "", login.value, senha.value)]
  {
    if InvalidLogin(login) then (Failed(Runtime(InvalidLoginMessage)), users)
    else if InvalidPassword(senha) then (Failed(Runtime(InvalidPasswordMessage)), users)
    else if login.value in users then (Failed(Runtime(AccountExists)), users)
    else (Done, users[login.value := NewUser(if nome.Some? then nome.value else "", login.value, senha.value)])
  }

  /** A new account keeps the store: it has no friends and no request, so
      no friendship becomes one-sided. */
  lemma CriarUsuarioKeepsStore(users: Users, sessions: Sessions, login: Option<string>, senha: Option<string>, nome: Option<string>)
    requires Keyed(users) && AllValid(users) && SessionsOk(users, sessions) && FriendsSymmetric(users)
    requires forall k, x :: k in users && x in users[k].friends ==> x in users
    ensures var us := CriarUsuarioStep(users, login, senha, nome).1;
      Keyed(us) && AllValid(us) && SessionsOk(us, sessions) && FriendsSymmetric(us)
  {
    var (o, us) := CriarUsuarioStep(users, login, senha, nome);
    if o == Done {
      var l := login.value;
      forall a, b | a in us && b in us ensures b in us[a].friends <==> a in us[b].friends {
        if a != l && b != l {
          assert b in users[a].friends <==> a in users[b].friends;
        } else if a != l {
          assert l !in users[a].friends;
        } else if b != l {
          assert l !in users[b].friends;
        }
      }
    }
  }

  // ------------------------------------------------------------ editarPerfil

  /** Sessions of the renamed user follow it to its new login. */
  function Repoint(sessions: Sessions, from: string, to: string): (r: Sessions)
    ensures r.Keys == sessions.Keys
    ensures forall t :: t in r ==> r[t] == (if sessions[t] == from then to else sessions[t])
  {
    map t | t in sessions :: if sessions[t] == from then to else sessions[t]
  }

  /** editarPerfil as a transition. A change of login is refused whenever
      the new login is a key, the user's own included, and is otherwise
      applied with no length check: the record moves to the new key. */
  function EditarPerfilStep(users: Users, sessions: Sessions, id: string, atributo: string, valor: string): (r: (Outcome, Users, Sessions))
    requires SessionsOk(users, sessions)
    ensures r.0.Failed? ==> r.1 == users && r.2 == sessions
    ensures r.0.Failed? <==> id !in sessions || (atributo == "login" && valor in users)
    ensures id !in sessions ==> r.0 == Failed(Runtime(UserNotFound))
    ensures id in sessions && atributo == "login" && valor in users ==> r.0 == Failed(Runtime(InvalidLoginMessage))
  {
    if id !in sessions then (Failed(Runtime(UserNotFound)), users, sessions)
    else
      var me := sessions[id];
      var u := users[me];
      match atributo
      case "nome" => (Done, users[me := u.(name := valor)], sessions)
      case "senha" => (Done, users[me := u.(password := valor)], sessions)
      case "login" =>
        if valor in users then (Failed(Runtime(InvalidLoginMessage)), users, sessions)
        else (Done, (users - {me})[valor := u.(login := valor)], Repoint(sessions, me, valor))
      case _ => (Done, users[me := u.SetAttributeExtra(atributo, valor)], sessions)
  }

  /** A change of login moves the record, with everything but its login
      unchanged, to the new key; the old key is gone, every session of the
      user follows it, other users are untouched (so their lists still name
      the old login), and the store stays keyed. */
  lemma RenameEffect(users: Users, sessions: Sessions, id: string, valor: string)
    requires Keyed(users) && SessionsOk(users, sessions)
    requires id in sessions && valor !in users
    ensures var (o, us, ss) := EditarPerfilStep(users, sessions, id, "login", valor);
      var me := sessions[id];
      && o == Done
      && us.Keys == users.Keys - {me} + {valor} && me !in us
      && us[valor] == users[me].(login := valor)
      && (forall k :: k in users && k != me ==> us[k] == users[k])
      && ss.Keys == sessions.Keys && ss[id] == valor
      && (forall t :: t in ss ==> (sessions[t] == me ==> ss[t] == valor) && (sessions[t] != me ==> ss[t] == sessions[t]))
      && Keyed(us) && SessionsOk(us, ss)
  {
  }

  /** A user cannot re-enter its own login: the key is taken by itself. */
  lemma RenameToOwnLoginRefused(users: Users, sessions: Sessions, id: string)
    requires SessionsOk(users, sessions) && id in sessions
    ensures EditarPerfilStep(users, sessions, id, "login", sessions[id]).0 == Failed(Runtime(InvalidLoginMessage))
  {
  }

  /** A change of login leaves friendship one-sided: a friend of the user
      still names the old login, which no longer is a key. */
  lemma RenameLeavesStaleFriend(users: Users, sessions: Sessions, id: string, valor: string, friend: string)
    requires Keyed(users) && SessionsOk(users, sessions)
    requires id in sessions && valor !in users
    requires friend in users && friend != sessions[id] && sessions[id] in users[friend].friends
    ensures var us := EditarPerfilStep(users, sessions, id, "login", valor).1;
      friend in us && sessions[id] in us[friend].friends && sessions[id] !in us
  {
  }

  // ----------------------------------------------------------- adicionarAmigo

  /** The refusals of adicionarAmigo, in order: unknown session, unknown
      target, self, already friends, already requested. There is no enemy
      check in this layer. */
  function AdicionarAmigoCheck(users: Users, sessions: Sessions, id: string, amigo: string): (o: Outcome)
    requires SessionsOk(users, sessions)
    ensures o == Done <==> (id in sessions && amigo in users && sessions[id] != amigo
                            && amigo !in users[sessions[id]].friends
                            && sessions[id] !in users[amigo].friendSolicitation)
  {
    if id !in sessions then Failed(Runtime(UserNotFound))
    else
      var me := sessions[id];
      if amigo !in users then Failed(Runtime(UserNotFound))
      else if me == amigo then Failed(Runtime(SelfFriend))
      else if amigo in users[me].friends then Failed(Runtime(AlreadyFriend))
      else if me in users[amigo].friendSolicitation then Failed(Runtime(AlreadyRequested))
      else Done
  }

  /** Accepting a pending request: both friend lists get the other's login
      at the tail, and the request leaves the actor's list. */
  function Befriend(users: Users, me: string, amigo: string): Users
    requires me in users && amigo in users
  {
    var us := users[me := users[me].(friends := users[me].friends + [amigo])];
    var vs := us[amigo := us[amigo].(friends := us[amigo].friends + [me])];
    vs[me := vs[me].(friendSolicitation := RemoveFirst(vs[me].friendSolicitation, amigo))]
  }

  /** Recording a request at the target. */
  function Invite(users: Users, me: string, amigo: string): Users
    requires amigo in users
  {
    users[amigo := users[amigo].AddFriendSolicitation(me)]
  }

  /** adicionarAmigo as a transition: a refusal changes nothing; a pending
      request from the target is accepted, otherwise one is recorded. */
  function AdicionarAmigoStep(users: Users, sessions: Sessions, id: string, amigo: string): (r: (Outcome, Users))
    requires SessionsOk(users, sessions)
    ensures r.0 == AdicionarAmigoCheck(users, sessions, id, amigo)
    ensures r.0.Failed? ==> r.1 == users
  {
    var o := AdicionarAmigoCheck(users, sessions, id, amigo);
    if o.Failed? then (o, users)
    else
      var me := sessions[id];
      if amigo in users[me].friendSolicitation then (Done, Befriend(users, me, amigo))
      else (Done, Invite(users, me, amigo))
  }

  /** Accepting makes the two users friends of each other and clears the
      request; nobody else changes; the store invariants are kept (the raw
      appends keep the lists duplicate-free only because friendship was
      mutual). */
  lemma BefriendEffect(users: Users, me: string, amigo: string)
    requires Keyed(users) && AllValid(users) && FriendsSymmetric(users)
    requires me in users && amigo in users && me != amigo && amigo !in users[me].friends
    ensures var us := Befriend(users, me, amigo);
      && us.Keys == users.Keys
      && (forall k :: k in users && k != me && k != amigo ==> us[k] == users[k])
      && us[me].friends == users[me].friends + [amigo] && us[amigo].friends == users[amigo].friends + [me]
      && amigo !in us[me].friendSolicitation
      && us[amigo].friendSolicitation == users[amigo].friendSolicitation
      && Keyed(us) && AllValid(us) && FriendsSymmetric(us)
  {
    var us := Befriend(users, me, amigo);
    assert users[me].Valid() && users[amigo].Valid();
    assert me !in users[amigo].friends;
    NoDupSnoc(users[me].friends, amigo);
    NoDupSnoc(users[amigo].friends, me);
    RemoveFirstFacts(users[me].friendSolicitation, amigo);
    assert us[me] == users[me].(friends := users[me].friends + [amigo],
                                friendSolicitation := RemoveFirst(users[me].friendSolicitation, amigo));
    assert us[amigo] == users[amigo].(friends := users[amigo].friends + [me]);
    PairKeepsSymmetry(users, us, me, amigo);
  }

  /** A recorded request touches only the target's request list and keeps
      the store. */
  lemma InviteEffect(users: Users, me: string, amigo: string)
    requires Keyed(users) && AllValid(users) && FriendsSymmetric(users)
    requires amigo in users
    ensures var us := Invite(users, me, amigo);
      && us.Keys == users.Keys
      && (forall k :: k in users && k != amigo ==> us[k] == users[k])
      && us[amigo].friends == users[amigo].friends
      && me in us[amigo].friendSolicitation
      && Keyed(us) && AllValid(us) && FriendsSymmetric(us)
  {
    var us := Invite(users, me, amigo);
    assert users[amigo].Valid();
    PairKeepsSymmetry(users, us, amigo, amigo);
  }

  /** A request answered by the other side makes both users friends:
      after a records a request at b, b's adicionarAmigo of a accepts it. */
  lemma RequestThenAccept(users: Users, sessions: Sessions, ida: string, idb: string)
    requires Keyed(users) && AllValid(users) && FriendsSymmetric(users) && SessionsOk(users, sessions)
    requires ida in sessions && idb in sessions
    requires AdicionarAmigoCheck(users, sessions, ida, sessions[idb]) == Done
    requires sessions[idb] !in users[sessions[ida]].friendSolicitation
    ensures var a, b := sessions[ida], sessions[idb];
      var us := AdicionarAmigoStep(users, sessions, ida, b).1;
      var (o, vs) := AdicionarAmigoStep(us, sessions, idb, a);
      o == Done && b in vs[a].friends && a in vs[b].friends
  {
    var a, b := sessions[ida], sessions[idb];
    var us := Invite(users, a, b);
    InviteEffect(users, a, b);
    assert b !in users[a].friends;
    assert a !in us[b].friends;
    assert b !in us[a].friendSolicitation;
    BefriendEffect(us, b, a);
  }

  lemma AdicionarAmigoKeepsStore(users: Users, sessions: Sessions, id: string, amigo: string)
    requires Keyed(users) && AllValid(users) && FriendsSymmetric(users) && SessionsOk(users, sessions)
    ensures var us := AdicionarAmigoStep(users, sessions, id, amigo).1;
      Keyed(us) && AllValid(us) && FriendsSymmetric(us) && SessionsOk(us, sessions)
  {
    if AdicionarAmigoCheck(users, sessions, id, amigo) == Done {
      var me := sessions[id];
      if amigo in users[me].friendSolicitation {
        BefriendEffect(users, me, amigo);
      } else {
        InviteEffect(users, me, amigo);
      }
    }
  }

  // ------------------------------------------------------------- messages

  /** enviarRecado as a transition: unknown session, unknown recipient,
      self; otherwise the message joins the tail of the recipient's queue. */
  function EnviarRecadoStep(users: Users, sessions: Sessions, id: string, destinatario: string, mensagem: string): (r: (Outcome, Users))
    requires SessionsOk(users, sessions)
    ensures r.0.Failed? ==> r.1 == users
    ensures r.0 == Done <==> id in sessions && destinatario in users && sessions[id] != destinatario
    ensures r.0 == Done ==> r.1 == users[destinatario := users[destinatario].(messages := users[destinatario].messages
                                                           + [Message(sessions[id], mensagem, destinatario)])]
  {
    if id !in sessions then (Failed(Runtime(UserNotFound)), users)
    else if destinatario !in users then (Failed(Runtime(UserNotFound)), users)
    else if sessions[id] == destinatario then (Failed(Runtime(SelfRecado)), users)
    else (Done, users[destinatario := users[destinatario].IncomingMessage(Message(sessions[id], mensagem, destinatario))])
  }

  /** lerRecado as a transition: the text of the oldest message, which
      leaves the queue; "Não há recados." on an empty queue. */
  function LerRecadoStep(users: Users, sessions: Sessions, id: string): (r: (Result<string>, Users))
    requires SessionsOk(users, sessions)
    ensures r.0.Err? ==> r.1 == users
    ensures id in sessions && users[sessions[id]].messages == [] ==> r.0 == Err(Runtime(NoMessages))
    ensures r.0.Ok? <==> id in sessions && users[sessions[id]].messages != []
    ensures r.0.Ok? ==> var me := sessions[id];
      && r.0.value == users[me].messages[0].mensagem
      && r.1 == users[me := users[me].(messages := users[me].messages[1..])]
  {
    if id !in sessions then (Err(Runtime(UserNotFound)), users)
    else
      var me := sessions[id];
      if users[me].messages == [] then (Err(Runtime(NoMessages)), users)
      else (Ok(users[me].messages[0].mensagem), users[me := users[me].(messages := users[me].messages[1..])])
  }

  /** The queue is first in, first out: reading a recipient's queue to the
      end after a send yields the texts already queued, then the sent one.
      Stated one step at a time: the head read is unaffected by the send
      when the queue was non-empty, and is the sent text when it was empty,
      with the store back as before. */
  lemma SendThenRead(users: Users, sessions: Sessions, id: string, destinatario: string, mensagem: string, readerId: string)
    requires SessionsOk(users, sessions)
    requires EnviarRecadoStep(users, sessions, id, destinatario, mensagem).0 == Done
    requires readerId in sessions && sessions[readerId] == destinatario
    ensures var us := EnviarRecadoStep(users, sessions, id, destinatario, mensagem).1;
      var (text, vs) := LerRecadoStep(us, sessions, readerId);
      && (users[destinatario].messages == [] ==> text == Ok(mensagem) && vs == users)
      && (users[destinatario].messages != [] ==>
            text == LerRecadoStep(users, sessions, readerId).0
            && vs == EnviarRecadoStep(LerRecadoStep(users, sessions, readerId).1, sessions, id, destinatario, mensagem).1)
  {
    var m := Message(sessions[id], mensagem, destinatario);
    var q := users[destinatario].messages;
    var us := EnviarRecadoStep(users, sessions, id, destinatario, mensagem).1;
    assert us[destinatario].messages == q + [m];
    if q == [] {
      assert us[destinatario].messages == [m] && [m][1..] == [];
      assert LerRecadoStep(us, sessions, readerId)
          == (Ok(mensagem), us[destinatario := us[destinatario].(messages := [])]);
      assert us[destinatario].(messages := []) == users[destinatario];
      assert us[destinatario := users[destinatario]] == users;
    } else {
      assert (q + [m])[0] == q[0] && (q + [m])[1..] == q[1..] + [m];
    }
  }

  // -------------------------------------------------------------- store

  class Facade {
    var users: Users
    /** Token to the login of the user the session was opened for. */
    var sessions: Sessions

    ghost predicate Valid()
      reads this
    {
      Keyed(users) && SessionsOk(users, sessions)
    }

    constructor ()
      ensures Valid() && users == map[] && sessions == map[]
    {
      users := map[];
      sessions := map[];
    }

    /** The in-memory part of zerarSistema: both maps cleared. */
    method ZerarSistema()
      modifies this
      ensures Valid() && users == map[] && sessions == map[]
    {
      users := map[];
      sessions := map[];
    }

    method CriarUsuario(login: Option<string>, senha: Option<string>, nome: Option<string>) returns (o: Outcome)
      requires Valid()
      modifies this
      ensures Valid() && sessions == old(sessions)
      ensures (o, users) == CriarUsuarioStep(old(users), login, senha, nome)
    {
      if InvalidLogin(login) {
        return Failed(Runtime(InvalidLoginMessage));
      }
      if InvalidPassword(senha) {
        return Failed(Runtime(InvalidPasswordMessage));
      }
      if login.value in users {
        return Failed(Runtime(AccountExists));
      }
      var name := if nome.None? then "" else nome.value;
      users := users[login.value := NewUser(name, login.value, senha.value)];
      o := Done;
    }

    /** getAtributoUsuario: the three fields by name, any other key from the
        attributes (an empty stored value included). */
    function GetAtributoUsuario(login: string, atributo: string): (r: Result<string>)
      reads this
      ensures login !in users ==> r == Err(Runtime(UserNotFound))
      ensures login in users && atributo == "nome" ==> r == Ok(users[login].name)
      ensures login in users && atributo == "senha" ==> r == Ok(users[login].password)
      ensures login in users && atributo == "login" ==> r == Ok(users[login].login)
      ensures login in users && atributo !in {"nome", "senha", "login"} ==>
                (r.Ok? <==> atributo in users[login].attributes)
                && (r.Ok? ==> r.value == users[login].attributes[atributo])
                && (r.Err? ==> r.error == Runtime(AttributeNotFilled))
    {
      if login !in users then Err(Runtime(UserNotFound))
      else
        var user := users[login];
        match atributo
        case "nome" => Ok(user.name)
        case "senha" => Ok(user.password)
        case "login" => Ok(user.login)
        case _ => user.GetAttributeExtra(atributo)
    }

    /** abrirSessao: a session opens only for a stored user with the right
        password, under the token login + "_" + millis, and maps to that
        user. */
    method AbrirSessao(login: string, senha: string, millis: nat) returns (r: Result<string>)
      requires Valid()
      modifies this
      ensures Valid() && users == old(users)
      ensures r.Ok? <==> login in users && users[login].CheckPassword(senha)
      ensures r.Err? ==> r.error == Runtime(BadCredentials) && sessions == old(sessions)
      ensures r.Ok? ==> r.value == SessionId(login, millis)
                        && sessions == old(sessions)[r.value := login]
                        && users[sessions[r.value]].login == login
    {
      if login in users && users[login].CheckPassword(senha) {
        var sessionId := SessionId(login, millis);
        sessions := sessions[sessionId := login];
        return Ok(sessionId);
      }
      r := Err(Runtime(BadCredentials));
    }

    method EditarPerfil(id: string, atributo: string, valor: string) returns (o: Outcome)
      requires Valid()
      modifies this
      ensures Valid()
      ensures (o, users, sessions) == EditarPerfilStep(old(users), old(sessions), id, atributo, valor)
    {
      if id !in sessions {
        return Failed(Runtime(UserNotFound));
      }
      var me := sessions[id];
      var user := users[me];
      if atributo == "nome" {
        users := users[me := user.(name := valor)];
      } else if atributo == "senha" {
        users := users[me := user.(password := valor)];
      } else if atributo == "login" {
        if valor in users {
          return Failed(Runtime(InvalidLoginMessage));
        }
        users := users - {me};
        users := users[valor := user.(login := valor)];
        sessions := Repoint(sessions, me, valor);
      } else {
        users := users[me := user.SetAttributeExtra(atributo, valor)];
      }
      o := Done;
    }

    /** ehAmigo: membership in the friends list of a stored user. */
    function EhAmigo(login: string, amigo: string): (r: Result<bool>)
      reads this
      ensures r.Ok? <==> login in users
      ensures r.Err? ==> r.error == Runtime(UserNotFound)
      ensures r.Ok? ==> (r.value <==> amigo in users[login].friends)
    {
      if login !in users then Err(Runtime(UserNotFound)) else Ok(amigo in users[login].friends)
    }

    method AdicionarAmigo(id: string, amigo: string) returns (o: Outcome)
      requires Valid()
      modifies this
      ensures Valid() && sessions == old(sessions)
      ensures (o, users) == AdicionarAmigoStep(old(users), old(sessions), id, amigo)
    {
      if id !in sessions {
        return Failed(Runtime(UserNotFound));
      }
      var me := sessions[id];
      var user := users[me];
      if amigo !in users {
        return Failed(Runtime(UserNotFound));
      }
      var friendUser := users[amigo];
      if me == amigo {
        return Failed(Runtime(SelfFriend));
      }
      if amigo in user.friends {
        return Failed(Runtime(AlreadyFriend));
      }
      if me in friendUser.friendSolicitation {
        return Failed(Runtime(AlreadyRequested));
      }
      if amigo in user.friendSolicitation {
        users := users[me := users[me].(friends := users[me].friends + [amigo])];
        users := users[amigo := users[amigo].(friends := users[amigo].friends + [me])];
        users := users[me := users[me].(friendSolicitation := RemoveFirst(users[me].friendSolicitation, amigo))];
      } else {
        users := users[amigo := friendUser.AddFriendSolicitation(me)];
      }
      o := Done;
    }

    /** getAmigos: the brace-formatted friends of a stored user. */
    function GetAmigos(login: string): (r: Result<string>)
      reads this
      ensures r.Ok? <==> login in users
      ensures r.Err? ==> r.error == Runtime(UserNotFound)
      ensures r.Ok? ==> r.value == FormatList(users[login].friends)
    {
      if login !in users then Err(Runtime(UserNotFound)) else Ok(FormatList(users[login].friends))
    }

    method EnviarRecado(id: string, destinatario: string, mensagem: string) returns (o: Outcome)
      requires Valid()
      modifies this
      ensures Valid() && sessions == old(sessions)
      ensures (o, users) == EnviarRecadoStep(old(users), old(sessions), id, destinatario, mensagem)
    {
      if id !in sessions {
        return Failed(Runtime(UserNotFound));
      }
      var sender := users[sessions[id]];
      if destinatario !in users {
        return Failed(Runtime(UserNotFound));
      }
      var recipient := users[destinatario];
      if sender.login == destinatario {
        return Failed(Runtime(SelfRecado));
      }
      users := users[destinatario := recipient.IncomingMessage(Message(sender.login, mensagem, destinatario))];
      o := Done;
    }

    method LerRecado(id: string) returns (r: Result<string>)
      requires Valid()
      modifies this
      ensures Valid() && sessions == old(sessions)
      ensures (r, users) == LerRecadoStep(old(users), old(sessions), id)
    {
      if id !in sessions {
        return Err(Runtime(UserNotFound));
      }
      var user := users[sessions[id]];
      if user.messages == [] {
        return Err(Runtime(NoMessages));
      }
      var recado := user.messages[0];
      users := users[user.login := user.(messages := user.messages[1..])];
      r := Ok(recado.mensagem);
    }
  }
}
