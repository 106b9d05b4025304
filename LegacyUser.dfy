/** The legacy user (User.java in the root package): profile fields, the
    friend and pending-request lists, free-form attributes and the
    direct-message queue. Each mutator is a function from the old value to
    the new one. */
module LegacyUsers {
  import opened Lists
  import opened Errors
  import opened LegacyMessages

  const AttributeNotFilled := "Atributo não preenchido."

  datatype User = User(
    name: string,
    login: string,
    password: string,
    friends: seq<string>,
    friendSolicitation: seq<string>,
    attributes: map<string, string>,
    messages: seq<Message>)
  {
    /** Neither list holds a login twice. */
    ghost predicate Valid() {
      NoDup(friends) && NoDup(friendSolicitation)
    }

    /** setAttributeExtra: inserts or overwrites one key. */
    function SetAttributeExtra(atributo: string, conteudo: string): (u: User)
      ensures atributo in u.attributes && u.attributes[atributo] == conteudo
      ensures forall k :: k != atributo ==> (k in u.attributes <==> k in attributes)
      ensures forall k :: k != atributo && k in attributes ==> u.attributes[k] == attributes[k]
      ensures u == this.(attributes := u.attributes)
    {
      this.(attributes := attributes[atributo := conteudo])
    }

    /** getAttributeExtra: the stored value whenever the key is present,
        even an empty one; otherwise "Atributo não preenchido.". */
    function GetAttributeExtra(atributo: string): (r: Result<string>)
      ensures r.Ok? <==> atributo in attributes
      ensures r.Ok? ==> r.value == attributes[atributo]
      ensures r.Err? ==> r.error == Runtime(AttributeNotFilled)
    {
      if atributo in attributes then Ok(attributes[atributo]) else Err(Runtime(AttributeNotFilled))
    }

    /** addFriend: the login leaves the pending requests (first occurrence)
        and joins the tail of the friends unless already there. */
    function AddFriend(friend: string): (u: User)
      ensures forall y :: y in u.friends <==> y in friends || y == friend
      ensures friends <= u.friends
      ensures forall y :: y != friend ==> (y in u.friendSolicitation <==> y in friendSolicitation)
      ensures Valid() ==> u.Valid() && friend !in u.friendSolicitation
      ensures u == this.(friends := u.friends, friendSolicitation := u.friendSolicitation)
    {
      RemoveFirstFacts(friendSolicitation, friend);
      this.(friendSolicitation := RemoveFirst(friendSolicitation, friend),
            friends := AppendIfAbsent(friends, friend))
    }

    /** addFriendSolicitation: appended only when absent. */
    function AddFriendSolicitation(friend: string): (u: User)
      ensures forall y :: y in u.friendSolicitation <==> y in friendSolicitation || y == friend
      ensures friendSolicitation <= u.friendSolicitation
      ensures u == this.(friendSolicitation := u.friendSolicitation)
      ensures Valid() ==> u.Valid()
    {
      this.(friendSolicitation := AppendIfAbsent(friendSolicitation, friend))
    }

    /** incomingMessage: the message joins the tail of the queue. */
    function IncomingMessage(recado: Message): (u: User)
      ensures messages <= u.messages && |u.messages| == |messages| + 1
      ensures u.messages[|messages|] == recado
      ensures u == this.(messages := u.messages)
    {
      this.(messages := messages + [recado])
    }

    /** checkPassword: Objects.equals on the stored password. */
    predicate CheckPassword(p: string) {
      password == p
    }
  }

  /** new User(name, login, password): both lists, the attributes and the
      queue empty. */
  function NewUser(name: string, login: string, password: string): (u: User)
    ensures u.name == name && u.login == login && u.CheckPassword(password)
    ensures u.friends == [] && u.friendSolicitation == [] && u.attributes == map[] && u.messages == []
    ensures u.Valid()
  {
    User(name, login, password, [], [], map[], [])
  }

  /** Accepting the same friend twice is the same as accepting once, given
      duplicate-free lists. */
  lemma AddFriendIdempotent(u: User, friend: string)
    requires u.Valid()
    ensures u.AddFriend(friend).AddFriend(friend) == u.AddFriend(friend)
  {
    RemoveFirstFacts(u.friendSolicitation, friend);
  }
}
