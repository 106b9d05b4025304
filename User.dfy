/** A registered user (models/User.java): profile fields, free-form profile
    attributes, the friend lists, the direct-message queue, the joined
    communities with their message queue, and the idol/fan/crush/enemy
    lists. */
module UserModel {
  import opened Lists
  import opened Errors
  import opened Recados
  import opened FriendsModel

  datatype User = User(
    name: string,
    login: string,
    password: string,
    friends: Friends,
    attributes: map<string, string>,
    recados: seq<Recado>,
    communitiesJoined: seq<string>,
    communitiesMessages: seq<string>,
    fans: seq<string>,
    idols: seq<string>,
    crushes: seq<string>,
    enemies: seq<string>)
  {
    /** The lists the de-duplicating adders maintain hold no login twice. */
    ghost predicate Valid() {
      friends.Valid() && NoDup(fans) && NoDup(idols) && NoDup(crushes) && NoDup(enemies)
    }

    /** setAttributeExtra: inserts or overwrites one key. */
    function SetAttributeExtra(attribute: string, content: string): (u: User)
      ensures attribute in u.attributes && u.attributes[attribute] == content
      ensures forall k :: k != attribute ==> (k in u.attributes <==> k in attributes)
      ensures forall k :: k != attribute && k in attributes ==> u.attributes[k] == attributes[k]
      ensures u == this.(attributes := u.attributes)
    {
      this.(attributes := attributes[attribute := content])
    }

    /** getAttributeExtra: the value when present and non-empty; otherwise
        NotFilledAttributeException. */
    function GetAttributeExtra(attribute: string): (r: Result<string>)
      ensures r.Ok? <==> attribute in attributes && attributes[attribute] != ""
      ensures r.Ok? ==> r.value == attributes[attribute]
      ensures r.Err? ==> r.error == NotFilledAttribute
    {
      if attribute in attributes && attributes[attribute] != "" then Ok(attributes[attribute])
      else Err(NotFilledAttribute)
    }

    /** incomingMessage and addMessage: the message joins the tail of the
        direct-message queue. */
    function IncomingMessage(message: Recado): (u: User)
      ensures recados <= u.recados && |u.recados| == |recados| + 1
      ensures u.recados[|recados|] == message
      ensures u == this.(recados := u.recados)
    {
      this.(recados := recados + [message])
    }

    /** checkPassword: Objects.equals on the stored password. */
    predicate CheckPassword(p: string) {
      password == p
    }

    predicate IsFriend(friendLogin: string) {
      friends.Contains(friendLogin)
    }

    /** addFriend, delegated to the Friends value. */
    function AddFriend(friendLogin: string): (u: User)
      ensures u.IsFriend(friendLogin)
      ensures u == this.(friends := u.friends)
      ensures Valid() ==> u.Valid()
    {
      this.(friends := friends.AddFriend(friendLogin))
    }

    /** addFriendSolicitation, delegated to the Friends value. */
    function AddFriendSolicitation(l: string): (u: User)
      ensures l in u.friends.friendSolicitations
      ensures u.friends.friendsList == friends.friendsList
      ensures u == this.(friends := u.friends)
      ensures Valid() ==> u.Valid()
    {
      this.(friends := friends.AddFriendSolicitation(l))
    }

    /** addCommunity: a plain ArrayList.add (no duplicate check). */
    function AddCommunity(communityName: string): (u: User)
      ensures u.communitiesJoined == communitiesJoined + [communityName]
      ensures u == this.(communitiesJoined := u.communitiesJoined)
    {
      this.(communitiesJoined := communitiesJoined + [communityName])
    }

    /** removeCommunity: List.remove, first occurrence only. */
    function RemoveCommunity(communityName: string): (u: User)
      ensures multiset(u.communitiesJoined) == multiset(communitiesJoined) - multiset{communityName}
      ensures u == this.(communitiesJoined := u.communitiesJoined)
    {
      RemoveFirstMultiset(communitiesJoined, communityName);
      this.(communitiesJoined := RemoveFirst(communitiesJoined, communityName))
    }

    /** readCommunitiesMessages: the head of the community-message queue and
        the user without it; NotFoundMessageException("community") when the
        queue is empty. */
    function ReadCommunitiesMessages(): (r: Result<(string, User)>)
      ensures r.Err? <==> communitiesMessages == []
      ensures r.Err? ==> r.error == NotFoundMessage("community")
      ensures r.Ok? ==> [r.value.0] + r.value.1.communitiesMessages == communitiesMessages
      ensures r.Ok? ==> r.value.1 == this.(communitiesMessages := r.value.1.communitiesMessages)
    {
      if communitiesMessages == [] then Err(NotFoundMessage("community"))
      else Ok((communitiesMessages[0], this.(communitiesMessages := communitiesMessages[1..])))
    }

    /** addCommunityMessage: to the tail of the community-message queue. */
    function AddCommunityMessage(message: string): (u: User)
      ensures communitiesMessages <= u.communitiesMessages
      ensures |u.communitiesMessages| == |communitiesMessages| + 1
      ensures u.communitiesMessages[|communitiesMessages|] == message
      ensures u == this.(communitiesMessages := u.communitiesMessages)
    {
      this.(communitiesMessages := communitiesMessages + [message])
    }

    /** addIdol: appended only when absent. */
    function AddIdol(idolLogin: string): (u: User)
      ensures forall y :: y in u.idols <==> y in idols || y == idolLogin
      ensures idols <= u.idols
      ensures u == this.(idols := u.idols)
      ensures Valid() ==> u.Valid()
    {
      this.(idols := AppendIfAbsent(idols, idolLogin))
    }

    /** addFan: appended only when absent. */
    function AddFan(fanLogin: string): (u: User)
      ensures forall y :: y in u.fans <==> y in fans || y == fanLogin
      ensures fans <= u.fans
      ensures u == this.(fans := u.fans)
      ensures Valid() ==> u.Valid()
    {
      this.(fans := AppendIfAbsent(fans, fanLogin))
    }

    /** addCrush: appended only when absent. */
    function AddCrush(crushLogin: string): (u: User)
      ensures forall y :: y in u.crushes <==> y in crushes || y == crushLogin
      ensures crushes <= u.crushes
      ensures u == this.(crushes := u.crushes)
      ensures Valid() ==> u.Valid()
    {
      this.(crushes := AppendIfAbsent(crushes, crushLogin))
    }

    /** addEnemy: appended only when absent. */
    function AddEnemy(enemyLogin: string): (u: User)
      ensures forall y :: y in u.enemies <==> y in enemies || y == enemyLogin
      ensures enemies <= u.enemies
      ensures u == this.(enemies := u.enemies)
      ensures Valid() ==> u.Valid()
    {
      this.(enemies := AppendIfAbsent(enemies, enemyLogin))
    }
  }

  /** new User(name, login, password): every list, queue and the attribute
      map empty. */
  function NewUser(name: string, login: string, password: string): (u: User)
    ensures u.name == name && u.login == login && u.CheckPassword(password)
    ensures u.friends == NewFriends() && u.attributes == map[]
    ensures u.recados == [] && u.communitiesJoined == [] && u.communitiesMessages == []
    ensures u.fans == [] && u.idols == [] && u.crushes == [] && u.enemies == []
    ensures u.Valid()
  {
    User(name, login, password, NewFriends(), map[], [], [], [], [], [], [], [])
  }

  /** The community-message queue is first in, first out: a message added
      to an empty queue is the next one read, and on a non-empty queue adding
      at the tail and reading at the head commute. */
  lemma CommunityQueueFifo(u: User, m: string)
    ensures u.communitiesMessages == [] ==> u.AddCommunityMessage(m).ReadCommunitiesMessages() == Ok((m, u))
    ensures u.communitiesMessages != [] ==>
      u.ReadCommunitiesMessages().Ok? &&
      u.AddCommunityMessage(m).ReadCommunitiesMessages()
        == Ok((u.ReadCommunitiesMessages().value.0, u.ReadCommunitiesMessages().value.1.AddCommunityMessage(m)))
  {
    if u.communitiesMessages != [] {
      assert (u.communitiesMessages + [m])[1..] == u.communitiesMessages[1..] + [m];
    }
  }
}
