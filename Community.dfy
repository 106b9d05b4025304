/** A community (models/Community.java): name, description, manager login,
    member logins in joining order and the log of posted messages. */
module CommunityModel {
  import opened Lists

  datatype Community = Community(name: string, description: string, manager: string,
                                 members: seq<string>, messages: seq<string>)
  {
    /** The manager is a member and no login is a member twice. */
    ghost predicate Valid() {
      manager in members && NoDup(members)
    }

    /** addMember: appends an absent login and reports whether it did. */
    function AddMember(login: string): (r: (bool, Community))
      ensures r.0 <==> !IsMember(login)
      ensures r.0 ==> r.1.members == members + [login]
      ensures !r.0 ==> r.1 == this
      ensures r.1 == this.(members := r.1.members)
      ensures r.1.IsMember(login)
      ensures Valid() ==> r.1.Valid()
    {
      if login !in members then (true, this.(members := members + [login])) else (false, this)
    }

    /** removeMember: refuses the manager; otherwise List.remove. */
    function RemoveMember(login: string): (r: (bool, Community))
      ensures login == manager ==> r == (false, this)
      ensures login != manager ==> (r.0 <==> IsMember(login))
      ensures r.1 == this.(members := r.1.members)
      ensures forall y :: y != login ==> (r.1.IsMember(y) <==> IsMember(y))
      ensures Valid() ==> r.1.Valid()
      ensures Valid() && login != manager ==> !r.1.IsMember(login)
    {
      if login == manager then (false, this)
      else
        RemoveFirstFacts(members, login);
        (login in members, this.(members := RemoveFirst(members, login)))
    }

    predicate IsMember(login: string) {
      login in members
    }

    predicate IsManager(login: string) {
      manager == login
    }

    /** setManager: only the manager changes; the community stays valid when
        the new manager is already a member. */
    function SetManager(login: string): (c: Community)
      ensures c.IsManager(login)
      ensures c.members == members && c.messages == messages
      ensures c.name == name && c.description == description
      ensures Valid() && IsMember(login) ==> c.Valid()
    {
      this.(manager := login)
    }

    /** setDescription: only the description changes. */
    function SetDescription(d: string): (c: Community)
      ensures c.description == d
      ensures c == this.(description := c.description)
    {
      this.(description := d)
    }

    /** addMessage: the message goes to the tail of the log; nothing else
        changes. */
    function AddMessage(message: string): (c: Community)
      ensures messages <= c.messages && |c.messages| == |messages| + 1
      ensures c.messages[|messages|] == message
      ensures c == this.(messages := c.messages)
    {
      this.(messages := messages + [message])
    }

    /** getMembers: a LinkedHashSet copy of the member list. */
    function GetMembers(): (s: seq<string>)
      ensures NoDup(s)
      ensures forall y :: y in s <==> IsMember(y)
    {
      Distinct(members)
    }

    /** getMemberCount. */
    function MemberCount(): nat {
      |members|
    }
  }

  /** new Community(name, description, manager): the manager is the only
      member and the message log is empty. */
  function NewCommunity(name: string, description: string, manager: string): (c: Community)
    ensures c.members == [manager] && c.messages == []
    ensures c.IsManager(manager) && c.name == name && c.description == description
    ensures c.Valid()
  {
    Community(name, description, manager, [manager], [])
  }

  /** Since the member list never holds duplicates, getMembers returns it
      unchanged, in joining order. */
  lemma GetMembersInOrder(c: Community)
    ensures c.Valid() ==> c.GetMembers() == c.members
  {
    if c.Valid() {
      DistinctOfNoDup(c.members);
    }
  }
}
