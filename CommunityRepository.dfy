/** The community store (repositories/CommunityRepository.java): a
    map from name to community, modelled as a map together with the
    duplicate-free sequence of its keys. The sequence fixes one iteration
    order; the contracts promise only which names are listed. */
module CommunityRepo {
  import opened Lists
  import opened Errors
  import opened CommunityModel

  type Communities = map<string, Community>

  /** Every stored community keeps its manager as a member and its member
      list duplicate-free. */
  ghost predicate AllValid(communities: Communities) {
    forall n :: n in communities ==> communities[n].Valid()
  }

  /** The names, in `order`, of the communities whose members include
      `login` (the stream filter over values()). */
  function MemberOf(order: seq<string>, communities: Communities, login: string): (r: seq<string>)
    requires forall n :: n in order ==> n in communities
    ensures forall n :: n in r <==> n in order && communities[n].IsMember(login)
    ensures |r| <= |order|
  {
    if order == [] then []
    else if communities[order[0]].IsMember(login) then [order[0]] + MemberOf(order[1..], communities, login)
    else MemberOf(order[1..], communities, login)
  }

  /** Filtering a duplicate-free order gives a duplicate-free result. */
  lemma {:induction false} MemberOfNoDup(order: seq<string>, communities: Communities, login: string)
    requires forall n :: n in order ==> n in communities
    requires NoDup(order)
    ensures NoDup(MemberOf(order, communities, login))
  {
    if order != [] {
      NoDupTail(order);
      MemberOfNoDup(order[1..], communities, login);
      if communities[order[0]].IsMember(login) {
        NoDupCons(order[0], MemberOf(order[1..], communities, login));
      }
    }
  }

  /** Dropping a key from the map and its first occurrence from the order
      keeps the order duplicate-free and in step with the keys. */
  lemma RemoveKeepsOrder(names: seq<string>, communities: Communities, name: string)
    requires NoDup(names) && (forall n :: n in names <==> n in communities)
    ensures NoDup(RemoveFirst(names, name))
    ensures forall n :: n in RemoveFirst(names, name) <==> n in communities - {name}
  {
    RemoveFirstFacts(names, name);
  }

  class CommunityRepository {
    var communities: Communities
    /** The keys of `communities`, each once, newest last. */
    var names: seq<string>

    ghost predicate Valid()
      reads this
    {
      && NoDup(names)
      && (forall n :: n in names <==> n in communities)
      && (forall n :: n in communities ==> communities[n].name == n)
    }

    constructor ()
      ensures Valid() && communities == map[] && names == []
    {
      communities := map[];
      names := [];
    }

    /** addCommunity: put by name; a replaced key keeps its place. */
    method AddCommunity(community: Community)
      requires Valid()
      modifies this
      ensures Valid()
      ensures communities == old(communities)[community.name := community]
      ensures names == AppendIfAbsent(old(names), community.name)
    {
      communities := communities[community.name := community];
      names := AppendIfAbsent(names, community.name);
    }

    /** removeCommunity: true exactly when the name was present; afterwards
        it is absent. */
    method RemoveCommunity(name: string) returns (removed: bool)
      requires Valid()
      modifies this
      ensures Valid()
      ensures removed <==> name in old(communities)
      ensures communities == old(communities) - {name}
      ensures !CommunityExists(name)
      ensures names == RemoveFirst(old(names), name)
    {
      removed := name in communities;
      RemoveKeepsOrder(names, communities, name);
      communities := communities - {name};
      names := RemoveFirst(names, name);
    }

    predicate CommunityExists(name: string)
      reads this
    {
      name in communities
    }

    /** getCommunityByName: None stands for null. */
    function GetCommunityByName(name: string): (r: Option<Community>)
      reads this
      ensures r.Some? <==> CommunityExists(name)
      ensures r.Some? ==> r.value == communities[name]
    {
      if name in communities then Some(communities[name]) else None
    }

    /** listCommunitiesByUser: the names of exactly the communities that
        have `login` as a member, each once. */
    function ListCommunitiesByUser(login: string): (r: seq<string>)
      reads this
      requires Valid()
      ensures forall n :: n in r <==> n in communities && communities[n].IsMember(login)
      ensures NoDup(r)
    {
      MemberOfNoDup(names, communities, login);
      MemberOf(names, communities, login)
    }

    /** listCommunities: every stored name, each once. */
    function ListCommunities(): (r: seq<string>)
      reads this
      requires Valid()
      ensures forall n :: n in r <==> CommunityExists(n)
      ensures NoDup(r)
    {
      names
    }

    /** clearAll. */
    method ClearAll()
      modifies this
      ensures Valid() && communities == map[] && names == []
    {
      communities := map[];
      names := [];
    }
  }
}
