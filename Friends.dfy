/** A user's friend list and pending-request list (models/Friends.java). The
    two ArrayLists become sequences; each mutator becomes a function from the
    old value to the new one. */
module FriendsModel {
  import opened Lists

  datatype Friends = Friends(friendsList: seq<string>, friendSolicitations: seq<string>)
  {
    /** Neither list holds a login twice. */
    ghost predicate Valid() {
      NoDup(friendsList) && NoDup(friendSolicitations)
    }

    /** addFriend: the login leaves the pending requests (first occurrence)
        and joins the friends unless already there. */
    function AddFriend(friendLogin: string): (f: Friends)
      ensures f.Contains(friendLogin)
      ensures forall y :: f.Contains(y) <==> Contains(y) || y == friendLogin
      ensures forall y :: y != friendLogin ==> (y in f.friendSolicitations <==> y in friendSolicitations)
      ensures Valid() ==> f.Valid() && friendLogin !in f.friendSolicitations
    {
      RemoveFirstFacts(friendSolicitations, friendLogin);
      Friends(AppendIfAbsent(friendsList, friendLogin), RemoveFirst(friendSolicitations, friendLogin))
    }

    /** addFriendSolicitation: appended only when absent; the friends list is
        untouched. */
    function AddFriendSolicitation(friendLogin: string): (f: Friends)
      ensures f.friendsList == friendsList
      ensures friendLogin in f.friendSolicitations
      ensures forall y :: y in f.friendSolicitations <==> y in friendSolicitations || y == friendLogin
      ensures friendSolicitations <= f.friendSolicitations
      ensures Valid() ==> f.Valid()
    {
      Friends(friendsList, AppendIfAbsent(friendSolicitations, friendLogin))
    }

    /** contains: membership in the friends list only. */
    predicate Contains(friendLogin: string) {
      friendLogin in friendsList
    }

    /** getFormattedFriendsList. */
    function FormattedFriendsList(): string {
      FormatList(friendsList)
    }

    /** removeFriend: List.remove's boolean and the list without the first
        occurrence. */
    function RemoveFriend(friendLogin: string): (r: (bool, Friends))
      ensures r.0 <==> Contains(friendLogin)
      ensures r.1.friendSolicitations == friendSolicitations
      ensures forall y :: y != friendLogin ==> (r.1.Contains(y) <==> Contains(y))
      ensures Valid() ==> r.1.Valid() && !r.1.Contains(friendLogin)
    {
      RemoveFirstFacts(friendsList, friendLogin);
      (friendLogin in friendsList, Friends(RemoveFirst(friendsList, friendLogin), friendSolicitations))
    }

    /** removeFriendSolicitation: List.remove on the pending requests. */
    function RemoveFriendSolicitation(friendLogin: string): (r: (bool, Friends))
      ensures r.0 <==> friendLogin in friendSolicitations
      ensures r.1.friendsList == friendsList
      ensures forall y :: y != friendLogin ==> (y in r.1.friendSolicitations <==> y in friendSolicitations)
      ensures Valid() ==> r.1.Valid() && friendLogin !in r.1.friendSolicitations
    {
      RemoveFirstFacts(friendSolicitations, friendLogin);
      (friendLogin in friendSolicitations, Friends(friendsList, RemoveFirst(friendSolicitations, friendLogin)))
    }
  }

  /** new Friends(): both lists empty. */
  function NewFriends(): (f: Friends)
    ensures f.friendsList == [] && f.friendSolicitations == [] && f.Valid()
  {
    Friends([], [])
  }

  /** Accepting the same friend twice is the same as accepting once, as
      long as the pending list holds each login at most once (which
      AddFriendSolicitation guarantees). */
  lemma AddFriendIdempotent(f: Friends, x: string)
    requires NoDup(f.friendSolicitations)
    ensures f.AddFriend(x).AddFriend(x) == f.AddFriend(x)
  {
    RemoveFirstFacts(f.friendSolicitations, x);
  }

  /** The listing reads back as the friend list itself, in insertion order,
      and is "{}" exactly when there are no friends. */
  lemma FormattedFriendsListRoundTrip(f: Friends)
    requires forall e :: e in f.friendsList ==> e != "" && ',' !in e
    ensures ParseList(f.FormattedFriendsList()) == f.friendsList
    ensures f.FormattedFriendsList() == "{}" <==> f.friendsList == []
  {
    ParseFormat(f.friendsList);
    if f.friendsList != [] {
      ParseFormat([]);
      assert FormatList([]) == "{}";
    }
  }
}
