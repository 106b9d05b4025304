# Jackut, modelled in Dafny

Jackut is a small social network. This project models its in-memory state and the rules that change it:

- users keyed by login, each holding:
  - a profile with free-form attributes;
  - friends and pending friend requests;
  - idols, fans, crushes and enemies;
  - a direct-message queue and a community-message queue;
  - the list of communities joined;
- sessions keyed by token;
- communities keyed by name, each with one manager, a member list and a posting log.

The model follows the Java code in two layers.

**Current layer** (packages `models`, `repositories`, `services`, `exceptions`):

- `Lists.dfy`: the shared list helpers. It has remove-first-occurrence, append-if-absent and the brace-list formatter `{a,b,c}` with its parser. It proves the formatter round-trips.
- `Text.dfy`:
  - the blank-string test;
  - the login and password validation rules;
  - the session token `login + "_" + millis`.
- `Errors.dfy`:
  - one `Error` datatype standing for the exception classes;
  - `Result`/`Outcome`/`Option`;
  - the tag-to-message tables of `InvalidAuthException` and `InvalidCommunityException`.
- `Recado.dfy`, `Friends.dfy`, `Community.dfy`, `User.dfy`: the entities, as values. Each Java mutator is a member function from the old value to the new one.
- `UserRepository.dfy`, `CommunityRepository.dfy`: the two repositories, as classes.
  - Their `users`/`sessions` and `communities` maps are fields that the methods reassign.
  - The community store also keeps its names as a duplicate-free sequence in step with the map's keys. That sequence fixes one iteration order, but the operations promise only which names they return, not in what order.
  - The `removeUserCompletely` cascade is a loop over all users. Its message-queue rebuild, joined-list scrub and session collection are loops too.
- `AuthService.dfy`, `AuthenticationService.dfy`, `FriendshipService.dfy`, `RelationshipService.dfy`, `MessageService.dfy`, `CommunityService.dfy`, `UserService.dfy`: the services.
  - Each operation is first a pure transition `XxxStep` on the maps. It returns an `Outcome` (done or the error raised) and the new maps.
  - Lemmas state the transition's effect and the store invariants it keeps.
  - A method on the repositories then performs the operation in place. It is proved to follow the transition.
  - A refusing transition returns the maps unchanged, except where the Java code fails after it has already changed something. Those exceptions are:
    - `UserServices.AddCrushStep`, whose enemy refusal keeps the crush it has just appended;
    - `UserServices.RemoveIdolStep` and `RelationshipServices.RemoverIdoloStep`, whose `NullPointer` for a missing idol keeps the removal already made on the fan's side.

**Legacy layer** (root package `Facade`, `User`, `Message`):

- `LegacyMessage.dfy` and `LegacyUser.dfy` model the older user and message records.
- `LegacyFacade.dfy` models the self-contained older facade as a class over its `users` and `sessions` maps, with its own friend, rename and message rules.

Store invariants used throughout:

| invariant | meaning |
|---|---|
| `Keyed` | every user sits under its own login |
| `AllValid` | no list holds a duplicate |
| `SessionsOk` | every session names a stored user |
| `FriendsSymmetric` | friendship is symmetric |
| `FansMirrorIdols` | `b` is an idol of `a` exactly when `a` is a fan of `b` |
| `Closed` | every login in a list is a stored user |
| `Consistent` | every community's manager is a member, and every member lists the community among its joined ones |

The clock is a parameter `millis` of the login operations.

## Model

| member | source | states |
|---|---|---|
| Lists.RemoveFirst | src/br/ufal/ic/p2/jackut/models/Friends.java:87-89 | `List.remove(Object)` removes only the first occurrence: nothing changes when x is absent, and otherwise the list is one shorter |
| Lists.RemoveFirstMultiset | src/br/ufal/ic/p2/jackut/models/User.java:179-181 | removing the first occurrence takes exactly one copy of x out of the list's multiset |
| Lists.RemoveFirstFacts | src/br/ufal/ic/p2/jackut/models/Friends.java:87-89 | every other element keeps its membership; on a duplicate-free list x is gone afterwards and the list stays duplicate-free |
| Lists.AppendIfAbsent | src/br/ufal/ic/p2/jackut/models/Friends.java:46-51 | the add-if-not-contains idiom: x is present afterwards, membership grows by exactly x, the old list is a prefix, and duplicate-freedom is kept |
| Lists.Keep | src/br/ufal/ic/p2/jackut/repositories/UserRepository.java:85-94 | the joined-list scrub keeps exactly the names not in the dropped list |
| Lists.Distinct | src/br/ufal/ic/p2/jackut/models/Community.java:115-117 | the insertion-ordered set copy of the members is duplicate-free and has the same elements as its input |
| Lists.FormatList | src/br/ufal/ic/p2/jackut/models/Friends.java:76-78 | the formatted list starts with `{`, ends with `}` and holds the comma-join of the items between them |
| Lists.ParseFormat | src/br/ufal/ic/p2/jackut/models/Friends.java:76-78 | parsing a formatted list of non-empty, comma-free items gives the list back |
| Lists.FormatListInjective | src/br/ufal/ic/p2/jackut/services/RelationshipService.java:92-95 | two lists of non-empty, comma-free items with the same formatting are equal |
| Lists.SplitJoin | src/br/ufal/ic/p2/jackut/models/Friends.java:76-78 | splitting the comma-join of a non-empty list of comma-free items on `,` gives the items back |
| Text.FirstNonWhitespace | src/br/ufal/ic/p2/jackut/services/UserService.java:45 | the position of the first character that is not whitespace in the sense of `String.isBlank` |
| Text.BlankIffAllWhitespace | src/br/ufal/ic/p2/jackut/services/UserService.java:45 | a string is blank exactly when every one of its characters is whitespace |
| Text.ValidLoginShape | src/br/ufal/ic/p2/jackut/services/UserService.java:45-48 | a login is accepted exactly when its `length()` in UTF-16 code units is at least three and one of its characters is not whitespace; without characters outside the Basic Multilingual Plane that length is the number of characters |
| Text.Utf16Length | src/br/ufal/ic/p2/jackut/services/UserService.java:45 | `String.length()`: between the number of characters and twice that, and equal to it exactly when no character lies outside the Basic Multilingual Plane |
| Text.SurrogatePairLogin | src/br/ufal/ic/p2/jackut/services/UserService.java:45-48 | the two-character login `a` followed by U+1F600 is three code units long and is accepted |
| Text.NatToString | src/br/ufal/ic/p2/jackut/services/AuthService.java:53-55 | the decimal rendering of the clock value is a non-empty string of digits |
| Text.SessionId | src/br/ufal/ic/p2/jackut/services/AuthService.java:53-55 | a session token begins with the login followed by `_` and has at least one more character |
| Text.SessionIdInjective | src/br/ufal/ic/p2/jackut/services/AuthService.java:53-55 | two equal tokens come from the same login and the same rendered clock value |
| Errors.InvalidAuthMessage | src/br/ufal/ic/p2/jackut/exceptions/InvalidAuthException.java:17-24 | the three tags map to their three messages, and any other tag is its own message |
| Errors.InvalidAuthMessageFacts | src/br/ufal/ic/p2/jackut/exceptions/InvalidAuthException.java:9-15 | mapping a message again leaves it unchanged, and the cause constructor's message is the `loginSenha` one |
| Errors.InvalidCommunityMessage | src/br/ufal/ic/p2/jackut/exceptions/InvalidCommunityException.java:23-40 | each of the six tags maps to its own message, and any other tag is its own message |
| Recados.NotFrom | src/br/ufal/ic/p2/jackut/repositories/UserRepository.java:74-82 | the rebuilt queue holds exactly the messages not sent by the login, and nothing changes when none is |
| Recados.NotFromAppend | src/br/ufal/ic/p2/jackut/repositories/UserRepository.java:74-82 | the rebuild of a concatenation is the concatenation of the rebuilds, so queue order is kept |
| FriendsModel.Friends.AddFriend | src/br/ufal/ic/p2/jackut/models/Friends.java:46-51 | x becomes a friend and nothing else joins; the pending list changes only in x; on valid lists x leaves the requests and no duplicate appears |
| FriendsModel.Friends.AddFriendSolicitation | src/br/ufal/ic/p2/jackut/models/Friends.java:57-61 | the friends list is untouched; x becomes pending and nothing else; old requests are kept; no duplicate appears |
| FriendsModel.Friends.RemoveFriend | src/br/ufal/ic/p2/jackut/models/Friends.java:87-89 | the result is true exactly when x was a friend; the requests are untouched; other friendships are kept; on valid lists x is no longer a friend |
| FriendsModel.Friends.RemoveFriendSolicitation | src/br/ufal/ic/p2/jackut/models/Friends.java:98-100 | the result is true exactly when x was pending; the friends list is untouched; other requests are kept; on valid lists x is no longer pending |
| FriendsModel.NewFriends | src/br/ufal/ic/p2/jackut/models/Friends.java:21-24 | both lists start empty and valid |
| FriendsModel.AddFriendIdempotent | src/br/ufal/ic/p2/jackut/models/Friends.java:46-51 | adding the same friend twice gives the state of adding it once |
| FriendsModel.FormattedFriendsListRoundTrip | src/br/ufal/ic/p2/jackut/models/Friends.java:76-78 | the formatted list parses back to the friends in insertion order, and it is `{}` exactly when there are none |
| CommunityModel.NewCommunity | src/br/ufal/ic/p2/jackut/models/Community.java:55-62 | a new community has its creator as manager and only member, an empty posting log, and is valid |
| CommunityModel.Community.AddMember | src/br/ufal/ic/p2/jackut/models/Community.java:134-140 | the result is true exactly when x was not a member; then x is appended, otherwise nothing changes; only the members change; validity is kept |
| CommunityModel.Community.RemoveMember | src/br/ufal/ic/p2/jackut/models/Community.java:149-154 | the manager is never removed; otherwise the result is true exactly when x was a member; other members are kept; validity is kept and x is gone |
| CommunityModel.Community.SetManager | src/br/ufal/ic/p2/jackut/models/Community.java:105-107 | the new manager is recorded and nothing else changes; validity is kept when the new manager is a member |
| CommunityModel.Community.SetDescription | src/br/ufal/ic/p2/jackut/models/Community.java:87-89 | only the description changes |
| CommunityModel.Community.AddMessage | src/br/ufal/ic/p2/jackut/models/Community.java:181-183 | the message goes to the tail of the log and nothing else changes |
| CommunityModel.Community.GetMembers | src/br/ufal/ic/p2/jackut/models/Community.java:115-117 | the result is duplicate-free and holds exactly the members |
| CommunityModel.GetMembersInOrder | src/br/ufal/ic/p2/jackut/models/Community.java:115-117 | on a valid community the distinct member list is the member list itself, in joining order |
| UserModel.NewUser | src/br/ufal/ic/p2/jackut/models/User.java:35-50 | a new user has the given name, login and password and every list, queue and attribute map empty |
| UserModel.User.SetAttributeExtra | src/br/ufal/ic/p2/jackut/models/User.java:107-109 | the attribute is inserted or overwritten and no other attribute or field changes |
| UserModel.User.GetAttributeExtra | src/br/ufal/ic/p2/jackut/models/User.java:115-121 | the value is returned exactly when the key is present with a non-empty value; otherwise the error is NotFilledAttribute |
| UserModel.User.IncomingMessage | src/br/ufal/ic/p2/jackut/models/User.java:126-128 | the message goes to the tail of the direct-message queue and nothing else changes |
| UserModel.User.AddFriend | src/br/ufal/ic/p2/jackut/models/User.java:147-149 | x becomes a friend, only the friend lists change, and validity is kept |
| UserModel.User.AddFriendSolicitation | src/br/ufal/ic/p2/jackut/models/User.java:169-171 | x becomes pending, the friends list is untouched, only the friend lists change, and validity is kept |
| UserModel.User.AddCommunity | src/br/ufal/ic/p2/jackut/models/User.java:176-178 | the name goes to the tail of the joined list and nothing else changes |
| UserModel.User.RemoveCommunity | src/br/ufal/ic/p2/jackut/models/User.java:179-181 | exactly one occurrence of the name leaves the joined list and nothing else changes |
| UserModel.User.ReadCommunitiesMessages | src/br/ufal/ic/p2/jackut/models/User.java:187-194 | an empty community queue gives the "community" NotFoundMessage error; otherwise the head is returned and the tail kept, with nothing else changed |
| UserModel.User.AddCommunityMessage | src/br/ufal/ic/p2/jackut/models/User.java:196-198 | the message goes to the tail of the community queue and nothing else changes |
| UserModel.User.AddIdol | src/br/ufal/ic/p2/jackut/models/User.java:234-238 | idols grow by exactly x and keep their order, no duplicate appears, nothing else changes |
| UserModel.User.AddFan | src/br/ufal/ic/p2/jackut/models/User.java:245-249 | fans grow by exactly x and keep their order, no duplicate appears, nothing else changes |
| UserModel.User.AddCrush | src/br/ufal/ic/p2/jackut/models/User.java:256-260 | crushes grow by exactly x and keep their order, no duplicate appears, nothing else changes |
| UserModel.User.AddEnemy | src/br/ufal/ic/p2/jackut/models/User.java:267-271 | enemies grow by exactly x and keep their order, no duplicate appears, nothing else changes |
| UserModel.CommunityQueueFifo | src/br/ufal/ic/p2/jackut/models/User.java:187-198 | the community queue is first in, first out: a message posted to an empty queue is the next one read, and posting does not change which message is read next |
| UserRepo.SessionLogin | src/br/ufal/ic/p2/jackut/repositories/UserRepository.java:148-153 | a session resolves to its login exactly when it exists and names a stored user, and otherwise gives NotFoundUser |
| UserRepo.ScrubbedFacts | src/br/ufal/ic/p2/jackut/repositories/UserRepository.java:46-95 | scrubbing one user keeps its identity, attributes and community queue; drops the login's messages and the removed user's joined communities; keeps every other friendship; leaves no reference to the login |
| UserRepo.DropSessions | src/br/ufal/ic/p2/jackut/repositories/UserRepository.java:98-107 | exactly the sessions naming another login remain, unchanged |
| UserRepo.RemoveUserCompletelyFacts | src/br/ufal/ic/p2/jackut/repositories/UserRepository.java:33-119 | after the cascade the login is gone; no user refers to it; queues and joined lists are scrubbed as stated; no session names it; Keyed, AllValid and SessionsOk hold |
| UserRepo.CascadeKeepsSymmetry | src/br/ufal/ic/p2/jackut/repositories/UserRepository.java:46-95 | the cascade keeps friendship symmetric |
| UserRepo.CascadeKeepsClosed | src/br/ufal/ic/p2/jackut/repositories/UserRepository.java:46-95 | the cascade keeps every listed login a stored user |
| UserRepo.CascadeKeepsMirror | src/br/ufal/ic/p2/jackut/repositories/UserRepository.java:53-71 | the cascade keeps fans the mirror of idols |
| UserRepo.CascadeKeepsStore | src/br/ufal/ic/p2/jackut/repositories/UserRepository.java:33-119 | after the cascade users are keyed by login and every remaining session names a stored user |
| UserRepo.RebuildQueue | src/br/ufal/ic/p2/jackut/repositories/UserRepository.java:74-82 | the loop that drains and refills a queue yields exactly the messages not sent by the login, in order |
| UserRepo.ScrubJoined | src/br/ufal/ic/p2/jackut/repositories/UserRepository.java:85-94 | the loop over the joined list yields exactly the names the removed user had not joined, in order |
| UserRepo.ScrubUser | src/br/ufal/ic/p2/jackut/repositories/UserRepository.java:48-94 | the per-user body of the cascade computes the scrubbed user |
| UserRepo.ScrubAll | src/br/ufal/ic/p2/jackut/repositories/UserRepository.java:46-95 | the loop over all users replaces every user by its scrubbed version and nothing else |
| UserRepo.SessionsOf | src/br/ufal/ic/p2/jackut/repositories/UserRepository.java:98-103 | the collected tokens are exactly those whose session names the login |
| UserRepo.RemoveSessions | src/br/ufal/ic/p2/jackut/repositories/UserRepository.java:105-107 | exactly the collected tokens are removed |
| UserRepo.UserRepository.constructor | src/br/ufal/ic/p2/jackut/repositories/UserRepository.java:182-185 | the store starts with no users and no sessions |
| UserRepo.UserRepository.AddUser | src/br/ufal/ic/p2/jackut/repositories/UserRepository.java:23-25 | the user is stored under its login and sessions are untouched |
| UserRepo.UserRepository.GetUserByLogin | src/br/ufal/ic/p2/jackut/repositories/UserRepository.java:127-129 | the stored user is returned exactly when the login exists |
| UserRepo.UserRepository.AddSession | src/br/ufal/ic/p2/jackut/repositories/UserRepository.java:138-140 | the token is bound to the login, overwriting any earlier binding, and users are untouched |
| UserRepo.UserRepository.RemoveSession | src/br/ufal/ic/p2/jackut/repositories/UserRepository.java:143-145 | exactly that token is removed |
| UserRepo.UserRepository.GetUserBySession | src/br/ufal/ic/p2/jackut/repositories/UserRepository.java:148-153 | a known token gives the user it names; an unknown one gives NotFoundUser |
| UserRepo.UserRepository.RemoveUserCompletely | src/br/ufal/ic/p2/jackut/repositories/UserRepository.java:33-119 | returns true exactly when the login was stored; then users become the cascade and sessions lose every token naming the login; otherwise nothing changes |
| UserRepo.UserRepository.JoinCommunity | src/br/ufal/ic/p2/jackut/repositories/UserRepository.java:155-162 | an unknown session gives NotFoundUser with nothing changed; otherwise only the session's user gets the name appended |
| UserRepo.UserRepository.LeaveCommunity | src/br/ufal/ic/p2/jackut/repositories/UserRepository.java:164-170 | an unknown session gives NotFoundUser with nothing changed; otherwise only the session's user loses one occurrence of the name |
| UserRepo.UserRepository.GetCommunities | src/br/ufal/ic/p2/jackut/repositories/UserRepository.java:172-179 | a stored login gives its joined list; an unknown one gives NotFoundUser |
| UserRepo.UserRepository.ClearAll | src/br/ufal/ic/p2/jackut/repositories/UserRepository.java:182-185 | both maps become empty |
| CommunityRepo.MemberOf | src/br/ufal/ic/p2/jackut/repositories/CommunityRepository.java:53-58 | the stream filter keeps exactly the names whose community has the login as member |
| CommunityRepo.MemberOfNoDup | src/br/ufal/ic/p2/jackut/repositories/CommunityRepository.java:53-58 | the filtered names of a duplicate-free key order are duplicate-free |
| CommunityRepo.RemoveKeepsOrder | src/br/ufal/ic/p2/jackut/repositories/CommunityRepository.java:33-35 | after a removal the key sequence is still duplicate-free and lists exactly the remaining keys |
| CommunityRepo.CommunityRepository.constructor | src/br/ufal/ic/p2/jackut/repositories/CommunityRepository.java:98-100 | the store starts empty |
| CommunityRepo.CommunityRepository.AddCommunity | src/br/ufal/ic/p2/jackut/repositories/CommunityRepository.java:20-22 | the community is stored under its name; a new name goes to the end of the key sequence and an existing name keeps its place |
| CommunityRepo.CommunityRepository.RemoveCommunity | src/br/ufal/ic/p2/jackut/repositories/CommunityRepository.java:33-35 | returns true exactly when the name was stored; afterwards it is gone from the map and the order |
| CommunityRepo.CommunityRepository.GetCommunityByName | src/br/ufal/ic/p2/jackut/repositories/CommunityRepository.java:43-45 | the stored community is returned exactly when the name exists |
| CommunityRepo.CommunityRepository.ListCommunitiesByUser | src/br/ufal/ic/p2/jackut/repositories/CommunityRepository.java:53-58 | exactly the communities with the login as member, without duplicates |
| CommunityRepo.CommunityRepository.ListCommunities | src/br/ufal/ic/p2/jackut/repositories/CommunityRepository.java:61-63 | exactly the stored names, without duplicates |
| CommunityRepo.CommunityRepository.ClearAll | src/br/ufal/ic/p2/jackut/repositories/CommunityRepository.java:98-100 | the store becomes empty |
| AuthServices.Login | src/br/ufal/ic/p2/jackut/services/AuthService.java:35-45 | succeeds exactly when the login exists with that password; the token is login, `_` and the clock; the session is bound to it and resolves to the user; a failure gives the "Login ou senha inválidos." message and changes nothing |
| AuthServices.IsValidSession | src/br/ufal/ic/p2/jackut/services/AuthService.java:63-65 | a null token is invalid; otherwise the result is true exactly when the token is known, and an unknown token gives NotFoundUser |
| AuthServices.GetUserFromSession | src/br/ufal/ic/p2/jackut/services/AuthService.java:73-75 | a known token gives the user it names |
| AuthServices.Logout | src/br/ufal/ic/p2/jackut/services/AuthService.java:83-89 | a null token gives false; a known one is removed and gives true; an unknown one gives NotFoundUser; users never change |
| AuthenticationServices.Login | src/br/ufal/ic/p2/jackut/services/AuthenticationService.java:22-32 | succeeds exactly when the password checks; the token begins with login and `_`, is bound to the login and resolves to the user; failure changes nothing |
| FriendshipServices.AreFriends | src/br/ufal/ic/p2/jackut/services/FriendshipService.java:36-43 | an unknown login gives NotFoundUser; otherwise the result is membership in the friends list |
| FriendshipServices.AddFriendCheck | src/br/ufal/ic/p2/jackut/services/FriendshipService.java:53-81 | a request is accepted only with a valid session, an existing friend and a friend other than the user; the full if-and-only-if is in AddFriendRefusals |
| FriendshipServices.AddFriendRefusals | src/br/ufal/ic/p2/jackut/services/FriendshipService.java:53-81 | the checks run in source order: unknown user, self, blocked by an enemy, already a friend, already requested; each gives its message, and the request goes through exactly when none applies |
| FriendshipServices.AddFriendStep | src/br/ufal/ic/p2/jackut/services/FriendshipService.java:53-93 | the outcome is the check's, and a refused request changes nothing |
| FriendshipServices.AddFriendEffect | src/br/ufal/ic/p2/jackut/services/FriendshipService.java:83-92 | if the other side had asked, both become friends and the request is consumed; otherwise only a pending request is added on the other side; no third user changes |
| FriendshipServices.AcceptKeepsSymmetry | src/br/ufal/ic/p2/jackut/services/FriendshipService.java:84-88 | the auto-accept keeps friendship symmetric |
| FriendshipServices.RequestKeepsSymmetry | src/br/ufal/ic/p2/jackut/services/FriendshipService.java:89-91 | recording a request keeps friendship symmetric |
| FriendshipServices.AcceptKeepsStore | src/br/ufal/ic/p2/jackut/services/FriendshipService.java:84-88 | the auto-accept keeps users keyed and lists duplicate-free |
| FriendshipServices.RequestKeepsStore | src/br/ufal/ic/p2/jackut/services/FriendshipService.java:89-91 | recording a request keeps users keyed and lists duplicate-free |
| FriendshipServices.AddFriendKeepsStore | src/br/ufal/ic/p2/jackut/services/FriendshipService.java:53-93 | addFriend keeps users keyed, lists duplicate-free and friendship symmetric |
| FriendshipServices.AddFriend | src/br/ufal/ic/p2/jackut/services/FriendshipService.java:53-93 | the in-place operation follows AddFriendStep and keeps the repository valid |
| FriendshipServices.RejectFriendRequestStep | src/br/ufal/ic/p2/jackut/services/FriendshipService.java:135-148 | a refused rejection changes nothing |
| FriendshipServices.RejectFriendRequestEffect | src/br/ufal/ic/p2/jackut/services/FriendshipService.java:135-148 | succeeds exactly when the requester is pending for the session's user; afterwards it is no longer pending; no friends list changes; validity and symmetry are kept |
| FriendshipServices.RejectFriendRequest | src/br/ufal/ic/p2/jackut/services/FriendshipService.java:135-148 | the in-place operation follows RejectFriendRequestStep |
| FriendshipServices.GetFriendsList | src/br/ufal/ic/p2/jackut/services/FriendshipService.java:102-109 | an unknown login gives NotFoundUser; otherwise the brace-formatted friends |
| FriendshipServices.GetPendingFriendRequests | src/br/ufal/ic/p2/jackut/services/FriendshipService.java:118-125 | an unknown login is an error; otherwise the pending requests in arrival order |
| RelationshipServices.AdicionarIdoloCheck | src/br/ufal/ic/p2/jackut/services/RelationshipService.java:46-67 | accepted exactly when the session is valid, the idol exists, is not yet an idol, is not the user itself and has not marked the user as enemy |
| RelationshipServices.AdicionarIdoloStep | src/br/ufal/ic/p2/jackut/services/RelationshipService.java:46-71 | the outcome is the check's, and a refusal changes nothing |
| RelationshipServices.BecomeFanFacts | src/br/ufal/ic/p2/jackut/services/RelationshipService.java:69-70 | the idol is appended to the fan's idols and the fan to the idol's fans; nobody else changes |
| RelationshipServices.AdicionarIdoloEffect | src/br/ufal/ic/p2/jackut/services/RelationshipService.java:46-71 | on success the idol is the user's idol and the user is the idol's fan, by appending; no one else changes |
| RelationshipServices.BecomeFanKeepsStore | src/br/ufal/ic/p2/jackut/services/RelationshipService.java:69-70 | becoming a fan keeps users keyed, lists duplicate-free and fans the mirror of idols |
| RelationshipServices.AdicionarIdoloKeepsStore | src/br/ufal/ic/p2/jackut/services/RelationshipService.java:46-71 | adicionarIdolo keeps users keyed, lists duplicate-free and fans the mirror of idols |
| RelationshipServices.AdicionarIdolo | src/br/ufal/ic/p2/jackut/services/RelationshipService.java:46-71 | the in-place operation follows AdicionarIdoloStep |
| RelationshipServices.RemoverIdoloStep | src/br/ufal/ic/p2/jackut/services/RelationshipService.java:233-243 | an unknown session gives NotFoundUser and a non-idol gives "Usuário não é seu ídolo", both without change |
| RelationshipServices.StopBeingFanFacts | src/br/ufal/ic/p2/jackut/services/RelationshipService.java:241-242 | one occurrence leaves the fan's idols and one the idol's fans; nobody else changes |
| RelationshipServices.StopBeingFanKeepsStore | src/br/ufal/ic/p2/jackut/services/RelationshipService.java:241-242 | afterwards neither link remains, and the store invariants hold |
| RelationshipServices.FanUndo | src/br/ufal/ic/p2/jackut/services/RelationshipService.java:233-243 | removing a freshly added idol restores the users exactly |
| RelationshipServices.IdoloRoundTrip | src/br/ufal/ic/p2/jackut/services/RelationshipService.java:233-243 | after a successful adicionarIdolo, removerIdolo succeeds and restores the users exactly |
| RelationshipServices.RemoverIdolo | src/br/ufal/ic/p2/jackut/services/RelationshipService.java:233-243 | the in-place operation follows RemoverIdoloStep |
| RelationshipServices.EhFa | src/br/ufal/ic/p2/jackut/services/RelationshipService.java:80-84 | true exactly when the user exists and lists the other as idol |
| RelationshipServices.GetFas | src/br/ufal/ic/p2/jackut/services/RelationshipService.java:92-95 | a missing user is a null dereference; otherwise the brace-formatted fans |
| RelationshipServices.SessionList | src/br/ufal/ic/p2/jackut/services/RelationshipService.java:165-168 | a list getter on the session's user fails exactly when the session does not resolve |
| RelationshipServices.GetIdolos | src/br/ufal/ic/p2/jackut/services/RelationshipService.java:283-286 | the brace-formatted idols of the session's user |
| RelationshipServices.GetPaqueras | src/br/ufal/ic/p2/jackut/services/RelationshipService.java:165-168 | the brace-formatted crushes of the session's user |
| RelationshipServices.GetInimigos | src/br/ufal/ic/p2/jackut/services/RelationshipService.java:208-211 | the brace-formatted enemies of the session's user |
| RelationshipServices.EhPaquera | src/br/ufal/ic/p2/jackut/services/RelationshipService.java:104-107 | for a valid session, true exactly when the login is one of its user's crushes |
| RelationshipServices.EhInimigo | src/br/ufal/ic/p2/jackut/services/RelationshipService.java:220-223 | for a valid session, true exactly when the login is one of its user's enemies |
| RelationshipServices.AdicionarPaqueraCheck | src/br/ufal/ic/p2/jackut/services/RelationshipService.java:120-141 | accepted exactly when the session is valid, the crush exists, is not yet a crush, is not the user itself and has not marked the user as enemy |
| RelationshipServices.AdicionarPaqueraStep | src/br/ufal/ic/p2/jackut/services/RelationshipService.java:120-157 | the outcome is the check's, and a refusal changes nothing |
| RelationshipServices.CourtEffect | src/br/ufal/ic/p2/jackut/services/RelationshipService.java:143-156 | the crush is appended; if it is mutual, each side gets the "é seu paquera" notice from "jackut" naming the other; otherwise nothing else changes |
| RelationshipServices.CourtKeepsStore | src/br/ufal/ic/p2/jackut/services/RelationshipService.java:143-156 | courting keeps the store invariants |
| RelationshipServices.AdicionarPaqueraKeepsStore | src/br/ufal/ic/p2/jackut/services/RelationshipService.java:120-157 | adicionarPaquera keeps the store invariants |
| RelationshipServices.AdicionarPaquera | src/br/ufal/ic/p2/jackut/services/RelationshipService.java:120-157 | the in-place operation follows AdicionarPaqueraStep |
| RelationshipServices.CrushUndo | src/br/ufal/ic/p2/jackut/services/RelationshipService.java:252-259 | removing a freshly appended crush restores the users exactly |
| RelationshipServices.RemoverPaqueraStep | src/br/ufal/ic/p2/jackut/services/RelationshipService.java:252-259 | a refusal changes nothing |
| RelationshipServices.RemoverPaqueraEffect | src/br/ufal/ic/p2/jackut/services/RelationshipService.java:252-259 | succeeds exactly when the login is a crush; then only that user's crushes change and the login is gone; the store invariants hold |
| RelationshipServices.PaqueraRoundTrip | src/br/ufal/ic/p2/jackut/services/RelationshipService.java:252-259 | after a successful adicionarPaquera with no mutual crush, removerPaquera succeeds and restores the users exactly |
| RelationshipServices.RemoverPaquera | src/br/ufal/ic/p2/jackut/services/RelationshipService.java:252-259 | the in-place operation follows RemoverPaqueraStep |
| RelationshipServices.AdicionarInimigoStep | src/br/ufal/ic/p2/jackut/services/RelationshipService.java:180-200 | a refusal changes nothing |
| RelationshipServices.AdicionarInimigoEffect | src/br/ufal/ic/p2/jackut/services/RelationshipService.java:180-200 | succeeds exactly when the session is valid, the enemy exists, is not yet an enemy and is not the user; then only the user's enemies grow by appending it; the store invariants hold |
| RelationshipServices.AdicionarInimigo | src/br/ufal/ic/p2/jackut/services/RelationshipService.java:180-200 | the in-place operation follows AdicionarInimigoStep |
| RelationshipServices.RemoverInimigoStep | src/br/ufal/ic/p2/jackut/services/RelationshipService.java:268-275 | succeeds exactly when the session resolves and the login is one of its enemies; otherwise an unresolved session is NotFoundUser and a login that is not an enemy gives "Usuário não é seu inimigo"; a refusal changes nothing |
| RelationshipServices.RemoverInimigoEffect | src/br/ufal/ic/p2/jackut/services/RelationshipService.java:268-275 | on success the login leaves the actor's enemies, every other enemy stays, no other field and no other user changes, and the store invariants hold |
| RelationshipServices.EnemyUndo | src/br/ufal/ic/p2/jackut/services/RelationshipService.java:268-275 | removing a freshly appended enemy restores the users exactly |
| RelationshipServices.InimigoRoundTrip | src/br/ufal/ic/p2/jackut/services/RelationshipService.java:268-275 | after a successful adicionarInimigo, removerInimigo succeeds and restores the users exactly |
| RelationshipServices.RemoverInimigo | src/br/ufal/ic/p2/jackut/services/RelationshipService.java:268-275 | the in-place operation follows RemoverInimigoStep |
| MessageServices.SendMessageCheck | src/br/ufal/ic/p2/jackut/services/MessageService.java:33-50 | a message is sent exactly when the session is valid, the recipient exists, is not the sender and has not marked the sender as enemy |
| MessageServices.SendMessageStep | src/br/ufal/ic/p2/jackut/services/MessageService.java:33-54 | the outcome is the check's, and a refusal changes nothing |
| MessageServices.SendMessageEffect | src/br/ufal/ic/p2/jackut/services/MessageService.java:51-53 | only the recipient's queue changes, by appending the message from the sender; the store invariants hold |
| MessageServices.SendMessage | src/br/ufal/ic/p2/jackut/services/MessageService.java:33-54 | the in-place operation follows SendMessageStep |
| MessageServices.ReadMessageStep | src/br/ufal/ic/p2/jackut/services/MessageService.java:64-76 | fails exactly when the session does not resolve or its queue is empty (then "Não há recados."); otherwise it returns the head's text and leaves the tail, changing nothing else |
| MessageServices.ReadMessage | src/br/ufal/ic/p2/jackut/services/MessageService.java:64-76 | the in-place operation follows ReadMessageStep |
| MessageServices.SendThenRead | src/br/ufal/ic/p2/jackut/services/MessageService.java:33-76 | a message sent to an empty queue is the next one its recipient reads, and the read restores the users exactly |
| MessageServices.SendThenReadFifo | src/br/ufal/ic/p2/jackut/services/MessageService.java:33-76 | on a non-empty queue sending does not change which message is read next: reading then sending equals sending then reading |
| CommunityServices.CreateCommunityCheck | src/br/ufal/ic/p2/jackut/services/CommunityService.java:26-43 | creation is accepted exactly when the session is valid and the name is free; a taken name gives "Comunidade com esse nome já existe." |
| CommunityServices.CreateCommunityStep | src/br/ufal/ic/p2/jackut/services/CommunityService.java:26-43 | the outcome is the check's, and a refusal changes nothing |
| CommunityServices.FoundEffect | src/br/ufal/ic/p2/jackut/services/CommunityService.java:26-43 | the new community has the creator as manager and only member; no other community changes; only the creator's joined list grows by the name; consistency holds |
| CommunityServices.CreateCommunity | src/br/ufal/ic/p2/jackut/services/CommunityService.java:26-43 | the in-place operation follows CreateCommunityStep and appends the name to the key sequence |
| CommunityServices.GetCommunity | src/br/ufal/ic/p2/jackut/services/CommunityService.java:54-60 | the stored community, or "Comunidade não existe." |
| CommunityServices.GetCommunityDescription | src/br/ufal/ic/p2/jackut/services/CommunityService.java:62-68 | the description of a stored community |
| CommunityServices.GetCommunityOwner | src/br/ufal/ic/p2/jackut/services/CommunityService.java:69-76 | the manager of a stored community |
| CommunityServices.GetCommunityMembers | src/br/ufal/ic/p2/jackut/services/CommunityService.java:78-84 | for a valid community, the brace-formatted members in joining order |
| CommunityServices.GetCommunityByUser | src/br/ufal/ic/p2/jackut/services/CommunityService.java:49-52 | the result is the brace-formatting of a duplicate-free list holding exactly the stored communities that have the login as a member; no order is promised |
| CommunityServices.ListCommunities | src/br/ufal/ic/p2/jackut/services/CommunityService.java:86-89 | an unknown login gives NotFoundUser; otherwise the brace-formatted joined list |
| CommunityServices.JoinCommunityCheck | src/br/ufal/ic/p2/jackut/services/CommunityService.java:92-102 | joining is accepted exactly when the session is valid, the community exists and the user is not yet a member |
| CommunityServices.JoinCommunityStep | src/br/ufal/ic/p2/jackut/services/CommunityService.java:92-109 | the outcome is the check's, and a refusal changes nothing |
| CommunityServices.EnrolEffect | src/br/ufal/ic/p2/jackut/services/CommunityService.java:104-105 | the user is appended to the members and the name to its joined list; nothing else changes; consistency holds |
| CommunityServices.JoinCommunity | src/br/ufal/ic/p2/jackut/services/CommunityService.java:92-109 | the in-place operation follows JoinCommunityStep |
| CommunityServices.LeaveCommunityCheck | src/br/ufal/ic/p2/jackut/services/CommunityService.java:111-124 | leaving is accepted exactly when the session is valid, the community exists, the user is a member and not its manager; the manager gets "O gerente não pode sair da comunidade." |
| CommunityServices.LeaveCommunityStep | src/br/ufal/ic/p2/jackut/services/CommunityService.java:111-130 | the outcome is the check's, and a refusal changes nothing |
| CommunityServices.WithdrawEffect | src/br/ufal/ic/p2/jackut/services/CommunityService.java:126-127 | the user is no longer a member; the manager and the other members stay; one occurrence of the name leaves its joined list; consistency holds |
| CommunityServices.LeaveCommunity | src/br/ufal/ic/p2/jackut/services/CommunityService.java:111-130 | the in-place operation follows LeaveCommunityStep |
| CommunityServices.ManagerCheck | src/br/ufal/ic/p2/jackut/services/CommunityService.java:132-143 | only the manager of an existing community passes; any other user gets "Apenas o gerente pode editar a comunidade." |
| CommunityServices.EditDescriptionStep | src/br/ufal/ic/p2/jackut/services/CommunityService.java:132-146 | on success only that community's description changes; a refusal changes nothing; validity is kept |
| CommunityServices.EditCommunityDescription | src/br/ufal/ic/p2/jackut/services/CommunityService.java:132-146 | the in-place operation follows EditDescriptionStep |
| CommunityServices.TransferCheck | src/br/ufal/ic/p2/jackut/services/CommunityService.java:148-166 | transfer is accepted exactly when the session's user manages the community and the new manager exists and is a member |
| CommunityServices.TransferStep | src/br/ufal/ic/p2/jackut/services/CommunityService.java:148-170 | on success only the manager changes; a refusal changes nothing; consistency is kept |
| CommunityServices.TransferManagement | src/br/ufal/ic/p2/jackut/services/CommunityService.java:148-170 | the in-place operation follows TransferStep |
| CommunityServices.DeleteCommunityStep | src/br/ufal/ic/p2/jackut/services/CommunityService.java:172-186 | only the manager deletes; the community is removed and nothing else; consistency is kept |
| CommunityServices.DeleteCommunity | src/br/ufal/ic/p2/jackut/services/CommunityService.java:172-186 | the in-place operation follows DeleteCommunityStep and drops the name from the key sequence |
| CommunityServices.FanOutEffect | src/br/ufal/ic/p2/jackut/services/CommunityService.java:202-207 | every stored member gets the post at the tail of its community queue and every other user is unchanged |
| CommunityServices.SendMessageCheck | src/br/ufal/ic/p2/jackut/services/CommunityService.java:189-199 | posting is accepted exactly when the session is valid and the community exists |
| CommunityServices.SendMessageStep | src/br/ufal/ic/p2/jackut/services/CommunityService.java:189-208 | the outcome is the check's, and a refusal changes nothing |
| CommunityServices.SendMessageEffect | src/br/ufal/ic/p2/jackut/services/CommunityService.java:189-208 | the post is appended to the community's log and to the queue of every member, and no one else changes |
| CommunityServices.SendMessage | src/br/ufal/ic/p2/jackut/services/CommunityService.java:189-208 | the in-place operation follows SendMessageStep |
| CommunityServices.Broadcast | src/br/ufal/ic/p2/jackut/services/CommunityService.java:202-207 | the loop over the members computes the fan-out |
| CommunityServices.ReadMessageStep | src/br/ufal/ic/p2/jackut/services/CommunityService.java:210-218 | fails exactly when the session does not resolve or the community queue is empty; otherwise it returns the head, keeps the tail and changes nothing else |
| CommunityServices.ReadMessage | src/br/ufal/ic/p2/jackut/services/CommunityService.java:210-218 | the in-place operation follows ReadMessageStep |
| CommunityServices.PostThenRead | src/br/ufal/ic/p2/jackut/services/CommunityService.java:189-218 | a member with an empty queue reads exactly the post, and its record returns to what it was |
| UserServices.CreateUserCheck | src/br/ufal/ic/p2/jackut/services/UserService.java:44-63 | checks in source order: a bad login gives "Login inválido.", then a bad password "Senha inválida.", then a taken login UserAlreadyExists; accepted exactly when none applies |
| UserServices.NameOrEmpty | src/br/ufal/ic/p2/jackut/services/UserService.java:44-63 | a missing name is stored as the empty string |
| UserServices.CreateUserStep | src/br/ufal/ic/p2/jackut/services/UserService.java:44-63 | the outcome is the check's, and a refusal changes nothing |
| UserServices.CreateUserEffect | src/br/ufal/ic/p2/jackut/services/UserService.java:44-63 | on success exactly one fresh user is added under the login; nobody else changes; all invariants hold |
| UserServices.FreshUserKeepsStore | src/br/ufal/ic/p2/jackut/services/UserService.java:44-63 | adding a fresh user keeps every store invariant |
| UserServices.CreateUser | src/br/ufal/ic/p2/jackut/services/UserService.java:44-63 | the in-place operation follows CreateUserStep |
| UserServices.GetUserAttribute | src/br/ufal/ic/p2/jackut/services/UserService.java:75-97 | an unknown login gives NotFoundUser; `nome`, `senha` and `login` give the fields; any other key gives its non-empty value or NotFilledAttribute |
| UserServices.EditProfileStep | src/br/ufal/ic/p2/jackut/services/UserService.java:109-133 | fails exactly when the session does not resolve, a new login is invalid ("Login inválido."), or it belongs to someone else (UserAlreadyExists); a failure changes nothing; the effect of a success is stated by `UserServices.EditThenGet` (name, password, attributes) and `UserServices.RekeyEffect` (login) |
| UserServices.RekeyEffect | src/br/ufal/ic/p2/jackut/services/UserService.java:118-130 | a rename keeps the user's own data under the new login; the old login's messages and joined list are dropped; no user refers to the old login; its sessions are gone; the user-store invariants (`Keyed`, `AllValid`, `SessionsOk`) hold |
| UserServices.RekeyStrandsCommunities | src/br/ufal/ic/p2/jackut/services/UserService.java:118-130 | a rename leaves the community store untouched, so a community the user shared with another member still lists the vanished old login, while the cascade took that community out of the other member's joined list; `MembersJoined` no longer holds |
| UserServices.RekeyBreaksSymmetry | src/br/ufal/ic/p2/jackut/services/UserService.java:118-130 | the renamed user keeps its friends while they lose it, so friendship stops being symmetric |
| UserServices.EditThenGet | src/br/ufal/ic/p2/jackut/services/UserService.java:109-133 | editing `nome`, `senha` or an extra attribute of the session user succeeds, keeps the sessions, the keys and every other user; `nome` and `senha` set exactly the name and the password (what `getUserAttribute` then returns), and an extra attribute given a non-empty value reads back as that value with nothing else changed |
| UserServices.Rename | src/br/ufal/ic/p2/jackut/services/UserService.java:118-130 | the in-place rename follows Rekey |
| UserServices.EditUserProfile | src/br/ufal/ic/p2/jackut/services/UserService.java:109-133 | the in-place operation follows EditProfileStep |
| UserServices.AddIdolStep | src/br/ufal/ic/p2/jackut/services/UserService.java:160-182 | succeeds exactly when both users exist, the idol is new, is not the user and has not marked the user as enemy; a refusal changes nothing |
| UserServices.AddIdolAgreesWithAdicionarIdolo | src/br/ufal/ic/p2/jackut/services/UserService.java:160-182 | on the session's user, addIdol and adicionarIdolo accept the same requests, make the same change and raise the same errors apart from the enemy message |
| UserServices.AddIdol | src/br/ufal/ic/p2/jackut/services/UserService.java:160-182 | the in-place operation follows AddIdolStep |
| UserServices.IsFan | src/br/ufal/ic/p2/jackut/services/UserService.java:191-197 | true exactly when the user exists and lists the other as idol |
| UserServices.IsCrush | src/br/ufal/ic/p2/jackut/services/UserService.java:313-319 | true exactly when the user exists and lists the other as crush |
| UserServices.IsEnemy | src/br/ufal/ic/p2/jackut/services/UserService.java:328-334 | true exactly when the user exists and lists the other as enemy |
| UserServices.GetIdolsFormatted | src/br/ufal/ic/p2/jackut/services/UserService.java:342-345 | the brace-formatted idols of a stored user |
| UserServices.GetFansFormatted | src/br/ufal/ic/p2/jackut/services/UserService.java:353-356 | the brace-formatted fans of a stored user |
| UserServices.GetCrushesFormatted | src/br/ufal/ic/p2/jackut/services/UserService.java:364-367 | the brace-formatted crushes of a stored user |
| UserServices.GetEnemiesFormatted | src/br/ufal/ic/p2/jackut/services/UserService.java:375-378 | the brace-formatted enemies of a stored user |
| UserServices.RemoveIdolStep | src/br/ufal/ic/p2/jackut/services/UserService.java:260-270 | a missing user is a null dereference and a non-idol gives "Usuário não é seu ídolo", both without change |
| UserServices.IdolRoundTrip | src/br/ufal/ic/p2/jackut/services/UserService.java:260-270 | after a successful addIdol, removeIdol succeeds and restores the users exactly |
| UserServices.RemoveIdol | src/br/ufal/ic/p2/jackut/services/UserService.java:260-270 | the in-place operation follows RemoveIdolStep |
| UserServices.RemoveCrushStep | src/br/ufal/ic/p2/jackut/services/UserService.java:279-287 | succeeds exactly when the login is a crush of a stored user, otherwise "Usuário não é seu paquera" without change |
| UserServices.RemoveCrush | src/br/ufal/ic/p2/jackut/services/UserService.java:279-287 | the in-place operation follows RemoveCrushStep |
| UserServices.RemoveEnemyStep | src/br/ufal/ic/p2/jackut/services/UserService.java:296-304 | succeeds exactly when the login is an enemy of a stored user, otherwise "Usuário não é seu inimigo" without change |
| UserServices.RemoveEnemy | src/br/ufal/ic/p2/jackut/services/UserService.java:296-304 | the in-place operation follows RemoveEnemyStep |
| UserServices.AddCrushStep | src/br/ufal/ic/p2/jackut/services/UserService.java:207-233 | an unknown crush gives NotFoundUser and a missing user a null dereference, both without change; it succeeds exactly when the crush has not marked the user as enemy |
| UserServices.AddCrushRecordsBeforeRefusing | src/br/ufal/ic/p2/jackut/services/UserService.java:207-233 | the crush is recorded before the enemy check, so a refused addCrush still leaves it recorded |
| UserServices.AddCrushNotifies | src/br/ufal/ic/p2/jackut/services/UserService.java:221-232 | a mutual crush sends each side the "é seu paquera" notice naming the other; otherwise no message is sent; no third user changes |
| UserServices.SelfCrushNotifiesTwice | src/br/ufal/ic/p2/jackut/services/UserService.java:207-233 | addCrush does not refuse the user itself, which then gets the notice twice |
| UserServices.AddCrush | src/br/ufal/ic/p2/jackut/services/UserService.java:207-233 | the in-place operation follows AddCrushStep |
| UserServices.AddEnemyStep | src/br/ufal/ic/p2/jackut/services/UserService.java:242-251 | an unknown enemy gives NotFoundUser and a missing user a null dereference; otherwise it succeeds, the enemy is listed and only the user's enemies change |
| UserServices.AddEnemyIdempotent | src/br/ufal/ic/p2/jackut/services/UserService.java:242-251 | adding the same enemy again succeeds and changes nothing |
| UserServices.EnemyRoundTrip | src/br/ufal/ic/p2/jackut/services/UserService.java:242-304 | removing an enemy just added for the first time restores the users exactly |
| UserServices.AddEnemy | src/br/ufal/ic/p2/jackut/services/UserService.java:242-251 | the in-place operation follows AddEnemyStep |
| UserServices.WithoutNames | src/br/ufal/ic/p2/jackut/services/UserService.java:399-406 | exactly the communities whose name is not in the list remain, unchanged |
| UserServices.RemoveUserStep | src/br/ufal/ic/p2/jackut/services/UserService.java:387-416 | an unknown login gives NotFoundUser and changes nothing; otherwise the result is true |
| UserServices.RemoveUserEffect | src/br/ufal/ic/p2/jackut/services/UserService.java:387-416 | after removeUser no user and no session refers to the login; its joined communities are gone and all others kept; the user-store invariants (`Keyed`, `AllValid`, `SessionsOk`, `Closed`, `FriendsSymmetric`, `FansMirrorIdols`) hold |
| UserServices.RemoveUserKeepsCommunities | src/br/ufal/ic/p2/jackut/services/UserService.java:387-416 | on a consistent store removeUser keeps `Consistent`, and no surviving community lists the login as member or manager |
| UserServices.RemoveUserDeletesForeignCommunity | src/br/ufal/ic/p2/jackut/services/UserService.java:393-406 | a community the removed user joined but another, still stored, user manages is deleted |
| UserServices.RemoveOwnedCommunities | src/br/ufal/ic/p2/jackut/services/UserService.java:393-406 | the intended deletion: exactly the communities not managed by the login remain |
| UserServices.RemoveOwnedCommunitiesEffect | src/br/ufal/ic/p2/jackut/services/UserService.java:393-406 | with the intended deletion no surviving community is managed by the removed user, every community of another manager survives, and validity is kept |
| UserServices.DeleteCommunities | src/br/ufal/ic/p2/jackut/services/UserService.java:399-406 | the loop removes every listed community from the store |
| UserServices.RemoveUser | src/br/ufal/ic/p2/jackut/services/UserService.java:387-416 | the in-place operation on both repositories follows RemoveUserStep |
| LegacyUsers.NewUser | src/br/ufal/ic/p2/jackut/User.java:58-63 | a new user has the given identity and empty friends, requests, attributes and queue |
| LegacyUsers.User.SetAttributeExtra | src/br/ufal/ic/p2/jackut/User.java:216-218 | the attribute is inserted or overwritten and nothing else changes |
| LegacyUsers.User.GetAttributeExtra | src/br/ufal/ic/p2/jackut/User.java:227-233 | a present key gives its value, even an empty one; a missing key gives "Atributo não preenchido." |
| LegacyUsers.User.AddFriend | src/br/ufal/ic/p2/jackut/User.java:240-245 | friends grow by exactly x in order; other requests are kept; on a valid user x leaves the requests and no duplicate appears |
| LegacyUsers.User.AddFriendSolicitation | src/br/ufal/ic/p2/jackut/User.java:252-256 | requests grow by exactly x in order, without duplicates, and nothing else changes |
| LegacyUsers.User.IncomingMessage | src/br/ufal/ic/p2/jackut/User.java:263-265 | the message goes to the tail of the queue and nothing else changes |
| LegacyUsers.AddFriendIdempotent | src/br/ufal/ic/p2/jackut/User.java:240-245 | adding the same friend twice gives the state of adding it once |
| LegacyFacade.CriarUsuarioStep | src/br/ufal/ic/p2/jackut/Facade.java:102-133 | checks in source order: bad login, bad password, taken login, each with its message and without change; otherwise exactly the new user is added |
| LegacyFacade.CriarUsuarioKeepsStore | src/br/ufal/ic/p2/jackut/Facade.java:102-120 | criarUsuario keeps users keyed, lists duplicate-free, sessions pointing at users and friendship symmetric |
| LegacyFacade.Repoint | src/br/ufal/ic/p2/jackut/Facade.java:205-229 | every session naming the old login names the new one and every other session is unchanged |
| LegacyFacade.EditarPerfilStep | src/br/ufal/ic/p2/jackut/Facade.java:205-229 | fails exactly for an unknown session ("Usuário não cadastrado.") or a taken new login ("Login inválido."); a failure changes nothing |
| LegacyFacade.RenameEffect | src/br/ufal/ic/p2/jackut/Facade.java:205-229 | a rename moves the record to the new login, changes nobody else, keeps every session on the renamed user, and keeps the store keyed |
| LegacyFacade.RenameToOwnLoginRefused | src/br/ufal/ic/p2/jackut/Facade.java:205-229 | renaming to one's own login is refused as an invalid login |
| LegacyFacade.RenameLeavesStaleFriend | src/br/ufal/ic/p2/jackut/Facade.java:205-229 | a friend of the renamed user still lists the old login, which no longer exists |
| LegacyFacade.AdicionarAmigoCheck | src/br/ufal/ic/p2/jackut/Facade.java:260-295 | accepted exactly when the session exists, the friend exists, is not the user, is not yet a friend and has no pending request from the user |
| LegacyFacade.AdicionarAmigoStep | src/br/ufal/ic/p2/jackut/Facade.java:260-295 | the outcome is the check's, and a refusal changes nothing |
| LegacyFacade.BefriendEffect | src/br/ufal/ic/p2/jackut/Facade.java:284-287 | the auto-accept appends each to the other's friends and consumes the request; nobody else changes; the invariants hold |
| LegacyFacade.InviteEffect | src/br/ufal/ic/p2/jackut/Facade.java:288-290 | only a pending request is added on the other side; the invariants hold |
| LegacyFacade.RequestThenAccept | src/br/ufal/ic/p2/jackut/Facade.java:260-295 | a request followed by the other side's request makes both friends |
| LegacyFacade.AdicionarAmigoKeepsStore | src/br/ufal/ic/p2/jackut/Facade.java:260-295 | adicionarAmigo keeps the store invariants |
| LegacyFacade.EnviarRecadoStep | src/br/ufal/ic/p2/jackut/Facade.java:326-348 | sent exactly when the session exists, the recipient exists and is not the sender; then the message is appended to the recipient's queue and nothing else changes |
| LegacyFacade.LerRecadoStep | src/br/ufal/ic/p2/jackut/Facade.java:357-373 | an empty queue gives "Não há recados."; otherwise the head's text is returned and the tail kept |
| LegacyFacade.SendThenRead | src/br/ufal/ic/p2/jackut/Facade.java:326-373 | the queue is first in, first out: a message sent to an empty queue is read next, and otherwise sending and reading commute |
| LegacyFacade.Facade.constructor | src/br/ufal/ic/p2/jackut/Facade.java:43-55 | the system starts with no users and no sessions |
| LegacyFacade.Facade.ZerarSistema | src/br/ufal/ic/p2/jackut/Facade.java:43-55 | the in-memory reset empties both maps |
| LegacyFacade.Facade.CriarUsuario | src/br/ufal/ic/p2/jackut/Facade.java:102-120 | the in-place operation follows CriarUsuarioStep |
| LegacyFacade.Facade.GetAtributoUsuario | src/br/ufal/ic/p2/jackut/Facade.java:143-160 | an unknown login gives "Usuário não cadastrado."; `nome`, `senha` and `login` give the fields; any other key gives its value or "Atributo não preenchido." |
| LegacyFacade.Facade.AbrirSessao | src/br/ufal/ic/p2/jackut/Facade.java:170-183 | succeeds exactly when the login exists with that password; the token is login, `_` and the clock, bound to the login; otherwise "Login ou senha inválidos." without change |
| LegacyFacade.Facade.EditarPerfil | src/br/ufal/ic/p2/jackut/Facade.java:205-229 | the in-place operation follows EditarPerfilStep |
| LegacyFacade.Facade.EhAmigo | src/br/ufal/ic/p2/jackut/Facade.java:239-250 | an unknown login gives "Usuário não cadastrado."; otherwise membership in the friends list |
| LegacyFacade.Facade.AdicionarAmigo | src/br/ufal/ic/p2/jackut/Facade.java:260-295 | the in-place operation follows AdicionarAmigoStep |
| LegacyFacade.Facade.GetAmigos | src/br/ufal/ic/p2/jackut/Facade.java:304-315 | an unknown login gives "Usuário não cadastrado."; otherwise the brace-formatted friends |
| LegacyFacade.Facade.EnviarRecado | src/br/ufal/ic/p2/jackut/Facade.java:326-348 | the in-place operation follows EnviarRecadoStep |
| LegacyFacade.Facade.LerRecado | src/br/ufal/ic/p2/jackut/Facade.java:357-373 | the in-place operation follows LerRecadoStep |

## Left out

- Persistence is not modelled. This covers:
  - `saveData`, `loadData` and `deleteDataFile` in both repositories;
  - the save calls in `removeUser` and `removeUserCompletely`;
  - the file deletion in `zerarSistema`;
  - `carregarSistema` and `encerrarSistema`;
  - `services/SystemService.java`, which only sequences those calls.

  Only the in-memory effect of clearing is modelled.
- `facade/Facade.java` and `Main.java` are not part of this model. They only delegate, log and re-wrap exceptions.
- `UserService.editProfile` is not modelled separately. It only calls `editUserProfile`.
- `CommunityService.searchCommunities` is not modelled. It depends on Unicode case folding.
- Logging to the error stream is left out.
- The clock is not modelled. It is the parameter `millis`, so a token that collides with an existing one overwrites its session, as the map put does.
- Object identity and aliasing are not modelled.
  - `User`, `Friends`, `Community`, `Recado` and the legacy `User` are values. An in-place update of one of their lists becomes a new value written back into its repository map, so the model does not capture two references to one object.
  - Sessions map a token to a login rather than to a shared user object. The legacy rename re-points every session of the old login to the new one, which stands for the shared object a session holds.
- Null strings are modelled, as `Option`, only where the code tests for null:
  - the arguments of `createUser` and `criarUsuario`;
  - the token of `isValidSession` and `logout`;
  - the name, which is stored as the empty string.

  Everywhere else strings are assumed non-null.
- The exception classes are not modelled one by one. They are constructors of one `Error` datatype carrying the message the code raises.
- A Java `RuntimeException` from a null dereference is the error `NullPointer`. Any change the code makes before the crash is kept, as in `UserServices.RemoveIdolStep` and `RelationshipServices.RemoverIdoloStep`.
- The iteration order of the community store is not modelled. The field initialiser at `repositories/CommunityRepository.java:14` is a `LinkedHashMap`, but the `CommunityService` constructor always calls `loadData`, which installs a `HashMap` (or the saved one). So `listCommunitiesByUser`, `listCommunities` and `getCommunityByUser` run in hash order. The model keeps one fixed sequence of names and its contracts state only the set of names each returns.
- Community messages carry only their text, as in the code, and not their sender.
- CommunityServices.GetCommunityMembers: the members in joining order are stated only for a valid community (manager a member, no duplicates). For any other community the result is the distinct member list.
- UserServices.RekeyEffect: it promises only that no user refers to the old login. The communities the renamed user joined still list the old login as a member, and as manager where the user created them, because `editUserProfile` never updates the community store. `Consistent` is then broken, as `UserServices.RekeyStrandsCommunities` shows.
- FriendshipServices.AddFriendCheck: its own contract gives only necessary conditions for acceptance. The full if-and-only-if, with each refusal's message, is in `FriendshipServices.AddFriendRefusals`.
- RelationshipServices.RemoverIdoloStep: the success case is stated in `RelationshipServices.StopBeingFanFacts` and `RelationshipServices.IdoloRoundTrip` rather than in its own contract.
- UserServices.RemoveIdolStep: the success case is stated in `UserServices.IdolRoundTrip` rather than in its own contract.

## Findings

| source | as written | input that shows it | evidently intended | confidence | as-written member | corrected member |
|---|---|---|---|---|---|---|
| src/br/ufal/ic/p2/jackut/services/UserService.java:393-406 | `removeUser` deletes every community in the removed user's joined list, although its comment says it deletes the communities the user owns | user A creates community C, user B joins C, then `removeUser(B)`: C is deleted while its manager A is still stored | delete only the communities the removed user manages | high (the comments on lines 393 and 399 say "owned"), not executed | UserServices.RemoveUserDeletesForeignCommunity | UserServices.RemoveOwnedCommunitiesEffect |

`UserServices.RemoveUser` and `UserServices.RemoveUserStep` keep the as-written deletion, so that they follow the code.
