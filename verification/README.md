# IM backend core, modelled in Dafny

This project models the core of an instant-messaging backend written in Go.
It has a websocket presence registry, and HTTP services for accounts, friends,
groups and messages. The services sit on GORM repositories over MySQL and on a
Redis publish/subscribe bus.

The model has these parts:

- **Websocket layer.**
  - `Sessions.Session` is a class. Its 256-slot outbound buffer is a `seq`, and it has a closed flag and a last-ping time.
  - `Registry.Manager` is a class holding the `user id -> session` map and a log of what it published on the bus.
  - `Heartbeat` holds the liveness test. `WsGate` is the upgrade handler's token gate.
  - `PubSub.Bus` is the Redis publish side. It keeps an append-only log of publications and an `up` flag for a Redis that refuses publishes.
- **Repositories** (`UserStore`, `FriendStore`, `GroupStore`, `MessageStore`). Each is a class.
  - Its table is a `seq` in primary-key order, with an auto-increment counter. A query without `ORDER BY` may return rows in any order; the model uses primary-key order, which is one of the allowed orders.
  - Queries are functions that read the table. Writes are methods that reassign it.
  - GORM's `First` is the first matching row in key order. `ORDER BY created_at DESC` is a stable sort, newest first.
- **Services** (`AuthService`, `UserService`, `FriendService`, `GroupService`, `MessageService`). These are classes over the repositories.
  - Each method states its error cases with the source's own messages.
  - It also states the exact new table contents, and the invariants the tables keep.
- **Middleware, request types, models and configuration** (`Auth`, `Requests`, `Models`, `Config`).
  - Bearer-token parsing, the gin context accessors, the request and model records with their column widths, and the DSN and `host:port` strings.
  - Small libraries beside them: `Fmt` for `%d` and its parse, `Strs` for `SplitN(s, " ", 2)`, `SqlLike` for the `LIKE` matcher, and `Seqs`.

Some things are parameters of the model rather than parts of it:

- Clocks become an explicit `now` (whole seconds).
- JWT signing and parsing become function parameters (`genToken`, `parse`).
- bcrypt is a symbolic digest that `Models.Hash` builds and `Models.Matches` checks.
- RFC 3339 time formatting is a parameter (`rfc3339`).

Goroutines and channels become direct, sequential calls.

In these places the code does something a reader may not expect; the model follows the code:

- `removeSession` removes whatever session is stored under the user id. It does not check that it is the session being unregistered.
- `checkDeadConnections` unregisters dead sessions but does not close them.
- The `HeartbeatConfig` defaults are declared but never read. The sweep hard-codes 90 seconds.
- A `group_message` frame from Redis is only logged, so it reaches nobody. `MessageService.SendMessage` publishes group messages as `message` events on `im:group:message`. The subscriber then delivers them to `to_user_id` alone (`MessageService.GroupMessageReachesOnlyRecipient`).
- Re-sending a friend request after a rejection inserts a new pending row. `HandleFriendRequest` still finds the older, rejected row first, so the new request can never be handled (`FriendService.ResentRequestStaysPending`).

## Model

| member | source | states |
|---|---|---|
| Sessions.Session.constructor | internal/websocket/session.go:28-37 | A new session has the given id and user, an empty buffer, is open, and its last ping is now |
| Sessions.Session.SendMessage | internal/websocket/session.go:119-138 | On a closed session the result is the panic outcome and the buffer is unchanged. Otherwise the envelope is appended when fewer than 256 are queued, and dropped when the buffer is full |
| Sessions.OfferBounded | internal/websocket/session.go:131-137 | Offering one envelope never overflows the 256-slot buffer, keeps what was queued as a prefix, and adds exactly one when there is room |
| Sessions.OfferNShape | internal/websocket/session.go:131-137 | Offering the same envelope n times fills the buffer up to capacity with copies of it after the old contents |
| Sessions.TextFrames | internal/websocket/session.go:84 | Each queued envelope is written as one text frame, in order |
| Sessions.Session.WritePump | internal/websocket/session.go:68-97 | On an open session the writer drains the whole buffer as text frames in queue order and keeps running. On a closed session it takes at most one queued envelope without writing it and stops. Once stopped it writes and takes nothing more |
| Sessions.Session.HandleMessage | internal/websocket/session.go:99-116 | A decoded `ping` frame, and only it, attempts a `pong` reply under the send rules and returns its outcome: the panic exactly when the session is closed, a drop exactly when the open buffer is full. Any other frame, and an undecodable one, changes nothing |
| Sessions.Session.UpdateLastPing | internal/websocket/session.go:141-146 | The last-ping time becomes now |
| Sessions.Session.GetLastPing | internal/websocket/session.go:148-152 | Returns the stored last-ping time |
| Sessions.Session.Close | internal/websocket/session.go:155-166 | After Close the session is closed and its teardown has run exactly once, however many times Close is called |
| Sessions.Session.IsClosed | internal/websocket/session.go:169-173 | Returns the closed flag |
| Sessions.Session.IsAlive | internal/websocket/heartbeat.go:21-24 | Alive exactly when the last ping falls within `timeout` seconds before now |
| Heartbeat.DefaultHeartbeatConfig | internal/websocket/heartbeat.go:15-19 | The pong timeout is longer than the ping interval, and the check runs as often as the ping |
| Heartbeat.IsAliveMonotone | internal/websocket/heartbeat.go:22-24 | A session alive under some timeout is alive under every longer timeout |
| Heartbeat.IsAliveAntitoneInTime | internal/websocket/heartbeat.go:22-24 | A session alive now was alive at every earlier time |
| Registry.AliveIffNotDead | internal/websocket/manager.go:174-178 | The sweep's dead test is exactly the negation of `IsAlive` with a 90-second timeout |
| Registry.Manager.constructor | internal/websocket/manager.go:27-37 | A new manager has no sessions, its context is not cancelled, and it publishes on the given bus |
| Registry.Manager.AddSession | internal/websocket/manager.go:69-83 | The user's entry becomes the new session and an older session of that user is closed. Every other session is untouched, and one `friend_online` event is published |
| Registry.Manager.RemoveSession | internal/websocket/manager.go:86-97 | The user's entry is removed; `friend_offline` is published only when the user was registered |
| Registry.Manager.GetSession | internal/websocket/manager.go:100-105 | Found exactly when the user is registered, and then the registered session |
| Registry.Manager.IsOnline | internal/websocket/manager.go:136-139 | Online exactly when the user has a registered session |
| Registry.Manager.SendToUser | internal/websocket/manager.go:108-116 | No session means nothing is delivered. Otherwise the one session gets the envelope under the session send rules, and the outcome names which rule applied |
| Registry.DeliverEachBuffers | internal/websocket/manager.go:119-123 | When a multi-user send completes, each registered user's buffer receives the envelope once per occurrence of that user in the list, capped at capacity; nobody else is touched |
| Registry.DeliverEachCompletes | internal/websocket/manager.go:119-123 | A multi-user send completes exactly when no listed, registered session is closed |
| Registry.Manager.SendToUsers | internal/websocket/manager.go:119-123 | The sessions' new states and completion are those of sending to each listed user in turn |
| Registry.Manager.Broadcast | internal/websocket/manager.go:126-133 | Every session either is unchanged or has received the envelope. All of them receive it exactly when none is closed, which is exactly when the broadcast completes |
| Registry.ListKeys | internal/websocket/manager.go:142-151 | The listed ids are exactly the registered ones, each once |
| Registry.Manager.GetOnlineUserIDs | internal/websocket/manager.go:142-151 | Exactly the registered user ids, without duplicates |
| Registry.Manager.CollectDead | internal/websocket/manager.go:174-178 | Collects exactly the registered sessions that are dead, each once |
| Registry.Manager.CheckDeadConnections | internal/websocket/manager.go:169-185 | Exactly the dead sessions are unregistered and the live ones kept as they were. One `friend_offline` event per dead user is published while the bus is up |
| Registry.OfflinePublications | internal/websocket/manager.go:228-249 | One offline presence publication per swept user, in order |
| Registry.RedisTargetOnlyDirectMessages | internal/websocket/manager.go:205-225 | Undecodable frames and every event other than `message` (including `group_message`) are delivered to nobody |
| Registry.Manager.HandleRedisMessage | internal/websocket/manager.go:205-225 | A `message` event with a numeric `to_user_id` is delivered to that user alone, and anything else changes no session |
| Registry.Manager.NotifyFriendsOnline | internal/websocket/manager.go:228-249 | Publishes one presence event on `im:online:status`: `friend_online` when online, `friend_offline` otherwise |
| Registry.Manager.OfferOne | internal/websocket/manager.go:126-133 | One open session receives the envelope; every other session is unchanged |
| Registry.Manager.CloseOne | internal/websocket/manager.go:258-260 | One session is closed; every other session is unchanged |
| Registry.Manager.Stop | internal/websocket/manager.go:252-261 | Every registered session is closed, the registry itself is kept, and the manager's context is cancelled |
| PubSub.Bus.constructor | internal/websocket/manager.go:248 | A new bus is up and has published nothing |
| PubSub.Bus.Publish | internal/service/message_service.go:202-207 | A publish fails exactly when Redis is down, and only an accepted publish is recorded |
| Events.KindOf | internal/types/event.go:4-12 | A wire event name maps to one of the seven known kinds exactly when it is one of their names |
| Events.NameOfKindOf | internal/types/event.go:4-12 | Decoding then re-encoding an event name gives it back unchanged |
| Events.KindOfName | internal/types/event.go:4-12 | Encoding then decoding an event kind gives it back |
| WsGate.BearerToken | internal/websocket/handler.go:43-49 | The header's token is what follows `Bearer `, or empty when the header does not start with it |
| WsGate.ExtractToken | internal/websocket/handler.go:41-50 | A non-empty `token` query parameter wins over the header |
| WsGate.Authenticate | internal/websocket/handler.go:52-62 | A missing token gives 401 "missing token" and an unparsable one 401 "invalid token". The gate admits exactly when the token parses, with its claims |
| WsGate.QueryTokenWins | internal/websocket/handler.go:41-50 | With a query token the header is irrelevant |
| WsGate.GateAgreesWithMiddleware | internal/middleware/auth.go:13-52 | With no query token, the websocket gate admits exactly the requests the HTTP middleware accepts, with the same claims |
| WsGate.HandleWebSocket | internal/websocket/handler.go:39-87 | A refused request or a failed upgrade registers nothing, publishes nothing and touches no session. An admitted, upgraded request registers a fresh, open session for the token's user before the writer starts, closes that user's older session, leaves every other session as it was, publishes one `friend_online` event, and the started writer has written nothing |
| Auth.Authorize | internal/middleware/auth.go:13-52 | Each failure has its own message: no header, a header not in `Bearer <token>` form, an empty token, an invalid token. The request is accepted exactly when a non-empty bearer token parses, with those claims |
| Auth.BearerPrefix | internal/middleware/auth.go:24-29 | Splitting on the first space yields the scheme `Bearer` exactly when the header starts with `Bearer `, and the second part is then the rest |
| Auth.AuthorizeBearer | internal/middleware/auth.go:13-52 | A header built from a non-empty valid token is accepted with that token's claims |
| Auth.Admit | internal/middleware/auth.go:39-48 | The context carries the claims' user id and user name |
| Auth.GetUserID | internal/middleware/auth.go:55-62 | The stored user id, or 0 when none is stored |
| Auth.GetUsername | internal/middleware/auth.go:64-70 | The stored user name, or empty when none is stored |
| Config.DSN | config/config.go:85-88 | The DSN is exactly `user:password@tcp(host:port)/database` followed by the fixed charset, parseTime and loc options, with nothing in between |
| Config.DsnUser | config/config.go:85-88 | For a user name without `:`, the user name is recovered as the DSN's text before the first `:` |
| Config.Addr | config/config.go:91-93 | The Redis address splits back at its last `:` into the configured host and port |
| Config.HostPortRoundTrip | config/config.go:91-93 | `host:port` formatting round-trips for every host and every integer port |
| Config.AddrInjective | config/config.go:91-93 | Two configurations with the same address have the same host and port |
| Fmt.FormatInt | config/config.go:92 | `%d` gives a non-empty string without `:` that starts with `-` exactly for negative numbers |
| Fmt.NatDecimalRoundTrip | config/config.go:92 | Decimal digits of a natural parse back to it |
| Fmt.FormatIntRoundTrip | config/config.go:92 | `%d` output parses back to the integer |
| Fmt.FormatIntInjective | config/config.go:92 | Different integers format differently |
| Strs.SplitFirst | internal/middleware/auth.go:24 | Splitting at most once: the input unchanged when the separator is absent, otherwise two parts that rejoin to the input, the first free of the separator |
| Strs.SplitFirstInjective | internal/middleware/auth.go:24 | Different inputs split differently |
| Strs.SplitFirstOfJoin | internal/middleware/auth.go:24 | Splitting `a sep b` with `sep` not in `a` gives back `a` and `b` |
| SqlLike.LikeTrailingPercent | internal/repository/user_repo.go:59 | `%` matches every string |
| SqlLike.LikeLiteralThenPercent | internal/repository/user_repo.go:59 | A literal followed by `%` matches exactly the strings it prefixes |
| SqlLike.LikeLeadingPercent | internal/repository/user_repo.go:59 | A leading `%` matches exactly when the rest of the pattern matches some suffix |
| SqlLike.ContainsPatternIsSubstring | internal/repository/user_repo.go:59 | `%k%` with a wildcard-free k matches exactly the strings containing k |
| Models.Hash | internal/service/auth_service.go:39-47 | The stored digest is of exactly the given password |
| Models.HashInjective | internal/service/auth_service.go:39-47 | Different passwords have different digests |
| Requests.OptionalEmail | internal/types/request.go:8 | `omitempty,email`: the empty string passes, any other only when it is a well-formed address |
| Requests.ValidRegister | internal/types/request.go:4-9 | Accepted exactly when the user name has 3 to 50 characters, the password 6 to 50, the nickname at most 100, and the e-mail is empty or well formed. Its credentials then pass login validation, its profile passes update validation, and user name and nickname fit their columns |
| Requests.ValidLogin | internal/types/request.go:12-15 | Accepted exactly when user name and password are both non-empty |
| Requests.ValidUpdateUser | internal/types/request.go:18-22 | Accepted exactly when the nickname has at most 100 characters, the avatar at most 255, and the e-mail is empty or well formed. The all-empty update passes, and the accepted fields fit their columns |
| Requests.ValidAddFriend | internal/types/request.go:25-28 | Accepted exactly when the friend id is positive and the remark has at most 100 characters, which fits its column |
| Requests.ValidHandleFriend | internal/types/request.go:31-34 | Accepted exactly when the friend id is positive; either value of `accept` passes |
| Requests.ValidSendMessage | internal/types/request.go:37-42 | Accepted exactly when the recipient id is positive, the type is one of the four kinds and the content is non-empty; the group id is never checked |
| Requests.ValidCreateGroup | internal/types/request.go:45-50 | Accepted exactly when the name has 1 to 100 characters, the avatar at most 255 and the description at most 500. The group then fits its columns and its fields pass update validation |
| Requests.ValidUpdateGroup | internal/types/request.go:53-57 | Accepted exactly when the fields fit the group columns; the all-empty update passes |
| Requests.ValidAddGroupMember | internal/types/request.go:60-62 | Accepted exactly when at least one user id is listed |
| UserStore.UserIndex | internal/service/friend_service.go:119-122 | The id-to-user map has exactly the listed users' ids, each mapped to a listed user with that id |
| UserStore.IndexUsers | internal/service/friend_service.go:119-122 | The map-building loop yields that map |
| UserStore.UserRepo.constructor | internal/repository/user_repo.go:10-12 | An empty users table whose ids start at 1 |
| UserStore.UserRepo.Create | internal/repository/user_repo.go:15 | Insertion fails exactly when the user name is taken, leaving the table as it was. Otherwise the user is appended under the next id; the id counter advances either way |
| UserStore.UserRepo.GetByID | internal/repository/user_repo.go:20-27 | The row with that id, or not found exactly when no row has it |
| UserStore.UserRepo.GetByUsername | internal/repository/user_repo.go:30-37 | A row with that user name, or not found exactly when the name is free |
| UserStore.UserRepo.GetByUsernameUnique | internal/repository/user_repo.go:30-37 | In a valid table, the found row is the unique one with that name |
| UserStore.UserRepo.Update | internal/repository/user_repo.go:40-42 | The save succeeds exactly when no other row has the new user name. Then only the row with that id is replaced; otherwise nothing changes |
| UserStore.UserRepo.Delete | internal/repository/user_repo.go:45 | Removes exactly the row with that id, keeping the others in order |
| UserStore.UserRepo.List | internal/repository/user_repo.go:50-54 | Exactly the `OFFSET offset LIMIT limit` window of the table in id order: its length is the clamped page length (all remaining rows for a negative limit) and its i-th row is the table row at the clamped offset plus i |
| UserStore.UserRepo.SearchMatches | internal/repository/user_repo.go:57-62 | Exactly the rows whose user name or nickname matches `%keyword%`. Each matching row comes back exactly as often as the table holds it, and no other row does |
| UserStore.UserRepo.Search | internal/repository/user_repo.go:57-62 | Exactly the `OFFSET offset LIMIT limit` window of the matching rows in id order: the clamped page length, and the i-th result is the match at the clamped offset plus i, so each is a row whose user name or nickname matches `%keyword%` |
| UserStore.UserRepo.SearchIsSubstring | internal/repository/user_repo.go:57-62 | For a wildcard-free keyword, a hit is exactly a substring match on user name or nickname |
| UserStore.UserRepo.SearchComplete | internal/repository/user_repo.go:57-62 | Without paging, every user whose user name or nickname contains a wildcard-free keyword is found |
| UserStore.UserRepo.GetByIDs | internal/repository/user_repo.go:65-69 | Exactly the rows whose id is listed; none for an empty list. Each matching row comes back exactly as often as the table holds it, and no other row does |
| FriendStore.FirstBetween | internal/repository/friend_repo.go:30-37 | The first row from the user to the friend in id order, or none exactly when no such row exists |
| FriendStore.FirstBetweenAppend | internal/repository/friend_repo.go:30-37 | Appending rows never changes an existing first match |
| FriendStore.FriendRepo.constructor | internal/repository/friend_repo.go:10-12 | An empty friends table whose ids start at 1 |
| FriendStore.FriendRepo.Create | internal/repository/friend_repo.go:15 | The row is appended under the next id |
| FriendStore.FriendRepo.Update | internal/repository/friend_repo.go:40 | Only the row with that id is replaced |
| FriendStore.FriendRepo.GetByUserAndFriend | internal/repository/friend_repo.go:30-37 | The first row in that direction, or not found exactly when there is none |
| FriendStore.FriendRepo.DeleteByUserAndFriend | internal/repository/friend_repo.go:50-52 | Removes every row in that direction and nothing else |
| FriendStore.FriendRepo.GetFriendList | internal/repository/friend_repo.go:55-63 | Exactly the user's outgoing rows, filtered by status unless the status is negative. Each matching row comes back exactly as often as the table holds it, and no other row does |
| FriendStore.FriendRepo.GetFriendRequests | internal/repository/friend_repo.go:66-70 | Exactly the pending rows addressed to the user. Each matching row comes back exactly as often as the table holds it, and no other row does |
| FriendStore.FriendRepo.GetFriendIDs | internal/repository/friend_repo.go:73-79 | One id per accepted outgoing row of the user, in the listing's order: the i-th id is the friend of the i-th accepted row, so an id is listed exactly when such a row exists |
| FriendStore.FriendRepo.IsFriend | internal/repository/friend_repo.go:82-88 | True exactly when an accepted row from the user to the friend exists |
| FriendStore.FriendRepo.IsFriendIffListed | internal/repository/friend_repo.go:73-88 | `IsFriend` agrees with membership in `GetFriendIDs` |
| GroupStore.Memberships | internal/repository/group_repo.go:87-93 | The user's member-row count in a group is positive exactly when a membership row exists |
| GroupStore.JoinGroups | internal/repository/group_repo.go:40-47 | The join yields only the table's groups the user has a membership row in, and every such group. Each group occurs once per membership row of the user in it, for each of its occurrences in the group table |
| GroupStore.StoredRole | internal/model/group.go:27 | The stored role is never zero: a zero role becomes the plain-member default, and any other role is kept |
| GroupStore.GroupRepo.constructor | internal/repository/group_repo.go:10-12 | Empty group and member tables whose ids start at 1 |
| GroupStore.GroupRepo.Create | internal/repository/group_repo.go:15 | The group is appended under the next group id |
| GroupStore.GroupRepo.GetByID | internal/repository/group_repo.go:20-27 | The group with that id, or not found exactly when there is none |
| GroupStore.GroupRepo.Update | internal/repository/group_repo.go:30 | Only the group with that id is replaced |
| GroupStore.GroupRepo.Delete | internal/repository/group_repo.go:35-37 | Removes exactly the group row with that id; member rows stay |
| GroupStore.GroupRepo.AddMember | internal/repository/group_repo.go:50-52 | The member row is appended under the next member id, even if it duplicates a membership. A zero role is stored as the column default, a plain member |
| GroupStore.GroupRepo.RemoveMember | internal/repository/group_repo.go:55-58 | Removes every row of that user in that group and nothing else |
| GroupStore.GroupRepo.GetMember | internal/repository/group_repo.go:61-68 | A membership row for the pair, or not found exactly when there is none |
| GroupStore.GroupRepo.GetMembers | internal/repository/group_repo.go:71-75 | Exactly the group's member rows. Each matching row comes back exactly as often as the table holds it, and no other row does |
| GroupStore.GroupRepo.GetMemberIDs | internal/repository/group_repo.go:78-84 | One user id per member row of the group, in row order: the i-th id is the user of the i-th member row, so an id is listed exactly when that user has a row |
| GroupStore.GroupRepo.IsMember | internal/repository/group_repo.go:87-93 | True exactly when a membership row for the pair exists |
| GroupStore.IsMemberIffGetMember | internal/repository/group_repo.go:61-93 | `IsMember` and `GetMember` agree |
| GroupStore.GroupRepo.UpdateMemberRole | internal/repository/group_repo.go:96-100 | Only that user's rows in that group get the new role; all other rows and columns are unchanged |
| GroupStore.GroupRepo.GetMemberCount | internal/repository/group_repo.go:103-109 | The number of the group's member rows; positive exactly when it has one |
| GroupStore.GroupRepo.GetUserGroups | internal/repository/group_repo.go:40-47 | Only groups the user is a member of, and every such group, each as often as the join produces it |
| GroupStore.GroupRepo.GetUserGroupsMultiplicity | internal/repository/group_repo.go:40-47 | In a valid table a group comes back exactly once per membership row of the user in it, so a duplicated membership row duplicates the group |
| MessageStore.Insert | internal/repository/message_repo.go:45 | Inserting into a newest-first list keeps it newest-first and adds exactly that message |
| MessageStore.NewestFirst | internal/repository/message_repo.go:45 | The sort is a newest-first permutation of its input |
| MessageStore.MessageRepo.constructor | internal/repository/message_repo.go:10-12 | An empty messages table whose ids start at 1 |
| MessageStore.MessageRepo.Create | internal/repository/message_repo.go:15 | The message is appended under the next id, stamped with the creation time |
| MessageStore.History | internal/repository/message_repo.go:40-55 | Exactly the `OFFSET offset LIMIT limit` window of the selected messages sorted newest first: the clamped page length, and the i-th message is the sorted selection's entry at the clamped offset plus i |
| MessageStore.MessageRepo.GetChatHistory | internal/repository/message_repo.go:40-47 | Exactly the `OFFSET offset LIMIT limit` window of the messages between the two users, in either direction, sorted newest first |
| MessageStore.ChatRowsSymmetric | internal/repository/message_repo.go:40-47 | A chat history does not depend on which of the two users asks |
| MessageStore.MessageRepo.GetGroupChatHistory | internal/repository/message_repo.go:50-55 | Exactly the `OFFSET offset LIMIT limit` window of the group's messages sorted newest first |
| MessageStore.MessageRepo.GetUnreadMessages | internal/repository/message_repo.go:58-63 | Exactly the unread messages addressed to the user, each once, newest first |
| MessageStore.MessageRepo.GetUnreadCount | internal/repository/message_repo.go:79-85 | The number of the user's unread messages; positive exactly when one exists |
| MessageStore.MarkRead | internal/repository/message_repo.go:66-69 | Exactly the listed messages become read |
| MessageStore.MarkReadIdempotent | internal/repository/message_repo.go:66-69 | Marking the same messages read twice changes nothing more |
| MessageStore.MessageRepo.MarkAsRead | internal/repository/message_repo.go:66-69 | The table becomes its marked-read version |
| MessageStore.MarkChatRead | internal/repository/message_repo.go:72-76 | Exactly the unread messages from one user to the other become read |
| MessageStore.MarkChatReadClears | internal/repository/message_repo.go:72-76 | Afterwards no message in that direction is unread |
| MessageStore.MessageRepo.MarkChatAsRead | internal/repository/message_repo.go:72-76 | The table becomes its chat-marked-read version |
| AuthService.NewUser | internal/service/auth_service.go:39-47 | The new account stores the password hash, the email and an empty avatar; the nickname defaults to the user name |
| AuthService.NewUserPasswordChecks | internal/service/auth_service.go:39-47 | The stored hash accepts exactly the registered password |
| AuthService.NewUserFits | internal/service/auth_service.go:39-47 | A validated registration yields a row that fits the column widths |
| AuthService.AuthServiceImpl.constructor | internal/service/auth_service.go:20-25 | The service uses the given user repository |
| AuthService.AuthServiceImpl.Register | internal/service/auth_service.go:28-61 | Registration fails with "username already exists" exactly when the name is taken, changing nothing. Otherwise the new account is appended under the next id |
| AuthService.AuthServiceImpl.Login | internal/service/auth_service.go:64-89 | Login succeeds exactly when a user with that name has a matching password hash. It returns that user and its token, and every failure has the same message |
| AuthService.LoginAfterRegister | internal/service/auth_service.go:28-89 | A registered account can log in with its password and receives its own token |
| UserService.MergeUser | internal/service/user_service.go:46-54 | An update replaces only the non-empty nickname, avatar and email, keeping id, user name and password |
| UserService.MergeUserIdempotent | internal/service/user_service.go:46-54 | Applying the same update twice equals applying it once |
| UserService.MergeUserEmpty | internal/service/user_service.go:46-54 | An all-empty update changes nothing |
| UserService.MergeUserFits | internal/service/user_service.go:46-54 | A validated update keeps a fitting row fitting |
| UserService.UserServiceImpl.constructor | internal/service/user_service.go:17-21 | The service uses the given user repository |
| UserService.UserServiceImpl.GetUserByID | internal/service/user_service.go:24-33 | The user with that id, or "user not found" exactly when there is none |
| UserService.UserServiceImpl.UpdateUser | internal/service/user_service.go:36-61 | "user not found" exactly when no row has the id, changing nothing. Otherwise that row, and only it, becomes the merged user, which is returned |
| UserService.UserServiceImpl.SearchUsers | internal/service/user_service.go:64-66 | The repository's search, so every result matches the keyword |
| UserService.UserServiceImpl.GetUsersByIDs | internal/service/user_service.go:69-71 | The repository's lookup, so every result has a listed id |
| FriendService.FriendServiceImpl.constructor | internal/service/friend_service.go:18-23 | The service uses the given repositories |
| FriendService.AddFriendError | internal/service/friend_service.go:28-53 | The checks run in source order, each with its own message: "friend not found", "cannot add yourself as friend", "already friends" for an accepted row and "friend request already sent" for a pending one. A request is allowed exactly when none of them applies |
| FriendService.FriendServiceImpl.AddFriend | internal/service/friend_service.go:26-64 | On any error the table is unchanged. Otherwise exactly one pending row from the user to the target is appended |
| FriendService.HandleError | internal/service/friend_service.go:69-79 | "friend request not found" when there is no request and "friend request already handled" when it is no longer pending; a request is handled exactly when one exists and is still pending |
| FriendService.FriendServiceImpl.HandleFriendRequest | internal/service/friend_service.go:67-99 | On error nothing changes. Otherwise only the request row's status is set, and accepting appends the reverse accepted row, so both directions are then friends |
| FriendService.ResentRequestStaysPending | internal/service/friend_service.go:28-99 | After a rejection, a re-sent request is accepted by AddFriend but can never be handled, because the lookup finds the older, rejected row |
| FriendService.FriendServiceImpl.DeleteFriend | internal/service/friend_service.go:182-191 | Both directions' rows are removed and nothing else, so neither user is the other's friend afterwards |
| FriendService.Others | internal/service/friend_service.go:109-111 | The other party of each row, in row order |
| FriendService.Responses | internal/service/friend_service.go:124-136 | Each response pairs a row with the looked-up user for its other party. Every row whose other party was found appears, and rows without a user are skipped |
| FriendService.ListingSpec | internal/service/friend_service.go:102-139 | Each listed row is paired with the user that is its other party. Every row whose other party exists appears, and nothing else does |
| FriendService.CollectOthers | internal/service/friend_service.go:109-111 | The id-collecting loop yields the other parties |
| FriendService.PairUp | internal/service/friend_service.go:124-136 | The pairing loop yields the responses |
| FriendService.FriendServiceImpl.ListWithUsers | internal/service/friend_service.go:103-138 | Looking up the users and pairing them yields the listing |
| FriendService.FriendServiceImpl.GetFriendList | internal/service/friend_service.go:102-139 | The listing of the user's accepted outgoing rows, each with the friend's user |
| FriendService.FriendServiceImpl.GetFriendRequests | internal/service/friend_service.go:142-179 | The listing of the pending requests to the user, each with the sender's user |
| GroupService.GroupServiceImpl.constructor | internal/service/group_service.go:18-23 | The service uses the given repositories |
| GroupService.MemberRowsCover | internal/service/group_service.go:49-63 | Creation adds one plain-member row per listed id other than the owner, under consecutive ids, covering every such id |
| GroupService.MemberRowsRepeat | internal/service/group_service.go:49-63 | A member id listed twice gets two rows |
| GroupService.GroupServiceImpl.CreateGroup | internal/service/group_service.go:26-66 | The group is appended under the next id, then the owner's row, then one plain-member row per other listed id |
| GroupService.GroupServiceImpl.AddPlainMembers | internal/service/group_service.go:49-63 | The member loop appends exactly those rows |
| GroupService.GroupServiceImpl.AddPlainMember | internal/service/group_service.go:50-62 | The owner is skipped; any other id gets one plain-member row |
| GroupService.MergeGroup | internal/service/group_service.go:114-122 | An update replaces only the non-empty name, avatar and description, keeping id and owner |
| GroupService.MergeGroupIdempotent | internal/service/group_service.go:114-122 | Applying the same update twice equals applying it once |
| GroupService.MergeGroupEmpty | internal/service/group_service.go:114-122 | An all-empty update changes nothing |
| GroupService.MergeGroupFits | internal/service/group_service.go:114-122 | A validated update keeps a fitting group fitting |
| GroupService.GroupServiceImpl.UpdateGroup | internal/service/group_service.go:91-129 | The errors, in order, are "not group member", "no permission to update group" for a plain member, and "group not found" for an owner or admin of a missing group. It succeeds exactly for an owner or admin of an existing group, replacing only that group with the merged one. Members never change |
| GroupService.GroupServiceImpl.DeleteGroup | internal/service/group_service.go:132-147 | "group not found" for a missing group and "only group owner can delete group" for anyone but its owner. Deletion happens exactly when the caller owns the group, and removes only that group row |
| GroupService.Joiners | internal/service/group_service.go:184-199 | The ids that get rows: each listed id not already a member, once, in list order |
| GroupService.JoinRows | internal/service/group_service.go:191-196 | One plain-member row per joiner under consecutive ids |
| GroupService.JoinedAreMembers | internal/service/group_service.go:184-199 | After adding, every listed id is a member |
| GroupService.MembershipAfterJoin | internal/service/group_service.go:184-199 | After adding, exactly the old members and the joiners are members |
| GroupService.GroupServiceImpl.AddGroupMembers | internal/service/group_service.go:169-202 | "not group member" and "no permission to add members" are returned to non-member and plain-member callers, changing nothing. Otherwise one row is appended per listed id that was not yet a member, so every listed id becomes a member |
| GroupService.GroupServiceImpl.AddJoiners | internal/service/group_service.go:184-199 | The adding loop appends exactly the joiners' rows |
| GroupService.GroupServiceImpl.JoinOne | internal/service/group_service.go:186-198 | An existing member is skipped; anyone else gets one plain-member row |
| GroupService.GroupServiceImpl.RemoveGroupMember | internal/service/group_service.go:205-230 | The errors, in order, are "not group member", "no permission to remove members", "record not found" for a target that is not a member, and "cannot remove group owner". Removal succeeds exactly when an owner or admin removes an existing non-owner member. Then every row of that member in the group goes and nothing else; on error nothing changes |
| GroupService.GroupServiceImpl.LeaveGroup | internal/service/group_service.go:269-285 | "not group member" for a non-member and "group owner cannot leave, please transfer ownership first" for the owner. Leaving succeeds exactly for a member who is not the owner, and removes only that user's rows in the group |
| GroupService.UserIDsOf | internal/service/group_service.go:240-243 | The user id of each member row, in order |
| GroupService.MemberResponses | internal/service/group_service.go:255-263 | Each response pairs a member row with its looked-up user. Every member whose user was found appears, and members without a user are skipped |
| GroupService.MemberListing | internal/service/group_service.go:233-266 | Each listed member is paired with its own user. Every member whose user exists appears, and nothing else does |
| GroupService.CollectUserIDs | internal/service/group_service.go:240-243 | The id-collecting loop yields the members' user ids |
| GroupService.PairWithUsers | internal/service/group_service.go:255-263 | The pairing loop yields the responses |
| GroupService.GroupServiceImpl.GetGroupMembers | internal/service/group_service.go:233-266 | The group's member rows paired with their users |
| MessageService.MessageServiceImpl.constructor | internal/service/message_service.go:22-34 | The service uses the given repositories and bus |
| MessageService.PublishChannel | internal/service/message_service.go:202-205 | Group messages go to `im:group:message` and every other message to `im:message` |
| MessageService.MessageEnvelope | internal/service/message_service.go:179-194 | The published event is a `message` event stamped now, carrying the recipient as `to_user_id` |
| MessageService.RelayDeliversToRecipient | internal/service/message_service.go:179-207 | What the service publishes is delivered by the subscriber to the message's recipient |
| MessageService.GroupMessageReachesOnlyRecipient | internal/service/message_service.go:179-207 | A group message is published on the group channel but still delivered to the single `to_user_id` |
| MessageService.MessageServiceImpl.SendMessage | internal/service/message_service.go:37-80 | A direct message requires friendship and a group message requires membership, each failing with its own message and changing nothing. Otherwise the unread message is stored under the next id and published once on its channel |
| MessageService.ResponseUserIDsComplete | internal/service/message_service.go:134-145 | The collected ids include each message's sender and, when positive, its recipient |
| MessageService.ResponseUserIDsSound | internal/service/message_service.go:134-145 | Every collected id is some message's sender or recipient |
| MessageService.CollectUserIDs | internal/service/message_service.go:134-145 | The id-collecting loop yields that set |
| MessageService.IndexedIffExists | internal/service/message_service.go:147-157 | A collected id is in the user map exactly when such a user exists, mapped to a table row |
| MessageService.AttachAll | internal/service/message_service.go:159-173 | One response per message, in order |
| MessageService.AttachEach | internal/service/message_service.go:159-173 | The response loop yields those responses |
| MessageService.MessageResponsesSpec | internal/service/message_service.go:128-176 | One response per message, in order. The sender's user is attached exactly when it exists, and the recipient's exactly when the recipient id is positive and exists |
| MessageService.MessageServiceImpl.BuildMessageResponses | internal/service/message_service.go:128-176 | The response builder yields those responses |
| MessageService.MessageServiceImpl.GetChatHistory | internal/service/message_service.go:83-90 | The chat history page with user information attached |
| MessageService.MessageServiceImpl.GetGroupChatHistory | internal/service/message_service.go:93-100 | The group history page with user information attached |
| MessageService.MessageServiceImpl.GetUnreadMessages | internal/service/message_service.go:103-110 | The user's unread messages with user information attached |

## Left out

- Concurrency is not modelled: goroutines, channels, mutexes and tickers are left out. `Run`, `Register`/`Unregister`, `heartbeatCheck` and `subscribeMessages` are replaced by direct calls of the operations they dispatch to. The model is sequential, so lock ordering and races are not captured.
- The `ReadPump` loop and socket I/O are left out. The connection upgrade is a boolean parameter. A call of `WritePump` is one step that drains what is queued at that moment; the goroutine's interleaving with senders is not modelled. Its ping frames are not modelled. Its close frame is not modelled either: once the session is closed the connection is already shut, so that write fails.
- JSON encoding is not modelled. Event data is a small value type, and the float64 detour of `to_user_id` through `interface{}` is assumed exact.
- `MessageService.MessageEnvelope`: the RFC 3339 timestamp is a parameter, so the date format itself is not modelled.
- Redis connection handling and subscription plumbing are left out. The bus is a publication log with an up/down flag.
- `Registry.Manager.NotifyFriendsOnline`: a presence publish after `Stop` is not modelled as failing. In Go it carries the cancelled manager context, so go-redis refuses it; the model publishes whenever the bus is up.
- Database errors other than "not found" and the unique-name clash are left out. Repository calls otherwise always succeed.
- `Save` re-inserting a row whose id is missing is not modelled. Updates only replace existing rows.
- Queries without `ORDER BY` (`Find`, `Pluck`, the group join) return rows in an order SQL leaves open. The model returns them in primary-key order, which is one admissible order; contracts that mention row order hold for that order only.
- Ties in `created_at` keep table (primary-key) order, the earlier row first. MySQL's own tie order is unspecified.
- String comparison is exact, character by character. MySQL's case-insensitive collation is not modelled. This affects `LIKE` in `UserRepo.Search`, and the `username = ?` lookups and unique index behind `UserRepo.GetByUsername`, `UserRepo.Create`, `UserRepo.Update`, `AuthService.Register` and `AuthService.Login`: "Alice" and "alice" clash in MySQL but not in the model.
- bcrypt is modelled as an injective symbolic digest. Its cost and its hashing error are left out.
- JWT signing, expiry and claims parsing are function parameters, and `GenerateToken` never fails in the model.
- `LoadConfig`, viper and the connection-pool and JWT settings are left out. Only `DSN` and `Addr` are modelled.
- Timestamps other than a message's creation time are left out (`created_at`/`updated_at` of the other tables).
- `GroupService.GetGroup` and `GroupService.GetUserGroups` are not modelled as service methods. They only wrap `GroupRepo.GetByID`, `GetMemberCount` and `GetUserGroups`, which are modelled.
- `MessageService.MarkAsRead`, `MarkChatAsRead`, `GetUnreadCount` and `FriendService.IsFriend` are not modelled as service methods. They are pass-throughs to repository operations that are modelled.
- The by-id `GetByID`, `Update` and `Delete` of the message repository are left out, as are `GetByID` and `Delete` of the friend repository. No modelled service calls them.
- `Heartbeat.DefaultHeartbeatConfig`: the contract states how the durations relate, not the 30/60/30-second values that the definition fixes. The configuration is never read by the registry.
- `UserService.UserServiceImpl.UpdateUser`: the "username already exists" branch of the save cannot arise, because the user name is never changed. The contract therefore does not mention it.
