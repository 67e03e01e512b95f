# Room relay of the real-time chat backend, in Dafny

The backend of the chat application is a WebSocket server. It keeps one list of
member entries, `activeUsers`; each entry holds a socket, the room it joined and
a random id. Clients send JSON frames of type `join` (with `payload.roomId`) or
`chat` (with `payload.message`). The server reacts to four events:

- **join** appends an entry. It then sends "A new user has joined. (N user[s] in room)"
  to every entry of that room, the newcomer included. N is the count after the join.
- **chat** looks up the sender's room (the first entry of its socket). It relays
  the text verbatim to every entry of that room held by another socket.
- **close** finds the socket's room and removes every entry of the socket. If the
  room still has N > 0 entries, each of them gets "A user has left. (N user[s] in room)".
- **error** removes the socket's entries and announces nothing.

Rejected frames change nothing and send nothing. These are: a join with a missing
or empty room, a chat with a missing or empty message, a chat from a socket with
no entry, an unknown type, and a frame that does not parse.

The model has six modules:

- `Wrappers` (wrappers.dfy): `Option`, standing for `null`/`undefined`.
- `Seqs` (seqs.dfy): `Filter`, the order-preserving `filter` every query is built
  from, with its append and identity lemmas.
- `Presence` (presence.dfy): the decimal rendering of the count and the notice
  texts. Lemmas cover wording, the decimal round trip and that a notice determines
  its count.
- `Registry` (registry.dfy): entries and sends, and `findRoomForSocket` (`FindRoom`),
  `removeSocket` (`Without`) and `getUsersInRoom` (`Count`). It also holds the
  fan-out `Notify` and the lemmas about counts and removal.
- `Relay` (relay.dfy): each handler as a pure step from the list to the new list
  and the sends it produces (`MessageStep`, `CloseStep`). The lemmas state who
  receives what, and a worked run is included.
- `Server` (server.dfy): class `ChatServer` holds the list, the log of frames
  written, and the set of sockets whose ping timer is set. Its handler methods
  update these in place. Their sends go through a `Broadcast` loop, and each
  method is proved to perform exactly the corresponding pure step.

Sockets are opaque `nat` handles. Rooms, ids and texts are strings. An inbound
frame is the datatype `Inbound`: `Join(roomId)`, `Chat(message)`, `Unknown(kind)`
or `Malformed`. The JavaScript test `!x` on a field is `Falsy`: the field is
missing or empty.

Behaviour of the code worth noting:

- A second join from the same socket is not refused. It appends another entry,
  so the socket is counted and notified once per entry.
- The sender's room is the room of its *first* entry, and close announces the
  departure only in that room.
- Close removes *every* entry of the socket.
- The error path sends no departure notice. A close after an error then finds no
  room and sends nothing either.
- When B leaves a room shared with A, one entry remains, so A receives "A user has
  left. (1 user in room)". `Relay.ScenarioLeave` and `Server.Walkthrough` state this.

The wording test is `count > 1`, so a count of zero would read "0 user". No
notice with count zero is ever sent: a join counts at least the newcomer, and the
leave notice is sent only for a positive count.

## Model

| member | source | states |
|---|---|---|
| Seqs.Filter | real-time-chat-be/src/index.ts:32 | the result holds exactly the elements of the input that pass the test, and is no longer than the input |
| Seqs.FilterAppend | real-time-chat-be/src/index.ts:32 | filtering a concatenation is the concatenation of the filtered parts, so survivors keep their order |
| Seqs.FilterKeepsAll | real-time-chat-be/src/index.ts:32 | a filter that rejects nothing returns its input unchanged |
| Seqs.FilterSize | real-time-chat-be/src/index.ts:32 | a filter keeps one element per position that passes the test, so repeated elements are kept as often as they occur |
| Presence.DecimalShape | real-time-chat-be/src/index.ts:86 | `Decimal`, the rendering of the count inside the template literal, is a non-empty run of digits whose first digit is `0` only for zero |
| Presence.DecimalRoundTrip | real-time-chat-be/src/index.ts:141 | reading the digits of `Decimal` back gives the count, so the notice carries exactly the computed count |
| Presence.Wording | real-time-chat-be/src/index.ts:86 | the notice text `Notice` ends in " user in room)" exactly when the count is at most one and in " users in room)" exactly when it is above one, for join and leave notices alike (the same template at line 141) |
| Presence.NoticeDeterminesCount | real-time-chat-be/src/index.ts:141 | two `Notice` texts of the same kind that read alike carry the same count |
| Presence.AfterLead | real-time-chat-be/src/index.ts:141 | after its lead-in a notice is the count's digits followed by text that opens with a space |
| Presence.JoinAndLeaveDiffer | real-time-chat-be/src/index.ts:141 | a join notice never equals a leave notice |
| Presence.JoinedOneText | real-time-chat-be/src/index.ts:86 | the join notice for one member is "A new user has joined. (1 user in room)" |
| Presence.JoinedTwoText | real-time-chat-be/src/index.ts:86 | the join notice for two members is "A new user has joined. (2 users in room)" |
| Presence.LeftOneText | real-time-chat-be/src/index.ts:141 | the leave notice for one member is "A user has left. (1 user in room)" |
| Registry.FirstIndex | real-time-chat-be/src/index.ts:26 | the position found holds the socket and no earlier position does; it is the length when the socket has no entry |
| Registry.FindRoom | real-time-chat-be/src/index.ts:25-28 | absent exactly when the socket has no entry; otherwise the room of its first entry |
| Registry.Without | real-time-chat-be/src/index.ts:31-33 | the remaining entries are exactly those of other sockets |
| Registry.Members | real-time-chat-be/src/index.ts:84 | the selected entries are exactly those naming the room |
| Registry.Count | real-time-chat-be/src/index.ts:36-38 | the count is at most the list length, and zero exactly when no entry names the room |
| Registry.CountIsCardinality | real-time-chat-be/src/index.ts:36-38 | the count equals the number of list positions whose room is the given one |
| Registry.CountAfterAppend | real-time-chat-be/src/index.ts:73-82 | appending an entry raises its room's count by one, leaves other rooms' counts alone, and puts it last among its room's entries |
| Registry.CountAfterRemoval | real-time-chat-be/src/index.ts:130-134 | removing a socket never raises a count, and strictly lowers the count of a room in which it had an entry |
| Registry.RemovalIdempotent | real-time-chat-be/src/index.ts:31-33 | removing twice equals removing once; removing a socket with no entry changes nothing; afterwards the socket has no room |
| Registry.RemovalKeepsOrder | real-time-chat-be/src/index.ts:32 | removal distributes over any split of the list, so the other entries keep their order |
| Registry.NotifyReaches | real-time-chat-be/src/index.ts:83-87 | the fan-out `Notify` sends one frame per target, the k-th to the k-th target's socket, each with the text, and no other frame |
| Relay.MessageStep | real-time-chat-be/src/index.ts:57-120 | a frame leaves the list as it was or, for a valid join, appends the sender's entry; a chat never sends to its sender |
| Relay.CloseStep | real-time-chat-be/src/index.ts:123-149 | the new list keeps exactly the entries of other sockets, and no notice goes to the departing socket |
| Relay.ListChangesOnlyOnJoin | real-time-chat-be/src/index.ts:64-116 | the list changes if and only if the frame is a join with a non-empty room |
| Relay.RejectedFrameIsNoOp | real-time-chat-be/src/index.ts:58-119 | an unparseable frame, an unknown type, a join whose room fails the `!roomId` test and a chat whose text fails the `!message` test (`Falsy`: missing or empty) change nothing and send nothing |
| Relay.JoinAppendsOne | real-time-chat-be/src/index.ts:72-82 | a valid join appends exactly the sender's entry at the end, and its room's count rises by one |
| Relay.JoinKeepsOtherCounts | real-time-chat-be/src/index.ts:72-82 | a join leaves the count of every other room unchanged |
| Relay.JoinSends | real-time-chat-be/src/index.ts:73-87 | a valid join's frames are the join notice carrying the old count plus one, one per entry of the room in list order, the newcomer's entry last |
| Relay.JoinNoticeCount | real-time-chat-be/src/index.ts:82-87 | a valid join sends as many frames as the room has entries after the join, and the last goes to the newcomer carrying that post-join count |
| Relay.JoinNoticeReachesRoom | real-time-chat-be/src/index.ts:82-87 | every entry of the room after the join, the newcomer included, receives the join notice carrying the post-join count |
| Relay.JoinNoticeStaysInRoom | real-time-chat-be/src/index.ts:82-87 | every frame a join sends is the join notice with the post-join count, addressed to an entry of that room |
| Relay.ChatFromOutsiderIsDropped | real-time-chat-be/src/index.ts:97-102 | a chat from a socket with no entry changes nothing and sends nothing |
| Relay.ChatRelays | real-time-chat-be/src/index.ts:90-112 | a chat reaches every entry held by another socket in the sender's first-found room verbatim, never the sender nor another room, and the list is unchanged |
| Relay.ChatSends | real-time-chat-be/src/index.ts:106-111 | a chat from a socket with a room sends the text once per entry of that room held by another socket, in list order (the `PeerOf` test of line 108), so there are as many frames as list positions in the room that belong to other sockets |
| Relay.CloseRemovesSocket | real-time-chat-be/src/index.ts:127-130 | close removes every entry of the socket, after which the socket has no room |
| Relay.CloseLowersCount | real-time-chat-be/src/index.ts:127-134 | the count announced on close is strictly below the room's count before the close |
| Relay.CloseSilentWithoutAudience | real-time-chat-be/src/index.ts:132-148 | close sends nothing when the `if (room)` test fails (`Falsy`) or the room is left empty |
| Relay.CloseNoticeCount | real-time-chat-be/src/index.ts:134-142 | when N > 0 entries remain in the socket's room, close sends exactly N frames |
| Relay.CloseSends | real-time-chat-be/src/index.ts:134-142 | when N > 0 entries of the room remain, close sends the leave notice carrying N once per remaining entry of the room, in list order, and N is the number of list positions naming the room |
| Relay.CloseNoticeReachesRoom | real-time-chat-be/src/index.ts:134-142 | every remaining entry of the socket's room receives the leave notice carrying the post-removal count |
| Relay.CloseNoticeStaysInRoom | real-time-chat-be/src/index.ts:132-142 | every frame a close sends is the leave notice with the post-removal count, addressed to a remaining entry of the socket's room |
| Relay.ErrorThenCloseIsSilent | real-time-chat-be/src/index.ts:152-156 | a close after an error's removal changes nothing and sends no departure notice |
| Relay.JoinedIffHasEntry | real-time-chat-be/src/index.ts:98-99 | while every room is named, the `!currentRoom` test (`Falsy`) fails exactly when the socket has an entry |
| Relay.StepsKeepRoomsNamed | real-time-chat-be/src/index.ts:66-77 | no handler introduces an entry with an empty room |
| Relay.ScenarioFirstJoin | real-time-chat-be/src/index.ts:64-88 | the first client to join "abc" gets the join notice for one member |
| Relay.ScenarioSecondJoin | real-time-chat-be/src/index.ts:64-88 | when a second client joins, both get the join notice for two members, in join order |
| Relay.ScenarioChat | real-time-chat-be/src/index.ts:90-112 | "hi" from the first client reaches only the second |
| Relay.ScenarioChatToDoubleJoin | real-time-chat-be/src/index.ts:107-111 | a socket with two entries in the room receives a chat twice, once per entry |
| Relay.ScenarioChatSkipsSender | real-time-chat-be/src/index.ts:107-111 | a chat skips every entry of the sending socket, including its own second entry in the room |
| Relay.ScenarioLeave | real-time-chat-be/src/index.ts:123-149 | when the second client closes, the first gets the leave notice for one member |
| Server.ChatServer.constructor | real-time-chat-be/src/index.ts:17 | the server starts with no entries, no frames written and no timers set |
| Server.ChatServer.Connect | real-time-chat-be/src/index.ts:46-54 | a new connection sets its ping timer and creates no entry |
| Server.ChatServer.Broadcast | real-time-chat-be/src/index.ts:83-87 | the loop writes exactly the fan-out of the text to the targets, in order, after the earlier frames |
| Server.ChatServer.OnMessage | real-time-chat-be/src/index.ts:57-120 | the handler leaves the list and the written frames exactly as the message step prescribes and keeps every room named |
| Server.ChatServer.OnClose | real-time-chat-be/src/index.ts:123-149 | the handler clears the socket's timer and leaves the list and written frames exactly as the close step prescribes |
| Server.ChatServer.OnError | real-time-chat-be/src/index.ts:152-156 | the handler clears the socket's timer, removes its entries and writes nothing |
| Server.ErrorThenClose | real-time-chat-be/src/index.ts:152-156 | an error then a close on one socket removes its entries, clears its timer and no other, and writes no frame |
| Server.Walkthrough | real-time-chat-be/src/index.ts:57-149 | two joins, a chat and a close write exactly the five expected frames, in order |

## Left out

- The client (`real-time-chat-fe/src/App.tsx`) is not part of this model.
- The `ws` transport is not modelled. This covers server creation, `send`, `ping`
  and the `readyState` check. A send is a recorded `(socket, text)` frame, and a
  failing send is not modelled.
- The 30-second interval is reduced to a set of sockets whose timer is set. Ticks
  and pings are not modelled.
- JSON parsing is replaced by `Inbound`. A parse failure, or a join or chat frame
  without a `payload`, is `Malformed`. A `roomId` or `message` that is present but not a
  string (a number, an object, `true`) is not modelled.
- `generateId` draws a random id, so the id is an input of the join. Uniqueness
  of ids is not modelled; the code never relies on it.
- Logging, the port read from the environment and the SIGINT shutdown are I/O and
  are left out.
- Concurrency is left out. The server runs on one event loop, so each event is
  one sequential step.
