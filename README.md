# Collaborative editor rooms, chat and cursors — a Dafny model

This project models the core of a collaborative text editor with chat rooms. It has three parts.

- **Room coordinator** (`backend/src/index.ts`). It is an in-memory server with two tables: the rooms and the active users.
  - Each room has a member table (socket id to user), a shared document and a message history. The active-user table maps a user id to a socket id.
  - Every Socket.IO handler is one method of the class `Coordinator.Server`. The method updates both tables as the handler does. It returns the events the handler emits, each with its exact set of recipient sockets.
  - `socket.to(room)` is "every member socket of the room except the caller". `io.to(sid)` is `{sid}`.
  - A call that receives a reply returns it as a `Reply`: a success value or a failure kind.
- **Chat client** (`frontend/components/ChatComponent.tsx`).
  - The pure string logic is modelled by functions:
    - removing an `@name` prefix from a private message;
    - detecting an `@` mention while typing;
    - inserting the chosen mention;
    - the case-insensitive member filter.
  - The component state is the class `Chat.ChatView`. That state is the input box, the chosen recipient, the room's members and messages, and the set of handled message ids. Its methods are the event handlers.
- **Remote cursor colours** (`frontend/components/TextEditor.tsx`).
  - The class `Cursors.CursorRegistry` holds the map from user id to colour and the counter that picks colours from the ten-entry palette.
  - `handleCursorPosition` is specified by the pure function `Cursors.CursorEvent`, and lemmas about it state what the registry promises.

Shared pieces:

- `common.dfy` has the records exchanged between the browser and the server.
- `ordered_map.dfy` models a JavaScript `Map` as an insertion-ordered sequence of entries with distinct keys. Order matters here for two reasons:
  - `Array.from(room.users.values())` is sent to clients;
  - `disconnect` walks `rooms.entries()` in insertion order.
- `strings.dfy` has the JavaScript string operations the core uses:
  - `trim` over JavaScript's white-space set;
  - `indexOf` and `lastIndexOf`;
  - `split` and `join`;
  - `includes`;
  - ASCII `toLowerCase`;
  - the regular expression `^@name\b`, with JavaScript's non-Unicode word boundary.

A room object that the server mutates in place, for example with `room.users.set` or `room.messages.push`, is a value stored in the room table. The mutation is modelled by a `Put` under the same key, which keeps the room's position, as `Map.set` on an existing key does.

The invariant `Coordinator.Server.Valid` holds after every handler:

- room ids and member socket ids are distinct;
- each room is stored under its own id;
- no room has zero members.

The document is modelled as an optional sequence of edit operations. The empty string `''` is modelled as no document. A merge appends the delta's operations.

## Model

| member | source | states |
|---|---|---|
| Coordinator.Server.constructor | backend/src/index.ts:37-39 | Both tables start empty and the room invariant holds. |
| Coordinator.Server.ValidateUserId | backend/src/index.ts:62-69 | The reply is success exactly when the user id is not active, and the "in use" failure otherwise. The method has no `modifies` clause, so it changes nothing. |
| Coordinator.Server.CreateRoom | backend/src/index.ts:72-109 | An active user id fails first, then an existing room id fails; both change nothing. On success, it appends a room whose only member is the calling socket with the creator, with no document and no messages. The reply is that one user and `activeUsers` is left unchanged. The room invariant is kept. |
| Coordinator.Server.JoinRoom | backend/src/index.ts:112-163 | Each failure holds exactly under its condition, in source order: active user, then missing room, then a non-empty password that differs. Success holds exactly when all three checks pass. A failure changes nothing and emits nothing. On success the socket is added to the room and the user id is mapped to the socket. The reply and the `user-joined-room` broadcast both carry the member list after admission, and the broadcast goes to every member but the joiner. |
| Coordinator.Server.SendRoomMessage | backend/src/index.ts:166-176 | A missing room is a no-op. Otherwise the message is appended unchanged, with no membership check, and relayed to every member socket but the sender. |
| Coordinator.Server.SendPrivateRoomMessage | backend/src/index.ts:179-223 | Fails exactly when the room is missing, or when no member has the recipient's id; success holds exactly when the room exists and some member has that id. A failure stores and emits nothing. On success exactly one cleaned private copy is appended, and only the recipient's socket receives it. |
| Coordinator.SocketOfUser | backend/src/index.ts:189-190 | Finds a socket exactly when some member has the user id. The socket found is that of the first such member in insertion order, as `find` returns. |
| Coordinator.HasMember | backend/src/index.ts:236 | A member has the user id exactly when some user among the member table's values carries it. |
| Coordinator.Admission | backend/src/index.ts:226-243 | The membership gate of the read requests and of the document update: it succeeds with the stored room exactly when the room exists and has a member with the user id. Otherwise "room not found" or "not in room", as the case is. |
| Coordinator.PasswordRejects | backend/src/index.ts:128 | A missing or empty room password never rejects, and the matching password never rejects. Any other password for a room with a non-empty password is rejected. |
| Coordinator.Others | backend/src/index.ts:145 | The recipients of `socket.to(room)`: member sockets only, never the caller, and every member socket other than the caller. |
| Coordinator.Vacate | backend/src/index.ts:395-405 | When the room survives, it is the room minus the socket, still non-empty, with every other member kept. The room is dropped only when the socket was its only possible member. |
| Coordinator.ReleasedIdsAt | backend/src/index.ts:415-422 | A disconnect releases a user id exactly when some room has the socket as a member under that user. |
| Coordinator.PrivateCopy | backend/src/index.ts:200-210 | Keeps the id, sender and recipient, and sets `isPrivate`. The content is the original with a leading `@recipient` removed at a word boundary, then trimmed. |
| Coordinator.Server.GetRoomMessages | backend/src/index.ts:226-251 | Succeeds exactly when the room exists and has a member with the user id. The two failures are distinguished, the reply is the history, and the call is read-only. |
| Coordinator.Server.UpdateDocumentContent | backend/src/index.ts:254-302 | Gated on the room existing and on membership by user id, with the failures distinguished; a failure changes nothing. On success the delta is merged into the document, and the raw delta is relayed to every other member socket. |
| Coordinator.Merge | backend/src/index.ts:275-287 | The result is always a document, and its operations are the old ones followed by the delta's. |
| Coordinator.ReplayIsConcatenation | backend/src/index.ts:275-287 | After any sequence of merges the document is the concatenation, in arrival order, of every delta's operations. |
| Coordinator.ReplayAppend | backend/src/index.ts:275-287 | Merging two batches one after the other equals merging their concatenation. |
| Coordinator.Server.RequestDocumentContent | backend/src/index.ts:305-330 | Same gate as GetRoomMessages. The reply is the stored document and the call is read-only. |
| Coordinator.Server.GetRoomUsers | backend/src/index.ts:333-358 | Same gate. The reply is the member list in insertion order and the call is read-only. |
| Coordinator.Server.SendCursorPosition | backend/src/index.ts:361-372 | A missing room emits nothing. Otherwise one event goes to every other member socket, carrying the position unchanged, including an absent one. There is no membership check and no state change. |
| Coordinator.Server.UserTyping | backend/src/index.ts:375-386 | A missing room emits nothing. Otherwise the typing flag is relayed to every other member socket, with no state change. |
| Coordinator.Server.LeaveRoom | backend/src/index.ts:389-408 | A missing room is a no-op. Otherwise the socket leaves the room and the user id the client supplied is dropped from `activeUsers`. `user-left-room` with the remaining members goes to the other sockets. The room is deleted exactly when it becomes empty, and the invariant is kept. |
| Coordinator.VacateDeletes | backend/src/index.ts:403-405 | For a non-empty room, removing the socket deletes the room exactly when the socket was its only member. |
| Coordinator.VacateWellFormed | backend/src/index.ts:395-405 | A room that survives losing one socket still is stored under its own id, has distinct members and is not empty. |
| Coordinator.PutValid | backend/src/index.ts:92 | Storing a well-formed room keeps the room-table invariant. |
| Coordinator.RemoveValid | backend/src/index.ts:404 | Deleting a room keeps the room-table invariant. |
| Coordinator.Server.Disconnect | backend/src/index.ts:411-434 | The loop over a snapshot of the rooms leaves exactly AfterDisconnect of the old table. `activeUsers` loses exactly the users the socket held in some room. The notices are one per room the socket was in, in table order. The invariant is kept. |
| Coordinator.Server.DropSocket | backend/src/index.ts:416-432 | One iteration: the current room is vacated in place or removed, the socket's user is dropped, and that room's notice is returned. |
| Coordinator.Server.VacateRoom | backend/src/index.ts:421 | The room loses the socket and stays at its place in the table. |
| Coordinator.Server.RetireRoom | backend/src/index.ts:429-431 | The emptied room is removed from its place; the other rooms keep their order. |
| Coordinator.AfterDisconnectAt | backend/src/index.ts:415-432 | Each room after a disconnect is the old one unchanged when the socket was not in it. Otherwise it is the room vacated by the socket, or gone. |
| Coordinator.AfterDisconnectKeys | backend/src/index.ts:415-432 | A disconnect creates no room. |
| Coordinator.AfterDisconnectForgets | backend/src/index.ts:415-432 | After a disconnect, no room has the socket as a member. |
| Coordinator.AfterDisconnectValid | backend/src/index.ts:415-432 | A disconnect keeps every room stored under its own id, non-empty and with distinct members. |
| Coordinator.VacateEntryShape | backend/src/index.ts:419-431 | One room yields at most one room, under the same id and without the socket. |
| Coordinator.AppendVacated | backend/src/index.ts:415-432 | Processing one more room touches only that room's entry. |
| Coordinator.DisconnectAdvance | backend/src/index.ts:415-432 | The loop invariant is carried from one processed room to the next. |
| Chat.ParseMention | frontend/components/ChatComponent.tsx:121-134 | There is no `@` exactly when the value has none. An open mention is the text after the last `@`, which has no space. Otherwise the text after the last `@` contains a space. |
| Chat.ParseMentionOf | frontend/components/ChatComponent.tsx:121-134 | The converse: splitting at the last `@`, the text after it decides between an open mention with that query and a closed one. |
| Chat.ChatView.InputChange | frontend/components/ChatComponent.tsx:117-135 | Mentions are shown exactly when the parse is open. The query becomes the open text, becomes empty when there is no `@`, and is kept when the mention is closed. Nothing else changes. |
| Chat.InsertMention | frontend/components/ChatComponent.tsx:139-146 | An input without `@` is returned unchanged. |
| Chat.InsertMentionResult | frontend/components/ChatComponent.tsx:139-146 | Otherwise the result is the text before the last `@`, then `@username`, a space, and what followed the first space after that `@`. |
| Chat.InsertMentionCloses | frontend/components/ChatComponent.tsx:137-147 | After inserting a mention of a name without `@`, the input no longer has an open mention. |
| Chat.ClosedMention | frontend/components/ChatComponent.tsx:121-130 | A text made of a prefix, `@username`, a space and the words after the first space of an `@`-free text parses as a closed mention. |
| Chat.ChatView.Mention | frontend/components/ChatComponent.tsx:137-149 | The chosen user becomes the recipient, the input is rewritten by InsertMention, and the mention list is hidden. |
| Chat.FilteredUsers | frontend/components/ChatComponent.tsx:151-155 | An empty query keeps every user. Otherwise a user is kept exactly when its lower-cased name contains the lower-cased query. The result is never longer than the input. |
| Chat.FilteredUsersAppend | frontend/components/ChatComponent.tsx:151-155 | Filtering distributes over concatenation, so the original order is kept. |
| Chat.FilteredUsersOne | frontend/components/ChatComponent.tsx:151-155 | A single user is kept exactly when it matches. |
| Chat.ChatView.Candidates | frontend/components/ChatComponent.tsx:151-155 | No room gives no candidates. Otherwise the candidates are exactly the room's members that match the current query. |
| Strings.StripMention | frontend/components/ChatComponent.tsx:113-114 | With a leading `@name` at a word boundary the result is what follows it; without one the text is returned unchanged. |
| Strings.CleanMention | frontend/components/ChatComponent.tsx:112-115 | `cleanPrivateMessageContent`, also applied by the server (backend/src/index.ts:201-203). With a leading `@name` at a word boundary, the rest is trimmed. Otherwise the whole content is trimmed. The result never begins or ends with white space and is no longer than the content. |
| Strings.CleanMentionStrips | frontend/components/ChatComponent.tsx:112-115 | A leading `@name` followed by a non-word character, or by nothing, is removed and the rest is trimmed. |
| Strings.CleanMentionSpaced | frontend/components/ChatComponent.tsx:112-115 | `@name` followed by a space and a trimmed text cleans to that text. |
| Strings.CleanMentionNeedsBoundary | frontend/components/ChatComponent.tsx:112-115 | `@name` followed directly by a word character is not removed; the content is only trimmed. |
| Strings.CleanMentionOtherwise | frontend/components/ChatComponent.tsx:112-115 | Content that does not start with `@name` is only trimmed. |
| Strings.Trim | frontend/components/ChatComponent.tsx:114 | The result is a slice with nothing but white space cut on either side. It neither starts nor ends with white space, and it is empty exactly when the input is all white space. |
| Strings.LastIndexOf | frontend/components/ChatComponent.tsx:121 | -1 exactly when the character is absent; otherwise the position of its last occurrence. |
| Strings.IndexOf | frontend/components/ChatComponent.tsx:124 | -1 exactly when the character is absent; otherwise the position of its first occurrence. |
| Strings.Split | frontend/components/ChatComponent.tsx:144 | At least one part, and no part contains the separator. |
| Strings.Join | frontend/components/ChatComponent.tsx:144 | No parts join to the empty string and one part to itself. Several parts give a text that contains the separator. With Split, JoinSplit and SplitJoin pin down the rest. |
| Strings.JoinSplit | frontend/components/ChatComponent.tsx:144 | Joining the parts of a split gives back the string. |
| Strings.SplitJoin | frontend/components/ChatComponent.tsx:144 | Splitting a join of separator-free parts gives back the parts. |
| Strings.SplitTail | frontend/components/ChatComponent.tsx:144 | Dropping the first part of a split and joining again gives what follows the first separator. |
| Strings.Contains | frontend/components/ChatComponent.tsx:153 | True exactly when the needle occurs at some position. |
| Strings.ToLower | frontend/components/ChatComponent.tsx:153 | Same length; each ASCII capital becomes lower case and every other character is kept. |
| Chat.Compose | frontend/components/ChatComponent.tsx:161-174 | Keeps the id, the sender and the recipient. `isPrivate` holds exactly when a recipient was chosen. The content is the input cleaned of `@recipient`, or the raw input for a public message. |
| Chat.DoubleMention | frontend/components/ChatComponent.tsx:164-166 | Text typed as `@name @name rest` keeps one `@name` in the client's copy. The copy the server delivers loses it, because the server cleans the already-cleaned content again (backend/src/index.ts:200-203). |
| Chat.ChatView.SendMessage | frontend/components/ChatComponent.tsx:157-204 | Blank input, or no user or room, sends nothing and changes nothing. Otherwise the input and recipient are cleared. A private message is sent and not yet shown. A public message is marked handled, appended and sent. |
| Chat.ChatView.Send | frontend/components/ChatComponent.tsx:161-203 | The send once the input is not blank and user and room are present. Input and recipient are cleared. A private message is returned for sending only. A public one is marked handled, appended and returned. |
| Chat.ChatView.PrivateAck | frontend/components/ChatComponent.tsx:177-188 | It takes the private send that SendMessage returned. Only a successful acknowledgement marks that message handled and appends it. |
| Chat.Receive | frontend/components/ChatComponent.tsx:29-59 | An id already handled changes nothing. Otherwise the id is recorded and the message appended once. |
| Chat.ReceiveIdempotent | frontend/components/ChatComponent.tsx:29-59 | Receiving the same message twice is the same as receiving it once. |
| Chat.ReceiveAllFresh | frontend/components/ChatComponent.tsx:29-59 | After a stream of messages, the handled set gains all their ids. The list gains exactly the messages with new ids, first occurrence only, in arrival order. |
| Chat.FreshDistinct | frontend/components/ChatComponent.tsx:29-59 | The appended messages carry pairwise distinct ids, none of them handled before. |
| Chat.ChatView.ReceiveMessage | frontend/components/ChatComponent.tsx:29-59 | The handled set gains the id and the room's list follows Receive. The members and the rest of the view are unchanged. |
| Chat.SystemNotice | frontend/components/ChatComponent.tsx:69-74 | A public message from sender id `system` with the notification text. |
| Chat.ChatView.MembershipNotice | frontend/components/ChatComponent.tsx:61-97 | With a room, the member list becomes the server's list and exactly one system notice is appended. Without a room, nothing is created. |
| Chat.ChatView.constructor | frontend/components/ChatComponent.tsx:17-24 | The input, recipient, query and handled set start empty, with the mention list hidden. |
| Cursors.ColorAt | frontend/components/TextEditor.tsx:27-38 | Every colour picked is one of the palette's. |
| Cursors.ColorAtDistinct | frontend/components/TextEditor.tsx:101-102 | Any ten consecutive counter values give ten different colours. |
| Cursors.ColorAtPeriodic | frontend/components/TextEditor.tsx:101-102 | The colour sequence repeats every ten assignments. |
| Cursors.Admit | frontend/components/TextEditor.tsx:100-103 | A known user is left as is. An unknown one is appended with the colour at the counter, and the counter moves on by one. |
| Cursors.CursorEvent | frontend/components/TextEditor.tsx:97-162 | The local user's own events change nothing. A first event advances the counter by exactly one, even when its position is absent. An absent position removes the user. Otherwise the user has its old colour, or the colour at the counter when new. Other users are untouched. |
| Cursors.KeepsColor | frontend/components/TextEditor.tsx:152-162 | A known user that sends a position keeps its colour, and the counter stays put. |
| Cursors.ReturnsWithFreshColor | frontend/components/TextEditor.tsx:146-148 | After a user's cursor is removed, its next position gets the colour the counter then points at, and the counter advances again. |
| Cursors.NewUsersDiffer | frontend/components/TextEditor.tsx:100-103 | Two new users seen one after the other get different colours. |
| Cursors.CursorEventWellFormed | frontend/components/TextEditor.tsx:97-162 | Every event keeps the registry's keys distinct and its colours in the palette. |
| Cursors.CursorRegistry.HandleCursor | frontend/components/TextEditor.tsx:97-162 | The in-place handler: the new registry and the cursor calls, in order, are those of CursorEvent. |
| Cursors.CursorRegistry.Cleanup | frontend/components/TextEditor.tsx:182-185 | Removes every shown cursor, in insertion order, and empties the registry. The counter is kept. |
| Cursors.CursorRegistry.constructor | frontend/components/TextEditor.tsx:45-46 | The registry starts empty with the counter at zero. |
| Cursors.SelectionPayload | frontend/components/TextEditor.tsx:84-95 | Carries the local user and its id. The position is absent exactly when there is no selection; otherwise its index and length are the selection's. |
| OrderedMap.Get | backend/src/index.ts:119 | Finds a value exactly when the key is present, and with distinct keys it is that key's value. |
| OrderedMap.Put | backend/src/index.ts:137-141 | The key is present with the new value and other keys are unaffected. A new key is appended at the end. |
| OrderedMap.PutInPlace | backend/src/index.ts:137-141 | Setting a present key replaces that entry where it stands. |
| OrderedMap.PutDistinct | backend/src/index.ts:137-141 | Setting keeps the keys distinct. |
| OrderedMap.Remove | backend/src/index.ts:395 | The key is gone, other keys are unaffected, and an absent key changes nothing. |
| OrderedMap.RemoveDistinct | backend/src/index.ts:395 | Deleting keeps the keys distinct. |
| OrderedMap.Values | backend/src/index.ts:147 | The values in insertion order. |
| OrderedMap.ValuesOfAppend | backend/src/index.ts:147 | A newly set key's value comes last among the values. |

## Left out

- HTTP server, CORS and `server.listen` (backend/src/index.ts:41-57, 437-440): I/O plumbing with no room logic.
- Socket.IO transport: the `await socket.join` in join-room and any interleaving of handlers are not modelled; each handler is one atomic step. The sockets of a Socket.IO room are taken to be the keys of `room.users`, which they are as long as every join and leave goes through these handlers.
- The reply texts ("Room already exists", and so on) are replaced by the failure kinds of `Failure`. The event texts "`<name>` joined the room" and "`<name>` left the room" are modelled.
- JSON `stringify`/`parse` of the document. The document is an operation sequence. The `try`/`catch` failure replies are not modelled, since nothing in the model can throw. These are "Internal server error" from create-room (backend/src/index.ts:105-108), "Failed to join room" from join-room (backend/src/index.ts:156-162) and "Failed to update document content" from update-document-content (backend/src/index.ts:295-301).
- Console logging.
- A delta that arrives as a JSON string (`typeof data.delta === 'string'`, backend/src/index.ts:281) and a document or delta without an `ops` field are not modelled: a delta is its operation list.
- Coordinator.Server.CreateRoom: stores the room with its creator already in the member table in one step, rather than storing an empty room and then adding the creator. No handler runs in between, so the state after the handler is the same.
- Regular expressions: the username is put into `^@name\b` unescaped. The model treats the name as literal text, so a name with regular-expression metacharacters is not modelled. The lemmas about the mention prefix assume the name ends in a word character.
- Unicode: `toLowerCase` is modelled on ASCII letters only, and strings are sequences of characters rather than UTF-16 code units.
- uuid generation: message and notice ids are parameters; each notice gets its own id.
- React rendering: scrolling, focus, JSX and the join/leave styling of system messages in ChatComponent.tsx are not modelled. In TextEditor.tsx, Quill set-up, `requestAnimationFrame` styling and DOM queries are not modelled.
- Cursors.CursorRegistry.HandleCursor: the `if (cursorColor)` test before re-creating a cursor is modelled as "the user has a colour", since every palette colour is a non-empty string.
- Cursors.ColorAt: the counter is an unbounded natural number; JavaScript numbers lose precision only after 2^53 increments.
- Chat.ChatView: keeps only the room fields the chat uses (id, members, messages). The `useEffect` guard at frontend/components/ChatComponent.tsx:27, which registers the handlers only once user and room exist, is not modelled, so the handlers are modelled for every state.
- `frontend/lib/socketClient.ts`, `frontend/context/UserContext.tsx`, the dialogs, `HomeClient.tsx`, the room page and `backend/y-websocket.d.ts` are not part of this model: they are thin wrappers, forms and routing.
