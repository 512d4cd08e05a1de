# Chat backend: conversation and message controllers in Dafny

This project models the core of a REST chat backend. The core is the
conversation controller (`src/controllers/chat.js`), the message controller
(`src/controllers/message.js`) and the Chat schema (`src/model/chat.js`).

The Mongo collections become a class `ChatStore.Store` that holds:

- `chats`: a sequence of `Chat` records;
- `messages`: a sequence of `Message` records;
- `users`: a set of known user ids;
- `clock`: a natural-number clock that moves forward by one per reading;
- `nextId`: a counter that hands out fresh ObjectIds.

Each controller is a method of `Store`. It returns the status of the HTTP
response (200 `Ok`, 201 `Created`, 400 `BadRequest`, 404 `NotFound`,
403 `Forbidden`) together with the document it returns. Each method's contract
states:

- which inputs lead to each status, in both directions;
- the exact new state.

Every method keeps the store invariant `StoreInvariant.StoreOk`:

- chats are in id order;
- participant lists have no repetitions;
- a one-on-one chat joins two distinct users;
- a group has an admin;
- no two one-on-one chats join the same pair of users;
- messages are in creation order, and each one has been read by its sender;
- every message belongs to a stored chat;
- every chat's `lastMessage` is the newest of its messages;
- every stored id and time was issued before now.

Module layout:

- `chat_model.dfy` (`ChatModel`): the records, the schema defaults, the `trim`
  option on `groupName` and the pre-save hook.
- `chat_rules.dfy` (`ChatRules`): the pure parts of `chat.js`. These are the
  lookups, the participant list of a new group, the removal guards, the
  participant filter and the recency sort.
- `message_rules.dfy` (`MessageRules`): the pure parts of `message.js`. These
  are read receipts, the history page and its pagination, the unread counts,
  and the newest-message lookup.
- `store_invariant.dfy` (`StoreInvariant`): the store invariant and one lemma
  per kind of change showing that the change keeps it.
- `store.dfy` (`ChatStore`): the store and the controllers. Each controller
  checks its guards and leaves the state change to a small update method
  (`AddChat`, `ReplaceChat`, `RemoveChat`, `AddMessage`, `MarkOne`,
  `MarkChat`, `RemoveMessage`, `RemoveLastMessage`).

Four facts about the code as written are proved as lemmas:

- **Size check before deduplication.** The size check of `createGroupChat`
  (chat.js:124) counts the submitted list before the deduplication at :131.
  So `[me, me]` passes the check and yields a group of one member.
- **Blank group names.** A group name made only of white space passes the
  check at :118 and is stored empty after trimming.
- **Unreachable refusal.** The "cannot remove group admin" refusal at
  chat.js:253 can never be reached.
- **Admin can leave.** A group's admin can remove themselves, which leaves the
  group with an admin who is not a member. `ChatStore.Store.RemoveParticipant`
  states this outcome in its contract.

`getChatMessages` sorts newest first before `skip` (message.js:87-89) and
reverses each page into chronological order (message.js:94). Page 1 therefore
holds the newest messages. The whole history is pages `PageCount, ..., 2, 1`
in that order, as `PagesReassemble` states.

## Model

| member | source | states |
|---|---|---|
| ChatModel.Trim | src/model/chat.js:13-16 | the stored group name is no longer than the input and neither starts nor ends with white space |
| ChatModel.TrimIsMiddle | src/model/chat.js:13-16 | what trimming keeps is one contiguous run of the input, and only white space is cut off on either side |
| ChatModel.TrimIdempotent | src/model/chat.js:13-16 | trimming an already trimmed name changes nothing |
| ChatModel.BlankTrimsToEmpty | src/model/chat.js:13-16 | a name made only of white space is stored as the empty string |
| ChatModel.NewChatDefaults | src/model/chat.js:9-32 | a chat created without the optional fields is not a group, has no name, admin or last message, and both timestamps are the creation time |
| ChatModel.Saved | src/model/chat.js:40-43 | saving stamps `updatedAt` with the current time, which moves it forward, and changes no other field |
| ChatRules.Dedup | src/controllers/chat.js:131 | the list through a Set has no repetitions, is no longer than the input, and starts with the input's first value |
| ChatRules.DedupMembers | src/controllers/chat.js:131 | the Set keeps every value and adds none |
| ChatRules.DedupOfDistinct | src/controllers/chat.js:131 | a list without repetitions comes through the Set unchanged |
| ChatRules.GroupMembers | src/controllers/chat.js:131 | the new group's members are the creator (first) and the submitted ids, each exactly once |
| ChatRules.GroupSizeCheckedBeforeDedup | src/controllers/chat.js:124-131 | a creator who submits only themselves twice passes the size check and gets a group of one |
| ChatRules.SelfListedGivesPair | src/controllers/chat.js:124-131 | submitting oneself and one other user passes the size check and gives a group of two |
| ChatRules.RepeatedOtherGivesPair | src/controllers/chat.js:124-131 | one other user submitted twice passes the size check and gives a group of two |
| ChatRules.GroupSizeWhenOthersDistinct | src/controllers/chat.js:124-131 | with distinct other users the group has one more member than was submitted, so at least three |
| ChatRules.FindChat | src/controllers/chat.js:85-92 | finds a position holding the id, or reports that no chat has it |
| ChatRules.FindDirectChat | src/controllers/chat.js:25-28 | finds the first one-on-one chat that includes both users, or reports that none does |
| ChatRules.DirectChatIsUnique | src/controllers/chat.js:25-34 | in a well-formed store the one-on-one chat found for two distinct users is the only one they share |
| ChatRules.NewPairIsUnique | src/controllers/chat.js:25-40 | creating the pair's chat after the lookup found none keeps every pair of users down to one chat |
| ChatRules.AdminRefusalUnreachable | src/controllers/chat.js:243-255 | every request that passes the check at :246 fails the test at :253 |
| ChatRules.AdminMayRemoveThemselves | src/controllers/chat.js:243-255 | the admin removing themselves passes both checks |
| ChatRules.Without | src/controllers/chat.js:257-259 | the id is gone, every other member is kept, and a list without repetitions stays so |
| ChatRules.WithoutCutsOne | src/controllers/chat.js:257-259 | removing a member cuts out exactly its one position and keeps the order; removing a non-member changes nothing |
| ChatRules.MemberChats | src/controllers/chat.js:62-64 | the chats that include the user, exactly, and each only as often as it is stored |
| ChatRules.InsertByRecency | src/controllers/chat.js:68 | inserting into a newest-first list gives a newest-first permutation of the list plus the chat |
| ChatRules.SortByRecency | src/controllers/chat.js:68 | the sort is newest first and a permutation of its input |
| ChatRules.UserChats | src/controllers/chat.js:62-68 | newest first, exactly the chats that include the user, each as often as it is stored |
| MessageRules.NewMessage | src/controllers/message.js:31-38 | the type defaults to "text"; the sender is the only reader of a new message and holds one entry |
| MessageRules.MarkRead | src/controllers/message.js:132-140 | the reader has read the message; the readers are the old ones plus the reader; an entry is appended only if missing; nothing else changes |
| MessageRules.MarkReadIdempotent | src/controllers/message.js:132-140 | marking read a second time, at any time, changes nothing |
| MessageRules.ChatHistory | src/controllers/message.js:85 | exactly the chat's messages, in creation order when the store is |
| MessageRules.DropChat | src/controllers/chat.js:308 | exactly the messages of the other chats, in creation order when the store is |
| MessageRules.DropChatKeepsOtherHistories | src/controllers/chat.js:307-311 | after the delete, the deleted chat has no history and every other chat's history is what it was |
| MessageRules.Reverse | src/controllers/message.js:94 | the same messages in the opposite order |
| MessageRules.PageCount | src/controllers/message.js:99 | the least number of pages of `limit` entries that hold `total` entries |
| MessageRules.SkipPastEnd | src/controllers/message.js:83-99 | a page's skip reaches the end of the history exactly when the page number exceeds the page count |
| MessageRules.PageAtIsSlice | src/controllers/message.js:83-94 | a page is the contiguous run of the history that ends `skip` messages before the newest one |
| MessageRules.PageProperties | src/controllers/message.js:83-99 | at most `limit` messages, all from the history, in creation order, and empty exactly past the last page |
| MessageRules.PageThenNewer | src/controllers/message.js:83-94 | a page followed by everything newer than it is the history from the page's oldest entry on |
| MessageRules.PagesThroughIsSuffix | src/controllers/message.js:83-94 | pages k down to 1, one after another, are the newest k·limit messages in order |
| MessageRules.PagesReassemble | src/controllers/message.js:83-99 | the pages from the last down to 1 give back the whole history, nothing lost or repeated |
| MessageRules.CountUnreadIn | src/controllers/message.js:175-178 | the number of the chat's messages the user has not read is at most the number of messages |
| MessageRules.NoneUnreadIn | src/controllers/message.js:175-178 | that count is zero exactly when no message of the chat is unread by the user |
| MessageRules.MarkAllRead | src/controllers/message.js:175-184 | every message of the chat is marked read by the user; the others are untouched |
| MessageRules.MarkAllReadEffect | src/controllers/message.js:174-184 | afterwards nothing in the chat is unread by the user, and every other chat's history is unchanged |
| MessageRules.OtherHistoriesKept | src/controllers/message.js:175-184 | marking a chat read leaves every other chat's history unchanged |
| MessageRules.UnreadCount | src/controllers/message.js:246-250 | the unread total is at most the number of messages |
| MessageRules.NoneUnread | src/controllers/message.js:246-250 | the unread total is zero exactly when no message counts as unread |
| MessageRules.UnreadAfterMarkAll | src/controllers/message.js:174-188 | marking a chat read lowers the user's unread total by exactly the count the request reports |
| MessageRules.LatestIndex | src/controllers/message.js:222-223 | the position of the chat's last message in store order, or none when the chat has no message |
| MessageRules.LatestIsNewest | src/controllers/message.js:222-224 | in a chronological store the message found is the chat's newest, and none is found only when the chat has no message |
| MessageRules.LatestAfterAppend | src/controllers/message.js:40-43 | a new message becomes its chat's last one and leaves every other chat's last one |
| MessageRules.LatestAfterRemove | src/controllers/message.js:217-226 | deleting a message that is not its chat's last leaves that chat's last message where it was |
| MessageRules.LatestAfterDropChat | src/controllers/chat.js:307-311 | deleting a chat's messages leaves every other chat's last message |
| MessageRules.LatestAfterReads | src/controllers/message.js:137-140 | read receipts change no last message |
| MessageRules.FindMessage | src/controllers/message.js:116-120 | finds a position holding the id, or reports that no message has it |
| StoreInvariant.CreateKeeps | src/controllers/chat.js:140-145 | adding a well-formed chat under a fresh id keeps the store invariant |
| StoreInvariant.ReplaceKeeps | src/controllers/chat.js:200-201 | saving a group chat with a new well-formed member list keeps the store invariant |
| StoreInvariant.SendKeeps | src/controllers/message.js:31-43 | adding a message and pointing its chat at it keeps the store invariant |
| StoreInvariant.MarkReadKeeps | src/controllers/message.js:137-140 | marking one message read keeps the store invariant |
| StoreInvariant.MarkAllReadKeeps | src/controllers/message.js:181-184 | marking a whole chat read keeps the store invariant |
| StoreInvariant.OnlyItsChatPoints | src/controllers/message.js:219-221 | only a message's own chat can hold it as `lastMessage` |
| StoreInvariant.RemoveMessageKeeps | src/controllers/message.js:217-221 | deleting a message that is not its chat's last keeps the store invariant |
| StoreInvariant.RepointKeeps | src/controllers/message.js:217-226 | deleting a chat's last message and repointing the chat keeps the store invariant |
| StoreInvariant.RemoveChatKeeps | src/controllers/chat.js:307-311 | deleting a chat together with its messages keeps the store invariant |
| StoreInvariant.RemovedChatGone | src/controllers/chat.js:311 | once the chat is deleted, no chat with its id remains |
| ChatStore.MarkEachRead | src/controllers/message.js:175-184 | the loop returns the store with the chat marked read and the number of messages it marked |
| ChatStore.Store.CreateOrGetChat | src/controllers/chat.js:6-49 | 400 for a missing id or oneself, 404 for an unknown user, 200 with the pair's existing chat, else 201 with exactly one new chat of the two; no other status; the pair never has two chats |
| ChatStore.Store.GetUserChats | src/controllers/chat.js:60-70 | exactly the caller's chats, newest first, each as often as it is stored |
| ChatStore.Store.GetChatById | src/controllers/chat.js:81-103 | 404 when no chat has the id, 403 when the caller is not a member, else the chat |
| ChatStore.Store.CreateGroupChat | src/controllers/chat.js:114-154 | 400 exactly for a missing name or list, fewer than two submitted ids, or an unknown member; else one new group with the creator as admin and first member, each member once, and the trimmed name |
| ChatStore.Store.AddChat | src/controllers/chat.js:37-40 | the new chat is appended under a fresh id and the invariant kept |
| ChatStore.Store.AddParticipant | src/controllers/chat.js:165-210 | 400, 404, 403 and 200 each exactly on its condition and no other status; only the group's admin may add; exactly one new id appended, then saved |
| ChatStore.Store.ReplaceChat | src/controllers/chat.js:200-201 | the group is saved with its new member list and a fresh `updatedAt`, and the invariant kept |
| ChatStore.Store.RemoveParticipant | src/controllers/chat.js:221-270 | 400, 404, 403 and 200 each exactly on its condition, no other status, none from :253; the admin or the user themselves may remove; the id is filtered out, then saved; the admin removing themselves succeeds and leaves a group whose admin is not a member |
| ChatStore.Store.DeleteChat | src/controllers/chat.js:281-313 | 404 or 403 exactly on their conditions; otherwise the chat and exactly its messages are gone and every other chat's history is unchanged |
| ChatStore.Store.RemoveChat | src/controllers/chat.js:307-311 | the chat and its messages are removed and the invariant kept |
| ChatStore.Store.SendMessage | src/controllers/message.js:5-53 | each refusal exactly on its condition; otherwise one new message read only by its sender, and its chat points at it with a later `updatedAt` |
| ChatStore.Store.AddMessage | src/controllers/message.js:31-43 | the message is appended and its chat saved pointing at it, with the invariant kept |
| ChatStore.Store.GetChatMessages | src/controllers/message.js:64-101 | 404 or 403 exactly on their conditions; otherwise the requested page (default page 1 of 50) of the chat's history and its pagination numbers |
| ChatStore.Store.MarkMessageAsRead | src/controllers/message.js:112-145 | 404 or 403 exactly on their conditions; otherwise the caller has read the message, and a repeated request changes nothing |
| ChatStore.Store.MarkOne | src/controllers/message.js:137-140 | the message gets the reader's entry and the invariant is kept |
| ChatStore.Store.MarkChat | src/controllers/message.js:174-184 | every message of the chat is marked read, the count is that of the unread ones, and the invariant is kept |
| ChatStore.Store.MarkChatAsRead | src/controllers/message.js:156-189 | 404 or 403 exactly on their conditions; otherwise the chat is marked read and the count is the number that were unread |
| ChatStore.Store.DeleteMessage | src/controllers/message.js:200-228 | 404 or 403 exactly on their conditions; otherwise the message is gone, and its chat is repointed to the newest remaining message only when it pointed at the deleted one |
| ChatStore.Store.RemoveMessage | src/controllers/message.js:217 | the message is removed, the chats are untouched, and the invariant is kept |
| ChatStore.Store.RemoveLastMessage | src/controllers/message.js:217-226 | the message is removed and its chat saved pointing at the newest one left, with the invariant kept |
| ChatStore.Store.GetUnreadCount | src/controllers/message.js:239-252 | the number of messages in the caller's chats that others sent and the caller has not read; zero exactly when there are none |

## Left out

- The 500 branches (`catch`) are not modelled. Nothing here throws, and the
  store invariant rules out a message whose chat is missing.
- `populate` and the User documents are not modelled. The model returns stored
  records, and users are only a set of ids.
- Authentication (`req.user`), routing, sockets and HTTP are not modelled. The
  caller's id is a parameter.
- The `parseInt` of `page` and `limit` is not modelled. `GetChatMessages`
  takes each as an optional number, with the defaults of message.js:67
  (page 1, limit 50) when absent. A given value must be at least 1; zero,
  negative and non-numeric values are outside the model. In the source,
  `limit(0)` is an unlimited query, a negative limit returns that many
  messages in one batch, and a negative skip fails the request.
- Ids are compared with one equality. The source mixes two comparisons.
  The `===` tests on id strings (chat.js:14, :244, :253, :258 and
  message.js:221) tell apart spellings of the same id. The ObjectId lookups
  (chat.js:19, :25-27, :37-40 and message.js:204, :217) do not. An
  upper-case spelling of an existing id would find the same document but
  fail those `===` tests. The invariant that a one-on-one chat joins two
  distinct users, and the invariant that `lastMessage` names the chat's
  newest message, therefore hold only for requests that spell every id in
  its canonical lower-case form. A caller naming themselves in upper case
  passes chat.js:14. A message deleted through an upper-case id skips the
  repoint at message.js:221.
- Ties in `createdAt` are not modelled. Each reading of the clock is distinct,
  so no two messages share a creation time. In the source, `Date` has
  millisecond resolution, and two messages created in the same millisecond
  tie. Mongo then orders them arbitrarily in `.sort({createdAt: -1})`
  (message.js:87 and :223). The page boundaries of `getChatMessages` and the
  message that `deleteMessage` repoints `lastMessage` to are then not
  determined. `PagesReassemble`, `LatestIsNewest` and the invariant
  `lastMessage == LatestIn(...)` all rely on the strict order.
- Wall-clock time is replaced by a counter that moves forward by one per
  reading. `sendMessage` reads it twice: once for the message and once for
  the chat save.
- MarkEachRead gives every message marked by one `markChatAsRead` request the
  same `readAt`. The source reads `new Date()` once per message.
- Concurrency between requests is not modelled. Each controller runs to
  completion, and the two writes of `sendMessage` and `deleteMessage` happen
  together.
- `createGroupChat` checks that every member exists by comparing the number of
  users found with the number of ids. The model states this as "every member
  is a known user", which is equivalent for a list without repetitions.
- `!Array.isArray(participants)` is not modelled as a separate case. A missing
  or non-array `participants` is `None`.
