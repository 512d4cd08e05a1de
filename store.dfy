/** The conversation controller (src/controllers/chat.js) and the message
    controller (src/controllers/message.js) as methods on an in-memory store:
    the Chat and Message collections become sequences, the User collection a
    set of known ids, `Date.now()` a clock that moves forward by one per
    reading, and new ObjectIds come from a counter. Each method answers with
    the status of the HTTP response. */
module ChatStore {
  import opened ChatModel
  import opened ChatRules
  import opened MessageRules
  import opened StoreInvariant

  /** The status a controller answers with: 200, 201, 400, 404, 403. */
  datatype Status = Ok | Created | BadRequest | NotFound | Forbidden

  /** The `pagination` object of getChatMessages. */
  datatype Pagination = Pagination(page: nat, limit: nat, total: nat, pages: nat)

  // ------------------------------------------------------------------ the store

  /** The loop of markChatAsRead (message.js:175-184): every message of chat
      `c` that `u` has not read gets `u`'s entry; `count` is how many did. */
  method MarkEachRead(ms: seq<Message>, c: ChatId, u: UserId, now: Time) returns (r: seq<Message>, count: nat)
    ensures r == MarkAllRead(ms, c, u, now)
    ensures count == CountUnreadIn(ms, c, u)
  {
    r := ms;
    var i := 0;
    count := 0;
    while i < |r|
      invariant 0 <= i <= |r| == |ms|
      invariant forall k :: 0 <= k < i ==> r[k] == if ms[k].chat == c then MarkRead(ms[k], u, now) else ms[k]
      invariant forall k :: i <= k < |r| ==> r[k] == ms[k]
      invariant count == CountUnreadIn(ms[..i], c, u)
    {
      var m := r[i];
      if m.chat == c && !HasRead(m, u) {
        r := r[i := MarkRead(m, u, now)];
        count := count + 1;
      }
      assert ms[..i + 1][..i] == ms[..i];
      i := i + 1;
    }
    assert ms[..i] == ms;
  }

  class Store {
    /** The ids the User collection holds; these controllers only look them up. */
    var users: set<UserId>
    var chats: seq<Chat>
    var messages: seq<Message>
    /** The last reading of the clock. */
    var clock: Time
    /** The next fresh ObjectId. */
    var nextId: nat

    ghost predicate Valid()
      reads this
    {
      StoreOk(chats, messages, clock, nextId)
    }

    constructor (users: set<UserId>)
      ensures Valid() && this.users == users
      ensures chats == [] && messages == [] && clock == 0 && nextId == 0
    {
      this.users := users;
      chats, messages := [], [];
      clock, nextId := 0, 0;
    }

    /** createOrGetChat (chat.js:6-49). */
    method CreateOrGetChat(caller: UserId, userId: Option<UserId>) returns (status: Status, chat: Option<Chat>)
      requires Valid()
      modifies this
      ensures Valid() && users == old(users) && messages == old(messages)
      // :10-22: a missing id, the caller's own id, or an unknown user is refused
      ensures status == BadRequest <==> userId.None? || userId.value == caller
      ensures status == NotFound <==> userId.Some? && userId.value != caller && userId.value !in users
      ensures status == Ok || status == Created || status == BadRequest || status == NotFound
      ensures status != Created ==> unchanged(this)
      // :25-34: a one-on-one chat of the two is returned, the store untouched
      ensures status == Ok <==>
        (userId.Some? && userId.value != caller && userId.value in users
         && FindDirectChat(old(chats), caller, userId.value).Some?)
      ensures status == Ok ==> chat == Some(chats[FindDirectChat(chats, caller, userId.value).value])
      // :37-40: otherwise exactly one chat is added: the two, not a group, defaults elsewhere
      ensures status == Created ==>
        && chat.Some? && chats == old(chats) + [chat.value]
        && chat.value == NewChat(old(nextId), [caller, userId.value], Some(false), None, None, clock)
        && chat.value.participants == [caller, userId.value] && !chat.value.isGroupChat
        && clock == old(clock) + 1 && nextId == old(nextId) + 1
      // no second one-on-one chat for the pair ever exists
      ensures status == Ok || status == Created ==>
        chat.Some? && IsDirectChatOf(chat.value, caller, userId.value)
        && forall j :: 0 <= j < |chats| && IsDirectChatOf(chats[j], caller, userId.value) ==> chats[j] == chat.value
    {
      if userId.None? {
        return BadRequest, None;
      }
      var u := userId.value;
      if u == caller {
        return BadRequest, None;
      }
      if u !in users {
        return NotFound, None;
      }
      var found := FindDirectChat(chats, caller, u);
      if found.Some? {
        DirectChatIsUnique(chats, caller, u, found.value);
        return Ok, Some(chats[found.value]);
      }
      var c := NewChat(nextId, [caller, u], Some(false), None, None, clock + 1);
      NewPairIsUnique(chats, c, caller, u);
      AddChat(c);
      status, chat := Created, Some(c);
      assert forall j :: 0 <= j < |chats| - 1 ==> !IsDirectChatOf(chats[j], caller, u);
    }

    /** getUserChats (chat.js:60-70): the caller's chats, most recently
        updated first. */
    method GetUserChats(caller: UserId) returns (status: Status, result: seq<Chat>)
      ensures status == Ok
      ensures NewestFirst(result)
      ensures forall c :: c in result <==> c in chats && IsParticipant(c, caller)
      ensures multiset(result) == multiset(MemberChats(chats, caller))
    {
      return Ok, UserChats(chats, caller);
    }

    /** getChatById (chat.js:81-103). */
    method GetChatById(caller: UserId, chatId: ChatId) returns (status: Status, chat: Option<Chat>)
      ensures status == NotFound <==> FindChat(chats, chatId).None?
      ensures status == Forbidden <==>
        FindChat(chats, chatId).Some? && !IsParticipant(chats[FindChat(chats, chatId).value], caller)
      ensures status == Ok <==> chat.Some?
      ensures status == Ok ==> chat.value in chats && chat.value.id == chatId && IsParticipant(chat.value, caller)
      ensures status == Ok || status == NotFound || status == Forbidden
    {
      var k := FindChat(chats, chatId);
      if k.None? {
        return NotFound, None;
      }
      var c := chats[k.value];
      if !IsParticipant(c, caller) {
        return Forbidden, None;
      }
      return Ok, Some(c);
    }

    /** createGroupChat (chat.js:114-154). */
    method CreateGroupChat(caller: UserId, groupName: Option<string>, participants: Option<seq<UserId>>)
      returns (status: Status, chat: Option<Chat>)
      requires Valid()
      modifies this
      ensures Valid() && users == old(users) && messages == old(messages)
      // :118-137: a missing name or list, a list of fewer than two, or an unknown member
      ensures status == BadRequest <==>
        || groupName.None? || groupName.value == [] || participants.None?
        || |participants.value| < 2
        || exists u :: u in GroupMembers(caller, participants.value) && u !in users
      ensures status == BadRequest || status == Created
      ensures status != Created ==> unchanged(this)
      // :140-145: the creator first and admin, every member once
      ensures status == Created ==>
        && chat.Some? && chats == old(chats) + [chat.value]
        && chat.value.participants == GroupMembers(caller, participants.value)
        && chat.value.isGroupChat && chat.value.groupAdmin == Some(caller)
        && chat.value.groupName == Some(Trim(groupName.value)) && chat.value.lastMessage == None
        && chat.value.id == old(nextId) && chat.value.createdAt == clock && chat.value.updatedAt == clock
        && clock == old(clock) + 1 && nextId == old(nextId) + 1
    {
      if groupName.None? || groupName.value == [] || participants.None? {
        return BadRequest, None;
      }
      if |participants.value| < 2 {
        return BadRequest, None;
      }
      var all := GroupMembers(caller, participants.value);
      if exists u :: u in all && u !in users {
        return BadRequest, None;
      }
      var c := NewChat(nextId, all, Some(true), groupName, Some(caller), clock + 1);
      assert PairsUnique(chats + [c]) by {
        var s := chats + [c];
        forall i, j | 0 <= i < |s| && 0 <= j < |s| && i != j ensures !SamePair(s[i], s[j]) {
          if i < |chats| && j < |chats| {
            assert s[i] == chats[i] && s[j] == chats[j];
          }
        }
      }
      AddChat(c);
      return Created, Some(c);
    }

    /** The update of both create controllers: `c` is stored under a fresh id. */
    method AddChat(c: Chat)
      requires Valid()
      requires c.id == nextId && ChatShape(c) && c.lastMessage == None && c.updatedAt <= clock + 1
      requires PairsUnique(chats + [c])
      modifies this
      ensures Valid() && users == old(users) && messages == old(messages)
      ensures chats == old(chats) + [c]
      ensures clock == old(clock) + 1 && nextId == old(nextId) + 1
    {
      chats, clock, nextId := chats + [c], clock + 1, nextId + 1;
      CreateKeeps(old(chats), old(messages), old(clock), old(nextId), c);
    }

    /** addParticipant (chat.js:165-210). */
    method AddParticipant(caller: UserId, chatId: ChatId, userId: Option<UserId>) returns (status: Status, chat: Option<Chat>)
      requires Valid()
      modifies this
      ensures Valid() && users == old(users) && messages == old(messages) && nextId == old(nextId)
      ensures status != Ok ==> unchanged(this) && chat == None
      ensures status == Ok || status == BadRequest || status == NotFound || status == Forbidden
      // :170-182, :195-198: a missing id, a one-on-one chat, or a user already in the group
      ensures var k := FindChat(old(chats), chatId);
        status == BadRequest <==>
          || userId.None?
          || (k.Some? && !old(chats)[k.value].isGroupChat)
          || (k.Some? && old(chats)[k.value].isGroupChat && old(chats)[k.value].groupAdmin == Some(caller)
              && userId.value in users && userId.value in old(chats)[k.value].participants)
      // :176-178, :190-193: an unknown chat, or an unknown user once the admin is the caller
      ensures var k := FindChat(old(chats), chatId);
        status == NotFound <==>
          && userId.Some?
          && (|| k.None?
              || (old(chats)[k.value].isGroupChat && old(chats)[k.value].groupAdmin == Some(caller)
                  && userId.value !in users))
      ensures var k := FindChat(old(chats), chatId);
        status == Ok <==> && userId.Some? && k.Some? && old(chats)[k.value].isGroupChat
                          && old(chats)[k.value].groupAdmin == Some(caller)
                          && userId.value in users && userId.value !in old(chats)[k.value].participants
      // :180-187: only the admin of a group may add
      ensures var k := FindChat(old(chats), chatId);
        status == Forbidden <==> userId.Some? && k.Some? && old(chats)[k.value].isGroupChat
                                 && old(chats)[k.value].groupAdmin != Some(caller)
      // :200-201: exactly one id appended, the rest in order, then saved
      ensures status == Ok ==> var k := FindChat(old(chats), chatId).value; var c := old(chats)[k];
        && clock == old(clock) + 1
        && chats == old(chats)[k := Saved(c.(participants := c.participants + [userId.value]), clock)]
        && chats[k].updatedAt > c.updatedAt
        && chat == Some(chats[k])
    {
      if userId.None? {
        return BadRequest, None;
      }
      var u := userId.value;
      var found := FindChat(chats, chatId);
      if found.None? {
        return NotFound, None;
      }
      var k := found.value;
      var c := chats[k];
      if !c.isGroupChat {
        return BadRequest, None;
      }
      if c.groupAdmin != Some(caller) {
        return Forbidden, None;
      }
      if u !in users {
        return NotFound, None;
      }
      if u in c.participants {
        return BadRequest, None;
      }
      var c' := c.(participants := c.participants + [u]);
      assert ChatShape(c);
      AppendNewMember(c.participants, u);
      assert ChatShape(Saved(c', clock + 1));
      ReplaceChat(k, c');
      return Ok, Some(chats[k]);
    }

    /** The update of both membership controllers: the group chat `k` is
        saved with the new member list `c`. */
    method ReplaceChat(k: nat, c: Chat)
      requires Valid() && k < |chats|
      requires ChatShape(Saved(c, clock + 1)) && c.id == chats[k].id && c.lastMessage == chats[k].lastMessage
      requires c.isGroupChat && chats[k].isGroupChat
      modifies this
      ensures Valid() && users == old(users) && messages == old(messages) && nextId == old(nextId)
      ensures clock == old(clock) + 1
      ensures chats == old(chats)[k := Saved(c, clock)]
    {
      chats, clock := chats[k := Saved(c, clock + 1)], clock + 1;
      ReplaceKeeps(old(chats), old(messages), old(clock), old(nextId), k, Saved(c, old(clock) + 1));
    }

    /** removeParticipant (chat.js:221-270). The refusal of :253-255 cannot be
        reached (AdminRefusalUnreachable), so the only 400s are a missing id
        and a one-on-one chat. */
    method RemoveParticipant(caller: UserId, chatId: ChatId, userId: Option<UserId>) returns (status: Status, chat: Option<Chat>)
      requires Valid()
      modifies this
      ensures Valid() && users == old(users) && messages == old(messages) && nextId == old(nextId)
      ensures status != Ok ==> unchanged(this) && chat == None
      ensures status == Ok || status == BadRequest || status == NotFound || status == Forbidden
      ensures var k := FindChat(old(chats), chatId);
        status == BadRequest <==> userId.None? || (k.Some? && !old(chats)[k.value].isGroupChat)
      ensures status == NotFound <==> userId.Some? && FindChat(old(chats), chatId).None?
      // :243-250: only the admin, or a member removing themselves
      ensures var k := FindChat(old(chats), chatId);
        status == Forbidden <==> userId.Some? && k.Some? && old(chats)[k.value].isGroupChat
                                 && !RemovalAllowed(caller, old(chats)[k.value].groupAdmin.value, userId.value)
      // :257-261: every occurrence of the id filtered out, then saved
      ensures status == Ok ==> var k := FindChat(old(chats), chatId).value; var c := old(chats)[k];
        && clock == old(clock) + 1
        && chats == old(chats)[k := Saved(c.(participants := Without(c.participants, userId.value)), clock)]
        && userId.value !in chats[k].participants
        && chats[k].groupAdmin == c.groupAdmin
        && chats[k].updatedAt > c.updatedAt
        && chat == Some(chats[k])
      // :244-259: the admin removing themselves succeeds, and the group is left
      // with an admin who is no longer one of its members
      ensures var k := FindChat(old(chats), chatId);
        userId == Some(caller) && k.Some? && old(chats)[k.value].isGroupChat
        && old(chats)[k.value].groupAdmin == Some(caller) ==>
          && status == Ok
          && chats[k.value].groupAdmin == Some(caller)
          && caller !in chats[k.value].participants
    {
      if userId.None? {
        return BadRequest, None;
      }
      var u := userId.value;
      var found := FindChat(chats, chatId);
      if found.None? {
        return NotFound, None;
      }
      var k := found.value;
      var c := chats[k];
      if !c.isGroupChat {
        return BadRequest, None;
      }
      assert ChatShape(c);
      var admin := c.groupAdmin.value;
      var isAdmin := admin == caller;
      var isSelf := u == caller;
      if !isAdmin && !isSelf {
        return Forbidden, None;
      }
      if u == admin && !isSelf {
        assert false;
      }
      var c' := c.(participants := Without(c.participants, u));
      assert ChatShape(Saved(c', clock + 1));
      ReplaceChat(k, c');
      return Ok, Some(chats[k]);
    }

    /** deleteChat (chat.js:281-313). */
    method DeleteChat(caller: UserId, chatId: ChatId) returns (status: Status)
      requires Valid()
      modifies this
      ensures Valid() && users == old(users) && clock == old(clock) && nextId == old(nextId)
      ensures status != Ok ==> unchanged(this)
      ensures status == NotFound <==> FindChat(old(chats), chatId).None?
      // :292-305: only a member, and for a group only its admin
      ensures var k := FindChat(old(chats), chatId);
        status == Forbidden <==> k.Some? && var c := old(chats)[k.value];
          !IsParticipant(c, caller) || (c.isGroupChat && c.groupAdmin != Some(caller))
      ensures status == Ok || status == NotFound || status == Forbidden
      // :308-311: the chat and exactly its messages are gone
      ensures status == Ok ==> var k := FindChat(old(chats), chatId).value;
        && chats == old(chats)[..k] + old(chats)[k + 1..]
        && messages == DropChat(old(messages), chatId)
        && FindChat(chats, chatId).None?
        && forall d :: ChatHistory(messages, d) == if d == chatId then [] else ChatHistory(old(messages), d)
    {
      var found := FindChat(chats, chatId);
      if found.None? {
        return NotFound;
      }
      var k := found.value;
      var c := chats[k];
      if !IsParticipant(c, caller) {
        return Forbidden;
      }
      if c.isGroupChat && c.groupAdmin != Some(caller) {
        return Forbidden;
      }
      forall d ensures ChatHistory(DropChat(messages, chatId), d) == if d == chatId then [] else ChatHistory(messages, d) {
        DropChatKeepsOtherHistories(messages, chatId, d);
      }
      RemovedChatGone(chats, k);
      RemoveChat(k);
      return Ok;
    }

    /** The update of deleteChat: chat `k` and its messages go. */
    method RemoveChat(k: nat)
      requires Valid() && k < |chats|
      modifies this
      ensures Valid() && users == old(users) && clock == old(clock) && nextId == old(nextId)
      ensures chats == old(chats)[..k] + old(chats)[k + 1..]
      ensures messages == DropChat(old(messages), old(chats)[k].id)
    {
      messages, chats := DropChat(messages, chats[k].id), chats[..k] + chats[k + 1..];
      RemoveChatKeeps(old(chats), old(messages), old(clock), old(nextId), k);
    }

    /** sendMessage (message.js:5-53). */
    method SendMessage(caller: UserId, chatId: Option<ChatId>, content: string,
                       messageType: Option<string>, fileUrl: Option<string>) returns (status: Status, message: Option<Message>)
      requires Valid()
      modifies this
      ensures Valid() && users == old(users)
      ensures status != Created ==> unchanged(this) && message == None
      // :9-28: a missing chat id or content, an unknown chat, a non-member
      ensures status == BadRequest <==> chatId.None? || content == []
      ensures status == NotFound <==> chatId.Some? && content != [] && FindChat(old(chats), chatId.value).None?
      ensures status == Forbidden <==>
        (chatId.Some? && content != [] &&
         var k := FindChat(old(chats), chatId.value);
         k.Some? && !IsParticipant(old(chats)[k.value], caller))
      ensures status == Created || status == BadRequest || status == NotFound || status == Forbidden
      // :31-43: the sender has read the new message, and it is the chat's last one
      ensures status == Created ==> var k := FindChat(old(chats), chatId.value).value; var c := old(chats)[k];
        && message.Some?
        && message.value == NewMessage(old(nextId), chatId.value, caller, content, messageType, fileUrl, old(clock) + 1)
        && (forall u :: HasRead(message.value, u) <==> u == caller)
        && messages == old(messages) + [message.value]
        && clock == old(clock) + 2 && nextId == old(nextId) + 1
        && chats == old(chats)[k := Saved(c.(lastMessage := Some(message.value.id)), clock)]
        && chats[k].lastMessage == Some(message.value.id) && chats[k].updatedAt > c.updatedAt
    {
      if chatId.None? || content == [] {
        return BadRequest, None;
      }
      var found := FindChat(chats, chatId.value);
      if found.None? {
        return NotFound, None;
      }
      var k := found.value;
      var c := chats[k];
      if !IsParticipant(c, caller) {
        return Forbidden, None;
      }
      var m := NewMessage(nextId, chatId.value, caller, content, messageType, fileUrl, clock + 1);
      AddMessage(k, m);
      return Created, Some(m);
    }

    /** The update of sendMessage: `m` is stored, then chat `k` is saved
        pointing at it. */
    method AddMessage(k: nat, m: Message)
      requires Valid() && k < |chats|
      requires m.id == nextId && m.createdAt == clock + 1 && m.chat == chats[k].id && MessageShape(m)
      modifies this
      ensures Valid() && users == old(users)
      ensures messages == old(messages) + [m]
      ensures clock == old(clock) + 2 && nextId == old(nextId) + 1
      ensures chats == old(chats)[k := Saved(old(chats)[k].(lastMessage := Some(m.id)), clock)]
    {
      messages, nextId := messages + [m], nextId + 1;
      chats, clock := chats[k := chats[k].(lastMessage := Some(m.id), updatedAt := clock + 2)], clock + 2;
      SendKeeps(old(chats), old(messages), old(clock), old(nextId), k, m,
                old(chats)[k].(lastMessage := Some(m.id), updatedAt := old(clock) + 2));
    }

    /** getChatMessages (message.js:64-101). A query without `page` or `limit`
        gets the defaults of :67, page 1 of 50 messages. */
    method GetChatMessages(caller: UserId, chatId: ChatId, page: Option<nat>, limit: Option<nat>)
      returns (status: Status, result: seq<Message>, pagination: Option<Pagination>)
      requires page.None? || page.value >= 1
      requires limit.None? || limit.value >= 1
      ensures status == NotFound <==> FindChat(chats, chatId).None?
      ensures status == Forbidden <==>
        FindChat(chats, chatId).Some? && !IsParticipant(chats[FindChat(chats, chatId).value], caller)
      ensures status == Ok || status == NotFound || status == Forbidden
      ensures status != Ok ==> result == [] && pagination == None
      ensures status == Ok ==>
        var h := ChatHistory(messages, chatId);
        var p := if page.Some? then page.value else DefaultPage;
        var l := if limit.Some? then limit.value else DefaultLimit;
        && result == Page(h, p, l)
        && pagination == Some(Pagination(p, l, |h|, PageCount(|h|, l)))
        // at most one page of this chat's messages, oldest first; none past the last page
        && |result| <= l
        && (forall m :: m in result ==> m in messages && m.chat == chatId)
        && (Chronological(messages) ==> Chronological(result))
        && (result == [] <==> p > PageCount(|h|, l))
    {
      var found := FindChat(chats, chatId);
      if found.None? {
        return NotFound, [], None;
      }
      if !IsParticipant(chats[found.value], caller) {
        return Forbidden, [], None;
      }
      var p := if page.Some? then page.value else DefaultPage;
      var l := if limit.Some? then limit.value else DefaultLimit;
      var h := ChatHistory(messages, chatId);
      PageProperties(h, p, l);
      return Ok, Page(h, p, l), Some(Pagination(p, l, |h|, PageCount(|h|, l)));
    }

    /** markMessageAsRead (message.js:112-145). */
    method MarkMessageAsRead(caller: UserId, messageId: MessageId) returns (status: Status, message: Option<Message>)
      requires Valid()
      modifies this
      ensures Valid() && users == old(users) && chats == old(chats) && nextId == old(nextId)
      ensures status != Ok ==> unchanged(this) && message == None
      ensures status == NotFound <==> FindMessage(old(messages), messageId).None?
      ensures status == Ok || status == NotFound || status == Forbidden
      // :122-130: only a member of the message's chat
      ensures status == Forbidden <==>
        (FindMessage(old(messages), messageId).Some?
         && var m := old(messages)[FindMessage(old(messages), messageId).value];
            !IsParticipant(chats[FindChat(chats, m.chat).value], caller))
      // :132-140: the reader appended once; a second request changes nothing
      ensures status == Ok ==> var k := FindMessage(old(messages), messageId).value; var m := old(messages)[k];
        && messages == old(messages)[k := MarkRead(m, caller, clock)]
        && message == Some(messages[k])
        && HasRead(messages[k], caller)
        && (HasRead(m, caller) ==> unchanged(this))
        && (!HasRead(m, caller) ==> clock == old(clock) + 1)
    {
      var found := FindMessage(messages, messageId);
      if found.None? {
        return NotFound, None;
      }
      var k := found.value;
      var m := messages[k];
      var j := FindChat(chats, m.chat);
      if !IsParticipant(chats[j.value], caller) {
        return Forbidden, None;
      }
      if HasRead(m, caller) {
        assert messages[k := MarkRead(m, caller, clock)] == messages;
        return Ok, Some(m);
      }
      MarkOne(k, caller);
      return Ok, Some(messages[k]);
    }

    /** The update of markMessageAsRead: message `k` gets `u`'s entry. */
    method MarkOne(k: nat, u: UserId)
      requires Valid() && k < |messages|
      modifies this
      ensures Valid() && users == old(users) && chats == old(chats) && nextId == old(nextId)
      ensures clock == old(clock) + 1
      ensures messages == old(messages)[k := MarkRead(old(messages)[k], u, clock)]
    {
      var m := MarkRead(messages[k], u, clock + 1);
      messages, clock := messages[k := m], clock + 1;
      MarkOneKeeps(old(chats), old(messages), old(clock), old(nextId), k, u);
    }

    lemma MarkOneKeeps(cs0: seq<Chat>, ms0: seq<Message>, clock0: Time, id0: nat, k: nat, u: UserId)
      requires StoreOk(cs0, ms0, clock0, id0) && k < |ms0|
      requires chats == cs0 && nextId == id0 && clock == clock0 + 1
      requires messages == ms0[k := MarkRead(ms0[k], u, clock)]
      ensures Valid()
    {
      MarkReadKeeps(cs0, ms0, clock0, id0, k, u);
    }

    lemma MarkChatKeeps(cs0: seq<Chat>, ms0: seq<Message>, clock0: Time, id0: nat, c: ChatId, u: UserId)
      requires StoreOk(cs0, ms0, clock0, id0)
      requires chats == cs0 && nextId == id0 && clock == clock0 + 1
      requires messages == MarkAllRead(ms0, c, u, clock)
      ensures Valid()
    {
      MarkAllReadKeeps(cs0, ms0, messages, clock0, clock, id0, c, u);
    }

    /** The update of markChatAsRead once the caller is known to be a member. */
    method MarkChat(chatId: ChatId, caller: UserId) returns (count: nat)
      requires Valid()
      modifies this
      ensures Valid() && users == old(users) && chats == old(chats) && nextId == old(nextId)
      ensures clock == old(clock) + 1
      ensures messages == MarkAllRead(old(messages), chatId, caller, clock)
      ensures count == CountUnreadIn(old(messages), chatId, caller)
    {
      var ms;
      ms, count := MarkEachRead(messages, chatId, caller, clock + 1);
      messages, clock := ms, clock + 1;
      MarkChatKeeps(old(chats), old(messages), old(clock), old(nextId), chatId, caller);
    }

    /** markChatAsRead (message.js:156-189): the count is the number of the
        chat's messages the caller had not read. */
    method MarkChatAsRead(caller: UserId, chatId: ChatId) returns (status: Status, count: nat)
      requires Valid()
      modifies this
      ensures Valid() && users == old(users) && chats == old(chats) && nextId == old(nextId)
      ensures status != Ok ==> unchanged(this) && count == 0
      ensures status == NotFound <==> FindChat(chats, chatId).None?
      ensures status == Forbidden <==>
        FindChat(chats, chatId).Some? && !IsParticipant(chats[FindChat(chats, chatId).value], caller)
      ensures status == Ok || status == NotFound || status == Forbidden
      ensures status == Ok ==>
        && clock == old(clock) + 1
        && messages == MarkAllRead(old(messages), chatId, caller, clock)
        && count == CountUnreadIn(old(messages), chatId, caller)
    {
      var found := FindChat(chats, chatId);
      if found.None? {
        return NotFound, 0;
      }
      if !IsParticipant(chats[found.value], caller) {
        return Forbidden, 0;
      }
      count := MarkChat(chatId, caller);
      return Ok, count;
    }

    /** deleteMessage (message.js:200-228). */
    method DeleteMessage(caller: UserId, messageId: MessageId) returns (status: Status)
      requires Valid()
      modifies this
      ensures Valid() && users == old(users) && nextId == old(nextId)
      ensures status != Ok ==> unchanged(this)
      ensures status == NotFound <==> FindMessage(old(messages), messageId).None?
      // :210-215: only the sender
      ensures status == Forbidden <==>
        (FindMessage(old(messages), messageId).Some?
         && old(messages)[FindMessage(old(messages), messageId).value].sender != caller)
      ensures status == Ok || status == NotFound || status == Forbidden
      // :217-226: the message is gone; its chat is repointed to the newest
      // remaining message (or none) only when it pointed at the deleted one
      ensures status == Ok ==> var i := FindMessage(old(messages), messageId).value;
        var m := old(messages)[i]; var j := FindChat(old(chats), m.chat).value; var c := old(chats)[j];
        && messages == old(messages)[..i] + old(messages)[i + 1..]
        && (c.lastMessage == Some(messageId) ==>
              clock == old(clock) + 1
              && chats == old(chats)[j := Saved(c.(lastMessage := LatestIn(messages, m.chat)), clock)])
        && (c.lastMessage != Some(messageId) ==> chats == old(chats) && clock == old(clock))
    {
      var found := FindMessage(messages, messageId);
      if found.None? {
        return NotFound;
      }
      var i := found.value;
      var m := messages[i];
      if m.sender != caller {
        return Forbidden;
      }
      var j := FindChat(chats, m.chat).value;
      var c := chats[j];
      if c.lastMessage == Some(messageId) {
        RemoveLastMessage(i, j);
      } else {
        RemoveMessage(i, j);
      }
      return Ok;
    }

    /** The update of deleteMessage when chat `j` pointed elsewhere: only the
        message goes. */
    method RemoveMessage(i: nat, j: nat)
      requires Valid() && i < |messages| && j < |chats| && chats[j].id == messages[i].chat
      requires chats[j].lastMessage != Some(messages[i].id)
      modifies this
      ensures Valid() && users == old(users) && chats == old(chats) && clock == old(clock) && nextId == old(nextId)
      ensures messages == old(messages)[..i] + old(messages)[i + 1..]
    {
      messages := messages[..i] + messages[i + 1..];
      RemoveMessageKeeps(old(chats), old(messages), old(clock), old(nextId), i, j);
    }

    /** The update of deleteMessage when chat `j` pointed at message `i`: the
        message goes, then the chat is saved pointing at the newest one left. */
    method RemoveLastMessage(i: nat, j: nat)
      requires Valid() && i < |messages| && j < |chats| && chats[j].id == messages[i].chat
      modifies this
      ensures Valid() && users == old(users) && nextId == old(nextId)
      ensures messages == old(messages)[..i] + old(messages)[i + 1..]
      ensures clock == old(clock) + 1
      ensures chats == old(chats)[j := Saved(old(chats)[j].(lastMessage := LatestIn(messages, old(messages)[i].chat)), clock)]
    {
      var c := chats[j].(lastMessage := LatestIn(messages[..i] + messages[i + 1..], messages[i].chat), updatedAt := clock + 1);
      messages, chats, clock := messages[..i] + messages[i + 1..], chats[j := c], clock + 1;
      RepointKeeps(old(chats), old(messages), old(clock), old(nextId), i, j, c);
    }

    /** getUnreadCount (message.js:239-252): messages in the caller's chats that
        someone else sent and the caller has not read. */
    method GetUnreadCount(caller: UserId) returns (status: Status, count: nat)
      ensures status == Ok
      ensures count == UnreadCount(messages, MemberChatIds(chats, caller), caller)
      ensures count <= |messages|
      ensures count == 0 <==> forall i :: 0 <= i < |messages| ==> !CountsAsUnread(messages[i], MemberChatIds(chats, caller), caller)
    {
      NoneUnread(messages, MemberChatIds(chats, caller), caller);
      return Ok, UnreadCount(messages, MemberChatIds(chats, caller), caller);
    }
  }
}
