/** The invariant the chat controllers keep over the stored chats and
    messages, and one lemma per kind of change showing that it survives. */
module StoreInvariant {
  import opened ChatModel
  import opened ChatRules
  import opened MessageRules

  // ------------------------------------------------------ the store's invariant

  /** A chat as the controllers leave it: participants without repetition, a
      one-on-one chat of two distinct users, an admin for every group. */
  predicate ChatShape(c: Chat)
  {
    && NoDuplicates(c.participants) && DirectShape(c)
    && (c.isGroupChat ==> c.groupAdmin.Some?)
    && c.createdAt <= c.updatedAt
  }

  /** Chats in creation order, each well formed, and no pair of users with two
      one-on-one chats. */
  predicate ChatsOk(cs: seq<Chat>)
  {
    && (forall i, j :: 0 <= i < j < |cs| ==> cs[i].id < cs[j].id)
    && (forall i :: 0 <= i < |cs| ==> ChatShape(cs[i]))
    && PairsUnique(cs)
  }

  /** A message as the controllers leave it: its sender has read it, and
      nobody holds two read entries. */
  predicate MessageShape(m: Message)
  {
    HasRead(m, m.sender) && UniqueReaders(m)
  }

  predicate MessagesOk(ms: seq<Message>)
  {
    Chronological(ms) && forall i :: 0 <= i < |ms| ==> MessageShape(ms[i])
  }

  /** Every message belongs to a stored chat, and every chat's `lastMessage`
      is the newest of its messages, or absent when it has none. */
  predicate Linked(cs: seq<Chat>, ms: seq<Message>)
  {
    && (forall i {:trigger FindChat(cs, ms[i].chat)} :: 0 <= i < |ms| ==> FindChat(cs, ms[i].chat).Some?)
    && (forall i {:trigger LatestIn(ms, cs[i].id)} :: 0 <= i < |cs| ==> cs[i].lastMessage == LatestIn(ms, cs[i].id))
  }

  /** Every stored id was handed out, and every stored time read, before now. */
  predicate Issued(cs: seq<Chat>, ms: seq<Message>, clock: Time, nextId: nat)
  {
    && (forall i :: 0 <= i < |cs| ==> cs[i].id < nextId && cs[i].updatedAt <= clock)
    && (forall i :: 0 <= i < |ms| ==> ms[i].id < nextId && ms[i].createdAt <= clock)
  }

  predicate StoreOk(cs: seq<Chat>, ms: seq<Message>, clock: Time, nextId: nat)
  {
    ChatsOk(cs) && MessagesOk(ms) && Linked(cs, ms) && Issued(cs, ms, clock, nextId)
  }

  /** A message that differs from another only by read entries added to it. */
  ghost predicate ReadsAdded(a: Message, b: Message)
  {
    && b.(readBy := a.readBy) == a
    && (forall v :: HasRead(a, v) ==> HasRead(b, v))
    && (UniqueReaders(a) ==> UniqueReaders(b))
  }

  // ------------------------------------------------ how operations keep it

  lemma {:induction false} FindChatSameIds(a: seq<Chat>, b: seq<Chat>, id: ChatId)
    requires |a| == |b| && forall k :: 0 <= k < |a| ==> a[k].id == b[k].id
    ensures FindChat(a, id) == FindChat(b, id)
  {
    if a != [] {
      FindChatSameIds(a[1..], b[1..], id);
    }
  }

  lemma IssuedLater(cs: seq<Chat>, ms: seq<Message>, clock: Time, nextId: nat, clock': Time, nextId': nat)
    requires Issued(cs, ms, clock, nextId) && clock <= clock' && nextId <= nextId'
    ensures Issued(cs, ms, clock', nextId')
  {
  }

  /** Appending a user not yet present keeps a member list duplicate-free. */
  lemma AppendNewMember(ps: seq<UserId>, u: UserId)
    requires NoDuplicates(ps) && u !in ps
    ensures NoDuplicates(ps + [u])
  {
    var r := ps + [u];
    forall i, j | 0 <= i < j < |r| ensures r[i] != r[j] {
      if j == |ps| {
        assert r[i] == ps[i];
      }
    }
  }

  /** Putting `c` in place of `cs[k]` leaves no pair with two one-on-one chats
      when `c` is the same kind of chat, between the same two users if direct. */
  lemma PairsReplace(cs: seq<Chat>, k: nat, c: Chat)
    requires PairsUnique(cs) && k < |cs|
    requires c.isGroupChat == cs[k].isGroupChat && (!c.isGroupChat ==> c.participants == cs[k].participants)
    ensures PairsUnique(cs[k := c])
  {
    var s := cs[k := c];
    forall i, j | 0 <= i < |s| && 0 <= j < |s| && i != j ensures !SamePair(s[i], s[j]) {
      assert SamePair(s[i], s[j]) == SamePair(cs[i], cs[j]);
    }
  }

  lemma ChatsAppend(cs: seq<Chat>, c: Chat)
    requires ChatsOk(cs) && ChatShape(c) && PairsUnique(cs + [c])
    requires forall i :: 0 <= i < |cs| ==> cs[i].id < c.id
    ensures ChatsOk(cs + [c])
  {
    assert forall i :: 0 <= i < |cs| ==> (cs + [c])[i] == cs[i];
  }

  lemma ChatsReplace(cs: seq<Chat>, k: nat, c: Chat)
    requires ChatsOk(cs) && k < |cs| && ChatShape(c) && c.id == cs[k].id
    requires c.isGroupChat == cs[k].isGroupChat && (!c.isGroupChat ==> c.participants == cs[k].participants)
    ensures ChatsOk(cs[k := c])
  {
    PairsReplace(cs, k, c);
  }

  lemma ChatsRemove(cs: seq<Chat>, k: nat)
    requires ChatsOk(cs) && k < |cs|
    ensures ChatsOk(cs[..k] + cs[k + 1..])
  {
    var s := cs[..k] + cs[k + 1..];
    assert forall a :: 0 <= a < |s| ==> s[a] == cs[if a < k then a else a + 1];
    forall a, b | 0 <= a < |s| && 0 <= b < |s| && a != b ensures !SamePair(s[a], s[b]) {
      assert SamePair(s[a], s[b]) == SamePair(cs[if a < k then a else a + 1], cs[if b < k then b else b + 1]);
    }
  }

  lemma MessagesAppend(ms: seq<Message>, m: Message)
    requires MessagesOk(ms) && MessageShape(m)
    requires forall i :: 0 <= i < |ms| ==> ms[i].createdAt < m.createdAt && ms[i].id < m.id
    ensures MessagesOk(ms + [m])
  {
    assert forall i :: 0 <= i < |ms| ==> (ms + [m])[i] == ms[i];
  }

  lemma MessagesReads(ms: seq<Message>, ms': seq<Message>)
    requires MessagesOk(ms)
    requires |ms'| == |ms| && forall i :: 0 <= i < |ms| ==> ReadsAdded(ms[i], ms'[i])
    ensures MessagesOk(ms')
  {
    assert forall i :: 0 <= i < |ms| ==>
      ms'[i].id == ms[i].id && ms'[i].createdAt == ms[i].createdAt && ms'[i].sender == ms[i].sender;
  }

  lemma MessagesRemove(ms: seq<Message>, i: nat)
    requires MessagesOk(ms) && i < |ms|
    ensures MessagesOk(ms[..i] + ms[i + 1..])
  {
    var s := ms[..i] + ms[i + 1..];
    assert forall a :: 0 <= a < |s| ==> s[a] == ms[if a < i then a else a + 1];
  }

  lemma MessagesDrop(ms: seq<Message>, c: ChatId)
    requires MessagesOk(ms)
    ensures MessagesOk(DropChat(ms, c))
  {
    var s := DropChat(ms, c);
    forall a | 0 <= a < |s| ensures MessageShape(s[a]) {
      assert s[a] in ms;
    }
  }

  /** A new chat with an id no message refers to and no last message. */
  lemma LinkedAppendChat(cs: seq<Chat>, ms: seq<Message>, c: Chat)
    requires Linked(cs, ms) && c.lastMessage == None
    requires forall i :: 0 <= i < |cs| ==> cs[i].id < c.id
    ensures Linked(cs + [c], ms)
  {
    var s := cs + [c];
    forall i | 0 <= i < |ms| ensures FindChat(s, ms[i].chat).Some? && ms[i].chat != c.id {
      var k := FindChat(cs, ms[i].chat).value;
      assert s[k].id == ms[i].chat;
    }
    assert LatestIn(ms, c.id) == None;
    assert forall i :: 0 <= i < |cs| ==> s[i] == cs[i];
  }

  lemma LinkedReplace(cs: seq<Chat>, ms: seq<Message>, k: nat, c: Chat)
    requires Linked(cs, ms) && k < |cs| && c.id == cs[k].id && c.lastMessage == LatestIn(ms, c.id)
    ensures Linked(cs[k := c], ms)
  {
    var s := cs[k := c];
    forall i | 0 <= i < |ms| ensures FindChat(s, ms[i].chat).Some? {
      FindChatSameIds(cs, s, ms[i].chat);
    }
  }

  /** A new message of chat `cs[k]`, and that chat pointing at it. */
  lemma LinkedSend(cs: seq<Chat>, ms: seq<Message>, k: nat, m: Message, c: Chat)
    requires Linked(cs, ms) && k < |cs| && m.chat == cs[k].id
    requires forall i, j :: 0 <= i < j < |cs| ==> cs[i].id < cs[j].id
    requires c.id == cs[k].id && c.lastMessage == Some(m.id)
    ensures Linked(cs[k := c], ms + [m])
  {
    var s := cs[k := c];
    var ms' := ms + [m];
    forall i | 0 <= i < |ms'| ensures FindChat(s, ms'[i].chat).Some? {
      FindChatSameIds(cs, s, ms'[i].chat);
      if i < |ms| {
        assert ms'[i] == ms[i];
      }
    }
    forall i | 0 <= i < |s| ensures s[i].lastMessage == LatestIn(ms', s[i].id) {
      LatestAfterAppend(ms, m, s[i].id);
      if i != k {
        assert cs[i].id != cs[k].id;
      }
    }
  }

  lemma LinkedReads(cs: seq<Chat>, ms: seq<Message>, ms': seq<Message>)
    requires Linked(cs, ms)
    requires |ms'| == |ms| && forall i :: 0 <= i < |ms| ==> ms'[i].id == ms[i].id && ms'[i].chat == ms[i].chat
    ensures Linked(cs, ms')
  {
    forall i | 0 <= i < |cs| ensures LatestIn(ms', cs[i].id) == LatestIn(ms, cs[i].id) {
      LatestAfterReads(ms', ms, cs[i].id);
    }
  }

  /** Removing message `i` leaves every remaining message in a stored chat,
      and every chat's pointer right unless it pointed at the removed message. */
  lemma LinkedRemoveMessage(cs: seq<Chat>, ms: seq<Message>, i: nat)
    requires Linked(cs, ms) && i < |ms|
    ensures var ms' := ms[..i] + ms[i + 1..];
      && (forall a :: 0 <= a < |ms'| ==> FindChat(cs, ms'[a].chat).Some?)
      && (forall a :: 0 <= a < |cs| && cs[a].lastMessage != Some(ms[i].id) ==>
            cs[a].lastMessage == LatestIn(ms', cs[a].id))
  {
    var ms' := ms[..i] + ms[i + 1..];
    forall a | 0 <= a < |ms'| ensures FindChat(cs, ms'[a].chat).Some? {
      var b := if a < i then a else a + 1;
      assert ms'[a] == ms[b];
      assert FindChat(cs, ms[b].chat).Some?;
    }
    forall a | 0 <= a < |cs| && cs[a].lastMessage != Some(ms[i].id)
      ensures cs[a].lastMessage == LatestIn(ms', cs[a].id)
    {
      assert cs[a].lastMessage == LatestIn(ms, cs[a].id);
      LatestAfterRemove(ms, i, cs[a].id);
    }
  }

  lemma LinkedDropChat(cs: seq<Chat>, ms: seq<Message>, k: nat)
    requires Linked(cs, ms) && k < |cs|
    requires forall a, b :: 0 <= a < b < |cs| ==> cs[a].id < cs[b].id
    ensures Linked(cs[..k] + cs[k + 1..], DropChat(ms, cs[k].id))
  {
    var s := cs[..k] + cs[k + 1..];
    var ms' := DropChat(ms, cs[k].id);
    assert forall a :: 0 <= a < |s| ==> s[a] == cs[if a < k then a else a + 1];
    forall a | 0 <= a < |ms'| ensures FindChat(s, ms'[a].chat).Some? {
      assert ms'[a] in ms;
      var b :| 0 <= b < |ms| && ms[b] == ms'[a];
      var c := FindChat(cs, ms[b].chat).value;
      assert c != k;
      assert s[if c < k then c else c - 1].id == ms'[a].chat;
    }
    forall a | 0 <= a < |s| ensures s[a].lastMessage == LatestIn(ms', s[a].id) {
      LatestAfterDropChat(ms, cs[k].id, s[a].id);
    }
  }

  /** Chat.create: a new chat with a fresh id and no messages. */
  lemma CreateKeeps(cs: seq<Chat>, ms: seq<Message>, clock: Time, nextId: nat, c: Chat)
    requires StoreOk(cs, ms, clock, nextId)
    requires c.id == nextId && ChatShape(c) && c.lastMessage == None && c.updatedAt <= clock + 1
    requires PairsUnique(cs + [c])
    ensures StoreOk(cs + [c], ms, clock + 1, nextId + 1)
  {
    ChatsAppend(cs, c);
    LinkedAppendChat(cs, ms, c);
    assert forall i :: 0 <= i < |cs| ==> (cs + [c])[i] == cs[i];
  }

  /** `chat.save()` of a group's changed member list. */
  lemma ReplaceKeeps(cs: seq<Chat>, ms: seq<Message>, clock: Time, nextId: nat, k: nat, c: Chat)
    requires StoreOk(cs, ms, clock, nextId) && k < |cs|
    requires ChatShape(c) && c.id == cs[k].id && c.lastMessage == cs[k].lastMessage
    requires c.isGroupChat && cs[k].isGroupChat && c.updatedAt <= clock + 1
    ensures StoreOk(cs[k := c], ms, clock + 1, nextId)
  {
    ChatsReplace(cs, k, c);
    LinkedReplace(cs, ms, k, c);
  }

  /** sendMessage: a new message, newer than all, and its chat repointed to it. */
  lemma SendKeeps(cs: seq<Chat>, ms: seq<Message>, clock: Time, nextId: nat, k: nat, m: Message, c: Chat)
    requires StoreOk(cs, ms, clock, nextId) && k < |cs|
    requires m.id == nextId && m.createdAt == clock + 1 && m.chat == cs[k].id && MessageShape(m)
    requires c == cs[k].(lastMessage := Some(m.id), updatedAt := clock + 2)
    ensures StoreOk(cs[k := c], ms + [m], clock + 2, nextId + 1)
  {
    MessagesAppend(ms, m);
    ChatsReplace(cs, k, c);
    LinkedSend(cs, ms, k, m, c);
    assert forall i :: 0 <= i < |ms| ==> (ms + [m])[i] == ms[i];
  }

  /** Read marks: messages change only by added read entries. */
  lemma ReadsKeep(cs: seq<Chat>, ms: seq<Message>, ms': seq<Message>, clock: Time, nextId: nat)
    requires StoreOk(cs, ms, clock, nextId)
    requires |ms'| == |ms| && forall i :: 0 <= i < |ms| ==> ReadsAdded(ms[i], ms'[i])
    ensures StoreOk(cs, ms', clock + 1, nextId)
  {
    assert forall i :: 0 <= i < |ms| ==>
      ms'[i].id == ms[i].id && ms'[i].chat == ms[i].chat && ms'[i].createdAt == ms[i].createdAt;
    MessagesReads(ms, ms');
    LinkedReads(cs, ms, ms');
  }

  /** markMessageAsRead keeps the invariant. */
  lemma MarkReadKeeps(cs: seq<Chat>, ms: seq<Message>, clock: Time, nextId: nat, k: nat, u: UserId)
    requires StoreOk(cs, ms, clock, nextId) && k < |ms|
    ensures StoreOk(cs, ms[k := MarkRead(ms[k], u, clock + 1)], clock + 1, nextId)
  {
    var ms' := ms[k := MarkRead(ms[k], u, clock + 1)];
    forall i | 0 <= i < |ms| ensures ReadsAdded(ms[i], ms'[i]) {
    }
    ReadsKeep(cs, ms, ms', clock, nextId);
  }

  /** markChatAsRead keeps the invariant. */
  lemma MarkAllReadKeeps(cs: seq<Chat>, ms: seq<Message>, ms': seq<Message>, clock: Time, clock': Time, nextId: nat, c: ChatId, u: UserId)
    requires StoreOk(cs, ms, clock, nextId)
    requires clock' == clock + 1 && ms' == MarkAllRead(ms, c, u, clock')
    ensures StoreOk(cs, ms', clock', nextId)
  {
    forall i | 0 <= i < |ms| ensures ReadsAdded(ms[i], ms'[i]) {
    }
    ReadsKeep(cs, ms, ms', clock, nextId);
  }

  lemma IssuedRemoveMessage(cs: seq<Chat>, ms: seq<Message>, clock: Time, nextId: nat, i: nat)
    requires Issued(cs, ms, clock, nextId) && i < |ms|
    ensures Issued(cs, ms[..i] + ms[i + 1..], clock, nextId)
  {
    var ms' := ms[..i] + ms[i + 1..];
    assert forall a :: 0 <= a < |ms'| ==> ms'[a] == ms[if a < i then a else a + 1];
  }

  /** Only the chat of a message can point at it: message ids are distinct. */
  lemma OnlyItsChatPoints(cs: seq<Chat>, ms: seq<Message>, i: nat, j: nat)
    requires Linked(cs, ms) && MessagesOk(ms) && i < |ms| && j < |cs| && cs[j].id == ms[i].chat
    requires forall a, b :: 0 <= a < b < |cs| ==> cs[a].id < cs[b].id
    ensures forall a :: 0 <= a < |cs| && a != j ==> cs[a].lastMessage != Some(ms[i].id)
  {
    forall a | 0 <= a < |cs| && a != j ensures cs[a].lastMessage != Some(ms[i].id) {
      assert cs[a].lastMessage == LatestIn(ms, cs[a].id);
      var li := LatestIndex(ms, cs[a].id);
      if li.Some? && li.value != i {
        assert ms[li.value].id != ms[i].id;
      }
    }
  }

  /** deleteMessage, repointing the chat `cs[j]` of the removed message. */
  lemma LinkedRepoint(cs: seq<Chat>, ms: seq<Message>, i: nat, j: nat, c: Chat)
    requires Linked(cs, ms) && i < |ms| && j < |cs| && cs[j].id == ms[i].chat
    requires forall a :: 0 <= a < |cs| && a != j ==> cs[a].lastMessage != Some(ms[i].id)
    requires c.id == cs[j].id && c.lastMessage == LatestIn(ms[..i] + ms[i + 1..], ms[i].chat)
    ensures Linked(cs[j := c], ms[..i] + ms[i + 1..])
  {
    var ms' := ms[..i] + ms[i + 1..];
    var s := cs[j := c];
    LinkedRemoveMessage(cs, ms, i);
    forall a | 0 <= a < |ms'| ensures FindChat(s, ms'[a].chat).Some? {
      FindChatSameIds(cs, s, ms'[a].chat);
    }
  }

  /** deleteMessage with the chat's pointer elsewhere: the pointer stays right. */
  lemma RemoveMessageKeeps(cs: seq<Chat>, ms: seq<Message>, clock: Time, nextId: nat, i: nat, j: nat)
    requires StoreOk(cs, ms, clock, nextId) && i < |ms| && j < |cs| && cs[j].id == ms[i].chat
    requires cs[j].lastMessage != Some(ms[i].id)
    ensures StoreOk(cs, ms[..i] + ms[i + 1..], clock, nextId)
  {
    MessagesRemove(ms, i);
    OnlyItsChatPoints(cs, ms, i, j);
    LinkedRemoveMessage(cs, ms, i);
    IssuedRemoveMessage(cs, ms, clock, nextId, i);
  }

  /** deleteMessage with the chat pointing at it: the pointer moves to the
      newest remaining message of the chat, and the chat is saved. */
  lemma RepointKeeps(cs: seq<Chat>, ms: seq<Message>, clock: Time, nextId: nat, i: nat, j: nat, c: Chat)
    requires StoreOk(cs, ms, clock, nextId) && i < |ms| && j < |cs| && cs[j].id == ms[i].chat
    requires c == cs[j].(lastMessage := LatestIn(ms[..i] + ms[i + 1..], ms[i].chat), updatedAt := clock + 1)
    ensures StoreOk(cs[j := c], ms[..i] + ms[i + 1..], clock + 1, nextId)
  {
    MessagesRemove(ms, i);
    ChatsReplace(cs, j, c);
    OnlyItsChatPoints(cs, ms, i, j);
    LinkedRepoint(cs, ms, i, j, c);
    IssuedRemoveMessage(cs, ms, clock, nextId, i);
    IssuedLater(cs, ms[..i] + ms[i + 1..], clock, nextId, clock + 1, nextId);
  }

  /** deleteChat: the chat and all its messages gone. */
  lemma RemoveChatKeeps(cs: seq<Chat>, ms: seq<Message>, clock: Time, nextId: nat, k: nat)
    requires StoreOk(cs, ms, clock, nextId) && k < |cs|
    ensures StoreOk(cs[..k] + cs[k + 1..], DropChat(ms, cs[k].id), clock, nextId)
  {
    var s := cs[..k] + cs[k + 1..];
    var ms' := DropChat(ms, cs[k].id);
    ChatsRemove(cs, k);
    MessagesDrop(ms, cs[k].id);
    LinkedDropChat(cs, ms, k);
    assert forall a :: 0 <= a < |s| ==> s[a] == cs[if a < k then a else a + 1];
    forall a | 0 <= a < |ms'| ensures ms'[a].id < nextId && ms'[a].createdAt <= clock {
      assert ms'[a] in ms;
    }
  }

  /** Once chat `k` is cut out, no chat with its id is left. */
  lemma RemovedChatGone(cs: seq<Chat>, k: nat)
    requires ChatsOk(cs) && k < |cs|
    ensures FindChat(cs[..k] + cs[k + 1..], cs[k].id).None?
  {
    var s := cs[..k] + cs[k + 1..];
    assert forall a :: 0 <= a < |s| ==> s[a] == cs[if a < k then a else a + 1];
  }
}
