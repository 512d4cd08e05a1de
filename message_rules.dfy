/** The pure rules inside the message controller (src/controllers/message.js):
    read state, the history page, the unread counts, and the lookup that
    repoints a chat's last message. */
module MessageRules {
  import opened ChatModel
  import opened ChatRules

  function Min(a: nat, b: nat): nat
  {
    if a <= b then a else b
  }

  // ---------------------------------------------------------------- read state

  /** `message.readBy.some(r => r.user == u)` */
  predicate HasRead(m: Message, u: UserId)
  {
    exists r :: r in m.readBy && r.user == u
  }

  /** Each reader holds at most one entry. */
  predicate UniqueReaders(m: Message)
  {
    forall i, j :: 0 <= i < j < |m.readBy| ==> m.readBy[i].user != m.readBy[j].user
  }

  /** The message sendMessage creates (message.js:31-38): `messageType`
      defaults to "text" and the sender starts out as its only reader. */
  function NewMessage(id: MessageId, chat: ChatId, sender: UserId, content: string,
                      messageType: Option<string>, fileUrl: Option<string>, now: Time): (m: Message)
    ensures m.id == id && m.chat == chat && m.sender == sender && m.content == content
    ensures m.messageType == if messageType.Some? then messageType.value else "text"
    ensures forall u :: HasRead(m, u) <==> u == sender
    ensures UniqueReaders(m) && m.createdAt == now
  {
    var m := Message(id, chat, sender, content,
                     if messageType.Some? then messageType.value else "text",
                     fileUrl, [ReadReceipt(sender, None)], now);
    assert m.readBy[0] in m.readBy;
    m
  }

  /** markMessageAsRead on one message (message.js:132-140): the reader's entry
      is appended only when no entry of theirs is there. */
  function MarkRead(m: Message, u: UserId, now: Time): (r: Message)
    ensures HasRead(r, u)
    ensures forall v :: HasRead(r, v) <==> HasRead(m, v) || v == u
    ensures r.(readBy := m.readBy) == m
    ensures |m.readBy| <= |r.readBy| && r.readBy[..|m.readBy|] == m.readBy
    ensures HasRead(m, u) ==> r == m
    ensures !HasRead(m, u) ==> |r.readBy| == |m.readBy| + 1
    ensures UniqueReaders(m) ==> UniqueReaders(r)
  {
    if HasRead(m, u) then m
    else
      var e := ReadReceipt(u, Some(now));
      var r := m.(readBy := m.readBy + [e]);
      assert e in r.readBy;
      assert forall x :: x in r.readBy <==> x in m.readBy || x == e;
      r
  }

  /** Marking a message read a second time, at any later time, changes nothing. */
  lemma MarkReadIdempotent(m: Message, u: UserId, t1: Time, t2: Time)
    ensures MarkRead(MarkRead(m, u, t1), u, t2) == MarkRead(m, u, t1)
  {
  }

  // ------------------------------------------------------------ chat history

  /** Messages ordered by creation: strictly increasing `createdAt` and ids. */
  predicate Chronological(ms: seq<Message>)
  {
    forall i, j :: 0 <= i < j < |ms| ==> ms[i].createdAt < ms[j].createdAt && ms[i].id < ms[j].id
  }

  /** `Message.find({chat: c})`: the messages of chat `c`, in store order. */
  function ChatHistory(ms: seq<Message>, c: ChatId): (r: seq<Message>)
    ensures forall m :: m in r <==> m in ms && m.chat == c
    ensures |r| <= |ms|
    ensures Chronological(ms) ==> Chronological(r)
  {
    if ms == [] then []
    else
      var p := ms[..|ms| - 1];
      var x := ms[|ms| - 1];
      var r := ChatHistory(p, c);
      assert forall m :: m in ms <==> m in p || m == x;
      assert Chronological(ms) ==> Chronological(p);
      assert Chronological(ms) ==> forall m :: m in r ==> m.createdAt < x.createdAt && m.id < x.id;
      if x.chat == c then r + [x] else r
  }

  /** `deleteMany({chat: c})` (chat.js:308): the messages of the other chats, in
      store order. */
  function DropChat(ms: seq<Message>, c: ChatId): (r: seq<Message>)
    ensures forall m :: m in r <==> m in ms && m.chat != c
    ensures Chronological(ms) ==> Chronological(r)
  {
    if ms == [] then []
    else
      var p := ms[..|ms| - 1];
      var x := ms[|ms| - 1];
      var r := DropChat(p, c);
      assert forall m :: m in ms <==> m in p || m == x;
      assert Chronological(ms) ==> Chronological(p);
      assert Chronological(ms) ==> forall m :: m in r ==> m.createdAt < x.createdAt && m.id < x.id;
      if x.chat != c then r + [x] else r
  }

  /** Deleting chat `c`'s messages leaves the history of every other chat as
      it was, content and order, and leaves `c` none. */
  lemma {:induction false} DropChatKeepsOtherHistories(ms: seq<Message>, c: ChatId, d: ChatId)
    ensures ChatHistory(DropChat(ms, c), d) == if d == c then [] else ChatHistory(ms, d)
  {
    if ms != [] {
      var p := ms[..|ms| - 1];
      var x := ms[|ms| - 1];
      DropChatKeepsOtherHistories(p, c, d);
      var q := DropChat(p, c);
      if x.chat != c {
        assert DropChat(ms, c) == q + [x];
        assert (q + [x])[..|q + [x]| - 1] == q;
      }
    }
  }

  // -------------------------------------------------------------- pagination

  function Reverse(s: seq<Message>): (r: seq<Message>)
    ensures |r| == |s|
    ensures forall i :: 0 <= i < |s| ==> r[i] == s[|s| - 1 - i]
  {
    if s == [] then [] else Reverse(s[1..]) + [s[0]]
  }

  /** Mongo's `.skip(skip).limit(limit)`. */
  function Window(s: seq<Message>, skip: nat, limit: nat): seq<Message>
  {
    s[Min(skip, |s|)..Min(skip + limit, |s|)]
  }

  /** The newest-first history `skip`ped and `limit`ed, reversed back to
      chronological order. */
  function PageAt(history: seq<Message>, skip: nat, limit: nat): seq<Message>
  {
    Reverse(Window(Reverse(history), skip, limit))
  }

  /** The page and page size of a history query that gives none (message.js:67). */
  const DefaultPage: nat := 1
  const DefaultLimit: nat := 50

  /** One page of getChatMessages (message.js:83-94): the history sorted newest
      first, `skip`ped by `(page - 1) * limit` and `limit`ed, then reversed. */
  function Page(history: seq<Message>, page: nat, limit: nat): seq<Message>
    requires page >= 1 && limit >= 1
  {
    PageAt(history, (page - 1) * limit, limit)
  }

  /** `Math.ceil(total / limit)` (message.js:99): the least number of pages of
      `limit` entries that hold `total` entries. */
  function PageCount(total: nat, limit: nat): (pages: nat)
    requires limit >= 1
    ensures pages * limit >= total
    ensures pages > 0 ==> (pages - 1) * limit < total
  {
    var q := (total + limit - 1) / limit;
    var r := (total + limit - 1) % limit;
    assert total + limit - 1 == q * limit + r && 0 <= r < limit;
    assert (q - 1) * limit == q * limit - limit;
    q
  }

  /** The skip of a page lies at or past the end of the history exactly when
      the page number exceeds the page count. */
  lemma SkipPastEnd(total: nat, page: nat, limit: nat)
    requires page >= 1 && limit >= 1
    ensures (page - 1) * limit >= total <==> page > PageCount(total, limit)
  {
    var pc := PageCount(total, limit);
    if page > pc {
      MulMonotone(pc, page - 1, limit);
    } else {
      MulMonotone(page - 1, pc - 1, limit);
    }
  }

  lemma {:induction false} MulMonotone(a: nat, b: nat, l: nat)
    requires a <= b
    ensures a * l <= b * l
  {
    if a < b {
      MulMonotone(a, b - 1, l);
      assert (b - 1) * l + l == b * l;
    }
  }

  /** A window of the reversed history, reversed back, is the contiguous run
      of the history that ends `skip` entries before the newest one and holds
      up to `limit` entries. */
  lemma PageAtIsSlice(h: seq<Message>, skip: nat, limit: nat)
    ensures PageAt(h, skip, limit) == h[|h| - Min(skip + limit, |h|)..|h| - Min(skip, |h|)]
  {
    var n := |h|;
    var a, b := Min(skip, n), Min(skip + limit, n);
    var w := Window(Reverse(h), skip, limit);
    assert |w| == b - a;
    assert forall i :: 0 <= i < |w| ==> w[i] == h[n - 1 - a - i];
    var p := Reverse(w);
    assert forall j :: 0 <= j < |p| ==> p[j] == h[n - b + j];
  }

  /** What the page promises: at most `limit` messages, all of the history, in
      ascending creation order when the history is, and empty exactly when the
      page lies beyond the last one. */
  lemma PageProperties(h: seq<Message>, page: nat, limit: nat)
    requires page >= 1 && limit >= 1
    ensures |Page(h, page, limit)| <= limit
    ensures forall m :: m in Page(h, page, limit) ==> m in h
    ensures Chronological(h) ==> Chronological(Page(h, page, limit))
    ensures Page(h, page, limit) == [] <==> page > PageCount(|h|, limit)
  {
    var skip := (page - 1) * limit;
    var n := |h|;
    var lo, hi := n - Min(skip + limit, n), n - Min(skip, n);
    var p := Page(h, page, limit);
    assert p == PageAt(h, skip, limit);
    PageAtIsSlice(h, skip, limit);
    assert p == h[lo..hi];
    assert |p| == hi - lo <= limit;
    SliceOfHistory(h, lo, hi);
    assert p == [] <==> skip >= n;
    SkipPastEnd(n, page, limit);
  }

  /** A contiguous run of a history holds only its messages, in its order. */
  lemma SliceOfHistory(h: seq<Message>, lo: nat, hi: nat)
    requires lo <= hi <= |h|
    ensures forall m :: m in h[lo..hi] ==> m in h
    ensures Chronological(h) ==> Chronological(h[lo..hi])
  {
    assert forall i :: 0 <= i < hi - lo ==> h[lo..hi][i] == h[lo + i];
  }

  /** Pages `k`, `k - 1`, ..., `1`, one after the other: the oldest of them first. */
  function PagesThrough(h: seq<Message>, k: nat, limit: nat): seq<Message>
    requires limit >= 1
  {
    if k == 0 then [] else Page(h, k, limit) + PagesThrough(h, k - 1, limit)
  }

  /** A page followed by everything newer than it is the history from the
      page's oldest entry on. */
  lemma PageThenNewer(h: seq<Message>, skip: nat, limit: nat)
    ensures PageAt(h, skip, limit) + h[|h| - Min(skip, |h|)..] == h[|h| - Min(skip + limit, |h|)..]
  {
    var n := |h|;
    var lo, mid := n - Min(skip + limit, n), n - Min(skip, n);
    PageAtIsSlice(h, skip, limit);
    assert h[lo..mid] + h[mid..] == h[lo..];
  }

  lemma {:induction false} PagesThroughIsSuffix(h: seq<Message>, k: nat, limit: nat)
    requires limit >= 1
    ensures PagesThrough(h, k, limit) == h[|h| - Min(k * limit, |h|)..]
  {
    if k > 0 {
      PagesThroughIsSuffix(h, k - 1, limit);
      PageThenNewer(h, (k - 1) * limit, limit);
      assert (k - 1) * limit + limit == k * limit;
    }
  }

  /** Reading every page from the last one back to page 1 gives the whole
      history, in order, with nothing missing or repeated. Page 1 holds the
      newest messages, so it comes last. */
  lemma PagesReassemble(h: seq<Message>, limit: nat)
    requires limit >= 1
    ensures PagesThrough(h, PageCount(|h|, limit), limit) == h
  {
    PagesThroughIsSuffix(h, PageCount(|h|, limit), limit);
  }

  // ----------------------------------------------------------------- counting

  /** The filter of markChatAsRead (message.js:175-178). */
  predicate UnreadIn(m: Message, c: ChatId, u: UserId)
  {
    m.chat == c && !HasRead(m, u)
  }

  /** The number of messages of chat `c` that `u` has not read. */
  function CountUnreadIn(ms: seq<Message>, c: ChatId, u: UserId): (n: nat)
    ensures n <= |ms|
  {
    if ms == [] then 0
    else CountUnreadIn(ms[..|ms| - 1], c, u) + if UnreadIn(ms[|ms| - 1], c, u) then 1 else 0
  }

  /** The count is zero exactly when no message of the chat is unread. */
  lemma {:induction false} NoneUnreadIn(ms: seq<Message>, c: ChatId, u: UserId)
    ensures CountUnreadIn(ms, c, u) == 0 <==> forall i :: 0 <= i < |ms| ==> !UnreadIn(ms[i], c, u)
  {
    if ms != [] {
      var p := ms[..|ms| - 1];
      NoneUnreadIn(p, c, u);
      assert forall i :: 0 <= i < |p| ==> p[i] == ms[i];
    }
  }

  /** markChatAsRead over the whole store: every message of chat `c` is marked
      read by `u`, the others are left alone. */
  function MarkAllRead(ms: seq<Message>, c: ChatId, u: UserId, now: Time): (r: seq<Message>)
    ensures |r| == |ms|
    ensures forall k :: 0 <= k < |ms| ==> r[k] == if ms[k].chat == c then MarkRead(ms[k], u, now) else ms[k]
  {
    if ms == [] then []
    else
      var x := ms[|ms| - 1];
      MarkAllRead(ms[..|ms| - 1], c, u, now) + [if x.chat == c then MarkRead(x, u, now) else x]
  }

  /** After markChatAsRead nothing in the chat is unread by the reader, and
      the messages of other chats are those of before. */
  lemma MarkAllReadEffect(ms: seq<Message>, c: ChatId, u: UserId, now: Time)
    ensures CountUnreadIn(MarkAllRead(ms, c, u, now), c, u) == 0
    ensures forall d :: d != c ==> ChatHistory(MarkAllRead(ms, c, u, now), d) == ChatHistory(ms, d)
  {
    var r := MarkAllRead(ms, c, u, now);
    NoneUnreadIn(r, c, u);
    forall d | d != c ensures ChatHistory(r, d) == ChatHistory(ms, d) {
      OtherHistoriesKept(ms, c, d, u, now);
    }
  }

  lemma {:induction false} OtherHistoriesKept(ms: seq<Message>, c: ChatId, d: ChatId, u: UserId, now: Time)
    requires d != c
    ensures ChatHistory(MarkAllRead(ms, c, u, now), d) == ChatHistory(ms, d)
  {
    if ms != [] {
      var r := MarkAllRead(ms, c, u, now);
      OtherHistoriesKept(ms[..|ms| - 1], c, d, u, now);
      assert r[..|r| - 1] == MarkAllRead(ms[..|ms| - 1], c, u, now);
    }
  }

  /** The chats whose ids getUnreadCount collects (message.js:242-243). */
  function MemberChatIds(cs: seq<Chat>, u: UserId): set<ChatId>
  {
    set c | c in cs && IsParticipant(c, u) :: c.id
  }

  /** The filter of getUnreadCount (message.js:246-250). */
  predicate CountsAsUnread(m: Message, ids: set<ChatId>, u: UserId)
  {
    m.chat in ids && m.sender != u && !HasRead(m, u)
  }

  /** `countDocuments` over that filter. */
  function UnreadCount(ms: seq<Message>, ids: set<ChatId>, u: UserId): (n: nat)
    ensures n <= |ms|
  {
    if ms == [] then 0
    else UnreadCount(ms[..|ms| - 1], ids, u) + if CountsAsUnread(ms[|ms| - 1], ids, u) then 1 else 0
  }

  /** The total is zero exactly when nothing counts as unread. */
  lemma {:induction false} NoneUnread(ms: seq<Message>, ids: set<ChatId>, u: UserId)
    ensures UnreadCount(ms, ids, u) == 0 <==> forall i :: 0 <= i < |ms| ==> !CountsAsUnread(ms[i], ids, u)
  {
    if ms != [] {
      var p := ms[..|ms| - 1];
      NoneUnread(p, ids, u);
      assert forall i :: 0 <= i < |p| ==> p[i] == ms[i];
    }
  }

  /** Since a sender has always read their own message, marking a chat read
      takes off the user's unread total exactly the count markChatAsRead
      reports. */
  lemma {:induction false} UnreadAfterMarkAll(ms: seq<Message>, ids: set<ChatId>, c: ChatId, u: UserId, now: Time)
    requires c in ids
    requires forall i :: 0 <= i < |ms| ==> HasRead(ms[i], ms[i].sender)
    ensures UnreadCount(MarkAllRead(ms, c, u, now), ids, u) + CountUnreadIn(ms, c, u) == UnreadCount(ms, ids, u)
  {
    if ms != [] {
      var n := |ms|;
      var p, x := ms[..n - 1], ms[n - 1];
      var r := MarkAllRead(ms, c, u, now);
      assert r[..n - 1] == MarkAllRead(p, c, u, now);
      UnreadAfterMarkAll(p, ids, c, u, now);
      assert HasRead(x, x.sender);
      if x.chat == c {
        assert !CountsAsUnread(r[n - 1], ids, u);
      }
    }
  }

  // ----------------------------------------------------- the last-message pointer

  /** The position of chat `c`'s last message in store order. */
  function LatestIndex(ms: seq<Message>, c: ChatId): (r: Option<nat>)
    ensures r.Some? ==> r.value < |ms| && ms[r.value].chat == c
    ensures r.Some? ==> forall j :: r.value < j < |ms| ==> ms[j].chat != c
    ensures r.None? ==> forall j :: 0 <= j < |ms| ==> ms[j].chat != c
  {
    if ms == [] then None
    else if ms[|ms| - 1].chat == c then Some(|ms| - 1)
    else LatestIndex(ms[..|ms| - 1], c)
  }

  /** `Message.findOne({chat: c}).sort({createdAt: -1})`, as an id
      (message.js:222-224). */
  function LatestIn(ms: seq<Message>, c: ChatId): Option<MessageId>
  {
    var k := LatestIndex(ms, c);
    if k.Some? then Some(ms[k.value].id) else None
  }

  /** In a chronological store, the message LatestIn picks is the newest of its
      chat, and there is none only when the chat has no messages. */
  lemma LatestIsNewest(ms: seq<Message>, c: ChatId)
    requires Chronological(ms)
    ensures LatestIn(ms, c).None? <==> forall m :: m in ms ==> m.chat != c
    ensures var k := LatestIndex(ms, c);
      k.Some? ==> (LatestIn(ms, c) == Some(ms[k.value].id)
        && forall j :: 0 <= j < |ms| && ms[j].chat == c ==> ms[j].createdAt <= ms[k.value].createdAt)
  {
    var k := LatestIndex(ms, c);
    if k.None? {
      forall m | m in ms ensures m.chat != c {
        var j :| 0 <= j < |ms| && ms[j] == m;
      }
    }
  }

  /** A new message becomes its chat's last one and leaves the others alone. */
  lemma LatestAfterAppend(ms: seq<Message>, m: Message, c: ChatId)
    ensures LatestIn(ms + [m], c) == if m.chat == c then Some(m.id) else LatestIn(ms, c)
  {
    assert (ms + [m])[..|ms + [m]| - 1] == ms;
  }

  /** Deleting a message that is not chat `c`'s last one leaves `c`'s last one
      where it was. */
  lemma {:induction false} LatestAfterRemove(ms: seq<Message>, k: nat, c: ChatId)
    requires k < |ms| && LatestIndex(ms, c) != Some(k)
    ensures LatestIn(ms[..k] + ms[k + 1..], c) == LatestIn(ms, c)
  {
    var n := |ms|;
    var s := ms[..k] + ms[k + 1..];
    if k == n - 1 {
      assert s == ms[..n - 1];
    } else {
      var p := ms[..n - 1];
      assert s[..|s| - 1] == p[..k] + p[k + 1..];
      assert s[|s| - 1] == ms[n - 1];
      if ms[n - 1].chat != c {
        LatestAfterRemove(p, k, c);
      }
    }
  }

  /** Deleting chat `c`'s messages leaves every other chat's last message. */
  lemma {:induction false} LatestAfterDropChat(ms: seq<Message>, c: ChatId, d: ChatId)
    requires d != c
    ensures LatestIn(DropChat(ms, c), d) == LatestIn(ms, d)
  {
    if ms != [] {
      var p := ms[..|ms| - 1];
      var x := ms[|ms| - 1];
      var q := DropChat(p, c);
      LatestAfterDropChat(p, c, d);
      assert LatestIndex(ms, d) == if x.chat == d then Some(|ms| - 1) else LatestIndex(p, d);
      if x.chat != c {
        assert DropChat(ms, c) == q + [x];
        LatestAfterAppend(q, x, d);
      } else {
        assert DropChat(ms, c) == q;
      }
    }
  }

  /** Read marks touch neither ids nor chats, so no last message moves. */
  lemma {:induction false} LatestAfterReads(a: seq<Message>, b: seq<Message>, c: ChatId)
    requires |a| == |b|
    requires forall k :: 0 <= k < |a| ==> a[k].id == b[k].id && a[k].chat == b[k].chat
    ensures LatestIn(a, c) == LatestIn(b, c)
  {
    if a != [] {
      LatestAfterReads(a[..|a| - 1], b[..|b| - 1], c);
    }
  }

  /** `Message.findById(id)`: the position of the message with that id, if any. */
  function FindMessage(ms: seq<Message>, id: MessageId): (r: Option<nat>)
    ensures r.Some? ==> r.value < |ms| && ms[r.value].id == id
    ensures r.None? ==> forall k :: 0 <= k < |ms| ==> ms[k].id != id
  {
    if ms == [] then None
    else if ms[0].id == id then Some(0)
    else
      var r := FindMessage(ms[1..], id);
      if r.None? then None else Some(r.value + 1)
  }
}
