/** The records the chat backend stores: the Chat document of src/model/chat.js,
    and the Message and read-receipt records that the message controller builds.
    Ids are opaque naturals and time is a reading of a monotone natural clock. */
module ChatModel {

  type UserId = nat
  type ChatId = nat
  type MessageId = nat
  /** A reading of the store's clock; it only moves forward. */
  type Time = nat

  datatype Option<+T> = None | Some(value: T)

  /** A conversation. `participants` is a plain list: the schema enforces no
      uniqueness, so keeping it duplicate-free is the controllers' job.
      `groupName`, `groupAdmin` and `lastMessage` are absent unless set. */
  datatype Chat = Chat(
    id: ChatId,
    participants: seq<UserId>,
    isGroupChat: bool,
    groupName: Option<string>,
    groupAdmin: Option<UserId>,
    lastMessage: Option<MessageId>,
    createdAt: Time,
    updatedAt: Time)

  /** One entry of a message's `readBy` list. The sender's own entry is written
      without a time, the later ones with the time of the read. */
  datatype ReadReceipt = ReadReceipt(user: UserId, readAt: Option<Time>)

  datatype Message = Message(
    id: MessageId,
    chat: ChatId,
    sender: UserId,
    content: string,
    messageType: string,
    fileUrl: Option<string>,
    readBy: seq<ReadReceipt>,
    createdAt: Time)

  /** The characters that the schema's `trim` option strips from `groupName`:
      the white space and line terminators of ECMAScript's String.prototype.trim. */
  const WhiteSpace: set<char> :=
    {'\t', '\n', '\U{000B}', '\U{000C}', '\r', ' ', '\U{00A0}', '\U{1680}',
     '\U{2000}', '\U{2001}', '\U{2002}', '\U{2003}', '\U{2004}', '\U{2005}', '\U{2006}',
     '\U{2007}', '\U{2008}', '\U{2009}', '\U{200A}',
     '\U{2028}', '\U{2029}', '\U{202F}', '\U{205F}', '\U{3000}', '\U{FEFF}'}

  predicate IsWhiteSpace(ch: char)
  {
    ch in WhiteSpace
  }

  predicate AllWhiteSpace(s: string)
  {
    forall i :: 0 <= i < |s| ==> IsWhiteSpace(s[i])
  }

  /** `s` without its leading white space. */
  function TrimStart(s: string): (r: string)
    ensures |r| <= |s| && r == s[|s| - |r|..]
    ensures AllWhiteSpace(s[..|s| - |r|])
    ensures r == [] || !IsWhiteSpace(r[0])
  {
    if s != [] && IsWhiteSpace(s[0]) then
      var r := TrimStart(s[1..]);
      var k := |s| - |r|;
      assert s[1..][k - 1..] == s[k..];
      assert AllWhiteSpace(s[..k]) by {
        forall i | 0 < i < k ensures IsWhiteSpace(s[..k][i]) {
          assert s[..k][i] == s[1..][..k - 1][i - 1];
        }
      }
      r
    else
      s
  }

  /** `s` without its trailing white space. */
  function TrimEnd(s: string): (r: string)
    ensures |r| <= |s| && r == s[..|r|]
    ensures AllWhiteSpace(s[|r|..])
    ensures r == [] || !IsWhiteSpace(r[|r| - 1])
  {
    if s != [] && IsWhiteSpace(s[|s| - 1]) then
      var r := TrimEnd(s[..|s| - 1]);
      assert s[..|s| - 1][|r|..] + [s[|s| - 1]] == s[|r|..];
      r
    else
      s
  }

  /** String.prototype.trim: `s` without the white space at either end. */
  function Trim(s: string): (r: string)
    ensures |r| <= |s|
    ensures r == [] || (!IsWhiteSpace(r[0]) && !IsWhiteSpace(r[|r| - 1]))
  {
    TrimEnd(TrimStart(s))
  }

  /** What trimming keeps is a contiguous run of `s`, and everything it cuts
      off on either side is white space. */
  lemma TrimIsMiddle(s: string)
    ensures var r, k := Trim(s), |s| - |TrimStart(s)|;
      k + |r| <= |s| && r == s[k..k + |r|] && AllWhiteSpace(s[..k]) && AllWhiteSpace(s[k + |r|..])
  {
    TrimMiddle(s, TrimStart(s), Trim(s));
  }

  /** What is left after both cuts is a slice of the original, white space
      before it and after it. */
  lemma TrimMiddle(s: string, t: string, r: string)
    requires |t| <= |s| && t == s[|s| - |t|..] && (t == [] || !IsWhiteSpace(t[0]))
    requires |r| <= |t| && r == t[..|r|] && (r == [] || !IsWhiteSpace(r[|r| - 1]))
    requires AllWhiteSpace(s[..|s| - |t|]) && AllWhiteSpace(t[|r|..])
    ensures r == [] || (!IsWhiteSpace(r[0]) && !IsWhiteSpace(r[|r| - 1]))
    ensures var k := |s| - |t|;
      k + |r| <= |s| && r == s[k..k + |r|] && AllWhiteSpace(s[..k]) && AllWhiteSpace(s[k + |r|..])
  {
    var k := |s| - |t|;
    assert r == [] || r[0] == t[0];
    assert r == s[k..k + |r|] by {
      assert forall i :: 0 <= i < |r| ==> r[i] == t[i] == s[k + i];
    }
    assert t[|r|..] == s[k + |r|..];
  }

  /** Trimming twice gives what trimming once does. */
  lemma {:induction false} TrimIdempotent(s: string)
    ensures Trim(Trim(s)) == Trim(s)
  {
    var r := Trim(s);
    var t := TrimStart(r);
    assert t == r;
    assert TrimEnd(t) == t;
  }

  /** A name of white space only is cut down to nothing. */
  lemma {:induction false} BlankTrimsToEmpty(s: string)
    requires AllWhiteSpace(s)
    ensures Trim(s) == []
  {
    if s != [] {
      assert IsWhiteSpace(s[0]);
      assert forall i :: 0 <= i < |s| - 1 ==> s[1..][i] == s[i + 1];
      BlankTrimsToEmpty(s[1..]);
    }
  }

  /** The document `Chat.create` stores: what the caller supplied, with the
      schema's defaults for the rest (`isGroupChat` false, no name, no admin,
      no last message) and both timestamps set to the creation time. */
  function NewChat(id: ChatId, participants: seq<UserId>, isGroupChat: Option<bool>,
                   groupName: Option<string>, groupAdmin: Option<UserId>, now: Time): Chat
  {
    Chat(id, participants,
         if isGroupChat.Some? then isGroupChat.value else false,
         if groupName.Some? then Some(Trim(groupName.value)) else None,
         groupAdmin, None, now, now)
  }

  /** A chat created without the optional fields gets the schema's defaults. */
  lemma NewChatDefaults(id: ChatId, participants: seq<UserId>, now: Time)
    ensures var c := NewChat(id, participants, None, None, None, now);
      && !c.isGroupChat && c.groupName == None && c.groupAdmin == None
      && c.lastMessage == None && c.createdAt == now && c.updatedAt == now
  {
  }

  /** The pre-save hook: every save stamps `updatedAt` with the current time and
      touches nothing else. */
  function Saved(c: Chat, now: Time): (r: Chat)
    ensures r.updatedAt == now
    ensures c.updatedAt < now ==> r.updatedAt > c.updatedAt
    ensures r.(updatedAt := c.updatedAt) == c
  {
    c.(updatedAt := now)
  }
}
