/** The pure rules inside the conversation controller (src/controllers/chat.js):
    the lookups its Mongo queries perform, the participant list of a new group,
    the access guards, and the participant filter of a removal. */
module ChatRules {
  import opened ChatModel

  predicate NoDuplicates<T(==)>(s: seq<T>)
  {
    forall i, j :: 0 <= i < j < |s| ==> s[i] != s[j]
  }

  /** `[...new Set(s)]`: each value once, at the place of its first occurrence. */
  function Dedup(s: seq<UserId>): (r: seq<UserId>)
    ensures NoDuplicates(r)
    ensures |r| <= |s|
    ensures |s| > 0 ==> |r| > 0 && r[0] == s[0]
  {
    if s == [] then []
    else
      var r := Dedup(s[..|s| - 1]);
      if s[|s| - 1] in r then r else r + [s[|s| - 1]]
  }

  /** Deduplication keeps every value and adds none. */
  lemma {:induction false} DedupMembers(s: seq<UserId>)
    ensures forall x :: x in Dedup(s) <==> x in s
  {
    if s != [] {
      var p := s[..|s| - 1];
      DedupMembers(p);
      assert s == p + [s[|s| - 1]];
    }
  }

  /** A list without repetitions passes through the set unchanged. */
  lemma {:induction false} DedupOfDistinct(s: seq<UserId>)
    requires NoDuplicates(s)
    ensures Dedup(s) == s
  {
    if s != [] {
      var p := s[..|s| - 1];
      assert NoDuplicates(p);
      DedupOfDistinct(p);
      assert s[|s| - 1] !in p;
      assert s == p + [s[|s| - 1]];
    }
  }

  /** The participants of a new group (chat.js:131): the creator first, then
      the submitted ids, each once. */
  function GroupMembers(creator: UserId, submitted: seq<UserId>): (r: seq<UserId>)
    ensures NoDuplicates(r) && |r| > 0 && r[0] == creator
    ensures forall u :: u in r <==> u == creator || u in submitted
  {
    DedupMembers([creator] + submitted);
    Dedup([creator] + submitted)
  }

  /** The size guard of chat.js:124 looks at the submitted list before the
      deduplication of :131, so it does not deliver "at least 2 other
      participants": a creator who lists themselves twice passes it and gets
      a group of one. */
  lemma GroupSizeCheckedBeforeDedup(u: UserId)
    ensures |[u, u]| >= 2 && GroupMembers(u, [u, u]) == [u]
  {
    var s := [u] + [u, u];
    assert s[..2] == [u, u] && [u, u][..1] == [u] && [u][..0] == [];
    assert Dedup([u]) == [u];
    assert Dedup([u, u]) == [u];
  }

  /** Listing themselves and one other user also passes the guard, and gives
      a group of two. */
  lemma SelfListedGivesPair(u: UserId, v: UserId)
    requires u != v
    ensures |[u, v]| >= 2 && GroupMembers(u, [u, v]) == [u, v]
  {
    var s := [u] + [u, v];
    assert s[..2] == [u, u] && [u, u][..1] == [u] && [u][..0] == [];
    assert Dedup([u]) == [u];
    assert Dedup([u, u]) == [u];
  }

  /** So does one other user listed twice. */
  lemma RepeatedOtherGivesPair(u: UserId, v: UserId)
    requires u != v
    ensures |[v, v]| >= 2 && GroupMembers(u, [v, v]) == [u, v]
  {
    var s := [u] + [v, v];
    assert s[..2] == [u, v] && [u, v][..1] == [u] && [u][..0] == [];
    assert Dedup([u]) == [u];
    assert Dedup([u, v]) == [u, v];
  }

  /** What the guard of :124 does deliver once the creator is added and the
      list deduplicated: a group that holds one more member than the number of
      distinct other users submitted, so two distinct others give three. */
  lemma {:induction false} GroupSizeWhenOthersDistinct(creator: UserId, submitted: seq<UserId>)
    requires |submitted| >= 2 && NoDuplicates(submitted) && creator !in submitted
    ensures |GroupMembers(creator, submitted)| == |submitted| + 1
  {
    var s := [creator] + submitted;
    assert NoDuplicates(s) by {
      forall i, j | 0 <= i < j < |s| ensures s[i] != s[j] {
        if i == 0 { assert s[j] == submitted[j - 1]; }
        else { assert s[i] == submitted[i - 1] && s[j] == submitted[j - 1]; }
      }
    }
    DedupOfDistinct(s);
  }

  /** `chat.participants.some(p => p == u)` */
  predicate IsParticipant(c: Chat, u: UserId)
  {
    u in c.participants
  }

  /** `Chat.findById(id)`: the position of the chat with that id, if any. */
  function FindChat(cs: seq<Chat>, id: ChatId): (r: Option<nat>)
    ensures r.Some? ==> r.value < |cs| && cs[r.value].id == id
    ensures r.None? ==> forall k :: 0 <= k < |cs| ==> cs[k].id != id
  {
    if cs == [] then None
    else if cs[0].id == id then Some(0)
    else
      var r := FindChat(cs[1..], id);
      if r.None? then None else Some(r.value + 1)
  }

  /** The filter of chat.js:25-28: a one-on-one chat that includes both users. */
  predicate IsDirectChatOf(c: Chat, a: UserId, b: UserId)
  {
    !c.isGroupChat && a in c.participants && b in c.participants
  }

  /** `Chat.findOne({isGroupChat: false, participants: {$all: [a, b]}})`, taken
      as the first match in store order. */
  function FindDirectChat(cs: seq<Chat>, a: UserId, b: UserId): (r: Option<nat>)
    ensures r.Some? ==> r.value < |cs| && IsDirectChatOf(cs[r.value], a, b)
    ensures r.Some? ==> forall k :: 0 <= k < r.value ==> !IsDirectChatOf(cs[k], a, b)
    ensures r.None? ==> forall k :: 0 <= k < |cs| ==> !IsDirectChatOf(cs[k], a, b)
  {
    if cs == [] then None
    else if IsDirectChatOf(cs[0], a, b) then Some(0)
    else
      var r := FindDirectChat(cs[1..], a, b);
      if r.None? then None else Some(r.value + 1)
  }

  /** Two one-on-one chats between the same two users. */
  predicate SamePair(c: Chat, d: Chat)
  {
    !c.isGroupChat && |c.participants| == 2 && IsDirectChatOf(d, c.participants[0], c.participants[1])
  }

  /** A one-on-one chat has two distinct participants and no admin. */
  predicate DirectShape(c: Chat)
  {
    !c.isGroupChat ==> |c.participants| == 2 && c.participants[0] != c.participants[1] && c.groupAdmin == None
  }

  /** No two one-on-one chats join the same pair of users. */
  predicate PairsUnique(cs: seq<Chat>)
  {
    forall i, j :: 0 <= i < |cs| && 0 <= j < |cs| && i != j ==> !SamePair(cs[i], cs[j])
  }

  /** In a store where one-on-one chats are well formed and pairs are unique,
      the chat the lookup of chat.js:25 finds is the only one for that pair. */
  lemma DirectChatIsUnique(cs: seq<Chat>, a: UserId, b: UserId, k: nat)
    requires forall c :: c in cs ==> DirectShape(c)
    requires PairsUnique(cs) && a != b
    requires FindDirectChat(cs, a, b) == Some(k)
    ensures forall j :: 0 <= j < |cs| && IsDirectChatOf(cs[j], a, b) ==> j == k
  {
    forall j | 0 <= j < |cs| && IsDirectChatOf(cs[j], a, b) ensures j == k {
      PairOfDirectChat(cs[k], cs[j], a, b);
    }
  }

  /** A well-formed one-on-one chat that includes `a` and `b` is their pair:
      any one-on-one chat that includes both of them joins the same pair. */
  lemma PairOfDirectChat(c: Chat, d: Chat, a: UserId, b: UserId)
    requires DirectShape(c) && a != b
    requires IsDirectChatOf(c, a, b) && IsDirectChatOf(d, a, b)
    ensures SamePair(c, d)
  {
    var p := c.participants;
    assert a == p[0] || a == p[1];
    assert b == p[0] || b == p[1];
  }

  /** A one-on-one chat whose pair is that of the chat `[a, b]` includes `a` and `b`. */
  lemma PairOfNewChat(d: Chat, c: Chat, a: UserId, b: UserId)
    requires DirectShape(d) && c.participants == [a, b] && !c.isGroupChat
    ensures SamePair(d, c) ==> IsDirectChatOf(d, a, b)
  {
    if SamePair(d, c) {
      var p := d.participants;
      assert p[0] == a || p[0] == b;
      assert p[1] == a || p[1] == b;
    }
  }

  /** A new one-on-one chat for `a` and `b` joins no pair already joined when
      the lookup for `a` and `b` found nothing. */
  lemma NewPairIsUnique(cs: seq<Chat>, c: Chat, a: UserId, b: UserId)
    requires forall d :: d in cs ==> DirectShape(d)
    requires PairsUnique(cs) && FindDirectChat(cs, a, b) == None
    requires !c.isGroupChat && c.participants == [a, b] && a != b
    ensures PairsUnique(cs + [c])
  {
    var s := cs + [c];
    forall i, j | 0 <= i < |s| && 0 <= j < |s| && i != j ensures !SamePair(s[i], s[j]) {
      if j == |cs| {
        assert s[i] == cs[i];
        PairOfNewChat(cs[i], c, a, b);
      } else if i == |cs| {
        assert s[j] == cs[j];
      }
    }
  }

  /** The removal guard of chat.js:243-250: the admin, or a user removing
      themselves. */
  predicate RemovalAllowed(caller: UserId, admin: UserId, target: UserId)
  {
    admin == caller || target == caller
  }

  /** The "cannot remove group admin" test of chat.js:253. */
  predicate AdminRemovalRefused(caller: UserId, admin: UserId, target: UserId)
  {
    target == admin && target != caller
  }

  /** Every request that passes the guard of :246 fails the test of :253, so
      the refusal there is never reached. */
  lemma AdminRefusalUnreachable(caller: UserId, admin: UserId, target: UserId)
    requires RemovalAllowed(caller, admin, target)
    ensures !AdminRemovalRefused(caller, admin, target)
  {
  }

  /** The admin passes both guards when removing themselves, so nothing stops a
      group from losing its admin as a member. */
  lemma AdminMayRemoveThemselves(admin: UserId)
    ensures RemovalAllowed(admin, admin, admin) && !AdminRemovalRefused(admin, admin, admin)
  {
  }

  /** `participants.filter(p => p !== u)` (chat.js:257-259). */
  function Without(ps: seq<UserId>, u: UserId): (r: seq<UserId>)
    ensures u !in r
    ensures forall x :: x != u ==> (x in r <==> x in ps)
    ensures |r| <= |ps|
    ensures NoDuplicates(ps) ==> NoDuplicates(r)
  {
    if ps == [] then []
    else
      var r := Without(ps[..|ps| - 1], u);
      var x := ps[|ps| - 1];
      assert forall y :: y in ps <==> y in ps[..|ps| - 1] || y == x;
      assert NoDuplicates(ps) ==> NoDuplicates(ps[..|ps| - 1]) && x !in ps[..|ps| - 1];
      if x == u then r else r + [x]
  }

  /** Removing a member of a duplicate-free list cuts out exactly its one
      position and keeps the others in order; removing a non-member changes
      nothing. */
  lemma {:induction false} WithoutCutsOne(ps: seq<UserId>, u: UserId)
    requires NoDuplicates(ps)
    ensures u !in ps ==> Without(ps, u) == ps
    ensures forall k :: 0 <= k < |ps| && ps[k] == u ==> Without(ps, u) == ps[..k] + ps[k + 1..]
  {
    if ps != [] {
      var p := ps[..|ps| - 1];
      var x := ps[|ps| - 1];
      assert NoDuplicates(p);
      WithoutCutsOne(p, u);
      assert ps == p + [x];
      forall k | 0 <= k < |ps| && ps[k] == u ensures Without(ps, u) == ps[..k] + ps[k + 1..] {
        if k == |ps| - 1 {
          assert u !in p;
        } else {
          assert x != u;
          assert p[k] == u;
          assert ps[..k] == p[..k];
          assert ps[k + 1..] == p[k + 1..] + [x];
        }
      }
    }
  }

  /** `Chat.find({participants: u})`: the chats that include `u`, in store order. */
  function MemberChats(cs: seq<Chat>, u: UserId): (r: seq<Chat>)
    ensures forall c :: c in r <==> c in cs && IsParticipant(c, u)
    ensures multiset(r) <= multiset(cs)
  {
    if cs == [] then []
    else
      var r := MemberChats(cs[..|cs| - 1], u);
      var c := cs[|cs| - 1];
      assert cs == cs[..|cs| - 1] + [c];
      if IsParticipant(c, u) then r + [c] else r
  }

  /** `.sort({updatedAt: -1})`: most recently updated first. */
  predicate NewestFirst(cs: seq<Chat>)
  {
    forall i, j :: 0 <= i < j < |cs| ==> cs[i].updatedAt >= cs[j].updatedAt
  }

  function InsertByRecency(c: Chat, cs: seq<Chat>): (r: seq<Chat>)
    requires NewestFirst(cs)
    ensures NewestFirst(r)
    ensures multiset(r) == multiset(cs) + multiset{c}
    ensures |r| == |cs| + 1
    ensures r[0] == c || (cs != [] && r[0] == cs[0])
  {
    if cs == [] || cs[0].updatedAt <= c.updatedAt then
      ConsNewest(c, cs);
      [c] + cs
    else
      var r := InsertByRecency(c, cs[1..]);
      ConsNewest(cs[0], r);
      assert multiset(cs) == multiset{cs[0]} + multiset(cs[1..]) by {
        assert cs == [cs[0]] + cs[1..];
      }
      [cs[0]] + r
  }

  /** A chat no older than the head of a newest-first list may go in front. */
  lemma ConsNewest(c: Chat, cs: seq<Chat>)
    requires NewestFirst(cs) && (cs == [] || cs[0].updatedAt <= c.updatedAt)
    ensures NewestFirst([c] + cs)
  {
    var r := [c] + cs;
    forall i, j | 0 <= i < j < |r| ensures r[i].updatedAt >= r[j].updatedAt {
      if i == 0 {
        assert r[j] == cs[j - 1];
      } else {
        assert r[i] == cs[i - 1] && r[j] == cs[j - 1];
      }
    }
  }

  function SortByRecency(cs: seq<Chat>): (r: seq<Chat>)
    ensures NewestFirst(r)
    ensures multiset(r) == multiset(cs)
  {
    if cs == [] then []
    else
      assert cs == [cs[0]] + cs[1..];
      InsertByRecency(cs[0], SortByRecency(cs[1..]))
  }

  /** The listing of getUserChats (chat.js:62-68). */
  function UserChats(cs: seq<Chat>, u: UserId): (r: seq<Chat>)
    ensures NewestFirst(r)
    ensures forall c :: c in r <==> c in cs && IsParticipant(c, u)
    ensures multiset(r) == multiset(MemberChats(cs, u))
  {
    var m := MemberChats(cs, u);
    var r := SortByRecency(m);
    assert forall c :: c in r <==> c in m by {
      forall c ensures c in r <==> c in m {
        assert c in r <==> c in multiset(r);
        assert c in m <==> c in multiset(m);
      }
    }
    r
  }
}
