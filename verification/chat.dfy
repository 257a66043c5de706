/** The conversation store of `services/chatService.ts`. A conversation joins
    two users; messages are appended with ids `msg1`, `msg2`, ... from a
    counter; the simulated counterpart's delayed reply is an explicit
    transition that fires one of the scheduled replies. The user directory is
    the user store, passed in by the caller. */
module Chat {
  import opened Wrappers
  import opened Text
  import Collections
  import Sorting
  import Users

  type UserId = Users.UserId
  type ConversationId = int

  datatype Participants = Participants(first: UserId, second: UserId)

  /** The `participants` array `[userId1, userId2]` of two different users. */
  type Pair = p: Participants | p.first != p.second witness Participants(0, 1)

  /** `participants.includes(u)`. */
  predicate Includes(p: Participants, u: UserId)
  {
    p.first == u || p.second == u
  }

  /** `participants.find(id => id !== u)`: the first participant who is not
      `u`. Both being different, there always is one. */
  function Other(p: Pair, u: UserId): (r: UserId)
    ensures Includes(p, r) && r != u
    ensures Includes(p, u) ==> (p == Participants(u, r) || p == Participants(r, u))
  {
    if p.first != u then p.first else p.second
  }

  datatype Message = Message(
    id: string,
    conversationId: ConversationId,
    senderId: UserId,
    text: string,
    timestamp: nat,
    isRead: bool)

  datatype Conversation = Conversation(
    id: ConversationId,
    participants: Pair,
    messages: seq<Message>,
    lastMessageTimestamp: nat,
    typingUser: Option<UserId>)

  /** What a reply timer captured when `sendMessage` scheduled it: the
      conversation, the participant who will answer and the id of the message
      being answered. */
  datatype ScheduledReply = ScheduledReply(conversationId: ConversationId, replier: UserId, originalId: string)

  /** The module-level `conversations` array, the two id counters, and the
      reply timers scheduled but not yet fired. */
  datatype ChatStore = ChatStore(
    conversations: seq<Conversation>,
    nextConversationId: int,
    nextMessageId: nat,
    scheduled: seq<ScheduledReply>)

  datatype ChatError = ConversationNotFound

  const InitialStore: ChatStore := ChatStore([], 1, 1, [])

  /** The five canned answers of the simulated counterpart. */
  const CannedReplies: seq<string> := [
    "تمام، فهمت عليك.", "شكراً جزيلاً.", "حاضر، سأرى الأمر.", "تمام، متى يناسبك؟", "ممكن تفاصيل أكثر؟"
  ]

  // ---------------------------------------------------------------------
  // Message ids

  /** The id `msg${n}` of the `n`-th message. */
  function MessageId(n: nat): string
  {
    "msg" + DecimalString(n)
  }

  /** Reads the counter value back out of a message id. */
  function ParseMessageId(s: string): Option<nat>
  {
    if |s| >= 3 && s[..3] == "msg" then ParseDecimal(s[3..]) else None
  }

  /** Reading an id back gives the counter it was made from, so two counter
      values never give the same id. */
  lemma MessageIdRoundTrip(n: nat)
    ensures ParseMessageId(MessageId(n)) == Some(n)
  {
    var s := MessageId(n);
    assert s[..3] == "msg";
    assert s[3..] == DecimalString(n);
    ParseDecimalString(n);
  }

  /** The id was handed out before the counter reached `next`. */
  predicate IssuedBefore(id: string, next: nat)
  {
    ParseMessageId(id).Some? && ParseMessageId(id).value < next
  }

  // ---------------------------------------------------------------------
  // Lookups

  function HasId(id: ConversationId): Conversation -> bool
  {
    (c: Conversation) => c.id == id
  }

  /** `conversations.find(c => c.id === id)`, as an index. */
  function FindConversation(cs: seq<Conversation>, id: ConversationId): (r: Option<nat>)
    ensures r.Some? ==> r.value < |cs| && cs[r.value].id == id
    ensures r.Some? ==> forall i :: 0 <= i < r.value ==> cs[i].id != id
    ensures r.None? <==> forall i :: 0 <= i < |cs| ==> cs[i].id != id
  {
    var r := Collections.FirstIndex(cs, HasId(id));
    assert r.Some? ==> HasId(id)(cs[r.value]);
    r
  }

  /** `getParticipantData`: the directory's record of the participant who is
      not `u`; `None` when the directory does not know them. */
  function GetParticipantData(c: Conversation, directory: Users.UserStore, u: UserId): (r: Option<Users.User>)
    ensures r.Some? ==> r.value in directory.users && r.value.id == Other(c.participants, u)
    ensures r.None? <==> forall v :: v in directory.users ==> v.id != Other(c.participants, u)
  {
    Users.FindUser(directory.users, Other(c.participants, u))
  }

  // ---------------------------------------------------------------------
  // Unread accounting

  /** The messages `u` has not read: sent by someone else, not yet read. */
  predicate UnreadBy(m: Message, u: UserId)
  {
    m.senderId != u && !m.isRead
  }

  function UnreadTest(u: UserId): Message -> bool
  {
    (m: Message) => UnreadBy(m, u)
  }

  /** `messages.filter(m => m.senderId !== u && !m.isRead).length`. */
  function UnreadIn(c: Conversation, u: UserId): nat
  {
    |Collections.Filter(c.messages, UnreadTest(u))|
  }

  /** What a conversation adds to `u`'s unread total: its unread count when
      `u` takes part, nothing otherwise. */
  function UnreadShare(c: Conversation, u: UserId): nat
  {
    if Includes(c.participants, u) then UnreadIn(c, u) else 0
  }

  /** The running total of `getUnreadCount`'s loop. */
  function UnreadTotal(cs: seq<Conversation>, u: UserId): nat
  {
    if |cs| == 0 then 0 else UnreadShare(cs[0], u) + UnreadTotal(cs[1..], u)
  }

  /** `getUnreadCount`: the messages `u` has not read, over every conversation
      `u` takes part in. */
  function GetUnreadCount(st: ChatStore, u: UserId): (r: nat)
    ensures r == 0 <==> forall i, k ::
      (0 <= i < |st.conversations| && Includes(st.conversations[i].participants, u) && 0 <= k < |st.conversations[i].messages|)
      ==> !UnreadBy(st.conversations[i].messages[k], u)
  {
    UnreadTotalZero(st.conversations, u);
    UnreadTotal(st.conversations, u)
  }

  lemma UnreadInZero(c: Conversation, u: UserId)
    ensures UnreadIn(c, u) == 0 <==> forall k :: 0 <= k < |c.messages| ==> !UnreadBy(c.messages[k], u)
  {
    if forall k :: 0 <= k < |c.messages| ==> !UnreadBy(c.messages[k], u) {
      Collections.FilterDropsAll(c.messages, UnreadTest(u));
    } else {
      var k :| 0 <= k < |c.messages| && UnreadBy(c.messages[k], u);
      Collections.FilterMembers(c.messages, UnreadTest(u));
      assert UnreadTest(u)(c.messages[k]);
      assert c.messages[k] in Collections.Filter(c.messages, UnreadTest(u));
    }
  }

  lemma {:induction false} UnreadTotalZero(cs: seq<Conversation>, u: UserId)
    ensures UnreadTotal(cs, u) == 0 <==> forall i, k ::
      (0 <= i < |cs| && Includes(cs[i].participants, u) && 0 <= k < |cs[i].messages|) ==> !UnreadBy(cs[i].messages[k], u)
  {
    if |cs| > 0 {
      UnreadTotalZero(cs[1..], u);
      UnreadInZero(cs[0], u);
      if UnreadTotal(cs, u) == 0 {
        forall i, k | 0 <= i < |cs| && Includes(cs[i].participants, u) && 0 <= k < |cs[i].messages|
          ensures !UnreadBy(cs[i].messages[k], u)
        {
          if i > 0 {
            assert cs[1..][i - 1] == cs[i];
          }
        }
      } else if UnreadShare(cs[0], u) == 0 {
        var i, k :| 0 <= i < |cs[1..]| && Includes(cs[1..][i].participants, u)
                    && 0 <= k < |cs[1..][i].messages| && UnreadBy(cs[1..][i].messages[k], u);
        assert cs[1..][i] == cs[i + 1];
      }
    }
  }

  // ---------------------------------------------------------------------
  // Queries

  /** One entry of `getConversationsForUser`: the conversation, the other
      participant's record and `u`'s unread count in it. */
  datatype ConversationSummary = ConversationSummary(
    conversation: Conversation,
    otherUser: Option<Users.User>,
    unreadCount: nat)

  /** The result of `getConversationById`: the conversation and the other
      participant's record. */
  datatype ConversationView = ConversationView(conversation: Conversation, otherUser: Option<Users.User>)

  function Involves(u: UserId): Conversation -> bool
  {
    (c: Conversation) => Includes(c.participants, u)
  }

  function Summarize(c: Conversation, directory: Users.UserStore, u: UserId): ConversationSummary
  {
    ConversationSummary(c, GetParticipantData(c, directory, u), UnreadIn(c, u))
  }

  function SummarizeAll(cs: seq<Conversation>, directory: Users.UserStore, u: UserId): (r: seq<ConversationSummary>)
    ensures |r| == |cs|
    ensures forall i :: 0 <= i < |cs| ==> r[i] == Summarize(cs[i], directory, u)
  {
    seq(|cs|, i requires 0 <= i < |cs| => Summarize(cs[i], directory, u))
  }

  /** The order of `getConversationsForUser`: most recent message first. */
  predicate MostRecentFirst(a: ConversationSummary, b: ConversationSummary)
  {
    a.conversation.lastMessageTimestamp >= b.conversation.lastMessageTimestamp
  }

  lemma MostRecentFirstIsTotalPreorder()
    ensures Sorting.TotalPreorder(MostRecentFirst)
  {
  }

  /** `getConversationsForUser`: the conversations `u` takes part in, each
      with the other participant and `u`'s unread count, most recent first. */
  function GetConversationsForUser(st: ChatStore, directory: Users.UserStore, u: UserId): (r: seq<ConversationSummary>)
    ensures multiset(r) == multiset(SummarizeAll(Collections.Filter(st.conversations, Involves(u)), directory, u))
  {
    Sorting.Sort(SummarizeAll(Collections.Filter(st.conversations, Involves(u)), directory, u), MostRecentFirst)
  }

  /** `getConversationById`: the conversation with that id, only when `u`
      takes part in it. */
  function GetConversationById(st: ChatStore, directory: Users.UserStore, id: ConversationId, u: UserId)
    : (r: Option<ConversationView>)
    ensures r.Some? <==> FindConversation(st.conversations, id).Some?
                         && Includes(st.conversations[FindConversation(st.conversations, id).value].participants, u)
    ensures r.Some? ==> r.value.conversation in st.conversations && r.value.conversation.id == id
                        && Includes(r.value.conversation.participants, u)
                        && r.value.otherUser == GetParticipantData(r.value.conversation, directory, u)
  {
    match FindConversation(st.conversations, id)
    case None => None
    case Some(j) =>
      var c := st.conversations[j];
      if Includes(c.participants, u) then Some(ConversationView(c, GetParticipantData(c, directory, u)))
      else None
  }

  // ---------------------------------------------------------------------
  // Transitions

  function Between(a: UserId, b: UserId): Conversation -> bool
  {
    (c: Conversation) => Includes(c.participants, a) && Includes(c.participants, b)
  }

  /** Some stored conversation includes both users. */
  predicate Connected(cs: seq<Conversation>, a: UserId, b: UserId)
  {
    exists i :: 0 <= i < |cs| && Includes(cs[i].participants, a) && Includes(cs[i].participants, b)
  }

  /** `startConversation`: returns the first conversation including both
      users and changes nothing; otherwise creates one with the next id, the
      participants in call order and no messages, at the front of the store. */
  function StartConversation(st: ChatStore, a: UserId, b: UserId, now: nat): (r: Step<ChatStore, Conversation>)
    requires a != b
    ensures Connected(st.conversations, a, b) ==>
      && r.next == st
      && r.out in st.conversations
      && Includes(r.out.participants, a) && Includes(r.out.participants, b)
    ensures !Connected(st.conversations, a, b) ==>
      && r.out.id == st.nextConversationId
      && r.out.participants == Participants(a, b)
      && r.out.messages == []
      && r.out.lastMessageTimestamp == now
      && r.out.typingUser == None
      && r.next.conversations == [r.out] + st.conversations
      && r.next.nextConversationId == st.nextConversationId + 1
      && r.next.nextMessageId == st.nextMessageId
      && r.next.scheduled == st.scheduled
  {
    var cs := st.conversations;
    match Collections.FirstIndex(cs, Between(a, b))
    case Some(k) =>
      assert Between(a, b)(cs[k]);
      Step(st, cs[k])
    case None =>
      assert forall i :: 0 <= i < |cs| ==> !Between(a, b)(cs[i]);
      var c := Conversation(st.nextConversationId, Participants(a, b), [], now, None);
      Step(st.(conversations := [c] + cs, nextConversationId := st.nextConversationId + 1), c)
  }

  /** `sendMessage`: appends an unread message from `sender` with the next
      message id, stamps the conversation with its time, shows the other
      participant typing and schedules that participant's reply. An unknown
      conversation fails with `ConversationNotFound` and changes nothing. */
  function SendMessage(st: ChatStore, id: ConversationId, sender: UserId, text: string, now: nat)
    : (r: Step<ChatStore, Result<Message, ChatError>>)
    ensures r.out.Err? <==> forall i :: 0 <= i < |st.conversations| ==> st.conversations[i].id != id
    ensures r.out.Err? ==> r.out.error == ConversationNotFound && r.next == st
    ensures |r.next.conversations| == |st.conversations|
    ensures r.out.Ok? ==>
      var j := FindConversation(st.conversations, id).value;
      var (c, c') := (st.conversations[j], r.next.conversations[j]);
      var m := r.out.value;
      && m == Message(MessageId(st.nextMessageId), id, sender, text, now, false)
      && c'.messages == c.messages + [m]
      && c'.lastMessageTimestamp == m.timestamp
      && c'.typingUser == Some(Other(c.participants, sender))
      && c'.id == c.id && c'.participants == c.participants
      && (forall i :: 0 <= i < |st.conversations| && i != j ==> r.next.conversations[i] == st.conversations[i])
      && r.next.nextMessageId == st.nextMessageId + 1
      && r.next.nextConversationId == st.nextConversationId
      && r.next.scheduled == st.scheduled + [ScheduledReply(id, Other(c.participants, sender), m.id)]
  {
    var cs := st.conversations;
    match FindConversation(cs, id)
    case None => Step(st, Err(ConversationNotFound))
    case Some(j) =>
      var c := cs[j];
      var m := Message(MessageId(st.nextMessageId), id, sender, text, now, false);
      var other := Other(c.participants, sender);
      var c' := c.(messages := c.messages + [m], lastMessageTimestamp := now, typingUser := Some(other));
      var st' := ChatStore(cs[j := c'], st.nextConversationId, st.nextMessageId + 1,
                           st.scheduled + [ScheduledReply(id, other, m.id)]);
      Step(st', Ok(m))
  }

  function IdIs(id: string): Message -> bool
  {
    (m: Message) => m.id == id
  }

  /** `messages.find(m => m.id === id)` followed by setting `isRead`. */
  function MarkFirstRead(msgs: seq<Message>, id: string): (r: seq<Message>)
    ensures |r| == |msgs|
    ensures forall k :: 0 <= k < |msgs| ==> r[k] == msgs[k] || (msgs[k].id == id && r[k] == msgs[k].(isRead := true))
    ensures (forall k, l :: 0 <= k < l < |msgs| ==> msgs[k].id != msgs[l].id) ==>
              forall k :: 0 <= k < |msgs| ==> r[k] == if msgs[k].id == id then msgs[k].(isRead := true) else msgs[k]
  {
    match Collections.FirstIndex(msgs, IdIs(id))
    case None => msgs
    case Some(k) =>
      assert IdIs(id)(msgs[k]);
      msgs[k := msgs[k].(isRead := true)]
  }

  /** Drops the `t`-th scheduled timer. */
  function Unschedule(s: seq<ScheduledReply>, t: nat): (r: seq<ScheduledReply>)
    requires t < |s|
    ensures |r| == |s| - 1
    ensures multiset(r) == multiset(s) - multiset{s[t]}
  {
    assert s == s[..t] + [s[t]] + s[t + 1..];
    s[..t] + s[t + 1..]
  }

  /** The body of the reply timer, fired for the `t`-th scheduled reply with
      `choice` standing for the random pick among the canned answers. When
      the conversation is still there: the typing indicator is cleared, the
      replier's unread answer is appended with the next message id, the
      conversation is stamped with its time, and the first message with the
      original id is marked read. Otherwise only the timer is used up. */
  function DeliverReply(st: ChatStore, t: nat, choice: nat, now: nat): (r: ChatStore)
    requires t < |st.scheduled|
    requires choice < |CannedReplies|
    ensures r.scheduled == Unschedule(st.scheduled, t)
    ensures r.nextConversationId == st.nextConversationId
    ensures |r.conversations| == |st.conversations|
    ensures FindConversation(st.conversations, st.scheduled[t].conversationId).None? ==>
      r == st.(scheduled := Unschedule(st.scheduled, t))
    ensures FindConversation(st.conversations, st.scheduled[t].conversationId).Some? ==>
      var p := st.scheduled[t];
      var j := FindConversation(st.conversations, p.conversationId).value;
      var (c, c') := (st.conversations[j], r.conversations[j]);
      var reply := Message(MessageId(st.nextMessageId), p.conversationId, p.replier, CannedReplies[choice], now, false);
      && c'.id == c.id && c'.participants == c.participants
      && c'.typingUser == None
      && c'.lastMessageTimestamp == now
      && c'.messages == MarkFirstRead(c.messages + [reply], p.originalId)
      && (forall i :: 0 <= i < |st.conversations| && i != j ==> r.conversations[i] == st.conversations[i])
      && r.nextMessageId == st.nextMessageId + 1
  {
    var p := st.scheduled[t];
    var cs := st.conversations;
    match FindConversation(cs, p.conversationId)
    case None => st.(scheduled := Unschedule(st.scheduled, t))
    case Some(j) =>
      var c := cs[j];
      var reply := Message(MessageId(st.nextMessageId), p.conversationId, p.replier, CannedReplies[choice], now, false);
      var c' := c.(typingUser := None, messages := MarkFirstRead(c.messages + [reply], p.originalId),
                   lastMessageTimestamp := now);
      ChatStore(cs[j := c'], st.nextConversationId, st.nextMessageId + 1, Unschedule(st.scheduled, t))
  }

  /** `markConversationAsRead`'s change to the messages: those from anyone
      but `u` become read. */
  function ReadAllFrom(msgs: seq<Message>, u: UserId): (r: seq<Message>)
    ensures |r| == |msgs|
    ensures forall k :: 0 <= k < |msgs| ==> !UnreadBy(r[k], u)
    ensures forall k :: 0 <= k < |msgs| ==> r[k] == msgs[k] || (UnreadBy(msgs[k], u) && r[k] == msgs[k].(isRead := true))
    ensures forall k :: 0 <= k < |msgs| && msgs[k].senderId == u ==> r[k] == msgs[k]
  {
    seq(|msgs|, k requires 0 <= k < |msgs| =>
      if msgs[k].senderId != u && !msgs[k].isRead then msgs[k].(isRead := true) else msgs[k])
  }

  /** `markConversationAsRead`: in the conversation with that id, every
      message from anyone but `u` becomes read; an unknown id changes
      nothing. */
  function MarkConversationAsRead(st: ChatStore, id: ConversationId, u: UserId): (r: ChatStore)
    ensures r.nextConversationId == st.nextConversationId && r.nextMessageId == st.nextMessageId
    ensures r.scheduled == st.scheduled
    ensures |r.conversations| == |st.conversations|
    ensures FindConversation(st.conversations, id).None? ==> r == st
    ensures FindConversation(st.conversations, id).Some? ==>
      var j := FindConversation(st.conversations, id).value;
      && r.conversations[j] == st.conversations[j].(messages := ReadAllFrom(st.conversations[j].messages, u))
      && (forall i :: 0 <= i < |st.conversations| && i != j ==> r.conversations[i] == st.conversations[i])
  {
    var cs := st.conversations;
    match FindConversation(cs, id)
    case None => st
    case Some(j) => st.(conversations := cs[j := cs[j].(messages := ReadAllFrom(cs[j].messages, u))])
  }
}
