/** Properties of the chat store that relate several calls: starting a
    conversation is idempotent and symmetric, unread counts move exactly as
    messages are sent and read, and read flags never go back. */
module ChatProperties {
  import opened Wrappers
  import Collections
  import Sorting
  import Users
  import opened Chat
  import opened ChatInvariants

  // ---------------------------------------------------------------------
  // Starting a conversation

  /** Asking again for the same pair, in either order, returns the same
      conversation and changes nothing. */
  lemma StartConversationIdempotent(st: ChatStore, a: UserId, b: UserId, now: nat, later: nat)
    requires a != b
    ensures var first := StartConversation(st, a, b, now);
      && StartConversation(first.next, a, b, later) == Step(first.next, first.out)
      && StartConversation(first.next, b, a, later) == Step(first.next, first.out)
  {
    var first := StartConversation(st, a, b, now);
    var cs := first.next.conversations;
    Collections.FirstIndexAgree(cs, Between(a, b), Between(b, a));
    if !Connected(st.conversations, a, b) {
      assert Between(a, b)(cs[0]);
    }
  }

  /** With the arguments swapped an existing conversation is found all the
      same. */
  lemma StartConversationSymmetric(st: ChatStore, a: UserId, b: UserId, now: nat)
    requires a != b
    requires Connected(st.conversations, a, b)
    ensures StartConversation(st, b, a, now) == StartConversation(st, a, b, now)
  {
    Collections.FirstIndexAgree(st.conversations, Between(a, b), Between(b, a));
  }

  /** Two pairs of distinct users that both hold `a` and `b` hold the same
      two users. */
  lemma PairOfBoth(p: Pair, q: Pair, a: UserId, b: UserId)
    requires a != b
    requires Includes(p, a) && Includes(p, b) && Includes(q, a) && Includes(q, b)
    ensures SamePair(p, q) && SamePair(q, p)
  {
  }

  /** In a valid store at most one conversation joins two given users. */
  lemma OneConversationPerPair(st: ChatStore, a: UserId, b: UserId, i: nat, j: nat)
    requires Valid(st)
    requires a != b
    requires i < |st.conversations| && j < |st.conversations|
    requires Between(a, b)(st.conversations[i]) && Between(a, b)(st.conversations[j])
    ensures i == j
  {
    PairOfBoth(st.conversations[i].participants, st.conversations[j].participants, a, b);
  }

  /** In a valid store the conversation returned for an existing pair is the
      only one holding both users. */
  lemma StartConversationFindsTheOne(st: ChatStore, a: UserId, b: UserId, now: nat)
    requires Valid(st)
    requires a != b
    ensures var r := StartConversation(st, a, b, now);
      forall i :: 0 <= i < |r.next.conversations| && Between(a, b)(r.next.conversations[i]) ==>
        r.next.conversations[i] == r.out
  {
    var r := StartConversation(st, a, b, now);
    StartConversationKeepsValid(st, a, b, now);
    var k :| 0 <= k < |r.next.conversations| && r.next.conversations[k] == r.out;
    forall i | 0 <= i < |r.next.conversations| && Between(a, b)(r.next.conversations[i])
      ensures r.next.conversations[i] == r.out
    {
      OneConversationPerPair(r.next, a, b, i, k);
    }
  }

  // ---------------------------------------------------------------------
  // Unread accounting

  /** A conversation replaced at one place changes the running total by the
      difference of its shares. */
  lemma {:induction false} UnreadTotalUpdate(cs: seq<Conversation>, j: nat, c': Conversation, u: UserId)
    requires j < |cs|
    ensures UnreadTotal(cs[j := c'], u) + UnreadShare(cs[j], u) == UnreadTotal(cs, u) + UnreadShare(c', u)
  {
    if j == 0 {
      assert cs[j := c'][1..] == cs[1..];
    } else {
      assert cs[j := c'][1..] == cs[1..][j - 1 := c'];
      UnreadTotalUpdate(cs[1..], j - 1, c', u);
    }
  }

  /** A message appended at the end counts once, if `u` has not read it. */
  lemma UnreadAppend(msgs: seq<Message>, m: Message, u: UserId)
    ensures |Collections.Filter(msgs + [m], UnreadTest(u))|
         == |Collections.Filter(msgs, UnreadTest(u))| + (if UnreadBy(m, u) then 1 else 0)
  {
    Collections.FilterAppend(msgs, [m], UnreadTest(u));
    assert [m][1..] == [];
  }

  /** Sending a message adds one to the unread count of every participant
      other than the sender, and leaves everybody else's count alone. */
  lemma SendMessageUnread(st: ChatStore, id: ConversationId, sender: UserId, text: string, now: nat, u: UserId)
    requires FindConversation(st.conversations, id).Some?
    ensures var j := FindConversation(st.conversations, id).value;
      GetUnreadCount(SendMessage(st, id, sender, text, now).next, u)
      == GetUnreadCount(st, u) + (if u != sender && Includes(st.conversations[j].participants, u) then 1 else 0)
  {
    var r := SendMessage(st, id, sender, text, now);
    var j := FindConversation(st.conversations, id).value;
    var c := st.conversations[j];
    assert r.next.conversations == st.conversations[j := r.next.conversations[j]];
    UnreadTotalUpdate(st.conversations, j, r.next.conversations[j], u);
    UnreadAppend(c.messages, r.out.value, u);
  }

  /** After `markConversationAsRead` the conversation holds nothing `u` has
      not read, and `u`'s total drops by exactly what it held. */
  lemma MarkConversationAsReadUnread(st: ChatStore, id: ConversationId, u: UserId)
    requires FindConversation(st.conversations, id).Some?
    ensures var j := FindConversation(st.conversations, id).value;
      var r := MarkConversationAsRead(st, id, u);
      && UnreadIn(r.conversations[j], u) == 0
      && GetUnreadCount(r, u) == GetUnreadCount(st, u) - UnreadShare(st.conversations[j], u)
  {
    var j := FindConversation(st.conversations, id).value;
    var r := MarkConversationAsRead(st, id, u);
    UnreadInZero(r.conversations[j], u);
    assert r.conversations == st.conversations[j := r.conversations[j]];
    UnreadTotalUpdate(st.conversations, j, r.conversations[j], u);
  }

  /** Marking a conversation read twice is marking it once. */
  lemma MarkConversationAsReadIdempotent(st: ChatStore, id: ConversationId, u: UserId)
    ensures var r := MarkConversationAsRead(st, id, u);
      MarkConversationAsRead(r, id, u) == r
  {
    var r := MarkConversationAsRead(st, id, u);
    if FindConversation(st.conversations, id).Some? {
      var j := FindConversation(st.conversations, id).value;
      assert FindConversation(r.conversations, id) == Some(j);
      var ms := r.conversations[j].messages;
      assert ReadAllFrom(ms, u) == ms;
      assert r.conversations[j := r.conversations[j].(messages := ReadAllFrom(ms, u))] == r.conversations;
    }
  }

  /** The unread counts of `getConversationsForUser` add up to
      `getUnreadCount`. */
  lemma ConversationsForUserAddUp(st: ChatStore, directory: Users.UserStore, u: UserId)
    ensures Sorting.SumOf(GetConversationsForUser(st, directory, u), UnreadCountOf) == GetUnreadCount(st, u)
  {
    var s := SummarizeAll(Collections.Filter(st.conversations, Involves(u)), directory, u);
    Sorting.SortSum(s, MostRecentFirst, UnreadCountOf);
    SummariesAddUp(st.conversations, directory, u);
  }

  function UnreadCountOf(e: ConversationSummary): int
  {
    e.unreadCount
  }

  lemma SummaryCons(c: Conversation, rest: seq<Conversation>, directory: Users.UserStore, u: UserId)
    ensures Sorting.SumOf(SummarizeAll([c] + rest, directory, u), UnreadCountOf)
         == UnreadIn(c, u) + Sorting.SumOf(SummarizeAll(rest, directory, u), UnreadCountOf)
  {
    var s := SummarizeAll([c] + rest, directory, u);
    assert s[1..] == SummarizeAll(rest, directory, u);
  }

  lemma {:induction false} SummariesAddUp(cs: seq<Conversation>, directory: Users.UserStore, u: UserId)
    ensures Sorting.SumOf(SummarizeAll(Collections.Filter(cs, Involves(u)), directory, u), UnreadCountOf)
         == UnreadTotal(cs, u)
  {
    if |cs| > 0 {
      SummariesAddUp(cs[1..], directory, u);
      var rest := Collections.Filter(cs[1..], Involves(u));
      if Involves(u)(cs[0]) {
        assert Collections.Filter(cs, Involves(u)) == [cs[0]] + rest;
        SummaryCons(cs[0], rest, directory, u);
      } else {
        assert Collections.Filter(cs, Involves(u)) == rest;
      }
    }
  }

  // ---------------------------------------------------------------------
  // Queries

  /** The summaries hold exactly the given conversations, each summarized. */
  lemma SummarizeAllMembers(cs: seq<Conversation>, directory: Users.UserStore, u: UserId)
    ensures forall e :: e in SummarizeAll(cs, directory, u) ==>
      e.conversation in cs && e == Summarize(e.conversation, directory, u)
    ensures forall c :: c in cs ==> Summarize(c, directory, u) in SummarizeAll(cs, directory, u)
  {
    var r := SummarizeAll(cs, directory, u);
    forall c | c in cs
      ensures Summarize(c, directory, u) in r
    {
      var i :| 0 <= i < |cs| && cs[i] == c;
      assert r[i] == Summarize(c, directory, u);
    }
  }

  /** `getConversationsForUser` lists exactly the conversations `u` takes
      part in, each summarized for `u`, most recent first. */
  lemma GetConversationsForUserContents(st: ChatStore, directory: Users.UserStore, u: UserId)
    ensures var r := GetConversationsForUser(st, directory, u);
      && (forall e :: e in r ==>
            e.conversation in st.conversations && Includes(e.conversation.participants, u)
            && e == Summarize(e.conversation, directory, u))
      && (forall i :: 0 <= i < |st.conversations| && Includes(st.conversations[i].participants, u) ==>
            Summarize(st.conversations[i], directory, u) in r)
      && Sorting.SortedBy(r, MostRecentFirst)
  {
    var f := Collections.Filter(st.conversations, Involves(u));
    var s := SummarizeAll(f, directory, u);
    Collections.FilterMembers(st.conversations, Involves(u));
    SummarizeAllMembers(f, directory, u);
    Sorting.SortMembers(s, MostRecentFirst);
    MostRecentFirstIsTotalPreorder();
    Sorting.SortSorted(s, MostRecentFirst);
    forall i | 0 <= i < |st.conversations| && Includes(st.conversations[i].participants, u)
      ensures Summarize(st.conversations[i], directory, u) in GetConversationsForUser(st, directory, u)
    {
      assert Involves(u)(st.conversations[i]);
    }
  }

  /** In a valid store `getConversationById` answers exactly when a
      conversation with that id exists and `u` takes part in it. */
  lemma GetConversationByIdAuthorized(st: ChatStore, directory: Users.UserStore, id: ConversationId, u: UserId)
    requires Valid(st)
    ensures GetConversationById(st, directory, id, u).Some? <==>
      exists i :: 0 <= i < |st.conversations| && st.conversations[i].id == id
                  && Includes(st.conversations[i].participants, u)
  {
    if i :| 0 <= i < |st.conversations| && st.conversations[i].id == id && Includes(st.conversations[i].participants, u) {
      var j := FindConversation(st.conversations, id).value;
      assert i == j;
    }
  }

  // ---------------------------------------------------------------------
  // The counterpart's reply

  /** In a valid store, firing a reply timer whose conversation is still
      there appends the replier's unread canned answer, the replier being a
      participant, and marks read exactly the message being answered, which
      is there. */
  lemma DeliverReplyEffect(st: ChatStore, t: nat, choice: nat, now: nat)
    requires Valid(st)
    requires t < |st.scheduled| && choice < |CannedReplies|
    requires FindConversation(st.conversations, st.scheduled[t].conversationId).Some?
    ensures var p := st.scheduled[t];
      var j := FindConversation(st.conversations, p.conversationId).value;
      var (c, c') := (st.conversations[j], DeliverReply(st, t, choice, now).conversations[j]);
      && Includes(c.participants, p.replier)
      && |c'.messages| == |c.messages| + 1
      && c'.messages[|c.messages|]
         == Message(MessageId(st.nextMessageId), p.conversationId, p.replier, CannedReplies[choice], now, false)
      && (exists k :: 0 <= k < |c.messages| && c.messages[k].id == p.originalId)
      && (forall k :: 0 <= k < |c.messages| ==>
            c'.messages[k] == if c.messages[k].id == p.originalId then c.messages[k].(isRead := true) else c.messages[k])
  {
    var p := st.scheduled[t];
    var j := FindConversation(st.conversations, p.conversationId).value;
    var c := st.conversations[j];
    var reply := Message(MessageId(st.nextMessageId), p.conversationId, p.replier, CannedReplies[choice], now, false);
    var ms := c.messages + [reply];
    var table := IdTable(st.conversations);
    assert ScheduledOk(st.conversations, st.nextConversationId, p);
    var k0 :| 0 <= k0 < |Ids(c)| && Ids(c)[k0] == p.originalId;
    assert c.messages[k0].id == p.originalId;
    MessageIdRoundTrip(st.nextMessageId);
    forall k | 0 <= k < |c.messages|
      ensures c.messages[k].id != reply.id
    {
      assert table[j][k] == c.messages[k].id;
      assert IssuedBefore(table[j][k], st.nextMessageId);
    }
    forall k, l | 0 <= k < l < |ms|
      ensures ms[k].id != ms[l].id
    {
      if l < |c.messages| {
        assert table[j][k] == ms[k].id && table[j][l] == ms[l].id;
      }
    }
  }
}
