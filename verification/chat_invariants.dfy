/** The invariants every reachable chat store keeps, and the proofs that each
    transition keeps them: unique conversation ids, one conversation per pair
    of users, unique message ids, and scheduled replies that point at a
    conversation and message that exist. */
module ChatInvariants {
  import opened Wrappers
  import opened Chat

  /** The ids of a conversation's messages, in order. */
  function Ids(c: Conversation): (r: seq<string>)
    ensures |r| == |c.messages|
    ensures forall k :: 0 <= k < |r| ==> r[k] == c.messages[k].id
  {
    seq(|c.messages|, k requires 0 <= k < |c.messages| => c.messages[k].id)
  }

  /** The message ids of the whole store, one row per conversation. */
  function IdTable(cs: seq<Conversation>): (r: seq<seq<string>>)
    ensures |r| == |cs|
    ensures forall i :: 0 <= i < |r| ==> r[i] == Ids(cs[i])
  {
    seq(|cs|, i requires 0 <= i < |cs| => Ids(cs[i]))
  }

  /** No id occurs at two places of the table. */
  ghost predicate UniqueTable(t: seq<seq<string>>)
  {
    forall i, k, j, l ::
      (0 <= i < |t| && 0 <= k < |t[i]| && 0 <= j < |t| && 0 <= l < |t[j]| && t[i][k] == t[j][l])
      ==> i == j && k == l
  }

  /** Every id of the table came from the counter before it reached `next`. */
  ghost predicate AllIssued(t: seq<seq<string>>, next: nat)
  {
    forall i, k :: 0 <= i < |t| && 0 <= k < |t[i]| ==> IssuedBefore(t[i][k], next)
  }

  /** Two participant pairs hold the same two users, in either order. */
  predicate SamePair(p: Participants, q: Participants)
  {
    Includes(q, p.first) && Includes(q, p.second)
  }

  ghost predicate ConversationsValid(st: ChatStore)
  {
    && (forall i :: 0 <= i < |st.conversations| ==> st.conversations[i].id < st.nextConversationId)
    && (forall i, j :: 0 <= i < j < |st.conversations| ==> st.conversations[i].id != st.conversations[j].id)
    && (forall i, j :: 0 <= i < j < |st.conversations| ==>
          !SamePair(st.conversations[i].participants, st.conversations[j].participants))
    && (forall i :: 0 <= i < |st.conversations| && st.conversations[i].typingUser.Some? ==>
          Includes(st.conversations[i].participants, st.conversations[i].typingUser.value))
  }

  /** Every message names the conversation holding it as its owner. */
  ghost predicate OwnersMatch(cs: seq<Conversation>)
  {
    forall i, k :: 0 <= i < |cs| && 0 <= k < |cs[i].messages| ==> cs[i].messages[k].conversationId == cs[i].id
  }

  ghost predicate MessagesValid(st: ChatStore)
  {
    && OwnersMatch(st.conversations)
    && AllIssued(IdTable(st.conversations), st.nextMessageId)
    && UniqueTable(IdTable(st.conversations))
  }

  /** A scheduled reply names a conversation that was created, and in that
      conversation the replier takes part and the original message is there. */
  ghost predicate ScheduledOk(cs: seq<Conversation>, nextConversationId: int, e: ScheduledReply)
  {
    && e.conversationId < nextConversationId
    && forall i :: 0 <= i < |cs| && cs[i].id == e.conversationId ==>
         Includes(cs[i].participants, e.replier) && e.originalId in Ids(cs[i])
  }

  ghost predicate ScheduledValid(st: ChatStore)
  {
    forall t :: 0 <= t < |st.scheduled| ==> ScheduledOk(st.conversations, st.nextConversationId, st.scheduled[t])
  }

  /** A store whose conversations keep their ids and participants, and whose
      message ids only grow at the end, keeps every scheduled reply valid. */
  lemma ScheduledOkKept(cs: seq<Conversation>, cs': seq<Conversation>, n: int, e: ScheduledReply)
    requires ScheduledOk(cs, n, e)
    requires |cs'| == |cs|
    requires forall i :: 0 <= i < |cs| ==>
      cs'[i].id == cs[i].id && cs'[i].participants == cs[i].participants && Ids(cs[i]) <= Ids(cs'[i])
    ensures ScheduledOk(cs', n, e)
  {
    forall i | 0 <= i < |cs'| && cs'[i].id == e.conversationId
      ensures Includes(cs'[i].participants, e.replier) && e.originalId in Ids(cs'[i])
    {
      var k :| 0 <= k < |Ids(cs[i])| && Ids(cs[i])[k] == e.originalId;
      assert Ids(cs'[i])[k] == e.originalId;
    }
  }

  /** The invariant of every store reachable from the initial one. */
  ghost predicate Valid(st: ChatStore)
  {
    ConversationsValid(st) && MessagesValid(st) && ScheduledValid(st)
  }

  /** The store starts with no conversation and no pending reply; the first
      conversation gets id 1 and the first message id `msg1`. */
  lemma InitialStoreValid()
    ensures Valid(InitialStore)
    ensures InitialStore.conversations == [] && InitialStore.scheduled == []
    ensures InitialStore.nextConversationId == 1 && MessageId(InitialStore.nextMessageId) == "msg1"
  {
  }

  // ---------------------------------------------------------------------
  // Id table facts

  lemma UniquePrependEmpty(t: seq<seq<string>>)
    requires UniqueTable(t)
    ensures UniqueTable([[]] + t)
  {
    var t' := [[]] + t;
    forall i, k, j, l |
      0 <= i < |t'| && 0 <= k < |t'[i]| && 0 <= j < |t'| && 0 <= l < |t'[j]| && t'[i][k] == t'[j][l]
      ensures i == j && k == l
    {
      assert t'[i] == t[i - 1] && t'[j] == t[j - 1];
    }
  }

  /** Appending an id the counter has just handed out keeps ids unique. */
  lemma UniqueAppendFresh(t: seq<seq<string>>, j: nat, next: nat)
    requires j < |t|
    requires UniqueTable(t) && AllIssued(t, next)
    ensures var t' := t[j := t[j] + [MessageId(next)]];
            UniqueTable(t') && AllIssued(t', next + 1)
  {
    var x := MessageId(next);
    var t' := t[j := t[j] + [x]];
    MessageIdRoundTrip(next);
    forall i, k, i2, l |
      0 <= i < |t'| && 0 <= k < |t'[i]| && 0 <= i2 < |t'| && 0 <= l < |t'[i2]| && t'[i][k] == t'[i2][l]
      ensures i == i2 && k == l
    {
      var newK := i == j && k == |t[j]|;
      var newL := i2 == j && l == |t[j]|;
      if newK && !newL {
        assert t'[i2][l] == t[i2][l];
        assert IssuedBefore(t[i2][l], next);
      } else if newL && !newK {
        assert t'[i][k] == t[i][k];
        assert IssuedBefore(t[i][k], next);
      } else if !newK && !newL {
        assert t'[i][k] == t[i][k] && t'[i2][l] == t[i2][l];
      }
    }
  }

  // ---------------------------------------------------------------------
  // Each transition keeps the invariant

  /** Prepending a conversation with a fresh id and a new pair keeps the
      conversations distinct. */
  lemma PrependKeepsPairsDistinct(cs: seq<Conversation>, c: Conversation)
    requires forall i, j :: 0 <= i < j < |cs| ==> !SamePair(cs[i].participants, cs[j].participants)
    requires forall i :: 0 <= i < |cs| ==> !SamePair(c.participants, cs[i].participants)
    ensures var cs' := [c] + cs;
      forall i, j :: 0 <= i < j < |cs'| ==> !SamePair(cs'[i].participants, cs'[j].participants)
  {
    var cs' := [c] + cs;
    forall i, j | 0 <= i < j < |cs'|
      ensures !SamePair(cs'[i].participants, cs'[j].participants)
    {
      assert cs'[j] == cs[j - 1];
      if i > 0 {
        assert cs'[i] == cs[i - 1];
      }
    }
  }

  /** Prepending a conversation whose id no scheduled reply names keeps the
      scheduled replies valid. */
  lemma PrependKeepsScheduled(cs: seq<Conversation>, c: Conversation, n: int, e: ScheduledReply)
    requires ScheduledOk(cs, n, e)
    requires c.id == n
    ensures ScheduledOk([c] + cs, n + 1, e)
  {
    var cs' := [c] + cs;
    forall i | 0 <= i < |cs'| && cs'[i].id == e.conversationId
      ensures Includes(cs'[i].participants, e.replier) && e.originalId in Ids(cs'[i])
    {
      assert cs'[i] == cs[i - 1];
    }
  }

  /** The store with a new, empty conversation `c` in front. */
  function Prepended(st: ChatStore, c: Conversation): ChatStore
  {
    ChatStore([c] + st.conversations, st.nextConversationId + 1, st.nextMessageId, st.scheduled)
  }

  lemma PrependKeepsConversationsValid(st: ChatStore, c: Conversation)
    requires ConversationsValid(st)
    requires c.id == st.nextConversationId && c.typingUser == None
    requires forall i :: 0 <= i < |st.conversations| ==> !SamePair(c.participants, st.conversations[i].participants)
    ensures ConversationsValid(Prepended(st, c))
  {
    var cs' := Prepended(st, c).conversations;
    PrependKeepsPairsDistinct(st.conversations, c);
    forall i, j | 0 <= i < j < |cs'|
      ensures cs'[i].id != cs'[j].id
    {
      assert cs'[j] == st.conversations[j - 1];
      if i > 0 {
        assert cs'[i] == st.conversations[i - 1];
      }
    }
  }

  lemma PrependKeepsMessagesValid(st: ChatStore, c: Conversation)
    requires MessagesValid(st)
    requires c.messages == []
    ensures MessagesValid(Prepended(st, c))
  {
    var cs := st.conversations;
    var cs' := Prepended(st, c).conversations;
    assert IdTable(cs') == [[]] + IdTable(cs);
    UniquePrependEmpty(IdTable(cs));
    forall i, k | 0 <= i < |cs'| && 0 <= k < |cs'[i].messages|
      ensures cs'[i].messages[k].conversationId == cs'[i].id
    {
      assert cs'[i] == cs[i - 1];
    }
  }

  /** A new, empty conversation for a new pair with the next id keeps the
      invariant. */
  lemma PrependKeepsValid(st: ChatStore, c: Conversation)
    requires Valid(st)
    requires c.id == st.nextConversationId && c.messages == [] && c.typingUser == None
    requires forall i :: 0 <= i < |st.conversations| ==> !SamePair(c.participants, st.conversations[i].participants)
    ensures Valid(Prepended(st, c))
  {
    var st' := Prepended(st, c);
    PrependKeepsConversationsValid(st, c);
    PrependKeepsMessagesValid(st, c);
    forall t | 0 <= t < |st'.scheduled|
      ensures ScheduledOk(st'.conversations, st'.nextConversationId, st'.scheduled[t])
    {
      PrependKeepsScheduled(st.conversations, c, st.nextConversationId, st.scheduled[t]);
    }
  }

  lemma StartConversationKeepsValid(st: ChatStore, a: UserId, b: UserId, now: nat)
    requires a != b
    requires Valid(st)
    ensures Valid(StartConversation(st, a, b, now).next)
  {
    var r := StartConversation(st, a, b, now);
    if !Connected(st.conversations, a, b) {
      var cs := st.conversations;
      forall i | 0 <= i < |cs|
        ensures !SamePair(r.out.participants, cs[i].participants)
      {
        assert !Between(a, b)(cs[i]);
      }
      PrependKeepsValid(st, r.out);
      assert r.next == Prepended(st, r.out);
    }
  }

  /** Replacing one conversation by one with the same id, participants and
      a participant (or nobody) typing keeps the conversation clauses. */
  lemma ReplaceKeepsConversationsValid(st: ChatStore, st': ChatStore, j: nat, c': Conversation)
    requires ConversationsValid(st)
    requires j < |st.conversations|
    requires st'.conversations == st.conversations[j := c'] && st'.nextConversationId == st.nextConversationId
    requires c'.id == st.conversations[j].id && c'.participants == st.conversations[j].participants
    requires c'.typingUser.Some? ==> Includes(c'.participants, c'.typingUser.value)
    ensures ConversationsValid(st')
  {
  }

  /** Replacing one conversation by one whose messages all name it keeps
      every message's owner right. */
  lemma ReplaceKeepsOwners(cs: seq<Conversation>, j: nat, c': Conversation)
    requires OwnersMatch(cs)
    requires j < |cs| && c'.id == cs[j].id
    requires forall k :: 0 <= k < |c'.messages| ==> c'.messages[k].conversationId == c'.id
    ensures OwnersMatch(cs[j := c'])
  {
  }

  /** Replacing one conversation by one whose ids are the old ones plus the
      id just handed out keeps ids unique and issued. */
  lemma ReplaceKeepsIds(cs: seq<Conversation>, j: nat, c': Conversation, next: nat)
    requires j < |cs|
    requires UniqueTable(IdTable(cs)) && AllIssued(IdTable(cs), next)
    requires Ids(c') == Ids(cs[j]) + [MessageId(next)]
    ensures UniqueTable(IdTable(cs[j := c'])) && AllIssued(IdTable(cs[j := c']), next + 1)
  {
    assert IdTable(cs[j := c']) == IdTable(cs)[j := IdTable(cs)[j] + [MessageId(next)]];
    UniqueAppendFresh(IdTable(cs), j, next);
  }

  /** Replacing conversations by ones with the same ids and participants
      whose ids only grow keeps the old scheduled replies valid. */
  lemma GrowingKeepsScheduled(cs: seq<Conversation>, cs': seq<Conversation>, n: int, s: seq<ScheduledReply>, old_: seq<ScheduledReply>)
    requires forall t :: 0 <= t < |old_| ==> ScheduledOk(cs, n, old_[t])
    requires forall t :: 0 <= t < |s| ==> s[t] in old_
    requires |cs'| == |cs|
    requires forall i :: 0 <= i < |cs| ==>
      cs'[i].id == cs[i].id && cs'[i].participants == cs[i].participants && Ids(cs[i]) <= Ids(cs'[i])
    ensures forall t :: 0 <= t < |s| ==> ScheduledOk(cs', n, s[t])
  {
    forall t | 0 <= t < |s|
      ensures ScheduledOk(cs', n, s[t])
    {
      var t0 :| 0 <= t0 < |old_| && old_[t0] == s[t];
      ScheduledOkKept(cs, cs', n, s[t]);
    }
  }

  /** Replacing one conversation by one with the same id and participants
      whose ids are the old ones plus the id the counter hands out next keeps
      the conversation and message clauses and every old scheduled reply. */
  lemma ReplaceFreshIdKeepsValid(st: ChatStore, st': ChatStore, j: nat, c': Conversation)
    requires Valid(st)
    requires j < |st.conversations|
    requires st'.conversations == st.conversations[j := c']
    requires st'.nextConversationId == st.nextConversationId && st'.nextMessageId == st.nextMessageId + 1
    requires c'.id == st.conversations[j].id && c'.participants == st.conversations[j].participants
    requires c'.typingUser.Some? ==> Includes(c'.participants, c'.typingUser.value)
    requires Ids(c') == Ids(st.conversations[j]) + [MessageId(st.nextMessageId)]
    requires forall k :: 0 <= k < |c'.messages| ==> c'.messages[k].conversationId == c'.id
    ensures ConversationsValid(st') && MessagesValid(st')
    ensures forall t :: 0 <= t < |st.scheduled| ==> ScheduledOk(st'.conversations, st'.nextConversationId, st.scheduled[t])
  {
    var cs := st.conversations;
    ReplaceKeepsConversationsValid(st, st', j, c');
    ReplaceKeepsOwners(cs, j, c');
    ReplaceKeepsIds(cs, j, c', st.nextMessageId);
    GrowingKeepsScheduled(cs, st'.conversations, st.nextConversationId, st.scheduled, st.scheduled);
  }

  lemma SendMessageKeepsValid(st: ChatStore, id: ConversationId, sender: UserId, text: string, now: nat)
    requires Valid(st)
    ensures Valid(SendMessage(st, id, sender, text, now).next)
  {
    var r := SendMessage(st, id, sender, text, now);
    if r.out.Ok? {
      var cs := st.conversations;
      var j := FindConversation(cs, id).value;
      var cs' := r.next.conversations;
      var x := MessageId(st.nextMessageId);
      assert cs' == cs[j := cs'[j]];
      assert Ids(cs'[j]) == Ids(cs[j]) + [x];
      ReplaceFreshIdKeepsValid(st, r.next, j, cs'[j]);
      var s' := r.next.scheduled;
      var e := s'[|st.scheduled|];
      forall i | 0 <= i < |cs'| && cs'[i].id == e.conversationId
        ensures Includes(cs'[i].participants, e.replier) && e.originalId in Ids(cs'[i])
      {
        assert i == j;
        assert Ids(cs'[j])[|cs[j].messages|] == x;
      }
      assert ScheduledOk(cs', r.next.nextConversationId, e);
      assert ScheduledValid(r.next) by {
        forall t | 0 <= t < |s'|
          ensures ScheduledOk(cs', r.next.nextConversationId, s'[t])
        {
          if t < |st.scheduled| {
            assert s'[t] == st.scheduled[t];
          }
        }
      }
    }
  }

  /** Marking a message read changes no id and no owner. */
  lemma MarkFirstReadKeepsIds(msgs: seq<Message>, x: string)
    ensures var r := MarkFirstRead(msgs, x);
      && (forall k :: 0 <= k < |msgs| ==> r[k].id == msgs[k].id)
      && (forall k :: 0 <= k < |msgs| ==> r[k].conversationId == msgs[k].conversationId)
  {
  }

  /** Firing a timer leaves the other timers scheduled. */
  lemma UnscheduleKeepsOthers(s: seq<ScheduledReply>, t: nat)
    requires t < |s|
    ensures forall u :: 0 <= u < |Unschedule(s, t)| ==> Unschedule(s, t)[u] in s
  {
    var r := Unschedule(s, t);
    forall u | 0 <= u < |r|
      ensures r[u] in s
    {
      assert r[u] in multiset(r);
    }
  }

  /** The conversation after the reply: same id and participants, its ids
      those of before plus the fresh one, every message its own. */
  lemma DeliveredConversation(st: ChatStore, t: nat, choice: nat, now: nat, j: nat)
    requires t < |st.scheduled| && choice < |CannedReplies|
    requires OwnersMatch(st.conversations)
    requires FindConversation(st.conversations, st.scheduled[t].conversationId) == Some(j)
    ensures var (c, c') := (st.conversations[j], DeliverReply(st, t, choice, now).conversations[j]);
      && Ids(c') == Ids(c) + [MessageId(st.nextMessageId)]
      && (forall k :: 0 <= k < |c'.messages| ==> c'.messages[k].conversationId == c'.id)
  {
    var p := st.scheduled[t];
    var c := st.conversations[j];
    var c' := DeliverReply(st, t, choice, now).conversations[j];
    var reply := Message(MessageId(st.nextMessageId), p.conversationId, p.replier, CannedReplies[choice], now, false);
    MarkFirstReadKeepsIds(c.messages + [reply], p.originalId);
    forall k | 0 <= k < |c'.messages|
      ensures c'.messages[k].conversationId == c'.id
    {
      if k < |c.messages| {
        assert (c.messages + [reply])[k] == c.messages[k];
      }
    }
    assert Ids(c') == Ids(c) + [MessageId(st.nextMessageId)];
  }

  lemma DeliverReplyKeepsValid(st: ChatStore, t: nat, choice: nat, now: nat)
    requires t < |st.scheduled| && choice < |CannedReplies|
    requires Valid(st)
    ensures Valid(DeliverReply(st, t, choice, now))
  {
    var st' := DeliverReply(st, t, choice, now);
    var p := st.scheduled[t];
    var cs := st.conversations;
    var cs' := st'.conversations;
    UnscheduleKeepsOthers(st.scheduled, t);
    if FindConversation(cs, p.conversationId).Some? {
      var j := FindConversation(cs, p.conversationId).value;
      DeliveredConversation(st, t, choice, now, j);
      assert cs' == cs[j := cs'[j]];
      ReplaceFreshIdKeepsValid(st, st', j, cs'[j]);
    } else {
      GrowingKeepsScheduled(cs, cs, st.nextConversationId, st'.scheduled, st.scheduled);
    }
  }

  /** Replacing one conversation by one with the same id, participants,
      typing user and message ids, whose messages all name it, keeps the
      invariant. */
  lemma ReplaceSameIdsKeepsValid(st: ChatStore, st': ChatStore, j: nat, c': Conversation)
    requires Valid(st)
    requires j < |st.conversations|
    requires st' == st.(conversations := st.conversations[j := c'])
    requires c' == st.conversations[j].(messages := c'.messages)
    requires Ids(c') == Ids(st.conversations[j])
    requires forall k :: 0 <= k < |c'.messages| ==> c'.messages[k].conversationId == c'.id
    ensures Valid(st')
  {
    var cs := st.conversations;
    ReplaceKeepsConversationsValid(st, st', j, c');
    ReplaceKeepsOwners(cs, j, c');
    assert IdTable(st'.conversations) == IdTable(cs);
    GrowingKeepsScheduled(cs, st'.conversations, st.nextConversationId, st.scheduled, st.scheduled);
  }

  lemma MarkConversationAsReadKeepsValid(st: ChatStore, id: ConversationId, u: UserId)
    requires Valid(st)
    ensures Valid(MarkConversationAsRead(st, id, u))
  {
    if FindConversation(st.conversations, id).Some? {
      var j := FindConversation(st.conversations, id).value;
      var c := st.conversations[j];
      var c' := c.(messages := ReadAllFrom(c.messages, u));
      assert Ids(c') == Ids(c);
      ReplaceSameIdsKeepsValid(st, MarkConversationAsRead(st, id, u), j, c');
    }
  }
}
