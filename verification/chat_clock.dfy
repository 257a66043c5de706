/** Message times along a run of chat operations: when the clock the calls
    pass in never goes back, every conversation's messages are in time order
    and its `lastMessageTimestamp` is the latest of them. */
module ChatClock {
  import opened Chat
  import opened ChatHistory

  /** The messages of `c` are in time order, none is later than the
      conversation's stamp, and the stamp is not later than `clock`. */
  ghost predicate Chronological(c: Conversation, clock: nat)
  {
    && (forall k, l :: 0 <= k < l < |c.messages| ==> c.messages[k].timestamp <= c.messages[l].timestamp)
    && (forall k :: 0 <= k < |c.messages| ==> c.messages[k].timestamp <= c.lastMessageTimestamp)
    && c.lastMessageTimestamp <= clock
  }

  ghost predicate TimesOrdered(st: ChatStore, clock: nat)
  {
    forall i :: 0 <= i < |st.conversations| ==> Chronological(st.conversations[i], clock)
  }

  /** The time a call passes in; `markConversationAsRead` reads no clock, so
      the time stays `t`. */
  function Time(op: ChatOp, t: nat): nat
  {
    match op
    case Start(_, _, now) => now
    case Send(_, _, _, now) => now
    case Deliver(_, _, now) => now
    case MarkRead(_, _) => t
  }

  /** Starting at time `t`, the calls pass in times that never go back. */
  predicate ClockFrom(ops: seq<ChatOp>, t: nat)
    decreases |ops|
  {
    |ops| == 0 || (t <= Time(ops[0], t) && ClockFrom(ops[1..], Time(ops[0], t)))
  }

  /** The clock after the calls. */
  function EndClock(ops: seq<ChatOp>, t: nat): nat
    decreases |ops|
  {
    if |ops| == 0 then t else EndClock(ops[1..], Time(ops[0], t))
  }

  /** Changing nothing but read flags keeps a conversation in time order. */
  lemma SameTimesChronological(c: Conversation, c': Conversation, clock: nat)
    requires Chronological(c, clock)
    requires |c'.messages| == |c.messages| && c'.lastMessageTimestamp == c.lastMessageTimestamp
    requires forall k :: 0 <= k < |c.messages| ==> c'.messages[k].timestamp == c.messages[k].timestamp
    ensures Chronological(c', clock)
  {
  }

  /** A message stamped `now`, no earlier than the clock, appended at the end
      with the conversation stamped `now` keeps it in time order. */
  lemma AppendChronological(c: Conversation, c': Conversation, m: Message, clock: nat, now: nat)
    requires Chronological(c, clock) && clock <= now
    requires m.timestamp == now && c'.lastMessageTimestamp == now
    requires |c'.messages| == |c.messages| + 1
    requires forall k :: 0 <= k < |c'.messages| ==> c'.messages[k].timestamp == (c.messages + [m])[k].timestamp
    ensures Chronological(c', now)
  {
    forall k, l | 0 <= k < l < |c'.messages|
      ensures c'.messages[k].timestamp <= c'.messages[l].timestamp
    {
      assert (c.messages + [m])[k] == c.messages[k];
      if l < |c.messages| {
        assert (c.messages + [m])[l] == c.messages[l];
      }
    }
    forall k | 0 <= k < |c'.messages|
      ensures c'.messages[k].timestamp <= now
    {
      if k < |c.messages| {
        assert (c.messages + [m])[k] == c.messages[k];
      }
    }
  }

  lemma StartConversationTimesOrdered(st: ChatStore, a: UserId, b: UserId, now: nat, clock: nat)
    requires a != b
    requires TimesOrdered(st, clock) && clock <= now
    ensures TimesOrdered(StartConversation(st, a, b, now).next, now)
  {
    var r := StartConversation(st, a, b, now);
    if !Connected(st.conversations, a, b) {
      forall i | 0 <= i < |r.next.conversations|
        ensures Chronological(r.next.conversations[i], now)
      {
        if i > 0 {
          assert r.next.conversations[i] == st.conversations[i - 1];
        }
      }
    }
  }

  lemma SendMessageTimesOrdered(st: ChatStore, id: ConversationId, sender: UserId, text: string, now: nat, clock: nat)
    requires TimesOrdered(st, clock) && clock <= now
    ensures TimesOrdered(SendMessage(st, id, sender, text, now).next, now)
  {
    var r := SendMessage(st, id, sender, text, now);
    if r.out.Ok? {
      var j := FindConversation(st.conversations, id).value;
      AppendChronological(st.conversations[j], r.next.conversations[j], r.out.value, clock, now);
    }
  }

  lemma DeliverReplyTimesOrdered(st: ChatStore, t: nat, choice: nat, now: nat, clock: nat)
    requires t < |st.scheduled| && choice < |CannedReplies|
    requires TimesOrdered(st, clock) && clock <= now
    ensures TimesOrdered(DeliverReply(st, t, choice, now), now)
  {
    var p := st.scheduled[t];
    if FindConversation(st.conversations, p.conversationId).Some? {
      var j := FindConversation(st.conversations, p.conversationId).value;
      var c := st.conversations[j];
      var reply := Message(MessageId(st.nextMessageId), p.conversationId, p.replier, CannedReplies[choice], now, false);
      AppendChronological(c, DeliverReply(st, t, choice, now).conversations[j], reply, clock, now);
    }
  }

  /** Marking read changes no time: every conversation keeps its stamp and
      every message its timestamp, so the time order is kept. */
  lemma MarkConversationAsReadTimesOrdered(st: ChatStore, id: ConversationId, u: UserId, clock: nat)
    requires TimesOrdered(st, clock)
    ensures var cs, cs' := st.conversations, MarkConversationAsRead(st, id, u).conversations;
      && |cs'| == |cs|
      && (forall i :: 0 <= i < |cs| ==>
            cs'[i].lastMessageTimestamp == cs[i].lastMessageTimestamp && |cs'[i].messages| == |cs[i].messages|)
      && (forall i, k :: 0 <= i < |cs| && 0 <= k < |cs[i].messages| ==>
            cs'[i].messages[k].timestamp == cs[i].messages[k].timestamp)
    ensures TimesOrdered(MarkConversationAsRead(st, id, u), clock)
  {
    if FindConversation(st.conversations, id).Some? {
      var j := FindConversation(st.conversations, id).value;
      var c := st.conversations[j];
      SameTimesChronological(c, MarkConversationAsRead(st, id, u).conversations[j], clock);
    }
  }

  /** One call, made no earlier than the clock, keeps the store in time
      order up to the call's time. */
  lemma ApplyTimesOrdered(st: ChatStore, op: ChatOp, clock: nat)
    requires Enabled(st, op)
    requires TimesOrdered(st, clock) && clock <= Time(op, clock)
    ensures TimesOrdered(Apply(st, op), Time(op, clock))
  {
    match op
    case Start(a, b, now) => StartConversationTimesOrdered(st, a, b, now, clock);
    case Send(id, sender, text, now) => SendMessageTimesOrdered(st, id, sender, text, now, clock);
    case Deliver(t, choice, now) => DeliverReplyTimesOrdered(st, t, choice, now, clock);
    case MarkRead(id, u) => MarkConversationAsReadTimesOrdered(st, id, u, clock);
  }

  /** Calls whose clock never goes back keep every conversation in time
      order. */
  lemma {:induction false} RunTimesOrdered(st: ChatStore, ops: seq<ChatOp>, clock: nat)
    requires TimesOrdered(st, clock) && ClockFrom(ops, clock)
    ensures Run(st, ops).Some? ==> TimesOrdered(Run(st, ops).value, EndClock(ops, clock))
    decreases |ops|
  {
    if |ops| > 0 && Enabled(st, ops[0]) {
      ApplyTimesOrdered(st, ops[0], clock);
      RunTimesOrdered(Apply(st, ops[0]), ops[1..], Time(ops[0], clock));
    }
  }

  /** From the empty store, under a clock that never goes back, the messages
      of every conversation are in time order and the conversation's stamp
      is that of its latest message or later. */
  lemma ReachableChronological(ops: seq<ChatOp>)
    requires ClockFrom(ops, 0)
    ensures Run(InitialStore, ops).Some? ==>
      var cs := Run(InitialStore, ops).value.conversations;
      && (forall i, k, l :: 0 <= i < |cs| && 0 <= k < l < |cs[i].messages| ==>
            cs[i].messages[k].timestamp <= cs[i].messages[l].timestamp)
      && (forall i, k :: 0 <= i < |cs| && 0 <= k < |cs[i].messages| ==>
            cs[i].messages[k].timestamp <= cs[i].lastMessageTimestamp)
  {
    RunTimesOrdered(InitialStore, ops, 0);
  }
}
