/** Runs of chat operations: the invariant holds after any run from the
    empty store, and along a run every message stays where it was with the
    same content, its read flag only ever going from false to true. */
module ChatHistory {
  import opened Wrappers
  import opened Chat
  import opened ChatInvariants

  /** A message is left alone, or an unread one becomes read. */
  predicate Advanced(m: Message, m': Message)
  {
    m' == m || (!m.isRead && m' == m.(isRead := true))
  }

  /** `c` has the id `id` and, at position `k`, `m` or `m` become read. */
  predicate HoldsAt(c: Conversation, id: ConversationId, k: nat, m: Message)
  {
    c.id == id && k < |c.messages| && Advanced(m, c.messages[k])
  }

  /** Every message of `st` is still in `st'`, in a conversation with the
      same id and at the same position, and has at most become read. */
  ghost predicate Grows(st: ChatStore, st': ChatStore)
  {
    forall i, k :: 0 <= i < |st.conversations| && 0 <= k < |st.conversations[i].messages| ==>
      HeldSomewhere(st'.conversations, st.conversations[i].id, k, st.conversations[i].messages[k])
  }

  /** Some conversation of `cs` holds `m`, advanced, as `HoldsAt` says. */
  ghost predicate HeldSomewhere(cs: seq<Conversation>, id: ConversationId, k: nat, m: Message)
  {
    exists i :: 0 <= i < |cs| && HoldsAt(cs[i], id, k, m)
  }

  /** Every message of `st` is still in `st'`, in a conversation with the
      same id and at the same position, unchanged. */
  ghost predicate Kept(st: ChatStore, st': ChatStore)
  {
    forall i, k :: 0 <= i < |st.conversations| && 0 <= k < |st.conversations[i].messages| ==>
      KeptSomewhere(st'.conversations, st.conversations[i].id, k, st.conversations[i].messages[k])
  }

  ghost predicate KeptSomewhere(cs: seq<Conversation>, id: ConversationId, k: nat, m: Message)
  {
    exists i :: 0 <= i < |cs| && cs[i].id == id && k < |cs[i].messages| && cs[i].messages[k] == m
  }

  /** Conversation by conversation, each message at most became read. */
  ghost predicate AdvancedInPlace(cs: seq<Conversation>, cs': seq<Conversation>)
  {
    && |cs'| == |cs|
    && (forall i :: 0 <= i < |cs| ==> cs'[i].id == cs[i].id && |cs[i].messages| <= |cs'[i].messages|)
    && (forall i, k :: 0 <= i < |cs| && 0 <= k < |cs[i].messages| ==> Advanced(cs[i].messages[k], cs'[i].messages[k]))
  }

  lemma InPlaceGrows(st: ChatStore, st': ChatStore)
    requires AdvancedInPlace(st.conversations, st'.conversations)
    ensures Grows(st, st')
  {
    forall i, k | 0 <= i < |st.conversations| && 0 <= k < |st.conversations[i].messages|
      ensures HeldSomewhere(st'.conversations, st.conversations[i].id, k, st.conversations[i].messages[k])
    {
      assert HoldsAt(st'.conversations[i], st.conversations[i].id, k, st.conversations[i].messages[k]);
    }
  }

  lemma {:induction false} GrowsTransitive(s1: ChatStore, s2: ChatStore, s3: ChatStore)
    requires Grows(s1, s2) && Grows(s2, s3)
    ensures Grows(s1, s3)
  {
    forall i, k | 0 <= i < |s1.conversations| && 0 <= k < |s1.conversations[i].messages|
      ensures HeldSomewhere(s3.conversations, s1.conversations[i].id, k, s1.conversations[i].messages[k])
    {
      var i2 :| 0 <= i2 < |s2.conversations|
                && HoldsAt(s2.conversations[i2], s1.conversations[i].id, k, s1.conversations[i].messages[k]);
      var i3 :| 0 <= i3 < |s3.conversations|
                && HoldsAt(s3.conversations[i3], s2.conversations[i2].id, k, s2.conversations[i2].messages[k]);
      assert HoldsAt(s3.conversations[i3], s1.conversations[i].id, k, s1.conversations[i].messages[k]);
    }
  }

  // ---------------------------------------------------------------------
  // Each transition only advances messages

  lemma StartConversationGrows(st: ChatStore, a: UserId, b: UserId, now: nat)
    requires a != b
    ensures Grows(st, StartConversation(st, a, b, now).next)
    ensures Kept(st, StartConversation(st, a, b, now).next)
  {
    var st' := StartConversation(st, a, b, now).next;
    if !Connected(st.conversations, a, b) {
      forall i, k | 0 <= i < |st.conversations| && 0 <= k < |st.conversations[i].messages|
        ensures HeldSomewhere(st'.conversations, st.conversations[i].id, k, st.conversations[i].messages[k])
        ensures KeptSomewhere(st'.conversations, st.conversations[i].id, k, st.conversations[i].messages[k])
      {
        assert st'.conversations[i + 1] == st.conversations[i];
        assert HoldsAt(st'.conversations[i + 1], st.conversations[i].id, k, st.conversations[i].messages[k]);
      }
    } else {
      InPlaceGrows(st, st');
      forall i, k | 0 <= i < |st.conversations| && 0 <= k < |st.conversations[i].messages|
        ensures KeptSomewhere(st'.conversations, st.conversations[i].id, k, st.conversations[i].messages[k])
      {
        assert st'.conversations[i] == st.conversations[i];
      }
    }
  }

  lemma SendMessageGrows(st: ChatStore, id: ConversationId, sender: UserId, text: string, now: nat)
    ensures Grows(st, SendMessage(st, id, sender, text, now).next)
    ensures Kept(st, SendMessage(st, id, sender, text, now).next)
  {
    var r := SendMessage(st, id, sender, text, now);
    var j := if r.out.Ok? then FindConversation(st.conversations, id).value else 0;
    forall i, k | 0 <= i < |st.conversations| && 0 <= k < |st.conversations[i].messages|
      ensures r.next.conversations[i].id == st.conversations[i].id
      ensures k < |r.next.conversations[i].messages|
      ensures r.next.conversations[i].messages[k] == st.conversations[i].messages[k]
    {
      if r.out.Ok? && i == j {
        assert r.next.conversations[j].messages[k] == (st.conversations[j].messages + [r.out.value])[k];
      }
    }
    InPlaceGrows(st, r.next);
  }

  /** Marking the first message with an id read only advances messages. */
  lemma MarkFirstReadAdvances(msgs: seq<Message>, x: string)
    ensures forall k :: 0 <= k < |msgs| ==> Advanced(msgs[k], MarkFirstRead(msgs, x)[k])
  {
    forall k | 0 <= k < |msgs|
      ensures Advanced(msgs[k], MarkFirstRead(msgs, x)[k])
    {
      if msgs[k].isRead {
        assert msgs[k].(isRead := true) == msgs[k];
      }
    }
  }

  lemma DeliverReplyGrows(st: ChatStore, t: nat, choice: nat, now: nat)
    requires t < |st.scheduled| && choice < |CannedReplies|
    ensures Grows(st, DeliverReply(st, t, choice, now))
  {
    var st' := DeliverReply(st, t, choice, now);
    var p := st.scheduled[t];
    if FindConversation(st.conversations, p.conversationId).Some? {
      var j := FindConversation(st.conversations, p.conversationId).value;
      var c := st.conversations[j];
      var reply := Message(MessageId(st.nextMessageId), p.conversationId, p.replier, CannedReplies[choice], now, false);
      MarkFirstReadAdvances(c.messages + [reply], p.originalId);
      forall i, k | 0 <= i < |st.conversations| && 0 <= k < |st.conversations[i].messages|
        ensures Advanced(st.conversations[i].messages[k], st'.conversations[i].messages[k])
      {
        if i == j {
          assert (c.messages + [reply])[k] == c.messages[k];
        }
      }
    }
    InPlaceGrows(st, st');
  }

  lemma MarkConversationAsReadGrows(st: ChatStore, id: ConversationId, u: UserId)
    ensures Grows(st, MarkConversationAsRead(st, id, u))
  {
    InPlaceGrows(st, MarkConversationAsRead(st, id, u));
  }

  // ---------------------------------------------------------------------
  // Runs

  /** One call into the chat store. */
  datatype ChatOp =
    | Start(a: UserId, b: UserId, now: nat)
    | Send(conversationId: ConversationId, sender: UserId, text: string, now: nat)
    | Deliver(timer: nat, choice: nat, now: nat)
    | MarkRead(conversationId: ConversationId, reader: UserId)

  /** The call can be made: two different users, a pending timer and one of
      the canned replies. */
  predicate Enabled(st: ChatStore, op: ChatOp)
  {
    match op
    case Start(a, b, _) => a != b
    case Send(_, _, _, _) => true
    case Deliver(t, choice, _) => t < |st.scheduled| && choice < |CannedReplies|
    case MarkRead(_, _) => true
  }

  function Apply(st: ChatStore, op: ChatOp): ChatStore
    requires Enabled(st, op)
  {
    match op
    case Start(a, b, now) => StartConversation(st, a, b, now).next
    case Send(id, sender, text, now) => SendMessage(st, id, sender, text, now).next
    case Deliver(t, choice, now) => DeliverReply(st, t, choice, now)
    case MarkRead(id, u) => MarkConversationAsRead(st, id, u)
  }

  /** The store after the calls in order, or `None` when one of them cannot
      be made. */
  function Run(st: ChatStore, ops: seq<ChatOp>): Option<ChatStore>
    decreases |ops|
  {
    if |ops| == 0 then Some(st)
    else if Enabled(st, ops[0]) then Run(Apply(st, ops[0]), ops[1..])
    else None
  }

  lemma ApplyKeepsValid(st: ChatStore, op: ChatOp)
    requires Valid(st) && Enabled(st, op)
    ensures Valid(Apply(st, op))
  {
    match op
    case Start(a, b, now) => StartConversationKeepsValid(st, a, b, now);
    case Send(id, sender, text, now) => SendMessageKeepsValid(st, id, sender, text, now);
    case Deliver(t, choice, now) => DeliverReplyKeepsValid(st, t, choice, now);
    case MarkRead(id, u) => MarkConversationAsReadKeepsValid(st, id, u);
  }

  lemma ApplyGrows(st: ChatStore, op: ChatOp)
    requires Enabled(st, op)
    ensures Grows(st, Apply(st, op))
  {
    match op
    case Start(a, b, now) => StartConversationGrows(st, a, b, now);
    case Send(id, sender, text, now) => SendMessageGrows(st, id, sender, text, now);
    case Deliver(t, choice, now) => DeliverReplyGrows(st, t, choice, now);
    case MarkRead(id, u) => MarkConversationAsReadGrows(st, id, u);
  }

  /** Every store reached from the empty one by any calls is valid. */
  lemma {:induction false} RunKeepsValid(st: ChatStore, ops: seq<ChatOp>)
    requires Valid(st)
    ensures Run(st, ops).Some? ==> Valid(Run(st, ops).value)
    decreases |ops|
  {
    if |ops| > 0 && Enabled(st, ops[0]) {
      ApplyKeepsValid(st, ops[0]);
      RunKeepsValid(Apply(st, ops[0]), ops[1..]);
    }
  }

  lemma ReachableValid(ops: seq<ChatOp>)
    ensures Run(InitialStore, ops).Some? ==> Valid(Run(InitialStore, ops).value)
  {
    InitialStoreValid();
    RunKeepsValid(InitialStore, ops);
  }

  /** Along any run no message is lost or altered, and none becomes unread
      again. */
  lemma {:induction false} RunGrows(st: ChatStore, ops: seq<ChatOp>)
    ensures Run(st, ops).Some? ==> Grows(st, Run(st, ops).value)
    decreases |ops|
  {
    if |ops| == 0 {
      InPlaceGrows(st, st);
    } else if Enabled(st, ops[0]) {
      var st' := Apply(st, ops[0]);
      ApplyGrows(st, ops[0]);
      RunGrows(st', ops[1..]);
      if Run(st', ops[1..]).Some? {
        GrowsTransitive(st, st', Run(st', ops[1..]).value);
      }
    }
  }
}
