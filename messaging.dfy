/**
 * The server's message table: read state, the per-counterpart history and
 * the conversation list.
 */
module Messaging {

  import opened Accounts

  /** A row of `messages`; `timestamp` is the UTC instant of sending. */
  datatype Message = Message(id: nat, senderId: nat, recipientId: nat, content: string, timestamp: int, isRead: bool)

  /** An item of `/messages/history/{user_id}`. */
  datatype MessageOut = MessageOut(id: nat, senderId: nat, recipientId: nat, content: string, timestamp: int, isMe: bool)

  /** An item of `/messages/conversations`. */
  datatype Conversation = Conversation(userId: nat, name: string, lastMessage: string, time: int, unread: nat)

  /** Rows lie in sending order, so table order is an `order_by(timestamp)` order. */
  predicate Chronological(msgs: seq<Message>)
  {
    forall i, j :: 0 <= i < j < |msgs| ==> msgs[i].timestamp <= msgs[j].timestamp
  }

  predicate Between(m: Message, me: nat, other: nat)
  {
    (m.senderId == me && m.recipientId == other) || (m.senderId == other && m.recipientId == me)
  }

  predicate Involves(m: Message, me: nat)
  {
    m.senderId == me || m.recipientId == me
  }

  function Counterpart(m: Message, me: nat): nat
  {
    if m.senderId == me then m.recipientId else m.senderId
  }

  predicate UnreadFromTo(m: Message, from: nat, to: nat)
  {
    m.senderId == from && m.recipientId == to && !m.isRead
  }

  /** The number of unread messages `from` has sent to `to`. */
  function UnreadCount(msgs: seq<Message>, from: nat, to: nat): nat
  {
    if msgs == [] then 0 else (if UnreadFromTo(msgs[0], from, to) then 1 else 0) + UnreadCount(msgs[1..], from, to)
  }

  /** The `update({is_read: True})` of the history route: counterpart-to-me messages become read. */
  function MarkRead(msgs: seq<Message>, me: nat, other: nat): (r: seq<Message>)
    ensures |r| == |msgs|
    ensures forall i :: 0 <= i < |msgs| ==> r[i] == msgs[i].(isRead := r[i].isRead)
    ensures forall i :: 0 <= i < |msgs| ==>
      r[i].isRead == (msgs[i].isRead || (msgs[i].senderId == other && msgs[i].recipientId == me))
  {
    if msgs == [] then []
    else
      var m := msgs[0];
      [if m.senderId == other && m.recipientId == me then m.(isRead := true) else m] + MarkRead(msgs[1..], me, other)
  }

  /** After the history route nothing from the counterpart to me is unread, and no other pair's count moves. */
  lemma {:induction false} MarkReadCounts(msgs: seq<Message>, me: nat, other: nat, from: nat, to: nat)
    ensures UnreadCount(MarkRead(msgs, me, other), other, me) == 0
    ensures (from, to) != (other, me) ==> UnreadCount(MarkRead(msgs, me, other), from, to) == UnreadCount(msgs, from, to)
  {
    if msgs != [] {
      MarkReadCounts(msgs[1..], me, other, from, to);
      assert MarkRead(msgs, me, other)[1..] == MarkRead(msgs[1..], me, other);
    }
  }

  /** `/messages/unread`: every unread message addressed to `to`. */
  function UnreadTo(msgs: seq<Message>, to: nat): nat
  {
    if msgs == [] then 0 else (if msgs[0].recipientId == to && !msgs[0].isRead then 1 else 0) + UnreadTo(msgs[1..], to)
  }

  /** Opening the history with `other` takes exactly that counterpart's unread messages off my total. */
  lemma {:induction false} MarkReadUnreadTo(msgs: seq<Message>, me: nat, other: nat)
    ensures UnreadTo(MarkRead(msgs, me, other), me) + UnreadCount(msgs, other, me) == UnreadTo(msgs, me)
  {
    if msgs != [] {
      MarkReadUnreadTo(msgs[1..], me, other);
      assert MarkRead(msgs, me, other)[1..] == MarkRead(msgs[1..], me, other);
    }
  }

  /** The id SQLite gives a new message: one more than the largest in use. */
  function NextMessageId(msgs: seq<Message>): (id: nat)
    ensures forall m :: m in msgs ==> m.id < id
  {
    if msgs == [] then 1
    else
      var rest := NextMessageId(msgs[1..]);
      assert forall m :: m in msgs ==> m == msgs[0] || m in msgs[1..];
      if msgs[0].id + 1 > rest then msgs[0].id + 1 else rest
  }

  /** Marking read keeps the table chronological. */
  lemma MarkReadChronological(msgs: seq<Message>, me: nat, other: nat)
    requires Chronological(msgs)
    ensures Chronological(MarkRead(msgs, me, other))
  {
    var r := MarkRead(msgs, me, other);
    assert forall i :: 0 <= i < |msgs| ==> r[i].timestamp == msgs[i].timestamp;
  }

  function ToOut(m: Message, me: nat): MessageOut
  {
    MessageOut(m.id, m.senderId, m.recipientId, m.content, m.timestamp, m.senderId == me)
  }

  /** The history query: both directions between me and `other`, in table (timestamp) order. */
  function History(msgs: seq<Message>, me: nat, other: nat): (r: seq<MessageOut>)
    ensures |r| <= |msgs|
  {
    if msgs == [] then []
    else (if Between(msgs[0], me, other) then [ToOut(msgs[0], me)] else []) + History(msgs[1..], me, other)
  }

  /** The history holds exactly the messages between the two users, each marked `is_me` exactly when I sent it. */
  lemma {:induction false} HistoryExactly(msgs: seq<Message>, me: nat, other: nat)
    ensures forall o :: o in History(msgs, me, other) <==> exists m :: m in msgs && Between(m, me, other) && o == ToOut(m, me)
    ensures forall o :: o in History(msgs, me, other) ==> (o.isMe <==> o.senderId == me)
  {
    if msgs != [] {
      HistoryExactly(msgs[1..], me, other);
      assert forall m :: m in msgs <==> m == msgs[0] || m in msgs[1..];
    }
  }

  /** Each history item carries the timestamp of a row of the table. */
  lemma HistoryFromRows(msgs: seq<Message>, me: nat, other: nat)
    ensures forall o :: o in History(msgs, me, other) ==> exists k :: 0 <= k < |msgs| && o.timestamp == msgs[k].timestamp
  {
    HistoryExactly(msgs, me, other);
    forall o | o in History(msgs, me, other) ensures exists k :: 0 <= k < |msgs| && o.timestamp == msgs[k].timestamp {
      var m :| m in msgs && Between(m, me, other) && o == ToOut(m, me);
      var k :| 0 <= k < |msgs| && msgs[k] == m;
    }
  }

  predicate SortedByTime(outs: seq<MessageOut>)
  {
    forall i, j :: 0 <= i < j < |outs| ==> outs[i].timestamp <= outs[j].timestamp
  }

  lemma SortedCons(x: MessageOut, rest: seq<MessageOut>)
    requires SortedByTime(rest)
    requires forall o :: o in rest ==> x.timestamp <= o.timestamp
    ensures SortedByTime([x] + rest)
  {
    var all := [x] + rest;
    forall i, j | 0 <= i < j < |all| ensures all[i].timestamp <= all[j].timestamp {
      assert all[j] == rest[j - 1];
      if i > 0 {
        assert all[i] == rest[i - 1];
      }
    }
  }

  lemma ChronologicalTail(msgs: seq<Message>)
    requires msgs != [] && Chronological(msgs)
    ensures Chronological(msgs[1..])
    ensures forall k :: 0 <= k < |msgs| ==> msgs[0].timestamp <= msgs[k].timestamp
  {
    var tail := msgs[1..];
    forall i, j | 0 <= i < j < |tail| ensures tail[i].timestamp <= tail[j].timestamp {
      assert tail[i] == msgs[i + 1] && tail[j] == msgs[j + 1];
    }
  }

  /** On a chronological table the history is in non-decreasing timestamp order. */
  lemma {:induction false} HistorySorted(msgs: seq<Message>, me: nat, other: nat)
    requires Chronological(msgs)
    ensures SortedByTime(History(msgs, me, other))
  {
    if msgs != [] {
      var tail := msgs[1..];
      ChronologicalTail(msgs);
      HistorySorted(tail, me, other);
      if Between(msgs[0], me, other) {
        HistoryFromRows(tail, me, other);
        var rest := History(tail, me, other);
        forall o | o in rest ensures msgs[0].timestamp <= o.timestamp {
          var k :| 0 <= k < |tail| && o.timestamp == tail[k].timestamp;
          assert tail[k] == msgs[k + 1];
        }
        SortedCons(ToOut(msgs[0], me), rest);
      }
    }
  }

  // ---------------------------------------------------------------------------
  // The conversation list

  /**
   * The loop of `get_conversations` over the rows below position `i`, taken
   * newest first: a counterpart seen before is skipped; a counterpart without
   * a user row is marked seen and skipped; otherwise it yields an entry with
   * that message as its last one and the count of its unread messages to me.
   */
  function ConversationsUpTo(msgs: seq<Message>, i: nat, me: nat, users: map<nat, User>, doctors: seq<Doctor>,
                             all: seq<Message>, seen: set<nat>): seq<Conversation>
    requires i <= |msgs|
  {
    if i == 0 then []
    else
      var m := msgs[i - 1];
      if !Involves(m, me) then ConversationsUpTo(msgs, i - 1, me, users, doctors, all, seen)
      else
        var other := Counterpart(m, me);
        if other in seen then ConversationsUpTo(msgs, i - 1, me, users, doctors, all, seen)
        else if other !in users then ConversationsUpTo(msgs, i - 1, me, users, doctors, all, seen + {other})
        else
          [Conversation(other, DisplayName(users[other], doctors), m.content, m.timestamp, UnreadCount(all, other, me))]
          + ConversationsUpTo(msgs, i - 1, me, users, doctors, all, seen + {other})
  }

  /** Message `k` is the newest one below position `i` exchanged with `u`. */
  predicate NewestWith(msgs: seq<Message>, i: nat, me: nat, u: nat, k: nat)
    requires i <= |msgs|
  {
    k < i && Involves(msgs[k], me) && Counterpart(msgs[k], me) == u
    && forall j :: k < j < i ==> !(Involves(msgs[j], me) && Counterpart(msgs[j], me) == u)
  }

  /**
   * Each entry is a counterpart not seen before, with a user row, carrying the
   * newest message exchanged with it and its unread count to me; no two
   * entries share a counterpart.
   */
  lemma {:induction false} ConversationsSound(msgs: seq<Message>, i: nat, me: nat, users: map<nat, User>,
                                             doctors: seq<Doctor>, all: seq<Message>, seen: set<nat>)
    requires i <= |msgs|
    ensures var cs := ConversationsUpTo(msgs, i, me, users, doctors, all, seen);
      (forall c :: c in cs ==>
         (c.userId !in seen && c.userId in users
          && c.name == DisplayName(users[c.userId], doctors)
          && c.unread == UnreadCount(all, c.userId, me)
          && exists k: nat :: NewestWith(msgs, i, me, c.userId, k) && c.lastMessage == msgs[k].content && c.time == msgs[k].timestamp))
      && (forall a, b :: 0 <= a < b < |cs| ==> cs[a].userId != cs[b].userId)
  {
    if i > 0 {
      var m := msgs[i - 1];
      var other := Counterpart(m, me);
      var seen' := if Involves(m, me) && other !in seen then seen + {other} else seen;
      ConversationsSound(msgs, i - 1, me, users, doctors, all, seen');
      var rest := ConversationsUpTo(msgs, i - 1, me, users, doctors, all, seen');
      forall c | c in rest
        ensures exists k: nat :: NewestWith(msgs, i, me, c.userId, k) && c.lastMessage == msgs[k].content && c.time == msgs[k].timestamp
      {
        var k: nat :| NewestWith(msgs, i - 1, me, c.userId, k) && c.lastMessage == msgs[k].content && c.time == msgs[k].timestamp;
        assert NewestWith(msgs, i, me, c.userId, k);
      }
      if Involves(m, me) && other !in seen && other in users {
        assert NewestWith(msgs, i, me, other, i - 1);
      }
    }
  }

  /** Every counterpart with a user row that was not seen before gets an entry. */
  lemma {:induction false} ConversationsComplete(msgs: seq<Message>, i: nat, me: nat, users: map<nat, User>,
                                                doctors: seq<Doctor>, all: seq<Message>, seen: set<nat>, k: nat)
    requires i <= |msgs| && k < i
    requires Involves(msgs[k], me) && Counterpart(msgs[k], me) !in seen && Counterpart(msgs[k], me) in users
    ensures exists c :: c in ConversationsUpTo(msgs, i, me, users, doctors, all, seen) && c.userId == Counterpart(msgs[k], me)
  {
    var m := msgs[i - 1];
    var other := Counterpart(m, me);
    var cs := ConversationsUpTo(msgs, i, me, users, doctors, all, seen);
    if Involves(m, me) && other == Counterpart(msgs[k], me) {
      assert cs[0].userId == other;
    } else {
      var seen' := if Involves(m, me) && other !in seen then seen + {other} else seen;
      ConversationsComplete(msgs, i - 1, me, users, doctors, all, seen', k);
      var rest := ConversationsUpTo(msgs, i - 1, me, users, doctors, all, seen');
      assert forall c :: c in rest ==> c in cs;
    }
  }

  /** On a chronological table the entries run from the most recent exchange to the oldest. */
  lemma {:induction false} ConversationsNewestFirst(msgs: seq<Message>, i: nat, me: nat, users: map<nat, User>,
                                                   doctors: seq<Doctor>, all: seq<Message>, seen: set<nat>)
    requires i <= |msgs| && Chronological(msgs)
    ensures var cs := ConversationsUpTo(msgs, i, me, users, doctors, all, seen);
      (forall c :: c in cs ==> exists k: nat :: k < i && c.time == msgs[k].timestamp)
      && (forall a, b :: 0 <= a < b < |cs| ==> cs[a].time >= cs[b].time)
  {
    if i > 0 {
      var m := msgs[i - 1];
      var other := Counterpart(m, me);
      var seen' := if Involves(m, me) && other !in seen then seen + {other} else seen;
      ConversationsNewestFirst(msgs, i - 1, me, users, doctors, all, seen');
      var rest := ConversationsUpTo(msgs, i - 1, me, users, doctors, all, seen');
      var cs := ConversationsUpTo(msgs, i, me, users, doctors, all, seen);
      forall c | c in rest ensures c.time <= m.timestamp {
        var k: nat :| k < i - 1 && c.time == msgs[k].timestamp;
      }
      if Involves(m, me) && other !in seen && other in users {
        assert cs == [cs[0]] + rest;
        NewestConsStaysOrdered(cs[0], rest);
      } else {
        assert cs == rest;
      }
    }
  }

  /** An entry no older than any in a newest-first list keeps it newest-first when put in front. */
  lemma NewestConsStaysOrdered(c: Conversation, rest: seq<Conversation>)
    requires forall x :: x in rest ==> x.time <= c.time
    requires forall a, b :: 0 <= a < b < |rest| ==> rest[a].time >= rest[b].time
    ensures forall a, b :: 0 <= a < b < |[c] + rest| ==> ([c] + rest)[a].time >= ([c] + rest)[b].time
  {
    var cs := [c] + rest;
    forall a, b | 0 <= a < b < |cs| ensures cs[a].time >= cs[b].time {
      if a == 0 { assert cs[b] == rest[b - 1] && cs[b] in rest; }
      else { assert cs[a] == rest[a - 1] && cs[b] == rest[b - 1]; }
    }
  }
}
