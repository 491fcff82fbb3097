/**
 * The client's internal messaging: the conversation sidebar, the unread
 * badge, and the guards of the chat actions.
 */
module Chat {

  import opened Wrappers
  import opened TimeDate
  import opened Accounts
  import opened Messaging

  /** The characters JavaScript's `String.prototype.trim` removes. */
  predicate IsJsWhitespace(c: char)
  {
    c == '\t' || c == '\n' || c == '\U{000B}' || c == '\U{000C}' || c == '\r' || c == ' '
    || c == '\U{00A0}' || c == '\U{1680}' || ('\U{2000}' <= c <= '\U{200A}')
    || c == '\U{2028}' || c == '\U{2029}' || c == '\U{202F}' || c == '\U{205F}' || c == '\U{3000}' || c == '\U{FEFF}'
  }

  function JsTrimStart(s: string): (r: string)
    ensures |r| <= |s| && r == s[|s| - |r|..]
    ensures forall i :: 0 <= i < |s| - |r| ==> IsJsWhitespace(s[i])
    ensures r != [] ==> !IsJsWhitespace(r[0])
  {
    if s != [] && IsJsWhitespace(s[0]) then JsTrimStart(s[1..]) else s
  }

  function JsTrimEnd(s: string): (r: string)
    ensures |r| <= |s| && r == s[..|r|]
    ensures forall i :: |r| <= i < |s| ==> IsJsWhitespace(s[i])
    ensures r != [] ==> !IsJsWhitespace(r[|r| - 1])
  {
    if s != [] && IsJsWhitespace(s[|s| - 1]) then JsTrimEnd(s[..|s| - 1]) else s
  }

  /** `s.trim()`. */
  function JsTrim(s: string): (r: string)
    ensures r != [] ==> !IsJsWhitespace(r[0]) && !IsJsWhitespace(r[|r| - 1])
    ensures r == [] <==> forall i :: 0 <= i < |s| ==> IsJsWhitespace(s[i])
  {
    var a := JsTrimStart(s);
    var r := JsTrimEnd(a);
    assert r == [] ==> a == [];
    r
  }

  // ---------------------------------------------------------------------------
  // Views

  /** A sidebar entry as drawn. */
  datatype ChatItem = ChatItem(userId: nat, active: bool, name: string, preview: string, badge: Option<nat>)

  datatype ChatList = NoConversations | Items(items: seq<ChatItem>)

  function ItemOf(c: Conversation, activeChatUserId: Option<int>): (it: ChatItem)
    ensures it.userId == c.userId
    ensures it.active <==> activeChatUserId == Some(c.userId as int)
    ensures it.name == (if c.name != "" then c.name else "User " + NatToString(c.userId))
    ensures it.preview == (if c.lastMessage != "" then c.lastMessage else "Start chatting...")
    ensures it.badge.Some? <==> c.unread > 0
    ensures it.badge.Some? ==> it.badge.value == c.unread
  {
    ChatItem(c.userId, activeChatUserId == Some(c.userId as int),
             if c.name != "" then c.name else "User " + NatToString(c.userId),
             if c.lastMessage != "" then c.lastMessage else "Start chatting...",
             if c.unread > 0 then Some(c.unread) else None)
  }

  /** `renderChatList`: a placeholder for no conversations, else one entry per conversation in order. */
  function RenderChatList(convs: Option<seq<Conversation>>, activeChatUserId: Option<int>): (r: ChatList)
    ensures r == NoConversations <==> convs.None? || convs.value == []
    ensures r.Items? ==> (|r.items| == |convs.value|
                          && forall k :: 0 <= k < |convs.value| ==> r.items[k] == ItemOf(convs.value[k], activeChatUserId))
  {
    if convs.None? || convs.value == [] then NoConversations
    else Items(seq(|convs.value|, k requires 0 <= k < |convs.value| => ItemOf(convs.value[k], activeChatUserId)))
  }

  /**
   * Drawn from the server's conversation list, the sidebar highlights at most
   * one entry, the open chat's, and badges exactly the counterparts with
   * unread messages to me.
   */
  lemma SidebarOfServerList(msgs: seq<Message>, me: nat, users: map<nat, User>, doctors: seq<Doctor>,
                            activeChatUserId: Option<int>, a: nat, b: nat)
    ensures var cs := ConversationsUpTo(msgs, |msgs|, me, users, doctors, msgs, {});
      var r := RenderChatList(Some(cs), activeChatUserId);
      r.Items? ==>
        ((a < b < |r.items| ==> !(r.items[a].active && r.items[b].active))
         && (forall k :: 0 <= k < |r.items| ==> (r.items[k].badge.Some? <==> UnreadCount(msgs, r.items[k].userId, me) > 0)))
  {
    var cs := ConversationsUpTo(msgs, |msgs|, me, users, doctors, msgs, {});
    ConversationsSound(msgs, |msgs|, me, users, doctors, msgs, {});
    var r := RenderChatList(Some(cs), activeChatUserId);
    if r.Items? && a < b < |r.items| {
      assert cs[a].userId != cs[b].userId;
    }
    if r.Items? {
      forall k | 0 <= k < |r.items| ensures r.items[k].badge.Some? <==> UnreadCount(msgs, r.items[k].userId, me) > 0 {
        assert cs[k] in cs;
      }
    }
  }

  datatype Badge = Badge(text: string, shown: bool)

  /** `updateBadge`: the count as text, shown only when positive. */
  function UpdateBadge(count: nat): (b: Badge)
    ensures b.shown <==> count > 0
    ensures ParseNat(b.text) == count
  {
    ParseNatToString(count);
    Badge(NatToString(count), count > 0)
  }

  /** Opening the only conversation with unread messages hides the badge at the next poll. */
  lemma BadgeClearsAfterReading(msgs: seq<Message>, me: nat, other: nat)
    requires UnreadTo(msgs, me) == UnreadCount(msgs, other, me)
    ensures !UpdateBadge(UnreadTo(MarkRead(msgs, me, other), me)).shown
  {
    MarkReadUnreadTo(msgs, me, other);
  }

  /** `startMessagePolling`: every role but Customer polls the unread count. */
  function PollsUnread(role: Option<string>): (p: bool)
    ensures !p <==> role == Some("Customer")
  {
    role != Some("Customer")
  }

  // ---------------------------------------------------------------------------
  // parseInt

  /** The longest prefix of `s` made of decimal digits. */
  function DigitPrefix(s: string): (d: string)
    ensures |d| <= |s| && d == s[..|d|]
    ensures forall i :: 0 <= i < |d| ==> IsDigit(d[i])
    ensures |d| < |s| ==> !IsDigit(s[|d|])
  {
    if s != [] && IsDigit(s[0]) then [s[0]] + DigitPrefix(s[1..]) else []
  }

  /** The number at the head of `t`: one sign, then the longest run of digits; `None` without a digit. */
  function SignedPrefix(t: string): Option<int>
  {
    var u := if t != [] && (t[0] == '-' || t[0] == '+') then t[1..] else t;
    var d := DigitPrefix(u);
    if d == [] then None
    else if t[0] == '-' then Some(-(ParseNat(d) as int))
    else Some(ParseNat(d))
  }

  /**
   * `parseInt(s)` with no radix, for decimal text: leading whitespace is
   * skipped, then the signed number at the head is read; with no digit there
   * the result is `NaN`, here `None`.
   */
  function JsParseInt(s: string): Option<int>
  {
    SignedPrefix(JsTrimStart(s))
  }

  lemma {:induction false} DigitPrefixOfDigits(u: string, k: nat)
    requires k <= |u| && forall i :: 0 <= i < k ==> IsDigit(u[i])
    requires k == |u| || !IsDigit(u[k])
    ensures DigitPrefix(u) == u[..k]
  {
    if k > 0 {
      DigitPrefixOfDigits(u[1..], k - 1);
      assert u[..k] == [u[0]] + u[1..][..k - 1];
    }
  }

  lemma SignedPrefixUnsigned(u: string)
    requires u != [] && IsDigit(u[0])
    ensures SignedPrefix(u) == Some(ParseNat(DigitPrefix(u)) as int)
  {
    assert DigitPrefix(u) != [];
  }

  /** A minus sign negates the number after it. */
  lemma SignedPrefixMinus(u: string)
    requires u != [] && IsDigit(u[0])
    ensures SignedPrefix("-" + u) == Some(-(ParseNat(DigitPrefix(u)) as int))
  {
    assert ("-" + u)[1..] == u;
    assert DigitPrefix(u) != [];
  }

  /** Without leading whitespace, `parseInt` reads the signed number at the head. */
  lemma JsParseIntUnpadded(s: string)
    requires s != [] && !IsJsWhitespace(s[0])
    ensures JsParseInt(s) == SignedPrefix(s)
  {
    assert JsTrimStart(s) == s;
  }

  lemma JsParseIntOfDigits(u: string, k: nat)
    requires 0 < k <= |u| && forall i :: 0 <= i < k ==> IsDigit(u[i])
    requires k == |u| || !IsDigit(u[k])
    ensures JsParseInt(u) == Some(ParseNat(u[..k]))
  {
    DigitPrefixOfDigits(u, k);
    JsParseIntUnpadded(u);
    SignedPrefixUnsigned(u);
  }

  /**
   * An id written in decimal parses back to itself, whatever non-digit text
   * follows it ("12.5" and "12e3" give 12).
   */
  lemma JsParseIntOfDecimal(n: nat, rest: string)
    requires rest == [] || !IsDigit(rest[0])
    ensures JsParseInt(NatToString(n) + rest) == Some(n)
  {
    var ds := NatToString(n);
    var u := ds + rest;
    assert u[..|ds|] == ds;
    ParseNatToString(n);
    JsParseIntOfDigits(u, |ds|);
  }

  /** Text that starts with neither whitespace, a sign nor a digit is `NaN`, and so is "". */
  lemma JsParseIntNaN(s: string)
    requires s == [] || (!IsJsWhitespace(s[0]) && s[0] != '-' && s[0] != '+' && !IsDigit(s[0]))
    ensures JsParseInt(s) == None
  {
  }

  // ---------------------------------------------------------------------------
  // Chat actions

  /**
   * The requests the chat sends. An id is a JavaScript number; a recipient
   * of `None` is `NaN`, which the request body carries as `null`.
   */
  datatype ChatRequest = ConversationsRequest | HistoryRequest(userId: int) | SendRequest(recipient: Option<int>, content: string)

  class ChatState {
    /** `None` is `null` or `NaN`: both are falsy and equal to no id. */
    var activeChatUserId: Option<int>
    var inputBox: string
    var requests: seq<ChatRequest>
    var toasts: seq<string>

    constructor ()
      ensures activeChatUserId.None? && inputBox == "" && requests == [] && toasts == []
    {
      activeChatUserId := None;
      inputBox := "";
      requests := [];
      toasts := [];
    }

    /** `loadMessagesView` fetches the conversation list to draw the sidebar. */
    method LoadMessagesView()
      modifies this
      ensures requests == old(requests) + [ConversationsRequest]
      ensures activeChatUserId == old(activeChatUserId) && inputBox == old(inputBox) && toasts == old(toasts)
    {
      requests := requests + [ConversationsRequest];
    }

    /**
     * `loadChatHistory` opens a chat, refreshes it, then refetches the
     * sidebar; opened on `NaN`, no history is fetched.
     */
    method LoadChatHistory(userId: Option<int>)
      modifies this
      ensures activeChatUserId == userId
      ensures requests == old(requests) + (if userId.Some? then [HistoryRequest(userId.value)] else []) + [ConversationsRequest]
      ensures inputBox == old(inputBox) && toasts == old(toasts)
    {
      activeChatUserId := userId;
      RefreshChatMessages(userId);
      requests := requests + [ConversationsRequest];
    }

    /** `refreshChatMessages`: only the open chat's history is fetched, and never `NaN`'s. */
    method RefreshChatMessages(userId: Option<int>)
      modifies this
      ensures userId.Some? && activeChatUserId == userId ==> requests == old(requests) + [HistoryRequest(userId.value)]
      ensures !(userId.Some? && activeChatUserId == userId) ==> requests == old(requests)
      ensures activeChatUserId == old(activeChatUserId) && inputBox == old(inputBox) && toasts == old(toasts)
    {
      if userId.None? || activeChatUserId != userId {
        return;
      }
      requests := requests + [HistoryRequest(userId.value)];
    }

    /**
     * `sendChatMessage`: a message that trims to nothing is dropped with the
     * box left as typed; otherwise the box is cleared, the trimmed text sent,
     * the chat refreshed and the sidebar polled.
     */
    method SendChatMessage(userId: Option<int>)
      modifies this
      ensures JsTrim(old(inputBox)) == "" ==> inputBox == old(inputBox) && requests == old(requests)
      ensures JsTrim(old(inputBox)) != "" ==>
        inputBox == ""
        && requests == old(requests) + [SendRequest(userId, JsTrim(old(inputBox)))]
                       + (if userId.Some? && activeChatUserId == userId then [HistoryRequest(userId.value)] else [])
                       + [ConversationsRequest]
                       + (if activeChatUserId.Some? && activeChatUserId.value != 0 then [HistoryRequest(activeChatUserId.value)] else [])
      ensures activeChatUserId == old(activeChatUserId) && toasts == old(toasts)
    {
      var text := JsTrim(inputBox);
      if text == "" {
        return;
      }
      inputBox := "";
      requests := requests + [SendRequest(userId, text)];
      ghost var sent := requests;
      RefreshChatMessages(userId);
      ghost var refreshed := requests;
      assert refreshed == sent + (if userId.Some? && activeChatUserId == userId then [HistoryRequest(userId.value)] else []);
      PollChatUpdates();
      assert requests == refreshed + [ConversationsRequest]
        + (if activeChatUserId.Some? && activeChatUserId.value != 0 then [HistoryRequest(activeChatUserId.value)] else []);
    }

    /**
     * `pollChatUpdates`: the conversation list is always fetched, the history
     * only for an open chat with a truthy id.
     */
    method PollChatUpdates()
      modifies this
      ensures activeChatUserId.Some? && activeChatUserId.value != 0
        ==> requests == old(requests) + [ConversationsRequest, HistoryRequest(activeChatUserId.value)]
      ensures activeChatUserId.None? || activeChatUserId.value == 0 ==> requests == old(requests) + [ConversationsRequest]
      ensures activeChatUserId == old(activeChatUserId) && inputBox == old(inputBox) && toasts == old(toasts)
    {
      requests := requests + [ConversationsRequest];
      if activeChatUserId.Some? && activeChatUserId.value != 0 {
        requests := requests + [HistoryRequest(activeChatUserId.value)];
      }
    }

    /**
     * `startNewChatAction`: a typed id overrides the picked one; without a
     * recipient or a message nothing is sent. The message goes to the id as
     * `parseInt` reads it; `ok` is whether the server accepted it. Accepted,
     * the messages view is drawn and the chat with that id opened.
     */
    method StartNewChatAction(picked: string, typed: string, text: string, ok: bool)
      modifies this
      ensures var recId := if typed != "" then typed else picked;
        recId == "" || text == "" ==>
          toasts == old(toasts) + ["Recipient and Message required"] && requests == old(requests)
          && activeChatUserId == old(activeChatUserId)
      ensures var recId := if typed != "" then typed else picked; var id := JsParseInt(recId);
        recId != "" && text != "" && !ok ==>
          toasts == old(toasts) + ["Failed to send"] && requests == old(requests) + [SendRequest(id, text)]
          && activeChatUserId == old(activeChatUserId)
      ensures var recId := if typed != "" then typed else picked; var id := JsParseInt(recId);
        recId != "" && text != "" && ok ==>
          toasts == old(toasts) && activeChatUserId == id
          && requests == old(requests) + [SendRequest(id, text), ConversationsRequest]
                         + (if id.Some? then [HistoryRequest(id.value)] else []) + [ConversationsRequest]
      ensures inputBox == old(inputBox)
    {
      var recId := if typed != "" then typed else picked;
      if recId == "" || text == "" {
        toasts := toasts + ["Recipient and Message required"];
        return;
      }
      var id := JsParseInt(recId);
      requests := requests + [SendRequest(id, text)];
      if !ok {
        toasts := toasts + ["Failed to send"];
        return;
      }
      LoadMessagesView();
      LoadChatHistory(id);
    }
  }
}
