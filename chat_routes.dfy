/**
 * The direct-message handlers of routes/chat.js over `messages`: sending, and reading the
 * history with a friend, which marks the friend's messages to the caller as read.
 */
module ChatRoutes {
  import opened Common
  import opened Rows
  import opened Text
  import opened Schema

  /**
   * `POST /`: 400 without a truthy receiver id or with blank content; otherwise one unread
   * message from the caller with the trimmed content is added and returned.
   */
  method SendMessage(db: Store, caller: int, receiverId: Option<int>, content: Option<string>, now: int)
    returns (reply: Reply<Message>)
    requires db.Valid()
    modifies db`messages, db`nextMessageId
    ensures db.Valid()
    ensures !TruthyId(receiverId) || Blank(content) ==> reply == Fail(400) && unchanged(db)
    ensures TruthyId(receiverId) && !Blank(content) ==>
      var m := Message(old(db.nextMessageId), caller, receiverId.value, Trim(content.value), now, false);
      reply == Ok(m) && db.messages == old(db.messages) + [m]
  {
    if !TruthyId(receiverId) || Blank(content) {
      return Fail(400);
    }
    var m := Message(db.nextMessageId, caller, receiverId.value, Trim(content.value), now, false);
    db.messages := db.messages + [m];
    db.nextMessageId := db.nextMessageId + 1;
    reply := Ok(m);
  }

  /** A sent message never has white space at either end of its content, and is never empty. */
  lemma SentContentTrimmed(content: string)
    requires !Blank(Some(content))
    ensures var t := Trim(content); t != "" && !IsJsSpace(t[0]) && !IsJsSpace(t[|t| - 1])
  {
  }

  /** The message is between the two users, in either direction. */
  predicate BetweenUsers(m: Message, a: int, b: int)
  {
    (m.senderId == a && m.receiverId == b) || (m.senderId == b && m.receiverId == a)
  }

  /** The rows the history `WHERE` selects, in table order. */
  function BetweenRows(ms: seq<Message>, a: int, b: int): (r: seq<Message>)
    ensures forall m :: m in r <==> m in ms && BetweenUsers(m, a, b)
    ensures forall m :: multiset(r)[m] == if BetweenUsers(m, a, b) then multiset(ms)[m] else 0
  {
    if ms == [] then []
    else
      assert ms == [ms[0]] + ms[1..];
      var rest := BetweenRows(ms[1..], a, b);
      if BetweenUsers(ms[0], a, b) then [ms[0]] + rest else rest
  }

  /** `ORDER BY sent_at ASC`. */
  function SentAt(m: Message): int
  {
    m.sentAt
  }

  /** The history between two users: exactly their messages, each as often as stored, oldest first. */
  function Conversation(ms: seq<Message>, a: int, b: int): (r: seq<Message>)
    ensures forall i, j :: 0 <= i < j < |r| ==> r[i].sentAt <= r[j].sentAt
    ensures multiset(r) == multiset(BetweenRows(ms, a, b))
    ensures forall m :: m in r <==> m in ms && BetweenUsers(m, a, b)
  {
    var between := BetweenRows(ms, a, b);
    var r := SortBy(between, SentAt);
    assert forall m :: m in r <==> m in between by {
      forall m ensures m in r <==> m in between {
        assert m in r <==> m in multiset(r);
        assert m in between <==> m in multiset(between);
      }
    }
    assert forall i, j :: 0 <= i < j < |r| ==> SentAt(r[i]) <= SentAt(r[j]);
    r
  }

  /** The history is the same whichever of the two asks for it. */
  lemma ConversationSymmetric(ms: seq<Message>, a: int, b: int)
    ensures Conversation(ms, a, b) == Conversation(ms, b, a)
  {
    assert forall m :: BetweenUsers(m, a, b) == BetweenUsers(m, b, a);
    assert BetweenRows(ms, a, b) == BetweenRows(ms, b, a) by { BetweenRowsSymmetric(ms, a, b); }
  }

  lemma {:induction false} BetweenRowsSymmetric(ms: seq<Message>, a: int, b: int)
    ensures BetweenRows(ms, a, b) == BetweenRows(ms, b, a)
  {
    if ms != [] {
      BetweenRowsSymmetric(ms[1..], a, b);
    }
  }

  /** `UPDATE messages SET is_read = true WHERE sender_id = $1 AND receiver_id = $2 AND is_read = false`. */
  function MarkRead(ms: seq<Message>, sender: int, receiver: int): (r: seq<Message>)
    ensures |r| == |ms|
    ensures forall i :: 0 <= i < |ms| ==>
      r[i] == if ms[i].senderId == sender && ms[i].receiverId == receiver then ms[i].(isRead := true) else ms[i]
  {
    if ms == [] then []
    else
      var m := ms[0];
      var head := if m.senderId == sender && m.receiverId == receiver then m.(isRead := true) else m;
      [head] + MarkRead(ms[1..], sender, receiver)
  }

  /**
   * Afterwards every message from the sender to the receiver is read, every other message
   * is as it was, and marking again changes nothing.
   */
  lemma MarkReadEffect(ms: seq<Message>, sender: int, receiver: int)
    ensures forall m :: m in MarkRead(ms, sender, receiver) && m.senderId == sender && m.receiverId == receiver ==> m.isRead
    ensures forall i :: 0 <= i < |ms| && !(ms[i].senderId == sender && ms[i].receiverId == receiver) ==>
      MarkRead(ms, sender, receiver)[i] == ms[i]
    ensures MarkRead(MarkRead(ms, sender, receiver), sender, receiver) == MarkRead(ms, sender, receiver)
  {
    var once := MarkRead(ms, sender, receiver);
    assert forall i :: 0 <= i < |ms| ==> MarkRead(once, sender, receiver)[i] == once[i];
  }

  /**
   * The history shows an unread message from the friend as unread, although after the call
   * the stored copy is read.
   */
  lemma SnapshotShowsOldFlags(ms: seq<Message>, caller: int, friend: int, m: Message)
    requires m in ms && m.senderId == friend && m.receiverId == caller && !m.isRead
    ensures m in Conversation(ms, caller, friend)
    ensures m !in MarkRead(ms, friend, caller)
    ensures m.(isRead := true) in MarkRead(ms, friend, caller)
  {
    var i :| 0 <= i < |ms| && ms[i] == m;
    assert MarkRead(ms, friend, caller)[i] == m.(isRead := true);
  }

  /**
   * `GET /:friend_id`: 400 when `parseInt` of the parameter is `NaN` or 0; 500 when it is
   * outside the range of the id column. Otherwise the reply is the history as it was before
   * the call (with the old read flags), and then the friend's messages to the caller are
   * marked read.
   */
  method History(db: Store, caller: int, friendParam: string) returns (reply: Reply<seq<Message>>)
    requires db.Valid()
    modifies db`messages
    ensures db.Valid()
    ensures (ParseInt(friendParam).None? || ParseInt(friendParam) == Some(0)) ==>
      reply == Fail(400) && db.messages == old(db.messages)
    ensures reply.Fail? ==> db.messages == old(db.messages) && reply.status in {400, 500}
    ensures reply.Ok? ==>
      var friend := ParseInt(friendParam).value;
      && friend != 0 && Int4Min <= friend <= Int4Max
      && reply.body == Conversation(old(db.messages), caller, friend)
      && db.messages == MarkRead(old(db.messages), friend, caller)
    ensures ParseInt(friendParam).Some? && ParseInt(friendParam).value != 0 ==>
      (reply.Ok? <==> Int4Min <= ParseInt(friendParam).value <= Int4Max)
  {
    var parsed := ParseInt(friendParam);
    if parsed.None? || parsed.value == 0 {
      return Fail(400);
    }
    var friend := parsed.value;
    if !(Int4Min <= friend <= Int4Max) {
      return Fail(500);
    }
    var rows := Conversation(db.messages, caller, friend);
    MarkReadKeepsKeys(db.messages, db.nextMessageId, friend, caller);
    db.messages := MarkRead(db.messages, friend, caller);
    reply := Ok(rows);
  }

  /** Marking messages read keeps their ids. */
  lemma MarkReadKeepsKeys(ms: seq<Message>, next: int, sender: int, receiver: int)
    requires MessagesKeyed(ms, next)
    ensures MessagesKeyed(MarkRead(ms, sender, receiver), next)
  {
    var r := MarkRead(ms, sender, receiver);
    assert forall i :: 0 <= i < |ms| ==> r[i].messageId == ms[i].messageId;
  }

  /**
   * `parseInt` reads `"12"` followed by text that does not start with a digit, such as
   * `"12abc"`, as 12, so such a parameter is accepted as the id 12.
   */
  lemma HistoryTrailingText(t: string)
    requires t == [] || !IsDigit(t[0], 10)
    ensures ParseInt("12" + t) == Some(12)
  {
    var w := ['1', '2'];
    var s := w + t;
    assert s == "12" + t;
    assert IsDigit('1', 10) && IsDigit('2', 10);
    DigitRunPrefix(w, t, 10);
    ParseIntPlain(s);
    DigitsValueTwo('1', '2', 10);
    assert DigitValue('1') == 1 && DigitValue('2') == 2;
  }

  /** `parseInt` reads `"0x1f"`, and `"0x1f"` followed by a non-hex character, as 31. */
  lemma HistoryHexParameter(t: string)
    requires t == [] || !IsDigit(t[0], 16)
    ensures ParseInt("0x1f" + t) == Some(31)
  {
    var s := "0x" + (['1', 'f'] + t);
    assert s == "0x1f" + t by {
      assert "0x1f" == "0x" + ['1', 'f'];
      assert "0x" + (['1', 'f'] + t) == ("0x" + ['1', 'f']) + t;
    }
    assert DigitValue('1') == 1 && DigitValue('f') == 15;
    ParseIntHexRun(['1', 'f'], t);
    DigitsValueTwo('1', 'f', 16);
  }

  /** A parameter that starts with a letter, such as `"abc"`, is `NaN`, answered 400. */
  lemma HistoryNoDigits(s: string)
    requires |s| > 0 && ('a' <= s[0] <= 'z' || 'A' <= s[0] <= 'Z')
    ensures ParseInt(s) == None
  {
    assert !IsJsSpace(s[0]);
    ParseIntPlain(s);
    assert !IsDigit(s[0], 10);
    assert DigitRun(s, 10) == [];
  }
}
