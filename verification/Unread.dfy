/** The unread counter (`calculateUnreadCount`, src/chatd.cpp:2947-2984; `isValidUnread`,
    src/chatdMsg.h:1219-1269; `getUnreadMsgCountAfterIdx`, src/chatdDb.h:273-325). */
module Unread {
  import opened ChatTypes
  import opened HistorySpec

  const TS_MISSING_CALL_UNREAD := 1592222400
  const REASON_NO_ANSWER: byte := 3
  const REASON_CANCELLED: byte := 5

  /** `extractTermCodeEndCall`: the byte after the call id and the duration. */
  function TermCode(data: seq<byte>): byte {
    if |data| < 13 then 0xFF else data[12]
  }

  predicate IsMissedCall(m: Message, me: Id) {
    && m.typ == MSG_CALL_END && m.userid != me
    && (TermCode(m.data) == REASON_NO_ANSWER || TermCode(m.data) == REASON_CANCELLED)
  }

  predicate IsTextType(t: byte) {
    t == MSG_NORMAL || t == MSG_ATTACHMENT || t == MSG_CONTACT || t == MSG_CONTAINS_META || t == MSG_VOICE_CLIP
  }

  predicate Readable(m: Message) { m.enc == NotEncrypted || m.IsUndecryptable() }

  /** `Message::isValidUnread`. */
  predicate IsValidUnread(m: Message, me: Id) {
    m.userid != me && !m.IsDeleted() && Readable(m)
    && (IsTextType(m.typ) || (IsMissedCall(m, me) && m.ts > TS_MISSING_CALL_UNREAD))
  }

  /** The rows counted by the first query of `getUnreadMsgCountAfterIdx`. */
  predicate InTextQuery(m: Message, me: Id) {
    m.userid != me && !(m.updated != 0 && m.data == []) && Readable(m) && IsTextType(m.typ)
  }

  /** The rows of its second query that its loop counts; their encryption state is not looked at. */
  predicate InCallQuery(m: Message, me: Id) {
    m.userid != me && m.ts > TS_MISSING_CALL_UNREAD && m.typ == MSG_CALL_END
    && (TermCode(m.data) == REASON_NO_ANSWER || TermCode(m.data) == REASON_CANCELLED)
  }

  /** A missed call that the query counts although the client could not read it. */
  predicate IsUnreadableCall(m: Message, me: Id) { InCallQuery(m, me) && !Readable(m) }

  /** Indices after `after` (all of them when it is unset). */
  predicate After(i: int, after: int) { after == IDX_INVALID || i > after }

  ghost function UnreadSet(m: map<int, Message>, me: Id, after: int): set<int> {
    set i | i in m && After(i, after) && IsValidUnread(m[i], me)
  }

  ghost function TextSet(m: map<int, Message>, me: Id, after: int): set<int> {
    set i | i in m && After(i, after) && InTextQuery(m[i], me)
  }

  ghost function CallSet(m: map<int, Message>, me: Id, after: int): set<int> {
    set i | i in m && After(i, after) && InCallQuery(m[i], me)
  }

  /** The number that the two queries return together. */
  ghost function QueryCount(m: map<int, Message>, me: Id, after: int): int {
    |TextSet(m, me, after)| + |CallSet(m, me, after)|
  }

  ghost predicate HasUnreadableCall(m: map<int, Message>, me: Id, after: int) {
    exists i :: i in m && After(i, after) && IsUnreadableCall(m[i], me)
  }

  /** The queries count the unread messages exactly when no missed call among them is unreadable. */
  lemma {:induction false} QueryCountsUnreadIff(m: map<int, Message>, me: Id, after: int)
    ensures QueryCount(m, me, after) == |UnreadSet(m, me, after)| <==> !HasUnreadableCall(m, me, after)
  {
    var texts, calls, unread := TextSet(m, me, after), CallSet(m, me, after), UnreadSet(m, me, after);
    assert texts !! calls;
    assert |texts + calls| == |texts| + |calls|;
    forall i | i in m
      ensures IsValidUnread(m[i], me) <==> InTextQuery(m[i], me) || (InCallQuery(m[i], me) && Readable(m[i]))
    {
      Selected(m[i], me);
    }
    assert unread <= texts + calls;
    if HasUnreadableCall(m, me, after) {
      var i :| i in m && After(i, after) && IsUnreadableCall(m[i], me);
      assert i in texts + calls && i !in unread;
      SubsetIsSmaller(unread, texts + calls);
    } else {
      assert unread == texts + calls;
    }
  }

  lemma {:induction false} Selected(m: Message, me: Id)
    ensures IsValidUnread(m, me) <==> InTextQuery(m, me) || (InCallQuery(m, me) && Readable(m))
  {
  }

  // ---------- Which messages count ----------

  /** The text of an ended call: eight bytes of call id, four of duration, and the reason, which says that
      nobody answered, or that the caller gave up. */
  predicate SaysMissed(data: seq<byte>) { |data| >= 8 + 4 + 1 && (data[12] == 3 || data[12] == 5) }

  /** A message counts as unread if and only if it is of another user, readable or undecryptable for good, not
      deleted, and a text, an attachment, a contact, a message with metadata or a voice clip, or a missed
      call later than 15 June 2020. */
  lemma {:induction false} UnreadMeans(m: Message, me: Id)
    ensures IsValidUnread(m, me) <==>
              && m.userid != me && (m.enc == NotEncrypted || m.enc == Malformed || m.enc == BadSignature)
              && (|| (m.typ in {0x01, 0x65, 0x67, 0x68, 0x69} && (m.updated == 0 || m.data != []))
                  || (m.typ == 0x06 && m.ts > 1592222400 && SaysMissed(m.data)))
  {
  }

  /** The rows that the two queries select. */
  lemma {:induction false} QueriesMean(m: Message, me: Id)
    ensures InTextQuery(m, me) <==>
              && m.userid != me && (m.enc == NotEncrypted || m.enc == Malformed || m.enc == BadSignature)
              && m.typ in {0x01, 0x65, 0x67, 0x68, 0x69} && (m.updated == 0 || m.data != [])
    ensures InCallQuery(m, me) <==> m.userid != me && m.typ == 0x06 && m.ts > 1592222400 && SaysMissed(m.data)
  {
  }

  /** Messages that wait for keys are in RAM only and never unread. */
  lemma {:induction false} RamHoldsUnread(h: Hist, me: Id, seen: int)
    requires Inv(h) && seen != IDX_INVALID && h.low - 1 <= seen
    ensures UnreadSet(h.ram, me, seen) == UnreadSet(h.rows, me, seen)
  {
    forall i ensures i in UnreadSet(h.ram, me, seen) <==> i in UnreadSet(h.rows, me, seen) {
      if i in h.ram && h.DecryptedLow() <= i <= h.DecryptedHigh() { assert h.rows[i] == h.ram[i]; }
      if i in h.rows && i > seen { assert i in h.ram; }
    }
  }

  /** What the application is shown: exact when the pointer is set or the history complete, and
      otherwise a lower bound, marked by its sign. */
  ghost function UnreadSpec(h: Hist, me: Id, seen: int, haveAll: bool): int {
    if seen == IDX_INVALID && !haveAll then -|UnreadSet(h.rows, me, seen)| else |UnreadSet(h.rows, me, seen)|
  }

  /** The value assigned by each branch of `calculateUnreadCount`. */
  ghost function UnreadBranch(h: Hist, me: Id, seen: int, haveAll: bool): int {
    if seen == IDX_INVALID then (if haveAll then QueryCount(h.rows, me, seen) else -QueryCount(h.rows, me, seen))
    else if seen < h.low then QueryCount(h.rows, me, seen)
    else |UnreadSet(h.ram, me, seen)|
  }

  /** Whichever branch is taken, the counter is right exactly when the branch that asks the table finds
      no unreadable missed call there. */
  lemma {:induction false} BranchesAgreeIff(h: Hist, me: Id, seen: int, haveAll: bool)
    requires Inv(h)
    ensures UnreadBranch(h, me, seen, haveAll) == UnreadSpec(h, me, seen, haveAll)
            <==> (seen == IDX_INVALID || seen < h.low ==> !HasUnreadableCall(h.rows, me, seen))
  {
    if seen == IDX_INVALID || seen < h.low {
      QueryCountsUnreadIff(h.rows, me, seen);
    } else {
      RamHoldsUnread(h, me, seen);
    }
  }
}
