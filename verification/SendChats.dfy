/** The answers to sent messages do not name a chat: NEWMSGID and MSGID are offered to one chat after the
    other (`Client::msgConfirm`, `Client::onMsgAlreadySent`; src/chatd.cpp:4276-4303). */
module SendChats {
  import opened ChatTypes
  import opened SendQueue

  /** The first of the chats, in the order in which they are tried, that takes the answer; their number if
      there is none. */
  function Taker(boxes: seq<Outbox>, xid: Id): (k: nat)
    ensures k <= |boxes| && (k < |boxes| ==> Answered(boxes[k].queue, xid))
    ensures forall j :: 0 <= j < k ==> !Answered(boxes[j].queue, xid)
  {
    if boxes == [] || Answered(boxes[0].queue, xid) then 0 else 1 + Taker(boxes[1..], xid)
  }

  /** `Client::msgConfirm` on the queues. */
  function ConfirmAny(boxes: seq<Outbox>, xid: Id, msgid: Id): seq<Outbox> {
    var k := Taker(boxes, xid);
    if k < |boxes| then boxes[k := Confirm(boxes[k], xid, msgid)] else boxes
  }

  /** Chat `j` has sent message `xid`, which is at the front of its queue and of no other. */
  ghost predicate SentBy(boxes: seq<Outbox>, j: nat, xid: Id) {
    && j < |boxes| && boxes[j].queue != [] && boxes[j].queue[0].op.IsNew() && boxes[j].queue[0].id == xid
    && forall k :: 0 <= k < |boxes| && k != j && boxes[k].queue != [] && boxes[k].queue[0].op.IsNew() ==>
         boxes[k].queue[0].id != xid
  }

  ghost predicate EditFirst(queue: seq<Item>) { queue != [] && queue[0].op == MsgUpd }

  /** The answer to a sent message reaches the chat that sent it if and only if no chat that is tried before
      has a MSGUPD at the front of its queue: such a chat takes the answer for its own, and the message
      stays where it is. */
  lemma {:induction false} AnswerReachesIff(boxes: seq<Outbox>, j: nat, xid: Id)
    requires SentBy(boxes, j, xid)
    ensures Taker(boxes, xid) == j <==> forall k :: 0 <= k < j ==> !EditFirst(boxes[k].queue)
    ensures Taker(boxes, xid) <= j
  {
    var t := Taker(boxes, xid);
    assert Answered(boxes[j].queue, xid);
    forall k | 0 <= k < j ensures Answered(boxes[k].queue, xid) <==> EditFirst(boxes[k].queue) {
    }
    if t < j { assert Answered(boxes[t].queue, xid); }
  }

  /** A confirmation is applied to the chat that sent the message, and to no other, under the same condition;
      otherwise an edit of another chat leaves its queue unanswered. */
  lemma {:induction false} ConfirmReachesIff(boxes: seq<Outbox>, j: nat, xid: Id, msgid: Id)
    requires SentBy(boxes, j, xid)
    ensures ConfirmAny(boxes, xid, msgid) == boxes[j := Confirm(boxes[j], xid, msgid)]
            <==> forall k :: 0 <= k < j ==> !EditFirst(boxes[k].queue)
    ensures ConfirmAny(boxes, xid, msgid)[j] == boxes[j] <==> exists k :: 0 <= k < j && EditFirst(boxes[k].queue)
  {
    hide Retarget, RetargetRow;
    AnswerReachesIff(boxes, j, xid);
    var t, c := Taker(boxes, xid), ConfirmAny(boxes, xid, msgid);
    assert c[t] == Confirm(boxes[t], xid, msgid) && |c[t].queue| == |boxes[t].queue| - 1;
    if t != j {
      assert boxes[j := Confirm(boxes[j], xid, msgid)][j] != boxes[j] == c[j];
    }
  }

  /** The loop over the chats. */
  method MsgConfirm(boxes: seq<Outbox>, xid: Id, msgid: Id) returns (after: seq<Outbox>, known: bool)
    ensures after == ConfirmAny(boxes, xid, msgid) && (known <==> Taker(boxes, xid) < |boxes|)
  {
    var k := 0;
    while k < |boxes|
      invariant 0 <= k <= |boxes| && forall j :: 0 <= j < k ==> !Answered(boxes[j].queue, xid)
    {
      if Answered(boxes[k].queue, xid) {
        return boxes[k := Confirm(boxes[k], xid, msgid)], true;
      }
      k := k + 1;
    }
    return boxes, false;
  }
}
