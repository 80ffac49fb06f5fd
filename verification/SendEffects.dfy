/** What each operation of the send queue does, item by item and row by row (src/chatd.cpp:3644-3907 and
    4305-4626). */
module SendEffects {
  import opened ChatTypes
  import opened SendQueue
  import opened SendQueueRuns

  /** The items and rows that are there before are there afterwards, as they were. */
  ghost predicate Keeps(s: Outbox, t: Outbox) {
    && |s.queue| <= |t.queue| && (forall k :: 0 <= k < |s.queue| ==> t.queue[k] == s.queue[k])
    && (forall r :: r in s.rows ==> r in t.rows && t.rows[r] == s.rows[r])
  }

  // ---------- Posts ----------

  /** A new message goes to the end of the queue and of the table, unencrypted, and nothing else changes. */
  lemma {:induction false} SubmitAdds(s: Outbox, nodes: bool, id: Id, content: seq<byte>, typ: byte)
    requires Inv(s) && Allowed(s, Submit(nodes, id, content, typ))
    ensures var t := Step(s, Submit(nodes, id, content, typ));
            var i := t.queue[|t.queue| - 1];
            && Keeps(s, t) && |t.queue| == |s.queue| + 1 && t.rows.Keys == s.rows.Keys + {i.rowid}
            && i.op == (if nodes then NewNodeMsg else NewMsg) && i.id == id && i.content == content && i.typ == typ
            && i.updated == 0 && i.keyid == 0 && !i.sealed && i.key == None && i.rowid !in s.rows
            && t.rows[i.rowid] == Row(i.op, id, None, content, typ, 0, false, false)
  {
    hide Keyed, WellIded, Allowed;
  }

  /** The edit of a sent message goes there too, under the id and key id that the message has. */
  lemma {:induction false} EditSentAdds(s: Outbox, id: Id, keyid: uint32, content: seq<byte>, typ: byte, delta: uint16)
    requires Inv(s) && Allowed(s, EditedSent(id, keyid, content, typ, delta))
    ensures var t := Step(s, EditedSent(id, keyid, content, typ, delta));
            var i := t.queue[|t.queue| - 1];
            && Keeps(s, t) && |t.queue| == |s.queue| + 1 && t.rows.Keys == s.rows.Keys + {i.rowid}
            && i.op == MsgUpd && i.id == id && i.content == content && i.typ == typ
            && i.updated == delta && i.keyid == keyid && !i.sealed && i.key == None && i.rowid !in s.rows
            && t.rows[i.rowid] == Row(MsgUpd, id, None, content, typ, delta, false, false)
  {
    hide Keyed, WellIded, Allowed;
  }

  /** The edit of an unsent message replaces the text of every queued item and row of that message, so that
      the new text is sent whatever is sent first, and adds a MSGUPDX with it at the end. */
  lemma {:induction false} EditUnsentRewrites(s: Outbox, k: nat, content: seq<byte>, typ: byte, delta: uint16)
    requires Inv(s) && k < |s.queue|
    ensures var t, id := EditUnsent(s, k, content, typ, delta), s.queue[k].id;
            var i := t.queue[|t.queue| - 1];
            && |t.queue| == |s.queue| + 1 && t.rows.Keys == s.rows.Keys + {i.rowid} && i.rowid !in s.rows
            && (forall j :: 0 <= j < |s.queue| ==>
                  t.queue[j] == s.queue[j].(content := if s.queue[j].id == id then content else s.queue[j].content,
                                            updated := if j == k then delta else s.queue[j].updated))
            && (forall r :: r in s.rows ==>
                  t.rows[r] == s.rows[r].(content := if s.rows[r].id == id then content else s.rows[r].content))
            && i.op == MsgUpdX && i.id == id && i.content == content && i.typ == typ
            && i.updated == delta && i.keyid == s.queue[k].keyid && !i.sealed && i.key == None
            && t.rows[i.rowid] == Row(MsgUpdX, id, None, content, typ, delta, false, false)
  {
    hide Keyed, WellIded, Queued;
    var t := EditUnsent(s, k, content, typ, delta);
    var queue := s.queue[k := s.queue[k].(updated := delta)];
    assert forall j :: 0 <= j < |s.queue| ==> t.queue[j] == Rewrite(s.queue[k].id, content)(queue[j]);
  }

  // ---------- Encryption ----------

  /** Encryption gives an unencrypted item its key id, its ciphertext and the key that it announces, in queue
      and table; one that is encrypted stays as it is. */
  lemma {:induction false} SealWrites(s: Outbox, k: nat, keyid: uint32, key: Option<uint32>)
    requires Inv(s) && k < |s.queue|
    ensures s.queue[k].rowid in s.rows
    ensures var t, r := Seal(s, k, keyid, key), s.queue[k].rowid;
            && |t.queue| == |s.queue| && t.rows.Keys == s.rows.Keys
            && (s.queue[k].sealed ==> t == s)
            && (!s.queue[k].sealed ==>
                  && t.queue[k] == s.queue[k].(keyid := keyid, sealed := true, key := key)
                  && t.rows[r] == s.rows[r].(keyid := Some(keyid), sealed := true, key := key.Some?))
            && (forall j :: 0 <= j < |s.queue| && j != k ==> t.queue[j] == s.queue[j])
            && (forall q :: q in s.rows && q != r ==> t.rows[q] == s.rows[q])
  {
    hide Keyed, WellIded, Queued;
  }

  /** A NEWKEYID replaces the local key id in every item and row that carries it, and marks the key as known;
      the others stay as they are. */
  lemma {:induction false} KeyConfirmReplaces(s: Outbox, keyid: uint32)
    requires s.queue != [] && s.queue[0].key.Some?
    ensures var t, local := KeyConfirm(s, keyid), s.queue[0].key.value;
            && |t.queue| == |s.queue| && t.rows.Keys == s.rows.Keys
            && (forall k :: 0 <= k < |s.queue| ==>
                  t.queue[k] == if s.queue[k].keyid == local then s.queue[k].(keyid := keyid, key := None)
                                else s.queue[k])
            && (forall r :: r in s.rows ==>
                  t.rows[r] == if s.rows[r].keyid == Some(local) then s.rows[r].(keyid := Some(keyid), key := false)
                               else s.rows[r])
  {
    assert forall k :: 0 <= k < |s.queue| ==>
        KeyConfirm(s, keyid).queue[k] == Rekey(s.queue[0].key.value, keyid)(s.queue[k]);
  }

  // ---------- Answers ----------

  /** The front leaves queue and table with its row, and nothing else changes. */
  ghost predicate FrontLeaves(s: Outbox, t: Outbox) {
    && s.queue != [] && t.queue == s.queue[1..] && t.last == s.last
    && (forall r :: r in t.rows <==> r in s.rows && r != s.queue[0].rowid)
    && (forall r :: r in t.rows ==> t.rows[r] == s.rows[r])
  }

  /** A message that is answered with MSGID or rejected leaves the queue if and only if it is at the front; a
      MSGUPD at the front leaves for any answer, and a MSGUPDX for none. */
  lemma {:induction false} DropIff(s: Outbox, xid: Id)
    ensures var t := Drop(s, xid);
            if s.queue != [] && (s.queue[0].op == MsgUpd
                                 || (s.queue[0].op in {NewMsg, NewNodeMsg} && s.queue[0].id == xid))
            then FrontLeaves(s, t) else t == s
  {
  }

  /** A rejected edit leaves the queue if and only if it is at the front. */
  lemma {:induction false} RejectEditIff(s: Outbox, id: Id)
    ensures var r := RejectEdit(s, id);
            if s.queue != [] && s.queue[0].op in {MsgUpd, MsgUpdX} && s.queue[0].id == id
            then r.Accepted? && FrontLeaves(s, r.s) else r.Thrown?
  {
  }

  /** A NEWMSGID takes the front out as an answer does, and turns the edits of that message into edits of the
      message under its new id, in queue and table. */
  lemma {:induction false} ConfirmWrites(s: Outbox, xid: Id, msgid: Id)
    requires Inv(s) && MayConfirm(s.queue, xid, msgid)
    ensures var t, u := Confirm(s, xid, msgid), Drop(s, xid);
            && |t.queue| == |u.queue| && t.rows.Keys == u.rows.Keys && t.last == s.last && (u == s ==> t == s)
            && (u != s ==>
                  && (forall k :: 0 <= k < |u.queue| ==>
                        t.queue[k] == if u.queue[k].id == xid then u.queue[k].(id := msgid, op := MsgUpd)
                                      else u.queue[k])
                  && (forall r :: r in u.rows ==>
                        t.rows[r] == if u.rows[r].id == xid then u.rows[r].(id := msgid, op := MsgUpd) else u.rows[r]))
  {
    hide Keyed, WellIded, Persisted, Meets, OnlyEdits;
    var t, u := Confirm(s, xid, msgid), Drop(s, xid);
    if Answered(s.queue, xid) {
      RemoveKeeps(s, 0);
      assert u.queue == s.queue[1..];
      assert |u.queue| != |s.queue|;
      assert forall k :: 0 <= k < |u.queue| ==> t.queue[k] == Retarget(xid, msgid)(u.queue[k]);
      OnlyEditRows(u, xid);
    }
  }

  lemma {:induction false} OnlyEditRows(s: Outbox, xid: Id)
    requires Persisted(s) && OnlyEdits(s.queue, xid)
    ensures forall r :: r in s.rows && s.rows[r].id == xid ==> s.rows[r].op == MsgUpdX
  {
    forall r | r in s.rows && s.rows[r].id == xid ensures s.rows[r].op == MsgUpdX {
      assert Queued(s.queue, r);
      var k :| 0 <= k < |s.queue| && s.queue[k].rowid == r;
      assert Mirrors(s.queue[k], s.rows[r]);
    }
  }

  // ---------- Received updates ----------

  /** A queued item stays after a received own update: it is no edit of that message, or the update is no
      truncate and the queued edit is newer. */
  predicate Stays(i: Item, id: Id, truncate: bool, delta: uint16) {
    (i.op != MsgUpd && i.op != MsgUpdX) || i.id != id || (!truncate && i.updated > delta)
  }

  lemma {:induction false} RemainingStay(queue: seq<Item>, id: Id, truncate: bool, delta: uint16)
    ensures forall i :: i in Remaining(queue, id, truncate, delta) <==> i in queue && Stays(i, id, truncate, delta)
  {
    if queue != [] {
      RemainingStay(queue[1..], id, truncate, delta);
      assert forall i :: i in queue <==> i == queue[0] || i in queue[1..];
    }
  }

  lemma {:induction false} SupersedeOnlyDeletes(s: Outbox, k: nat, id: Id, truncate: bool, delta: uint16)
    ensures var t := Supersede(s, k, id, truncate, delta);
            t.last == s.last && forall r :: r in t.rows ==> r in s.rows && t.rows[r] == s.rows[r]
    decreases |s.queue| - k
  {
    if k < |s.queue| {
      if Superseded(s.queue[k], id, truncate, delta) {
        SupersedeOnlyDeletes(RemoveAt(s, k), k, id, truncate, delta);
      } else {
        SupersedeOnlyDeletes(s, k + 1, id, truncate, delta);
      }
    }
  }

  /** A received own update removes exactly the edits of that message that are not newer, or all of them if it
      is a truncate.  The items that stay keep their order, and exactly their rows stay, as they were. */
  lemma {:induction false} SupersedeKeepsNewer(s: Outbox, id: Id, truncate: bool, delta: uint16)
    requires Inv(s)
    ensures var t := Supersede(s, 0, id, truncate, delta);
            && (forall i :: i in t.queue <==>
                  && i in s.queue
                  && ((i.op != MsgUpd && i.op != MsgUpdX) || i.id != id || (!truncate && i.updated > delta)))
            && (forall j, k :: 0 <= j < k < |t.queue| ==> t.queue[j].rowid < t.queue[k].rowid)
            && (forall r :: r in t.rows <==> Queued(t.queue, r))
            && (forall r :: r in t.rows ==> r in s.rows && t.rows[r] == s.rows[r])
  {
    hide Keyed, WellIded, Mirrors, Queued;
    SupersedeKeeps(s, 0, id, truncate, delta);
    SupersedeOnlyDeletes(s, 0, id, truncate, delta);
    SupersedeFilters(s, 0, id, truncate, delta);
    assert s.queue[0..] == s.queue && s.queue[..0] == [];
    RemainingStay(s.queue, id, truncate, delta);
    var t := Supersede(s, 0, id, truncate, delta);
    assert t.queue == Remaining(s.queue, id, truncate, delta);
    QueuedRows(t);
  }

  lemma {:induction false} QueuedRows(s: Outbox)
    requires Persisted(s)
    ensures forall r :: Queued(s.queue, r) ==> r in s.rows
  {
  }
}
