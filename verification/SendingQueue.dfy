/** The send queue of a chat as the original keeps it: a list in RAM, changed item by item, beside the
    `sending` table, changed by one statement (src/chatd.cpp:3644-3907 and 4305-4626,
    src/chatdDb.h:89-255). */
module SendingQueues {
  import opened ChatTypes
  import opened SendQueue
  import opened SendQueueRuns

  class SendingTable {
    var rows: map<nat, Row>
    var last: nat

    constructor ()
      ensures rows == map[] && last == 0
    {
      rows, last := map[], 0;
    }

    /** `addSendingItem`. */
    method AddSendingItem(i: Item) returns (rowid: nat)
      modifies this
      ensures last == rowid == old(last) + 1
      ensures rows == old(rows)[rowid := Row(i.op, i.id, None, i.content, i.typ, i.updated, false, false)]
    {
      last := last + 1;
      rowid := last;
      rows := rows[rowid := Row(i.op, i.id, None, i.content, i.typ, i.updated, false, false)];
    }

    method AddBlobs(rowid: nat, keyid: uint32, key: bool)
      requires rowid in rows
      modifies this`rows
      ensures rows == old(rows)[rowid := old(rows)[rowid].(keyid := Some(keyid), sealed := true, key := key)]
    {
      rows := rows[rowid := rows[rowid].(keyid := Some(keyid), sealed := true, key := key)];
    }

    method Delete(rowid: nat)
      requires rowid in rows
      modifies this`rows
      ensures rows == old(rows) - {rowid}
    {
      rows := rows - {rowid};
    }

    /** An `update ... where` statement, with the number of rows it changes. */
    method Update(where: Row -> bool, change: Row -> Row) returns (changes: nat)
      requires forall r: Row :: !where(r) ==> change(r) == r
      modifies this`rows
      ensures rows == MapRows(old(rows), change) && changes == |RowsWhere(old(rows), where)|
    {
      var selected := set r | r in rows && where(rows[r]);
      assert selected == RowsWhere(rows, where);
      changes := |selected|;
      rows := map r | r in rows :: change(rows[r]);
    }

    /** The smallest rowid above one, as `order by rowid asc` delivers it. */
    method NextRow(above: int) returns (next: Option<nat>)
      ensures next.None? ==> forall r :: r in rows ==> r <= above
      ensures next.Some? ==> next.value in rows && next.value > above
      ensures next.Some? ==> forall r :: r in rows && r > above ==> next.value <= r
    {
      next := None;
      var todo := rows.Keys;
      while todo != {}
        invariant todo <= rows.Keys
        invariant next.None? ==> forall r :: r in rows && r !in todo ==> r <= above
        invariant next.Some? ==> next.value in rows && next.value > above
        invariant next.Some? ==> forall r :: r in rows && r !in todo && r > above ==> next.value <= r
        decreases todo
      {
        var r :| r in todo;
        todo := todo - {r};
        if r > above && (next.None? || r < next.value) { next := Some(r); }
      }
    }

    /** `loadSendQueue`. */
    method LoadSendQueue() returns (queue: seq<Item>)
      ensures Loads(rows, queue)
    {
      hide Restored;
      queue := [];
      var above: int := -1;
      var next := NextRow(above);
      while next.Some?
        invariant Ascending(queue) && forall k :: 0 <= k < |queue| ==> queue[k].rowid <= above
        invariant forall k :: 0 <= k < |queue| ==>
            queue[k].rowid in rows && queue[k] == Restored(queue[k].rowid, rows[queue[k].rowid])
        invariant forall r :: r in rows && r <= above ==> Queued(queue, r)
        invariant next.None? ==> forall r :: r in rows ==> r <= above
        invariant next.Some? ==> next.value in rows && next.value > above
        invariant next.Some? ==> forall r :: r in rows && r > above ==> next.value <= r
        decreases set r | r in rows && r > above
      {
        RestoredRowid(next.value, rows[next.value]);
        var item := Restored(next.value, rows[next.value]);
        forall r ensures Queued(queue + [item], r) <==> Queued(queue, r) || r == item.rowid {
          PostHasRow(queue, item, r);
        }
        ghost var left := set r | r in rows && r > above;
        assert next.value in left;
        queue := queue + [item];
        above := next.value;
        next := NextRow(above);
      }
    }
  }

  lemma {:induction false} RestoredRowid(rowid: nat, r: Row)
    ensures Restored(rowid, r).rowid == rowid
  {
  }

  /** The items among the first `n` that meet a condition, by rowid. */
  lemma {:induction false} OneMore(queue: seq<Item>, n: nat, p: Item -> bool)
    requires n < |queue| && Ascending(queue)
    ensures |Rowids(queue[..n + 1], p)| == |Rowids(queue[..n], p)| + if p(queue[n]) then 1 else 0
  {
    var a, b := Rowids(queue[..n], p), Rowids(queue[..n + 1], p);
    assert queue[..n + 1] == queue[..n] + [queue[n]];
    forall k | 0 <= k < n ensures queue[..n][k] == queue[..n + 1][k] {
    }
    if p(queue[n]) {
      assert queue[..n + 1][n] == queue[n];
      assert b == a + {queue[n].rowid};
      assert queue[n].rowid !in a;
    } else {
      assert b == a;
    }
  }

  class SendingQueue {
    var sending: seq<Item>
    const db: SendingTable

    ghost function View(): Outbox reads this, db { Outbox(sending, db.rows, db.last) }

    /** `loadAndProcessUnsent`: the queue of a chat that is opened on its table. */
    constructor (table: SendingTable)
      ensures db == table && Loads(db.rows, sending)
    {
      db := table;
      var queue := table.LoadSendQueue();
      sending := queue;
    }

    /** `postMsgToSending`. */
    method PostMsgToSending(op: Op, id: Id, keyid: uint32, content: seq<byte>, typ: byte, updated: uint16)
      modifies this, db
      ensures View() == Post(old(View()), op, id, keyid, content, typ, updated)
    {
      var item := Item(op, id, keyid, content, typ, updated, 0, false, None);
      var rowid := db.AddSendingItem(item);
      sending := sending + [item.(rowid := rowid)];
    }

    /** `msgEncryptAndSend`, given what `msgEncrypt` returns at once. */
    method MsgEncryptAndSend(k: nat, keyid: uint32, key: Option<uint32>)
      requires k < |sending| && sending[k].rowid in db.rows
      modifies this, db
      ensures View() == Seal(old(View()), k, keyid, key)
    {
      if sending[k].sealed { return; }
      sending := sending[k := sending[k].(keyid := keyid, sealed := true, key := key)];
      db.AddBlobs(sending[k].rowid, keyid, key.Some?);
    }

    /** The end of a delayed `msgEncrypt` of the item at `k`. */
    method EncryptionDone(k: nat, keyid: uint32, key: Option<uint32>)
      requires k < |sending| && sending[k].rowid in db.rows
      modifies this, db
      ensures View() == SealDelayed(old(View()), k, keyid, key)
    {
      var rowid := sending[k].rowid;
      sending := sending[k := sending[k].(keyid := keyid)];
      sending := sending[0 := sending[0].(sealed := true, key := key)];
      db.AddBlobs(rowid, keyid, key.Some?);
    }

    /** A loop over the queue that changes the items it is about, and counts them. */
    method UpdateItems(where: Item -> bool, change: Item -> Item) returns (count: nat)
      requires Ascending(sending) && forall i: Item :: !where(i) ==> change(i) == i
      modifies this
      ensures sending == Map(old(sending), change) && count == |Rowids(old(sending), where)|
    {
      count := 0;
      ghost var was := sending;
      assert Rowids(was[..0], where) == {};
      var k := 0;
      while k < |sending|
        invariant 0 <= k <= |sending| == |was| && count == |Rowids(was[..k], where)|
        invariant forall j :: 0 <= j < |was| ==> sending[j] == if j < k then change(was[j]) else was[j]
      {
        OneMore(was, k, where);
        if where(sending[k]) {
          sending := sending[k := change(sending[k])];
          count := count + 1;
        }
        k := k + 1;
      }
      assert was[..k] == was;
    }

    /** `keyConfirm`: a key transaction id out of range, or an empty queue, is logged and ignored. */
    method ConfirmKey(keyxid: uint32, keyid: uint32) returns (count: nat, countDb: nat)
      requires Persisted(View())
      requires keyxid >= 0xffff0000 && sending != [] ==> sending[0].key.Some?
      modifies this, db
      ensures keyxid < 0xffff0000 || old(sending) == [] ==> View() == old(View()) && count == countDb == 0
      ensures keyxid >= 0xffff0000 && old(sending) != [] ==>
                && View() == KeyConfirm(old(View()), keyid)
                && (count == countDb <==> OnlySealed(old(sending), old(sending[0].key).value))
    {
      hide Persisted, OnlySealed;
      if keyxid < KEYID_MIN || sending == [] { return 0, 0; }
      var local := sending[0].key.value;
      InOrder(View());
      KeyCountsAgreeIff(View(), local);
      count := UpdateItems((i: Item) => i.keyid == local, Rekey(local, keyid));
      countDb := db.Update((r: Row) => r.keyid == Some(local), RekeyRow(local, keyid));
    }

    /** The removal of the front in `msgRemoveFromSending`, for an answer or a rejection. */
    method RemoveFront()
      requires sending != [] && sending[0].rowid in db.rows
      modifies this, db
      ensures View() == RemoveAt(old(View()), 0)
    {
      db.Delete(sending[0].rowid);
      sending := sending[1..];
    }

    /** `msgAlreadySent`, and the rejection of a new message. */
    method MsgRemoveFromSending(xid: Id) returns (removed: Option<Item>)
      requires Persisted(View())
      modifies this, db
      ensures View() == Drop(old(View()), xid)
      ensures removed == if Answered(old(sending), xid) then Some(old(sending)[0]) else None
    {
      if sending == [] { return None; }
      var item := sending[0];
      if item.op == MsgUpdX { return None; }
      if item.op.IsNew() && item.id != xid { return None; }
      RemoveFront();
      return Some(item);
    }

    /** The queue part of `msgConfirm`.  The two counts agree exactly when only edits carry the id. */
    method MsgConfirm(xid: Id, msgid: Id) returns (confirmed: Option<Item>, count: nat, countDb: nat)
      requires Persisted(View())
      modifies this, db
      ensures View() == Confirm(old(View()), xid, msgid)
      ensures confirmed.Some? <==> Answered(old(sending), xid)
      ensures confirmed.Some? ==> confirmed.value == old(sending)[0].(id := msgid)
      ensures confirmed.Some? ==> (count == countDb <==> OnlyEdits(old(sending)[1..], xid))
    {
      hide Persisted, OnlyEdits;
      count, countDb := 0, 0;
      if Answered(sending, xid) { RemoveKeeps(View(), 0); }
      confirmed := MsgRemoveFromSending(xid);
      if confirmed.None? { return; }
      confirmed := Some(confirmed.value.(id := msgid));
      ghost var t := View();
      assert t.queue == old(sending)[1..];
      InOrder(t);
      ConfirmCountsAgreeIff(t, xid);
      count := UpdateItems((i: Item) => i.id == xid, Retarget(xid, msgid));
      if count > 0 {
        countDb := db.Update((r: Row) => r.op == MsgUpdX && r.id == xid, RetargetRow(xid, msgid));
      } else {
        NothingToRetarget(t, xid, msgid);
      }
    }

    /** The queue part of `msgModify` for an unsent message, with the post that it schedules. */
    method MsgModifyUnsent(k: nat, content: seq<byte>, typ: byte, delta: uint16) returns (count: nat, countDb: nat)
      requires Persisted(View()) && Keyed(sending) && k < |sending|
      modifies this, db
      ensures View() == EditUnsent(old(View()), k, content, typ, delta)
      ensures count == countDb
    {
      hide Persisted, Keyed;
      ghost var s := View();
      var id, keyid := sending[k].id, sending[k].keyid;
      NewDelta(s, k, delta);
      sending := sending[k := sending[k].(updated := delta)];
      InOrder(View());
      EditCountsAgree(View(), id);
      count := UpdateItems((i: Item) => i.id == id, Rewrite(id, content));
      countDb := db.Update((r: Row) => r.id == id, RewriteRow(id, content));
      PostMsgToSending(MsgUpdX, id, keyid, content, typ, delta);
    }

    /** The first part of `onMsgUpdated`: a received update of our own cancels queued edits. */
    method CancelEdits(id: Id, truncate: bool, delta: uint16)
      requires Persisted(View())
      modifies this, db
      ensures View() == Supersede(old(View()), 0, id, truncate, delta)
    {
      hide Persisted, RemoveAt;
      ghost var s := View();
      var k := 0;
      while k < |sending|
        invariant 0 <= k <= |sending| && Persisted(View())
        invariant Supersede(View(), k, id, truncate, delta) == Supersede(s, 0, id, truncate, delta)
        decreases |sending| - k
      {
        var item := sending[k];
        if (item.op != MsgUpd && item.op != MsgUpdX) || item.id != id || (!truncate && item.updated > delta) {
          k := k + 1;
        } else {
          RemoveKeeps(View(), k);
          EraseAt(k);
        }
      }
    }

    method EraseAt(k: nat)
      requires Persisted(View()) && k < |sending|
      modifies this, db
      ensures View() == RemoveAt(old(View()), k) && |sending| == old(|sending|) - 1
    {
      db.Delete(sending[k].rowid);
      sending := sending[..k] + sending[k + 1..];
    }

    /** `rejectMsgupd`: the three reasons differ in what the application is told, not in the queue. */
    method RejectMsgupd(id: Id) returns (thrown: Option<Rejection>)
      requires Persisted(View())
      modifies this, db
      ensures var r := RejectEdit(old(View()), id);
              if r.Accepted? then View() == r.s && thrown == None else View() == old(View()) && thrown == Some(r.error)
    {
      if sending == [] { return Some(QueueEmpty); }
      if sending[0].op != MsgUpd && sending[0].op != MsgUpdX { return Some(NotAnEdit); }
      if sending[0].id != id { return Some(OtherMessage); }
      RemoveFront();
      return None;
    }
  }

  lemma {:induction false} InOrder(s: Outbox)
    requires Persisted(s)
    ensures Ascending(s.queue)
  {
  }

  lemma {:induction false} NothingToRetarget(t: Outbox, xid: Id, msgid: Id)
    requires Persisted(t) && |Rowids(t.queue, (i: Item) => i.id == xid)| == 0
    ensures MapRows(t.rows, RetargetRow(xid, msgid)) == t.rows
    ensures |RowsWhere(t.rows, (r: Row) => r.op == MsgUpdX && r.id == xid)| == 0
  {
    var p := (i: Item) => i.id == xid;
    assert Rowids(t.queue, p) == {};
    forall k | 0 <= k < |t.queue| ensures t.queue[k].id != xid {
      assert t.queue[k].rowid in Rowids(t.queue, p) || !p(t.queue[k]);
    }
    forall r | r in t.rows ensures t.rows[r].id != xid {
      assert Queued(t.queue, r);
      var k :| 0 <= k < |t.queue| && t.queue[k].rowid == r;
      assert Mirrors(t.queue[k], t.rows[r]);
    }
    assert RowsWhere(t.rows, (r: Row) => r.op == MsgUpdX && r.id == xid) == {};
  }
}
