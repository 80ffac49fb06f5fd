/** Over every run of posts, encryptions, confirmations, edits, rejections and restarts, the `sending`
    table is the queue, and every edit of an unconfirmed message waits behind that message. */
module SendQueueRuns {
  import opened ChatTypes
  import opened SendQueue

  // ---------- Single changes ----------

  lemma {:induction false} PostKeeps(s: Outbox, op: Op, id: Id, keyid: uint32, content: seq<byte>, typ: byte,
          updated: uint16)
    requires Persisted(s) && Keyed(s.queue)
    ensures var t := Post(s, op, id, keyid, content, typ, updated); Persisted(t) && Keyed(t.queue)
  {
    var t := Post(s, op, id, keyid, content, typ, updated);
    assert Keyed(t.queue) by { hide Persisted; }
    forall k | 0 <= k < |s.queue| ensures s.queue[k].rowid <= s.last {
    }
    forall r | r in t.rows ensures Queued(t.queue, r) {
      PostHasRow(s.queue, t.queue[|s.queue|], r);
    }
  }

  lemma {:induction false} PostHasRow(queue: seq<Item>, i: Item, r: nat)
    ensures Queued(queue + [i], r) <==> Queued(queue, r) || r == i.rowid
  {
    var q := queue + [i];
    assert q[|queue|] == i;
    if Queued(queue, r) {
      var k :| 0 <= k < |queue| && queue[k].rowid == r;
      assert q[k] == queue[k];
    }
  }

  /** The id of a posted message or edit is new to the queue, or that of an unsent message. */
  ghost predicate MayPost(queue: seq<Item>, op: Op, id: Id) {
    if op == MsgUpdX then exists k :: 0 <= k < |queue| && queue[k].id == id && queue[k].op != MsgUpd
    else if op == MsgUpd then forall k :: 0 <= k < |queue| && queue[k].id == id ==> queue[k].op.IsEdit()
    else forall k :: 0 <= k < |queue| ==> queue[k].id != id
  }

  lemma {:induction false} PostIsOrdered(queue: seq<Item>, i: Item)
    requires WellIded(queue) && Dependent(queue) && MayPost(queue, i.op, i.id)
    ensures WellIded(queue + [i]) && Dependent(queue + [i])
  {
    var q := queue + [i];
    forall k | 0 <= k < |q| && q[k].op == MsgUpdX ensures HasNewBefore(q, k) {
      var k' := k;
      if k == |queue| { k' :| 0 <= k' < |queue| && queue[k'].id == i.id && queue[k'].op != MsgUpd; }
      if queue[k'].op == MsgUpdX {
        assert HasNewBefore(queue, k');
        var j :| 0 <= j < k' && queue[j].op.IsNew() && queue[j].id == queue[k'].id;
        assert q[j].op.IsNew();
      } else {
        assert q[k'].op.IsNew();
      }
    }
  }

  lemma {:induction false} PostIsIded(queue: seq<Item>, i: Item)
    requires WellIded(queue) && MayPost(queue, i.op, i.id)
    ensures WellIded(queue + [i])
  {
  }

  /** Only the key changes of an item keep the order and the ids of the queue. */
  ghost predicate SameIds(queue: seq<Item>, q: seq<Item>) {
    |q| == |queue| && forall k :: 0 <= k < |q| ==>
        q[k].id == queue[k].id && q[k].op == queue[k].op && q[k].rowid == queue[k].rowid
  }

  lemma {:induction false} SameIdsKeep(queue: seq<Item>, q: seq<Item>)
    requires SameIds(queue, q) && WellIded(queue)
    ensures WellIded(q)
  {
  }

  lemma {:induction false} SameIdsOrdered(queue: seq<Item>, q: seq<Item>)
    requires SameIds(queue, q) && Dependent(queue)
    ensures Dependent(q)
  {
    forall k | 0 <= k < |q| && q[k].op == MsgUpdX ensures HasNewBefore(q, k) {
      assert HasNewBefore(queue, k);
      var j :| 0 <= j < k && queue[j].op.IsNew() && queue[j].id == queue[k].id;
      assert q[j].op.IsNew();
    }
  }

  /** The queue is as long as before, with the rowids it had. */
  lemma {:induction false} SameRowids(s: Outbox, t: Outbox)
    requires Persisted(s) && SameIds(s.queue, t.queue) && t.rows.Keys == s.rows.Keys && t.last == s.last
    requires forall k :: 0 <= k < |s.queue| ==> Mirrors(t.queue[k], t.rows[s.queue[k].rowid])
    ensures Persisted(t)
  {
    forall r | r in t.rows ensures r <= t.last && Queued(t.queue, r) {
      assert r in s.rows;
      assert Queued(s.queue, r);
      var k :| 0 <= k < |s.queue| && s.queue[k].rowid == r;
      assert t.queue[k].rowid == r;
    }
  }

  lemma {:induction false} SealKeeps(s: Outbox, k: nat, keyid: uint32, key: Option<uint32>)
    requires Inv(s) && k < |s.queue| && (key.Some? ==> key.value == keyid)
    ensures s.queue[k].rowid in s.rows && Inv(Seal(s, k, keyid, key)) && SameIds(s.queue, Seal(s, k, keyid, key).queue)
  {
    hide Queued, WellIded;
    var t := Seal(s, k, keyid, key);
    if !s.queue[k].sealed {
      assert t.rows.Keys == s.rows.Keys;
      forall j | 0 <= j < |s.queue| ensures Mirrors(t.queue[j], t.rows[s.queue[j].rowid]) {
        assert Mirrors(s.queue[j], s.rows[s.queue[j].rowid]);
        if j != k { assert s.queue[j].rowid != s.queue[k].rowid; }
      }
      SameRowids(s, t);
    }
    SameIdsKeep(s.queue, t.queue);
  }

  /** A delayed encryption keeps queue and table in agreement exactly when its message is at the front when
      it ends: then it seals that message as an immediate one does. */
  lemma {:induction false} SealDelayedIff(s: Outbox, k: nat, keyid: uint32, key: Option<uint32>)
    requires Inv(s) && k < |s.queue| && !s.queue[k].sealed && (key.Some? ==> key.value == keyid)
    ensures s.queue[k].rowid in s.rows
    ensures Inv(SealDelayed(s, k, keyid, key)) <==> k == 0
    ensures k == 0 ==> SealDelayed(s, k, keyid, key) == Seal(s, k, keyid, key)
  {
    hide Queued, WellIded, Ascending;
    var t := SealDelayed(s, k, keyid, key);
    if k == 0 {
      assert t.queue == Seal(s, 0, keyid, key).queue;
      SealKeeps(s, k, keyid, key);
    } else {
      assert !Mirrors(t.queue[k], t.rows[t.queue[k].rowid]);
    }
  }

  function Source(k: int, at: nat): int { if k < at then k else k + 1 }

  lemma {:induction false} RemoveKeeps(s: Outbox, at: nat)
    requires Persisted(s) && at < |s.queue|
    ensures Persisted(RemoveAt(s, at))
  {
    var t := RemoveAt(s, at);
    forall k | 0 <= k < |t.queue|
      ensures t.queue[k] == s.queue[Source(k, at)] && t.queue[k].rowid in t.rows
              && Mirrors(t.queue[k], t.rows[t.queue[k].rowid])
    {
      assert s.queue[Source(k, at)].rowid != s.queue[at].rowid;
    }
    forall r | r in t.rows ensures r <= t.last && Queued(t.queue, r) {
      RemoveLeavesRow(s, at, r);
    }
  }

  lemma {:induction false} RemoveLeavesRow(s: Outbox, at: nat, r: nat)
    requires Persisted(s) && at < |s.queue| && r in s.rows && r != s.queue[at].rowid
    ensures r <= s.last && Queued(RemoveAt(s, at).queue, r)
  {
    assert Queued(s.queue, r);
    var k :| 0 <= k < |s.queue| && s.queue[k].rowid == r;
    assert RemoveAt(s, at).queue[if k < at then k else k - 1].rowid == r;
  }

  lemma {:induction false} RemoveIsKeyed(s: Outbox, at: nat)
    requires Keyed(s.queue) && at < |s.queue|
    ensures Keyed(RemoveAt(s, at).queue)
  {
    assert forall k :: 0 <= k < |s.queue| - 1 ==> RemoveAt(s, at).queue[k] == s.queue[Source(k, at)];
  }

  lemma {:induction false} RemoveIsIded(s: Outbox, at: nat)
    requires WellIded(s.queue) && at < |s.queue|
    ensures WellIded(RemoveAt(s, at).queue)
  {
    var t := RemoveAt(s, at);
    assert forall k :: 0 <= k < |t.queue| ==> t.queue[k] == s.queue[Source(k, at)];
    forall j, k |
      0 <= j < |t.queue| && 0 <= k < |t.queue| && j != k && t.queue[j].op.IsNew() && t.queue[k].id == t.queue[j].id
      ensures j < k && t.queue[k].op == MsgUpdX
    {
      assert Source(j, at) < Source(k, at) by {
        assert s.queue[Source(j, at)] == t.queue[j] && s.queue[Source(k, at)] == t.queue[k];
      }
    }
  }

  /** Removing an edit never takes a message away from under other edits. */
  lemma {:induction false} RemoveEditIsOrdered(s: Outbox, at: nat)
    requires Dependent(s.queue) && at < |s.queue| && s.queue[at].op.IsEdit()
    ensures Dependent(RemoveAt(s, at).queue)
  {
    var t := RemoveAt(s, at);
    assert forall k :: 0 <= k < |t.queue| ==> t.queue[k] == s.queue[Source(k, at)];
    forall k | 0 <= k < |t.queue| && t.queue[k].op == MsgUpdX ensures HasNewBefore(t.queue, k) {
      assert HasNewBefore(s.queue, Source(k, at));
      var j :| 0 <= j < Source(k, at) && s.queue[j].op.IsNew() && s.queue[j].id == t.queue[k].id;
      assert t.queue[if j < at then j else j - 1] == s.queue[j];
    }
  }

  /** A change of every item, and the change of the table meant to match it. */
  lemma {:induction false} MapKeeps(s: Outbox, f: Item -> Item, g: Row -> Row)
    requires Persisted(s) && (forall i: Item :: f(i).rowid == i.rowid)
    requires forall k :: 0 <= k < |s.queue| ==> Mirrors(f(s.queue[k]), g(s.rows[s.queue[k].rowid]))
    ensures Persisted(s.(queue := Map(s.queue, f), rows := MapRows(s.rows, g)))
  {
    hide Mirrors, Queued;
    var t := s.(queue := Map(s.queue, f), rows := MapRows(s.rows, g));
    assert forall k :: 0 <= k < |t.queue| ==> t.queue[k].rowid == s.queue[k].rowid;
    forall r | r in t.rows ensures Queued(t.queue, r) {
      QueuedStill(s.queue, t.queue, r);
    }
  }

  lemma {:induction false} QueuedStill(queue: seq<Item>, q: seq<Item>, r: nat)
    requires Queued(queue, r) && |q| == |queue| && forall k :: 0 <= k < |q| ==> q[k].rowid == queue[k].rowid
    ensures Queued(q, r)
  {
    var k :| 0 <= k < |queue| && queue[k].rowid == r;
    assert q[k].rowid == r;
  }

  // ---------- Key confirmation ----------

  ghost function Rowids(queue: seq<Item>, p: Item -> bool): (r: set<nat>)
  {
    set k | 0 <= k < |queue| && p(queue[k]) :: queue[k].rowid
  }

  ghost function RowsWhere(rows: map<nat, Row>, p: Row -> bool): set<nat> {
    set r | r in rows && p(rows[r])
  }

  /** A condition that the table sees only in some of the items that meet it: the numbers of items and
      of rows are the same exactly when it sees it in all of them. */
  lemma {:induction false} CountsAgreeIff(s: Outbox, p: Item -> bool, q: Row -> bool)
    requires Persisted(s)
    requires forall k :: 0 <= k < |s.queue| && q(s.rows[s.queue[k].rowid]) ==> p(s.queue[k])
    ensures |RowsWhere(s.rows, q)| == |Rowids(s.queue, p)|
            <==> forall k :: 0 <= k < |s.queue| && p(s.queue[k]) ==> q(s.rows[s.queue[k].rowid])
  {
    var a, b := RowsWhere(s.rows, q), Rowids(s.queue, p);
    forall r | r in a ensures r in b {
      assert Queued(s.queue, r);
    }
    if k :| 0 <= k < |s.queue| && p(s.queue[k]) && !q(s.rows[s.queue[k].rowid]) {
      assert s.queue[k].rowid in b && s.queue[k].rowid !in a;
      SubsetIsSmaller(a, b);
    } else {
      assert forall r :: r in b ==> r in a;
      assert a == b;
    }
  }

  /** No item that is not encrypted yet carries the local key id. */
  ghost predicate OnlySealed(queue: seq<Item>, local: uint32) {
    forall k :: 0 <= k < |queue| && queue[k].keyid == local ==> queue[k].sealed
  }

  /** `keyConfirm` changes as many rows as items exactly when no unencrypted item carries the key id; the
      original asserts that it does, and gives such an item a key id through a null `msgCmd`. */
  lemma {:induction false} KeyCountsAgreeIff(s: Outbox, local: uint32)
    requires Persisted(s)
    ensures |RowsWhere(s.rows, (r: Row) => r.keyid == Some(local))| == |Rowids(s.queue, (i: Item) => i.keyid == local)|
            <==> OnlySealed(s.queue, local)
  {
    var p, q := (i: Item) => i.keyid == local, (r: Row) => r.keyid == Some(local);
    forall k | 0 <= k < |s.queue| ensures q(s.rows[s.queue[k].rowid]) <==> p(s.queue[k]) && s.queue[k].sealed {
      assert Mirrors(s.queue[k], s.rows[s.queue[k].rowid]);
    }
    CountsAgreeIff(s, p, q);
  }

  lemma {:induction false} KeyConfirmKeeps(s: Outbox, keyid: uint32)
    requires Inv(s) && s.queue != [] && s.queue[0].key.Some? && OnlySealed(s.queue, s.queue[0].key.value)
    ensures Inv(KeyConfirm(s, keyid)) && SameIds(s.queue, KeyConfirm(s, keyid).queue)
  {
    hide Persisted, WellIded, Keyed, OnlySealed;
    var local, t := s.queue[0].key.value, KeyConfirm(s, keyid);
    RekeyKeeps(s, local, keyid);
    RekeyIsKeyed(s.queue, local, keyid);
    SameIdsKeep(s.queue, t.queue);
  }

  lemma {:induction false} RekeyIsKeyed(queue: seq<Item>, local: uint32, keyid: uint32)
    requires Keyed(queue)
    ensures Keyed(Map(queue, Rekey(local, keyid)))
  {
  }

  lemma {:induction false} RekeyKeeps(s: Outbox, local: uint32, keyid: uint32)
    requires Persisted(s) && OnlySealed(s.queue, local)
    ensures Persisted(s.(queue := Map(s.queue, Rekey(local, keyid)), rows := MapRows(s.rows, RekeyRow(local, keyid))))
  {
    hide Queued, Ascending;
    forall k | 0 <= k < |s.queue|
      ensures Mirrors(Rekey(local, keyid)(s.queue[k]), RekeyRow(local, keyid)(s.rows[s.queue[k].rowid]))
    {
      assert Mirrors(s.queue[k], s.rows[s.queue[k].rowid]);
    }
    MapKeeps(s, Rekey(local, keyid), RekeyRow(local, keyid));
  }

  // ---------- Confirmation ----------

  ghost predicate OnlyEdits(queue: seq<Item>, xid: Id) {
    forall k :: 0 <= k < |queue| && queue[k].id == xid ==> queue[k].op == MsgUpdX
  }

  /** `msgConfirm` changes as many rows as items exactly when nothing but edits carries the id. */
  lemma {:induction false} ConfirmCountsAgreeIff(s: Outbox, xid: Id)
    requires Persisted(s)
    ensures |RowsWhere(s.rows, (r: Row) => r.op == MsgUpdX
            && r.id == xid)| == |Rowids(s.queue, (i: Item) => i.id == xid)|
            <==> OnlyEdits(s.queue, xid)
  {
    var p, q := (i: Item) => i.id == xid, (r: Row) => r.op == MsgUpdX && r.id == xid;
    forall k | 0 <= k < |s.queue| ensures q(s.rows[s.queue[k].rowid]) <==> p(s.queue[k]) && s.queue[k].op == MsgUpdX {
      assert Mirrors(s.queue[k], s.rows[s.queue[k].rowid]);
    }
    CountsAgreeIff(s, p, q);
  }

  /** The confirmation that removes the front finds nothing but edits under the confirmed id, and the new
      id is not the temporary id of a queued message when there are such edits.  The front itself may be
      a new message or a MSGUPD, which leaves whatever the id. */
  ghost predicate MayConfirm(queue: seq<Item>, xid: Id, msgid: Id) {
    Answered(queue, xid) ==> OnlyEdits(queue[1..], xid) && !Meets(queue[1..], xid, msgid)
  }

  /** An edit to be given the id `msgid` waits beside a new message that has it. */
  ghost predicate Meets(queue: seq<Item>, xid: Id, msgid: Id) {
    exists j, k ::
        0 <= j < |queue| && 0 <= k < |queue| && queue[j].op.IsNew() && queue[j].id == msgid && queue[k].id == xid
  }

  /** After the message at the front is gone, its id is left to its edits. */
  lemma {:induction false} OnlyEditsRemain(s: Outbox, xid: Id)
    requires WellIded(s.queue) && Answered(s.queue, xid) && s.queue[0].op.IsNew()
    ensures OnlyEdits(s.queue[1..], xid)
  {
    assert forall k :: 0 <= k < |s.queue| - 1 ==> s.queue[1..][k] == s.queue[k + 1];
  }

  lemma {:induction false} ConfirmKeeps(s: Outbox, xid: Id, msgid: Id)
    requires Inv(s) && MayConfirm(s.queue, xid, msgid)
    ensures Inv(Confirm(s, xid, msgid))
  {
    hide Persisted, Keyed, WellIded, Meets, OnlyEdits;
    if Answered(s.queue, xid) {
      var t := RemoveAt(s, 0);
      assert t.queue == s.queue[1..];
      RemoveKeeps(s, 0);
      RemoveIsIded(s, 0);
      RemoveIsKeyed(s, 0);
      RetargetKeeps(t, xid, msgid);
      RetargetIsIded(t.queue, xid, msgid);
      RetargetIsKeyed(t.queue, xid, msgid);
    }
  }

  /** A confirmation keeps queue, table and ids in agreement exactly when only edits carry the confirmed
      id and none of them meets a new message under the new one. */
  lemma {:induction false} ConfirmKeepsIff(s: Outbox, xid: Id, msgid: Id)
    requires Inv(s) && xid != msgid
    ensures Inv(Confirm(s, xid, msgid)) <==> MayConfirm(s.queue, xid, msgid)
  {
    hide Persisted, Keyed, WellIded, Meets, OnlyEdits;
    if MayConfirm(s.queue, xid, msgid) {
      ConfirmKeeps(s, xid, msgid);
    } else {
      var t := RemoveAt(s, 0);
      assert t.queue == s.queue[1..];
      RemoveKeeps(s, 0);
      if !OnlyEdits(t.queue, xid) {
        RetargetParts(t, xid, msgid);
      } else {
        RetargetMeets(t.queue, xid, msgid);
      }
    }
  }

  /** An item that is no edit of an unsent message is changed in RAM only. */
  lemma {:induction false} RetargetParts(t: Outbox, xid: Id, msgid: Id)
    requires Persisted(t) && !OnlyEdits(t.queue, xid) && xid != msgid
    ensures !Persisted(t.(queue := Map(t.queue, Retarget(xid, msgid)),
        rows := MapRows(t.rows, RetargetRow(xid, msgid))))
  {
    hide Queued, Ascending;
    var k :| 0 <= k < |t.queue| && t.queue[k].id == xid && t.queue[k].op != MsgUpdX;
    var u := t.(queue := Map(t.queue, Retarget(xid, msgid)), rows := MapRows(t.rows, RetargetRow(xid, msgid)));
    assert Mirrors(t.queue[k], t.rows[t.queue[k].rowid]);
    assert !Mirrors(u.queue[k], u.rows[u.queue[k].rowid]);
  }

  lemma {:induction false} RetargetMeets(queue: seq<Item>, xid: Id, msgid: Id)
    requires Meets(queue, xid, msgid) && xid != msgid
    ensures !WellIded(Map(queue, Retarget(xid, msgid)))
  {
    var q := Map(queue, Retarget(xid, msgid));
    var j, k :|
      0 <= j < |queue| && 0 <= k < |queue| && queue[j].op.IsNew() && queue[j].id == msgid && queue[k].id == xid;
    assert q[j] == queue[j] && q[k].id == msgid && q[k].op == MsgUpd;
  }

  lemma {:induction false} RetargetIsKeyed(queue: seq<Item>, xid: Id, msgid: Id)
    requires Keyed(queue)
    ensures Keyed(Map(queue, Retarget(xid, msgid)))
  {
  }

  lemma {:induction false} RetargetKeeps(t: Outbox, xid: Id, msgid: Id)
    requires Persisted(t) && OnlyEdits(t.queue, xid)
    ensures Persisted(t.(queue := Map(t.queue, Retarget(xid, msgid)), rows := MapRows(t.rows, RetargetRow(xid, msgid))))
  {
    forall k | 0 <= k < |t.queue|
      ensures Mirrors(Retarget(xid, msgid)(t.queue[k]), RetargetRow(xid, msgid)(t.rows[t.queue[k].rowid]))
    {
      assert Mirrors(t.queue[k], t.rows[t.queue[k].rowid]);
    }
    MapKeeps(t, Retarget(xid, msgid), RetargetRow(xid, msgid));
  }

  lemma {:induction false} RetargetIsIded(queue: seq<Item>, xid: Id, msgid: Id)
    requires WellIded(queue) && OnlyEdits(queue, xid) && !Meets(queue, xid, msgid)
    ensures WellIded(Map(queue, Retarget(xid, msgid)))
  {
    var t := Map(queue, Retarget(xid, msgid));
    assert forall k :: 0 <= k < |t| && queue[k].id == xid ==> t[k].id == msgid && t[k].op == MsgUpd;
    assert forall k :: 0 <= k < |t| && queue[k].id != xid ==> t[k] == queue[k];
  }

  /** One confirmation turns exactly the edits of that message into edits of the confirmed message. */
  lemma {:induction false} ConfirmTurnsItsEdits(s: Outbox, xid: Id, msgid: Id)
    requires Answered(s.queue, xid) && OnlyEdits(s.queue[1..], xid)
    ensures var q := Confirm(s, xid, msgid).queue;
            && |q| == |s.queue| - 1
            && forall k :: 0 <= k < |q| ==>
                 var was := s.queue[k + 1];
                 if was.op == MsgUpdX && was.id == xid then q[k] == was.(op := MsgUpd, id := msgid) else q[k] == was
  {
    var t := RemoveAt(s, 0);
    assert t.queue == s.queue[1..];
    assert forall k :: 0 <= k < |t.queue| ==> t.queue[k] == s.queue[k + 1];
  }

  lemma {:induction false} ConfirmIsOrdered(s: Outbox, xid: Id, msgid: Id)
    requires Dependent(s.queue) && MayConfirm(s.queue, xid, msgid)
    ensures Dependent(Confirm(s, xid, msgid).queue)
  {
    if Answered(s.queue, xid) {
      ConfirmTurnsItsEdits(s, xid, msgid);
      var q := Confirm(s, xid, msgid).queue;
      forall k | 0 <= k < |q| && q[k].op == MsgUpdX ensures HasNewBefore(q, k) {
        assert HasNewBefore(s.queue, k + 1);
        var j :| 0 <= j < k + 1 && s.queue[j].op.IsNew() && s.queue[j].id == s.queue[k + 1].id;
        assert q[j - 1] == s.queue[j];
      }
    }
  }

  // ---------- Rejections ----------

  /** While every edit waits behind its message, the front of the queue is no such edit. */
  lemma {:induction false} FrontIsNoOrphan(queue: seq<Item>)
    requires Dependent(queue) && queue != []
    ensures queue[0].op != MsgUpdX
  {
    assert HasNewBefore(queue, 0) || queue[0].op != MsgUpdX;
  }

  /** When the message at the front is rejected, or answered with MSGID, an edit is left without it
      exactly when one is queued. */
  lemma {:induction false} DropOrphansIff(s: Outbox, xid: Id)
    requires WellIded(s.queue) && Dependent(s.queue) && Answered(s.queue, xid) && s.queue[0].op.IsNew()
    ensures Dependent(Drop(s, xid).queue)
            <==> forall k :: 0 <= k < |s.queue| && s.queue[k].op == MsgUpdX ==> s.queue[k].id != xid
  {
    var q := Drop(s, xid).queue;
    assert forall k :: 0 <= k < |q| ==> q[k] == s.queue[k + 1];
    if k :| 0 <= k < |s.queue| && s.queue[k].op == MsgUpdX && s.queue[k].id == xid {
      assert q[k - 1] == s.queue[k];
      forall j | 0 <= j < k - 1 && q[j].op.IsNew() ensures q[j].id != xid {
        assert s.queue[j + 1] == q[j];
      }
      assert !HasNewBefore(q, k - 1);
    } else {
      forall k | 0 <= k < |q| && q[k].op == MsgUpdX ensures HasNewBefore(q, k) {
        assert HasNewBefore(s.queue, k + 1);
        var j :| 0 <= j < k + 1 && s.queue[j].op.IsNew() && s.queue[j].id == s.queue[k + 1].id;
        assert q[j - 1] == s.queue[j];
      }
    }
  }

  // ---------- Edits ----------

  /** `msgModify` changes as many rows as items. */
  lemma {:induction false} EditCountsAgree(s: Outbox, id: Id)
    requires Persisted(s)
    ensures |RowsWhere(s.rows, (r: Row) => r.id == id)| == |Rowids(s.queue, (i: Item) => i.id == id)|
  {
    var p, q := (i: Item) => i.id == id, (r: Row) => r.id == id;
    forall k | 0 <= k < |s.queue| ensures q(s.rows[s.queue[k].rowid]) <==> p(s.queue[k]) {
      assert Mirrors(s.queue[k], s.rows[s.queue[k].rowid]);
    }
    CountsAgreeIff(s, p, q);
  }

  lemma {:induction false} EditUnsentKeeps(s: Outbox, k: nat, content: seq<byte>, typ: byte, delta: uint16)
    requires Inv(s) && k < |s.queue| && s.queue[k].op != MsgUpd
    ensures Inv(EditUnsent(s, k, content, typ, delta))
    ensures Dependent(s.queue) ==> Dependent(EditUnsent(s, k, content, typ, delta).queue)
  {
    hide Persisted, Keyed, WellIded, Dependent, MayPost;
    var i := s.queue[k];
    var t := s.(queue := s.queue[k := i.(updated := delta)]);
    NewDelta(s, k, delta);
    RewriteKeeps(t, i.id, content);
    var u := t.(queue := Map(t.queue, Rewrite(i.id, content)), rows := MapRows(t.rows, RewriteRow(i.id, content)));
    PostKeeps(u, MsgUpdX, i.id, i.keyid, content, typ, delta);
    SameIdsKeep(s.queue, u.queue);
    MayPostEdit(u.queue, k);
    var item := Item(MsgUpdX, i.id, i.keyid, content, typ, delta, u.last + 1, false, None);
    PostIsIded(u.queue, item);
    if Dependent(s.queue) {
      SameIdsOrdered(s.queue, u.queue);
      PostIsOrdered(u.queue, item);
    }
  }

  lemma {:induction false} MayPostEdit(queue: seq<Item>, k: nat)
    requires k < |queue| && queue[k].op != MsgUpd
    ensures MayPost(queue, MsgUpdX, queue[k].id)
  {
  }

  lemma {:induction false} NewDelta(s: Outbox, k: nat, delta: uint16)
    requires Persisted(s) && Keyed(s.queue) && k < |s.queue|
    ensures var t := s.(queue := s.queue[k := s.queue[k].(updated := delta)]);
            Persisted(t) && Keyed(t.queue) && SameIds(s.queue, t.queue)
  {
    hide Queued;
    var t := s.(queue := s.queue[k := s.queue[k].(updated := delta)]);
    forall j | 0 <= j < |s.queue| ensures Mirrors(t.queue[j], t.rows[s.queue[j].rowid]) {
      assert Mirrors(s.queue[j], s.rows[s.queue[j].rowid]);
    }
    SameRowids(s, t);
  }

  lemma {:induction false} RewriteKeeps(s: Outbox, id: Id, content: seq<byte>)
    requires Persisted(s) && Keyed(s.queue)
    ensures var t := s.(queue := Map(s.queue, Rewrite(id, content)), rows := MapRows(s.rows, RewriteRow(id, content)));
            Persisted(t) && Keyed(t.queue) && SameIds(s.queue, t.queue)
  {
    hide Queued, Ascending;
    forall k | 0 <= k < |s.queue|
      ensures Mirrors(Rewrite(id, content)(s.queue[k]), RewriteRow(id, content)(s.rows[s.queue[k].rowid]))
    {
      assert Mirrors(s.queue[k], s.rows[s.queue[k].rowid]);
    }
    MapKeeps(s, Rewrite(id, content), RewriteRow(id, content));
  }

  /** The items of a queue that a received update leaves, in order. */
  function Remaining(queue: seq<Item>, id: Id, truncate: bool, delta: uint16): seq<Item> {
    if queue == [] then []
    else
      (if Superseded(queue[0], id, truncate, delta) then [] else [queue[0]])
      + Remaining(queue[1..], id, truncate, delta)
  }

  /** `onMsgUpdated` removes exactly the superseded edits. */
  lemma {:induction false} SupersedeFilters(s: Outbox, k: nat, id: Id, truncate: bool, delta: uint16)
    requires k <= |s.queue|
    ensures Supersede(s, k, id, truncate, delta).queue == s.queue[..k] + Remaining(s.queue[k..], id, truncate, delta)
    decreases |s.queue| - k
  {
    if k < |s.queue| {
      assert s.queue[k..][1..] == s.queue[k + 1..] && s.queue[k..][0] == s.queue[k];
      if Superseded(s.queue[k], id, truncate, delta) {
        var t := RemoveAt(s, k);
        assert t.queue[..k] == s.queue[..k] && t.queue[k..] == s.queue[k + 1..];
        SupersedeFilters(t, k, id, truncate, delta);
      } else {
        SupersedeFilters(s, k + 1, id, truncate, delta);
        assert s.queue[..k + 1] == s.queue[..k] + [s.queue[k]];
      }
    }
  }

  lemma {:induction false} SupersedeKeeps(s: Outbox, k: nat, id: Id, truncate: bool, delta: uint16)
    requires Inv(s)
    ensures Inv(Supersede(s, k, id, truncate, delta))
    ensures Dependent(s.queue) ==> Dependent(Supersede(s, k, id, truncate, delta).queue)
    decreases |s.queue| - k
  {
    hide Persisted, Keyed, WellIded, Dependent;
    if k < |s.queue| {
      if Superseded(s.queue[k], id, truncate, delta) {
        RemoveKeeps(s, k);
        RemoveIsKeyed(s, k);
        RemoveIsIded(s, k);
        if Dependent(s.queue) { RemoveEditIsOrdered(s, k); }
        SupersedeKeeps(RemoveAt(s, k), k, id, truncate, delta);
      } else {
        SupersedeKeeps(s, k + 1, id, truncate, delta);
      }
    }
  }

  // ---------- Restart ----------

  /** The outbox after the application was closed and opened again. */
  ghost function Restart(s: Outbox): Outbox
    requires Persisted(s)
  {
    s.(queue := seq(|s.queue|, k requires 0 <= k < |s.queue| => Restored(s.queue[k].rowid, s.rows[s.queue[k].rowid])))
  }

  ghost predicate Covers(a: seq<Item>, b: seq<Item>) {
    forall k :: 0 <= k < |a| ==> Queued(b, a[k].rowid)
  }

  lemma {:induction false} CoversWithoutLast(a: seq<Item>, b: seq<Item>)
    requires Ascending(a) && Covers(a, b) && a != [] && b != [] && a[|a| - 1].rowid == b[|b| - 1].rowid
    ensures Covers(a[..|a| - 1], b[..|b| - 1])
  {
    forall k | 0 <= k < |a| - 1 ensures Queued(b[..|b| - 1], a[k].rowid) {
      assert Queued(b, a[k].rowid);
      var j :| 0 <= j < |b| && b[j].rowid == a[k].rowid;
      assert b[..|b| - 1][j] == b[j];
    }
  }

  /** Rows read in rowid order give one queue only. */
  lemma {:induction false} AscendingUnique(a: seq<Item>, b: seq<Item>)
    requires Ascending(a) && Ascending(b) && Covers(a, b) && Covers(b, a)
    ensures |a| == |b| && forall k :: 0 <= k < |a| ==> a[k].rowid == b[k].rowid
    decreases |a|
  {
    hide Queued;
    if a == [] {
      if b != [] { NotQueued(b[0].rowid); }
    } else {
      if b == [] { NotQueued(a[0].rowid); }
      var m, n := |a| - 1, |b| - 1;
      LastsMeet(a, b);
      CoversWithoutLast(a, b);
      CoversWithoutLast(b, a);
      AscendingUnique(a[..m], b[..n]);
      forall k | 0 <= k < |a| ensures a[k].rowid == b[k].rowid {
        if k < m { assert a[..m][k] == a[k] && b[..n][k] == b[k]; }
      }
    }
  }

  lemma {:induction false} NotQueued(rowid: nat)
    ensures !Queued([], rowid)
  {
  }

  lemma {:induction false} LastsMeet(a: seq<Item>, b: seq<Item>)
    requires Ascending(a) && Ascending(b) && a != [] && b != []
    requires Queued(b, a[|a| - 1].rowid) && Queued(a, b[|b| - 1].rowid)
    ensures a[|a| - 1].rowid == b[|b| - 1].rowid
  {
    var j :| 0 <= j < |b| && b[j].rowid == a[|a| - 1].rowid;
    var k :| 0 <= k < |a| && a[k].rowid == b[|b| - 1].rowid;
  }

  /** `loadSendQueue` after a restart rebuilds the queue: the same items in the same order, with the
      same ids, contents, ciphertexts and keys.  Only the delta of an edit made in RAM, and the key id of
      a message that had not been encrypted, are as they were first stored. */
  lemma {:induction false} LoadRebuilds(s: Outbox, loaded: seq<Item>)
    requires Inv(s) && Loads(s.rows, loaded)
    ensures loaded == Restart(s).queue && |loaded| == |s.queue|
    ensures forall k :: 0 <= k < |loaded| ==>
              var i := s.queue[k];
              loaded[k] == i.(updated := loaded[k].updated, keyid := if i.sealed then i.keyid else KEYID_INVALID)
    ensures forall k :: 0 <= k < |loaded| ==> loaded[k].updated == s.rows[loaded[k].rowid].updated
  {
    hide WellIded;
    forall k | 0 <= k < |loaded| ensures Queued(s.queue, loaded[k].rowid) {
      assert loaded[k].rowid in s.rows;
    }
    forall k | 0 <= k < |s.queue| ensures Queued(loaded, s.queue[k].rowid) {
      assert s.queue[k].rowid in s.rows;
    }
    AscendingUnique(loaded, s.queue);
    forall k | 0 <= k < |loaded|
      ensures var i := s.queue[k];
              loaded[k] == i.(updated := loaded[k].updated, keyid := if i.sealed then i.keyid else KEYID_INVALID)
    {
      assert Mirrors(s.queue[k], s.rows[s.queue[k].rowid]);
    }
  }

  lemma {:induction false} RestartKeeps(s: Outbox)
    requires Inv(s)
    ensures Inv(Restart(s)) && SameIds(s.queue, Restart(s).queue)
  {
    hide Queued, WellIded;
    var t := Restart(s);
    forall k | 0 <= k < |s.queue|
      ensures Mirrors(t.queue[k], t.rows[s.queue[k].rowid]) && t.queue[k].id == s.queue[k].id
              && t.queue[k].op == s.queue[k].op
      ensures t.queue[k].key.Some? ==> t.queue[k].sealed && t.queue[k].key.value == t.queue[k].keyid
    {
      assert Mirrors(s.queue[k], s.rows[s.queue[k].rowid]);
    }
    SameRowids(s, t);
    SameIdsKeep(s.queue, t.queue);
  }

  // ---------- Runs ----------

  datatype Event =
    | Submit(nodes: bool, id: Id, content: seq<byte>, typ: byte)
    | Encrypted(k: nat, keyid: uint32, key: Option<uint32>)
    | KeyConfirmed(keyid: uint32)
    | Confirmed(xid: Id, msgid: Id)
    | Dropped(xid: Id)                 // answered with MSGID, or rejected
    | EditedUnsent(k: nat, content: seq<byte>, typ: byte, delta: uint16)
    | EditedSent(id: Id, keyid: uint32, content: seq<byte>, typ: byte, delta: uint16)
    | OwnUpdate(id: Id, truncate: bool, delta: uint16)
    | EditRejected(id: Id)
    | Restarted

  /** What the server, the random ids and the crypto module promise. */
  ghost predicate Allowed(s: Outbox, e: Event) {
    match e
    case Submit(nodes, id, _, _) => MayPost(s.queue, if nodes then NewNodeMsg else NewMsg, id)
    case Encrypted(k, keyid, key) => k < |s.queue| && (key.Some? ==> key.value == keyid)
    case KeyConfirmed(_) => s.queue == [] || (s.queue[0].key.Some? && OnlySealed(s.queue, s.queue[0].key.value))
    case Confirmed(xid, msgid) => MayConfirm(s.queue, xid, msgid)
    case EditedUnsent(k, _, _, _) => k < |s.queue| && s.queue[k].op != MsgUpd
    case EditedSent(id, _, _, _, _) => MayPost(s.queue, MsgUpd, id)
    case _ => true
  }

  ghost function Step(s: Outbox, e: Event): Outbox
    requires Inv(s) && Allowed(s, e)
  {
    match e
    case Submit(nodes, id, content, typ) =>
      Post(s, if nodes then NewNodeMsg else NewMsg, id, KEYID_INVALID, content, typ, 0)
    case Encrypted(k, keyid, key) => Seal(s, k, keyid, key)
    case KeyConfirmed(keyid) => if s.queue == [] then s else KeyConfirm(s, keyid)
    case Confirmed(xid, msgid) => Confirm(s, xid, msgid)
    case Dropped(xid) => Drop(s, xid)
    case EditedUnsent(k, content, typ, delta) => EditUnsent(s, k, content, typ, delta)
    case EditedSent(id, keyid, content, typ, delta) => EditSent(s, id, keyid, content, typ, delta)
    case OwnUpdate(id, truncate, delta) => Supersede(s, 0, id, truncate, delta)
    case EditRejected(id) => if RejectEdit(s, id).Accepted? then RejectEdit(s, id).s else s
    case Restarted => Restart(s)
  }

  /** The event takes a new message away from under its queued edits. */
  ghost predicate Orphans(s: Outbox, e: Event) {
    && e.Dropped? && Answered(s.queue, e.xid)
    && exists k :: 0 <= k < |s.queue| && s.queue[k].op == MsgUpdX && s.queue[k].id == e.xid
  }

  lemma {:induction false} RemoveFrontKeeps(s: Outbox)
    requires Inv(s) && s.queue != []
    ensures Inv(RemoveAt(s, 0))
  {
    hide Persisted, Keyed, WellIded;
    RemoveKeeps(s, 0);
    RemoveIsKeyed(s, 0);
    RemoveIsIded(s, 0);
  }

  lemma {:induction false} StepKeeps(s: Outbox, e: Event)
    requires Inv(s) && Allowed(s, e)
    ensures Inv(Step(s, e))
    ensures Dependent(s.queue) && !Orphans(s, e) ==> Dependent(Step(s, e).queue)
  {
    hide Persisted, Keyed, WellIded, Dependent, MayPost, MayConfirm, OnlySealed;
    hide Confirm, KeyConfirm, EditUnsent, Seal, Supersede, RemoveAt;
    match e
    case Submit(nodes, id, content, typ) =>
      PostStep(s, if nodes then NewNodeMsg else NewMsg, id, KEYID_INVALID, content, typ, 0);
    case Encrypted(k, keyid, key) =>
      SealKeeps(s, k, keyid, key);
      if Dependent(s.queue) { SameIdsOrdered(s.queue, Seal(s, k, keyid, key).queue); }
    case KeyConfirmed(keyid) =>
      if s.queue != [] {
        KeyConfirmKeeps(s, keyid);
        if Dependent(s.queue) { SameIdsOrdered(s.queue, KeyConfirm(s, keyid).queue); }
      }
    case Confirmed(xid, msgid) =>
      ConfirmKeeps(s, xid, msgid);
      if Dependent(s.queue) { ConfirmIsOrdered(s, xid, msgid); }
    case Dropped(xid) => DropStep(s, xid);
    case EditedUnsent(k, content, typ, delta) => EditUnsentKeeps(s, k, content, typ, delta);
    case EditedSent(id, keyid, content, typ, delta) => PostStep(s, MsgUpd, id, keyid, content, typ, delta);
    case OwnUpdate(id, truncate, delta) => SupersedeKeeps(s, 0, id, truncate, delta);
    case EditRejected(id) =>
      if RejectEdit(s, id).Accepted? {
        RemoveFrontKeeps(s);
        if Dependent(s.queue) { RemoveEditIsOrdered(s, 0); }
      }
    case Restarted =>
      RestartKeeps(s);
      if Dependent(s.queue) { SameIdsOrdered(s.queue, Restart(s).queue); }
  }

  lemma {:induction false} PostStep(s: Outbox, op: Op, id: Id, keyid: uint32, content: seq<byte>, typ: byte,
          updated: uint16)
    requires Inv(s) && MayPost(s.queue, op, id)
    ensures var t := Post(s, op, id, keyid, content, typ, updated);
            Inv(t) && (Dependent(s.queue) ==> Dependent(t.queue))
  {
    hide Persisted, Keyed, WellIded, Dependent, MayPost;
    PostKeeps(s, op, id, keyid, content, typ, updated);
    var item := Item(op, id, keyid, content, typ, updated, s.last + 1, false, None);
    PostIsIded(s.queue, item);
    if Dependent(s.queue) { PostIsOrdered(s.queue, item); }
  }

  lemma {:induction false} DropStep(s: Outbox, xid: Id)
    requires Inv(s)
    ensures Inv(Drop(s, xid))
    ensures Dependent(s.queue) && !Orphans(s, Dropped(xid)) ==> Dependent(Drop(s, xid).queue)
  {
    hide Persisted, Keyed, WellIded, Dependent, RemoveAt;
    if Answered(s.queue, xid) {
      RemoveFrontKeeps(s);
      if Dependent(s.queue) && !Orphans(s, Dropped(xid)) {
        if s.queue[0].op.IsNew() {
          DropOrphansIff(s, xid);
        } else {
          RemoveEditIsOrdered(s, 0);
        }
      }
    }
  }

  ghost predicate AllowedRun(s: Outbox, es: seq<Event>)
    requires Inv(s)
    decreases |es|
  {
    es != [] ==> Allowed(s, es[0]) && (StepKeeps(s, es[0]); AllowedRun(Step(s, es[0]), es[1..]))
  }

  ghost function Run(s: Outbox, es: seq<Event>): Outbox
    requires Inv(s) && AllowedRun(s, es)
    decreases |es|
  {
    if es == [] then s else (StepKeeps(s, es[0]); Run(Step(s, es[0]), es[1..]))
  }

  ghost predicate NoOrphans(s: Outbox, es: seq<Event>)
    requires Inv(s) && AllowedRun(s, es)
    decreases |es|
  {
    es != [] ==> !Orphans(s, es[0]) && (StepKeeps(s, es[0]); NoOrphans(Step(s, es[0]), es[1..]))
  }

  /** Send queue refinement: after every run, restarts included, the rows in rowid order are the queue. */
  lemma {:induction false} TableIsTheQueue(s: Outbox, es: seq<Event>)
    requires Inv(s) && AllowedRun(s, es)
    ensures Inv(Run(s, es))
    decreases |es|
  {
    hide Inv, Step, Allowed;
    if es != [] {
      StepKeeps(s, es[0]);
      TableIsTheQueue(Step(s, es[0]), es[1..]);
    }
  }

  /** Edit dependency: as long as no message is taken away from under its edits, every edit of an
      unconfirmed message waits behind it, and the front of the queue can always be sent. */
  lemma {:induction false} EditsWaitForTheirMessage(s: Outbox, es: seq<Event>)
    requires Inv(s) && Dependent(s.queue) && AllowedRun(s, es) && NoOrphans(s, es)
    ensures var q := Run(s, es).queue; Dependent(q) && (q != [] ==> q[0].op != MsgUpdX)
    decreases |es|
  {
    hide Inv, Step, Allowed, Dependent, Orphans;
    if es != [] {
      StepKeeps(s, es[0]);
      EditsWaitForTheirMessage(Step(s, es[0]), es[1..]);
    } else if s.queue != [] {
      FrontIsNoOrphan(s.queue);
    }
  }

  /** The events that remove an edit of message `id`. */
  predicate Frees(e: Event, id: Id) {
    (e.EditRejected? && e.id == id) || (e.OwnUpdate? && e.id == id)
  }

  ghost predicate StuckWith(queue: seq<Item>, id: Id, rowid: nat) {
    queue != [] && queue[0].op == MsgUpdX && queue[0].id == id && queue[0].rowid == rowid
  }

  lemma {:induction false} StuckStep(s: Outbox, e: Event, id: Id, rowid: nat)
    requires Inv(s) && Allowed(s, e) && StuckWith(s.queue, id, rowid) && !Frees(e, id)
    ensures StuckWith(Step(s, e).queue, id, rowid)
  {
    hide Persisted, Keyed, WellIded, MayPost, MayConfirm, OnlySealed;
    match e
    case OwnUpdate(i, truncate, delta) =>
      SupersedeFilters(s, 0, i, truncate, delta);
      assert s.queue[0..] == s.queue && s.queue[..0] == [];
    case Encrypted(k, keyid, key) => SealKeeps(s, k, keyid, key);
    case Restarted => RestartKeeps(s);
    case _ =>
  }

  /** An edit without its message that reaches the front blocks the queue: over every run, whatever is
      posted, answered, confirmed or restarted, it stays there until the server rejects it or an update
      of that message arrives. */
  lemma {:induction false} OrphanBlocks(s: Outbox, es: seq<Event>)
    requires Inv(s) && AllowedRun(s, es) && s.queue != [] && s.queue[0].op == MsgUpdX
    requires forall e :: e in es ==> !Frees(e, s.queue[0].id)
    ensures StuckWith(Run(s, es).queue, s.queue[0].id, s.queue[0].rowid)
    decreases |es|
  {
    hide Inv, Step, Allowed, Frees;
    if es != [] {
      StepKeeps(s, es[0]);
      StuckStep(s, es[0], s.queue[0].id, s.queue[0].rowid);
      OrphanBlocks(Step(s, es[0]), es[1..]);
    }
  }
}
