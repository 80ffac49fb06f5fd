/** The queue of unsent messages and edits, and the `sending` table that persists it
    (src/chatd.cpp:3644-3907 and 4305-4626, src/chatdDb.h:89-255). */
module SendQueue {
  import opened ChatTypes

  datatype Op = NewMsg | NewNodeMsg | MsgUpd | MsgUpdX {
    predicate IsNew() { NewMsg? || NewNodeMsg? }
    predicate IsEdit() { MsgUpd? || MsgUpdX? }
  }

  const KEYID_INVALID: uint32 := 0
  const KEYID_MIN: uint32 := 0xffff0000

  /** A `SendingItem` with its message.  It is sealed once its `msgCmd` holds the ciphertext; `key` is
      the local id of the key that its `keyCmd` announces. */
  datatype Item = Item(
    op: Op, id: Id, keyid: uint32, content: seq<byte>, typ: byte, updated: uint16, rowid: nat,
    sealed: bool, key: Option<uint32>)

  /** A row of the `sending` table; the key id is null until the ciphertext is stored. */
  datatype Row = Row(
    op: Op, id: Id, keyid: Option<uint32>, content: seq<byte>, typ: byte, updated: uint16, sealed: bool, key: bool)

  datatype Outbox = Outbox(queue: seq<Item>, rows: map<nat, Row>, last: nat)

  // ---------- Queue and table agree ----------

  /** A row holds what its item needs to be sent again.  The edit delta is left out: `msgModify` changes
      it in RAM only. */
  predicate Mirrors(i: Item, r: Row) {
    r == Row(i.op, i.id, if i.sealed then Some(i.keyid) else None, i.content, i.typ, r.updated, i.sealed, i.key.Some?)
  }

  predicate Ascending(queue: seq<Item>) {
    forall j, k :: 0 <= j < k < |queue| ==> queue[j].rowid < queue[k].rowid
  }

  ghost predicate Queued(queue: seq<Item>, rowid: nat) {
    exists k :: 0 <= k < |queue| && queue[k].rowid == rowid
  }

  /** The rows in rowid order are the queue. */
  ghost predicate Persisted(s: Outbox) {
    && Ascending(s.queue)
    && (forall k :: 0 <= k < |s.queue| ==> s.queue[k].rowid in s.rows && Mirrors(s.queue[k], s.rows[s.queue[k].rowid]))
    && (forall r :: r in s.rows ==> r <= s.last && Queued(s.queue, r))
  }

  /** A key travels with the message encrypted with it. */
  ghost predicate Keyed(queue: seq<Item>) {
    forall k :: 0 <= k < |queue| && queue[k].key.Some? ==> queue[k].sealed && queue[k].key.value == queue[k].keyid
  }

  /** The temporary id of an unsent message belongs to it and to its later edits only. */
  ghost predicate WellIded(queue: seq<Item>) {
    forall j, k :: 0 <= j < |queue| && 0 <= k < |queue| && j != k && queue[j].op.IsNew() && queue[k].id == queue[j].id
      ==> j < k && queue[k].op == MsgUpdX
  }

  ghost predicate HasNewBefore(queue: seq<Item>, k: int)
    requires k < |queue|
  {
    exists j :: 0 <= j < k && queue[j].op.IsNew() && queue[j].id == queue[k].id
  }

  /** Every edit of an unconfirmed message is preceded by that message. */
  ghost predicate Dependent(queue: seq<Item>) {
    forall k :: 0 <= k < |queue| && queue[k].op == MsgUpdX ==> HasNewBefore(queue, k)
  }

  ghost predicate Inv(s: Outbox) {
    Persisted(s) && Keyed(s.queue) && WellIded(s.queue)
  }

  // ---------- Operations ----------

  /** `postMsgToSending`. */
  function Post(s: Outbox, op: Op, id: Id, keyid: uint32, content: seq<byte>, typ: byte, updated: uint16): Outbox {
    Outbox(s.queue + [Item(op, id, keyid, content, typ, updated, s.last + 1, false, None)],
           s.rows[s.last + 1 := Row(op, id, None, content, typ, updated, false, false)],
           s.last + 1)
  }

  /** `msgEncryptAndSend` when `msgEncrypt` answers at once. */
  function Seal(s: Outbox, k: nat, keyid: uint32, key: Option<uint32>): Outbox
    requires k < |s.queue| && s.queue[k].rowid in s.rows
  {
    if s.queue[k].sealed then s else
    var r := s.queue[k].rowid;
    s.(queue := s.queue[k := s.queue[k].(keyid := keyid, sealed := true, key := key)],
       rows := s.rows[r := s.rows[r].(keyid := Some(keyid), sealed := true, key := key.Some?)])
  }

  /** `msgEncryptAndSend` when `msgEncrypt` answers later: the ciphertext of the message at `k` goes to the
      row of that message, but in RAM to whatever is at the front by then. */
  function SealDelayed(s: Outbox, k: nat, keyid: uint32, key: Option<uint32>): Outbox
    requires k < |s.queue| && s.queue[k].rowid in s.rows
  {
    var r := s.queue[k].rowid;
    var queue := s.queue[k := s.queue[k].(keyid := keyid)];
    s.(queue := queue[0 := queue[0].(sealed := true, key := key)],
       rows := s.rows[r := s.rows[r].(keyid := Some(keyid), sealed := true, key := key.Some?)])
  }

  function RemoveAt(s: Outbox, k: nat): Outbox
    requires k < |s.queue|
  {
    s.(queue := s.queue[..k] + s.queue[k + 1..], rows := s.rows - {s.queue[k].rowid})
  }

  function Map(queue: seq<Item>, f: Item -> Item): (r: seq<Item>)
    ensures |r| == |queue| && forall k :: 0 <= k < |r| ==> r[k] == f(queue[k])
  {
    seq(|queue|, k requires 0 <= k < |queue| => f(queue[k]))
  }

  function MapRows(rows: map<nat, Row>, f: Row -> Row): map<nat, Row> {
    map r | r in rows :: f(rows[r])
  }

  function Rekey(local: uint32, keyid: uint32): Item -> Item {
    (i: Item) => if i.keyid == local then i.(keyid := keyid, key := None) else i
  }

  function RekeyRow(local: uint32, keyid: uint32): Row -> Row {
    (r: Row) => if r.keyid == Some(local) then r.(keyid := Some(keyid), key := false) else r
  }

  /** `keyConfirm`, once its guards are passed. */
  function KeyConfirm(s: Outbox, keyid: uint32): Outbox
    requires s.queue != [] && s.queue[0].key.Some?
  {
    var local := s.queue[0].key.value;
    s.(queue := Map(s.queue, Rekey(local, keyid)), rows := MapRows(s.rows, RekeyRow(local, keyid)))
  }

  /** Whether `msgRemoveFromSending` removes the front of the queue.  The ids are compared for a new
      message only: an edit at the front is removed whatever the id. */
  predicate Answered(queue: seq<Item>, xid: Id) {
    queue != [] && queue[0].op != MsgUpdX && (queue[0].op.IsNew() ==> queue[0].id == xid)
  }

  /** A new message is answered with MSGID, or rejected. */
  function Drop(s: Outbox, xid: Id): Outbox {
    if Answered(s.queue, xid) then RemoveAt(s, 0) else s
  }

  function Retarget(xid: Id, msgid: Id): Item -> Item {
    (i: Item) => if i.id == xid then i.(id := msgid, op := MsgUpd) else i
  }

  function RetargetRow(xid: Id, msgid: Id): Row -> Row {
    (r: Row) => if r.op == MsgUpdX && r.id == xid then r.(id := msgid, op := MsgUpd) else r
  }

  /** The queue part of `msgConfirm`. */
  function Confirm(s: Outbox, xid: Id, msgid: Id): Outbox {
    if !Answered(s.queue, xid) then s else
    var t := RemoveAt(s, 0);
    t.(queue := Map(t.queue, Retarget(xid, msgid)), rows := MapRows(t.rows, RetargetRow(xid, msgid)))
  }

  function Rewrite(id: Id, content: seq<byte>): Item -> Item {
    (i: Item) => if i.id == id then i.(content := content) else i
  }

  function RewriteRow(id: Id, content: seq<byte>): Row -> Row {
    (r: Row) => if r.id == id then r.(content := content) else r
  }

  /** `msgModify` of the unsent message at `k`, with the post that it schedules. */
  function EditUnsent(s: Outbox, k: nat, content: seq<byte>, typ: byte, delta: uint16): Outbox
    requires k < |s.queue|
  {
    var i := s.queue[k];
    var queue := s.queue[k := i.(updated := delta)];
    Post(s.(queue := Map(queue, Rewrite(i.id, content)), rows := MapRows(s.rows, RewriteRow(i.id, content))),
         MsgUpdX, i.id, i.keyid, content, typ, delta)
  }

  /** `msgModify` of a message that is in the history. */
  function EditSent(s: Outbox, id: Id, keyid: uint32, content: seq<byte>, typ: byte, delta: uint16): Outbox {
    Post(s, MsgUpd, id, keyid, content, typ, delta)
  }

  /** The queued edits that a received MSGUPD of our own makes obsolete. */
  predicate Superseded(i: Item, id: Id, truncate: bool, delta: uint16) {
    i.op.IsEdit() && i.id == id && (truncate || i.updated <= delta)
  }

  /** The first part of `onMsgUpdated`, from position `k` on. */
  function Supersede(s: Outbox, k: nat, id: Id, truncate: bool, delta: uint16): Outbox
    decreases |s.queue| - k
  {
    if k >= |s.queue| then s
    else if Superseded(s.queue[k], id, truncate, delta) then Supersede(RemoveAt(s, k), k, id, truncate, delta)
    else Supersede(s, k + 1, id, truncate, delta)
  }

  datatype Rejection = QueueEmpty | NotAnEdit | OtherMessage

  datatype Rejected = Accepted(s: Outbox) | Thrown(error: Rejection)

  /** `rejectMsgupd`: whatever the reason of the server, the edit at the front leaves the queue. */
  function RejectEdit(s: Outbox, id: Id): Rejected {
    if s.queue == [] then Thrown(QueueEmpty)
    else if !s.queue[0].op.IsEdit() then Thrown(NotAnEdit)
    else if s.queue[0].id != id then Thrown(OtherMessage)
    else Accepted(RemoveAt(s, 0))
  }

  /** What `loadSendQueue` makes of a row. */
  function Restored(rowid: nat, r: Row): Item {
    var keyid := if r.keyid.Some? then r.keyid.value else KEYID_INVALID;
    Item(r.op, r.id, keyid, r.content, r.typ, r.updated, rowid, r.sealed, if r.key then Some(keyid) else None)
  }

  /** The queue that `loadSendQueue` reads: every row once, in rowid order. */
  ghost predicate Loads(rows: map<nat, Row>, queue: seq<Item>) {
    && Ascending(queue)
    && (forall k :: 0 <= k < |queue| ==>
        queue[k].rowid in rows && queue[k] == Restored(queue[k].rowid, rows[queue[k].rowid]))
    && (forall r :: r in rows ==> Queued(queue, r))
  }
}
