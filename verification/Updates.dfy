/** Edits and truncation (`onMsgUpdatedAfterDecrypt`, `handleTruncate`; src/chatd.cpp:4717-4923,
    src/chatdDb.h:155-176 and 371-388). */
module Updates {
  import opened ChatTypes
  import opened HistorySpec

  /** The read pointers of a chat and their persisted ids. */
  datatype Marks = Marks(seenIdx: int, seenId: Id, recvIdx: int, recvId: Id)

  /** How an update changes the message in RAM. */
  function RamUpdate(m: Message, u: Message): Message {
    var n := m.(data := u.data, updated := u.updated, typ := u.typ, userid := u.userid, enc := u.enc);
    if u.typ == MSG_TRUNCATE then n.(ts := u.ts, keyid := u.keyid) else n
  }

  /** How `updateMsgInHistory` changes its row. */
  function RowUpdate(m: Message, u: Message): Message {
    if u.typ == MSG_TRUNCATE
    then m.(typ := u.typ, data := u.data, ts := u.ts, updated := 0, userid := u.userid, keyid := u.keyid)
    else m.(typ := u.typ, data := u.data, updated := u.updated, userid := u.userid, enc := u.enc)
  }

  /** RAM and table stay alike exactly when the update is no truncate, or is one without an edit delta
      that finds the message in the encryption state the truncate has itself. */
  lemma {:induction false} UpdateAgreesIff(m: Message, u: Message)
    ensures RamUpdate(m, u) == RowUpdate(m, u)
            <==> u.typ != MSG_TRUNCATE || (u.updated == 0 && u.enc == m.enc)
  {
    if u.typ == MSG_TRUNCATE {
      assert RamUpdate(m, u).updated == u.updated && RowUpdate(m, u).updated == 0;
    }
  }

  /** The server sends the same update again at login. */
  predicate IsReplay(m: Message, u: Message) {
    if u.typ == MSG_TRUNCATE then m.typ == u.typ && m.ts == u.ts else m.updated == u.updated
  }

  function TruncateMarks(k: Marks, idx: int): Marks {
    var s := if k.seenIdx != IDX_INVALID && k.seenIdx <= idx then k.(seenIdx := IDX_INVALID, seenId := NULL_ID) else k;
    if s.recvIdx != IDX_INVALID && s.recvIdx <= idx then s.(recvIdx := IDX_INVALID, recvId := NULL_ID) else s
  }

  /** A message is settled when it is decrypted, in RAM and in the table. */
  ghost predicate Settled(h: Hist, idx: int) {
    idx in h.ram && idx in h.rows && h.DecryptedLow() <= idx <= h.DecryptedHigh()
  }

  /** Truncation leaves exactly the suffix from `idx`, in RAM and table alike. */
  lemma {:induction false} TruncateKeeps(h: Hist, idx: int)
    requires Inv(h) && Settled(h, idx) && h.haltedOld == IDX_INVALID
    ensures var g := Truncate(h, idx);
            && Inv(g) && g.low == idx && g.high == h.high && g.oldest == idx && !g.hasMore
            && (forall i :: i in g.rows <==> i in h.rows && idx <= i)
            && (forall i :: i in g.ram <==> i in h.ram && idx <= i)
            && (forall i :: i in g.ram ==> g.ram[i] == h.ram[i]) && (forall i :: i in g.rows ==> g.rows[i] == h.rows[i])
            && Truncate(g, idx) == g
  {
    var g := Truncate(h, idx);
    assert g.DecryptedHigh() == h.DecryptedHigh() && g.DecryptedLow() == idx;
    assert Truncate(g, idx).ram == g.ram;
    assert Truncate(g, idx).rows == g.rows;
  }

  /** A truncate that arrives while an older message waits for its keys removes that message, but not the
      mark that decryption is halted there, and the truncate of a message that waits itself does not
      reach the table: the history stays consistent exactly when neither is the case. */
  lemma {:induction false} TruncateKeepsIff(h: Hist, idx: int)
    requires Inv(h) && idx in h.ram
    ensures Inv(Truncate(h, idx)) <==> idx in h.rows && h.haltedOld == IDX_INVALID
  {
    hide UniqueIds;
    if idx in h.rows && h.haltedOld == IDX_INVALID {
      TruncateKeeps(h, idx);
    } else if idx !in h.rows {
      assert idx < IDX_INVALID && idx !in Truncate(h, idx).rows;
    }
  }

  lemma {:induction false} TruncateMarksTwice(k: Marks, idx: int)
    ensures TruncateMarks(TruncateMarks(k, idx), idx) == TruncateMarks(k, idx)
    ensures TruncateMarks(k, idx).seenIdx == IDX_INVALID || TruncateMarks(k, idx).seenIdx > idx
    ensures TruncateMarks(k, idx).recvIdx == IDX_INVALID || TruncateMarks(k, idx).recvIdx > idx
  {
  }

  /** A pointer that is set and does not lie beyond the truncate is unset together with its id; any other
      stays where it is, under the id it has. */
  lemma {:induction false} TruncateUnsetsIff(k: Marks, idx: int)
    ensures var t := TruncateMarks(k, idx);
            && (if k.seenIdx != IDX_INVALID && k.seenIdx <= idx then t.seenIdx == IDX_INVALID && t.seenId == NULL_ID
                else t.seenIdx == k.seenIdx && t.seenId == k.seenId)
            && (if k.recvIdx != IDX_INVALID && k.recvIdx <= idx then t.recvIdx == IDX_INVALID && t.recvId == NULL_ID
                else t.recvIdx == k.recvIdx && t.recvId == k.recvId)
  {
  }

  /** An edit of a loaded message, in RAM and, if it is there, in the table. */
  function Edit(h: Hist, idx: int, u: Message): Hist
    requires idx in h.ram
  {
    h.(ram := h.ram[idx := RamUpdate(h.ram[idx], u)],
       rows := if idx in h.rows then h.rows[idx := RowUpdate(h.rows[idx], u)] else h.rows)
  }

  lemma {:induction false} EditKeeps(h: Hist, idx: int, u: Message)
    requires Inv(h) && Settled(h, idx) && u.enc != Pending
    requires u.typ != MSG_TRUNCATE || (u.updated == 0 && u.enc == h.ram[idx].enc)
    ensures Inv(Edit(h, idx, u)) && Settled(Edit(h, idx, u), idx)
  {
    hide UniqueIds;
    UpdateAgreesIff(h.ram[idx], u);
    var g := Edit(h, idx, u);
    assert g.DecryptedHigh() == h.DecryptedHigh() && g.DecryptedLow() == h.DecryptedLow();
    EditKeepsIds(h, idx, u);
  }

  lemma {:induction false} EditKeepsIds(h: Hist, idx: int, u: Message)
    requires UniqueIds(h) && idx in h.ram
    ensures UniqueIds(Edit(h, idx, u))
  {
    var g := Edit(h, idx, u);
    forall i | i in h.ram ensures g.ram[i].id == h.ram[i].id {
    }
    forall i | i in h.rows ensures g.rows[i].id == h.rows[i].id {
    }
  }

  /** `onMsgUpdatedAfterDecrypt` for the loaded message at `idx`. */
  function UpdateLoaded(h: Hist, idx: int, u: Message): Hist
    requires idx in h.ram
  {
    if IsReplay(h.ram[idx], u) then h
    else if u.typ == MSG_TRUNCATE then Truncate(Edit(h, idx, u), idx)
    else Edit(h, idx, u)
  }

  function UpdateMarks(h: Hist, k: Marks, idx: int, u: Message): Marks
    requires idx in h.ram
  {
    if !IsReplay(h.ram[idx], u) && u.typ == MSG_TRUNCATE then TruncateMarks(k, idx) else k
  }

  /** Replay safety: an update received again finds itself applied.  It changes neither the stored
      history nor the read pointers, wherever later SEENs and RECEIVEDs have moved these. */
  lemma {:induction false} ReplayChangesNothing(h: Hist, idx: int, u: Message, later: Marks)
    requires idx in h.ram
    ensures var g := UpdateLoaded(h, idx, u);
            && idx in g.ram && g.ram[idx].id == h.ram[idx].id
            && UpdateLoaded(g, idx, u) == g && UpdateMarks(g, later, idx, u) == later
  {
  }

  // ---------- What an update writes ----------

  /** The message with the text, edit delta, type, author and encryption state of an update. */
  predicate IsEdited(m: Message, u: Message, n: Message) {
    && n.data == u.data && n.updated == u.updated && n.typ == u.typ && n.userid == u.userid && n.enc == u.enc
    && n.id == m.id && n.ts == m.ts && n.keyid == m.keyid && n.backRefId == m.backRefId
  }

  ghost predicate OnlyAt(idx: int, before: map<int, Message>, now: map<int, Message>) {
    forall i :: i != idx ==> (i in now <==> i in before) && (i in before ==> now[i] == before[i])
  }

  /** A MSGUPD that is no truncate replaces the text, edit delta, type, author and encryption state of the
      loaded message and of its row, if there is one, and nothing else anywhere, if its edit delta differs
      from the one in RAM; otherwise it changes nothing. */
  lemma {:induction false} EditWrites(h: Hist, k: Marks, idx: int, u: Message)
    requires idx in h.ram && u.typ != 0x03
    ensures var g := UpdateLoaded(h, idx, u);
            && g == h.(ram := g.ram, rows := g.rows) && UpdateMarks(h, k, idx, u) == k
            && (h.ram[idx].updated == u.updated ==> g == h)
            && (h.ram[idx].updated != u.updated ==>
                  && idx in g.ram && IsEdited(h.ram[idx], u, g.ram[idx]) && OnlyAt(idx, h.ram, g.ram)
                  && (idx in g.rows <==> idx in h.rows) && OnlyAt(idx, h.rows, g.rows)
                  && (idx in h.rows ==> IsEdited(h.rows[idx], u, g.rows[idx])))
  {
  }

  /** The message that a truncate leaves, but for its edit delta and its encryption state. */
  predicate IsTruncated(m: Message, u: Message, n: Message) {
    && n.data == u.data && n.typ == 0x03 && n.userid == u.userid && n.ts == u.ts && n.keyid == u.keyid
    && n.id == m.id && n.backRefId == m.backRefId
  }

  ghost predicate KeptFrom(idx: int, before: map<int, Message>, now: map<int, Message>) {
    forall i :: i != idx ==> (i in now <==> i in before && i > idx) && (i in now ==> now[i] == before[i])
  }

  /** A truncate replaces text, type, author, timestamp and key id of the loaded message and of its row; RAM
      takes its edit delta and encryption state too, and the row gets a zero delta and keeps its state.  It
      removes what is older, from the table if the message has a row there, unless the message is that
      truncate already; then nothing changes. */
  lemma {:induction false} TruncateWrites(h: Hist, k: Marks, idx: int, u: Message)
    requires idx in h.ram && u.typ == 0x03
    ensures var g, m := UpdateLoaded(h, idx, u), h.ram[idx];
            && (m.typ == 0x03 && m.ts == u.ts ==> g == h && UpdateMarks(h, k, idx, u) == k)
            && (m.typ != 0x03 || m.ts != u.ts ==>
                  && UpdateMarks(h, k, idx, u) == TruncateMarks(k, idx)
                  && idx in g.ram && IsTruncated(m, u, g.ram[idx]) && KeptFrom(idx, h.ram, g.ram)
                  && g.ram[idx].updated == u.updated && g.ram[idx].enc == u.enc
                  && g.oldest == idx && g.oldestKnown == m.id && !g.hasMore
                  && (idx !in h.rows ==> g.rows == h.rows)
                  && (idx in h.rows ==>
                        && idx in g.rows && IsTruncated(h.rows[idx], u, g.rows[idx]) && KeptFrom(idx, h.rows, g.rows)
                        && g.rows[idx].updated == 0 && g.rows[idx].enc == h.rows[idx].enc))
  {
  }

  /** When an update of a loaded message keeps RAM and table in agreement: it is a replay, or the message
      has been stored and the update is no truncate, or one that its row can take over. */
  ghost predicate Agreeable(h: Hist, idx: int, u: Message)
    requires idx in h.ram
  {
    || IsReplay(h.ram[idx], u)
    || (idx in h.rows
        && (u.typ == MSG_TRUNCATE ==> u.updated == 0 && u.enc == h.ram[idx].enc && h.haltedOld == IDX_INVALID))
  }

  lemma {:induction false} StoredIsSettled(h: Hist, idx: int)
    requires Inv(h) && idx in h.ram && idx in h.rows
    ensures Settled(h, idx)
  {
    hide UniqueIds;
  }

  lemma {:induction false} UpdateKeeps(h: Hist, idx: int, u: Message)
    requires Inv(h) && idx in h.ram && u.enc != Pending && Agreeable(h, idx, u)
    ensures Inv(UpdateLoaded(h, idx, u))
  {
    hide Inv;
    if !IsReplay(h.ram[idx], u) {
      StoredIsSettled(h, idx);
      EditKeeps(h, idx, u);
      if u.typ == MSG_TRUNCATE { TruncateKeeps(Edit(h, idx, u), idx); }
    }
  }

  /** An update of a loaded message keeps the history consistent if and only if it is agreeable. */
  lemma {:induction false} UpdateKeepsIff(h: Hist, idx: int, u: Message)
    requires Inv(h) && idx in h.ram && u.enc != Pending
    ensures Inv(UpdateLoaded(h, idx, u)) <==> Agreeable(h, idx, u)
  {
    if Agreeable(h, idx, u) {
      hide Inv;
      UpdateKeeps(h, idx, u);
    } else if idx in h.rows {
      hide UniqueIds, Table;
      UpdateAgreesIff(h.ram[idx], u);
      var g := UpdateLoaded(h, idx, u);
      assert idx in g.ram && idx in g.rows && (g.ram[idx] == g.rows[idx] ==> h.haltedOld < idx == g.low);
    } else {
      WaitingBreaks(h, idx, u);
    }
  }

  /** An update of a message that waits for its keys changes RAM alone: an edit leaves it without a row
      though it no longer waits, a truncate leaves the table as it was. */
  lemma {:induction false} WaitingBreaks(h: Hist, idx: int, u: Message)
    requires Inv(h) && idx in h.ram && idx !in h.rows && u.enc != Pending && !IsReplay(h.ram[idx], u)
    ensures UpdateLoaded(h, idx, u).rows == h.rows && !Inv(UpdateLoaded(h, idx, u))
  {
    hide UniqueIds;
    var g := UpdateLoaded(h, idx, u);
    assert idx in g.ram && g.ram[idx].enc == u.enc && idx !in g.rows;
  }

  /** For a message that is not loaded only its row changes, and only to a newer edit: a truncate,
      whose edit delta is zero, changes nothing at all. */
  function UpdateStored(rows: map<int, Message>, j: int, u: Message): map<int, Message>
    requires j in rows
  {
    if rows[j].updated < u.updated then rows[j := RowUpdate(rows[j], u)] else rows
  }

  /** The row of a message that is not loaded takes an edit if and only if its edit delta is smaller. */
  lemma {:induction false} StoredUpdateWrites(rows: map<int, Message>, j: int, u: Message)
    requires j in rows
    ensures var now := UpdateStored(rows, j, u);
            && (rows[j].updated >= u.updated ==> now == rows)
            && (rows[j].updated < u.updated ==>
                  && j in now && OnlyAt(j, rows, now)
                  && (u.typ != 0x03 ==> IsEdited(rows[j], u, now[j]))
                  && (u.typ == 0x03 ==>
                        IsTruncated(rows[j], u, now[j]) && now[j].updated == 0 && now[j].enc == rows[j].enc))
  {
  }

  /** An update of a message that is stored and not loaded keeps the history consistent. */
  lemma {:induction false} StoredUpdateKeeps(h: Hist, j: int, u: Message)
    requires Inv(h) && j in h.rows && j !in h.ram && u.enc != Pending
    ensures Inv(h.(rows := UpdateStored(h.rows, j, u)))
  {
    hide UniqueIds;
    var g := h.(rows := UpdateStored(h.rows, j, u));
    assert g.DecryptedLow() == h.DecryptedLow() && g.DecryptedHigh() == h.DecryptedHigh();
    StoredUpdateKeepsIds(h, j, u);
  }

  lemma {:induction false} StoredUpdateKeepsIds(h: Hist, j: int, u: Message)
    requires UniqueIds(h) && j in h.rows
    ensures UniqueIds(h.(rows := UpdateStored(h.rows, j, u)))
  {
    var g := h.(rows := UpdateStored(h.rows, j, u));
    forall i | i in h.rows ensures g.rows[i].id == h.rows[i].id {
    }
  }

  lemma {:induction false} StoredUpdateTwice(rows: map<int, Message>, j: int, u: Message)
    requires j in rows
    ensures UpdateStored(UpdateStored(rows, j, u), j, u) == UpdateStored(rows, j, u)
    ensures u.updated == 0 ==> UpdateStored(rows, j, u) == rows
  {
    var once := UpdateStored(rows, j, u);
    assert once[j := RowUpdate(once[j], u)] == once[j := RowUpdate(rows[j], u)];
  }
}
