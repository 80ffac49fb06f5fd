/** Theorems about every interleaving of arrivals and delayed decryptions. */
module PipelineRuns {
  import opened ChatTypes
  import opened HistorySpec
  import opened Pipeline

  /** What can happen to the history; each event carries the state of the keys at that moment. */
  datatype Event =
    | NewArrives(m: Message, crypto: Crypto)
    | OldArrives(m: Message, crypto: Crypto)
    | NewDecrypted(done: Message, crypto: Crypto)
    | OldDecrypted(done: Message, crypto: Crypto)
    | Confirmed(m: Message)

  /** What the server (new messages have fresh ids), the client (it asks for old history only when the table
      is fully loaded) and the crypto module (the promise of the halted message resolves) guarantee. */
  ghost predicate Promised(h: Hist, e: Event) {
    match e
    case NewArrives(m, crypto) =>
      FreshId(h, m.id) && Honest(crypto) && h.high + 1 < IDX_INVALID && (m.enc == Pending || m.enc == NotEncrypted)
    case OldArrives(m, crypto) => m.id != NULL_ID && Honest(crypto) && !h.hasMore && m.enc == Pending
    case NewDecrypted(done, crypto) =>
      Honest(crypto) && h.haltedNew != IDX_INVALID && done.enc != Pending
      && h.haltedNew in h.ram && done.id == h.ram[h.haltedNew].id
    case OldDecrypted(done, crypto) =>
      Honest(crypto) && h.haltedOld != IDX_INVALID && done.enc != Pending
      && h.haltedOld in h.ram && done.id == h.ram[h.haltedOld].id
    case Confirmed(m) => FreshId(h, m.id) && m.enc == NotEncrypted && h.high + 1 < IDX_INVALID
  }

  /** Nothing overtakes a message that waits for its keys: neither a message that is plain on arrival a new
      one, nor a new truncate an old one.  And no old message comes a second time. */
  ghost predicate InOrder(h: Hist, e: Event) {
    match e
    case NewArrives(m, crypto) =>
      (m.enc == NotEncrypted ==> h.haltedNew == IDX_INVALID)
      && (h.haltedOld != IDX_INVALID ==> !ArrivalTruncates(h, m, crypto))
    case NewDecrypted(done, crypto) => h.haltedOld != IDX_INVALID ==> !FinishTruncates(h, done, crypto)
    case OldArrives(m, _) => FreshId(h, m.id)
    case Confirmed(_) => h.haltedNew == IDX_INVALID
    case OldDecrypted(_, _) => true
  }

  ghost predicate Allowed(h: Hist, e: Event) { Promised(h, e) && InOrder(h, e) }

  function Apply(h: Hist, e: Event): Hist {
    match e
    case NewArrives(m, crypto) => AddNew(h, m, crypto)
    case OldArrives(m, crypto) => AddOld(h, m, crypto)
    case NewDecrypted(done, crypto) => FinishNew(h, done, crypto)
    case OldDecrypted(done, crypto) => FinishOld(h, done, crypto)
    case Confirmed(m) => Confirm(h, m)
  }

  ghost predicate AllowedRun(h: Hist, es: seq<Event>)
    decreases |es|
  {
    es == [] || (Allowed(h, es[0]) && AllowedRun(Apply(h, es[0]), es[1..]))
  }

  function RunAll(h: Hist, es: seq<Event>): Hist
    decreases |es|
  {
    if es == [] then h else RunAll(Apply(h, es[0]), es[1..])
  }

  /** Every row stays as it was written, unless a newer message is a truncate. */
  ghost predicate Keeps(before: map<int, Message>, now: map<int, Message>) {
    forall k :: k in before && !(k in now && now[k] == before[k]) ==> exists t :: k < t && TruncateAt(now, t)
  }

  lemma {:induction false} KeepsItself(m: map<int, Message>)
    ensures Keeps(m, m)
  {
  }

  lemma {:induction false} KeepsThen(a: map<int, Message>, b: map<int, Message>, c: map<int, Message>)
    requires Keeps(a, b) && Keeps(b, c)
    ensures Keeps(a, c)
  {
    forall k | k in a && !(k in c && c[k] == a[k]) ensures exists t :: k < t && TruncateAt(c, t) {
      if !(k in b && b[k] == a[k]) {
        var t :| k < t && TruncateAt(b, t);
        if t in c && c[t] == b[t] { assert TruncateAt(c, t); }
      }
    }
  }

  /** A confirmation goes to the end of the buffer and of the table, and keeps the history in order,
      exactly when no new message is waiting for its keys. */
  lemma {:induction false} ConfirmInOrderIff(h: Hist, m: Message)
    requires Inv(h) && FreshId(h, m.id) && m.enc == NotEncrypted && h.high + 1 < IDX_INVALID
    ensures Inv(Confirm(h, m)) <==> h.haltedNew == IDX_INVALID
    ensures h.haltedNew == IDX_INVALID ==> Confirm(h, m).rows == h.rows[h.high + 1 := m]
  {
    if h.haltedNew == IDX_INVALID {
      hide FreshId, Store, Inv;
      StoreForward(h, m);
      StoreFields(PushForward(h, m), h.high + 1, m);
      KnownFields(h, m);
    } else {
      var g := Confirm(h, m);
      forall j | j in h.rows ensures h.rows[j].id != m.id { assert !HasId(h.rows, m.id); }
      assert h.high + 1 in g.rows;
      assert g.DecryptedHigh() < h.high + 1;
    }
  }

  lemma {:induction false} KnownFields(h: Hist, m: Message)
    requires Inv(h)
    ensures Confirm(h, m) == Store(PushForward(h, m), h.high + 1, m)
  {
  }

  /** An already decrypted NEWMSG (imported from the notification extension) bypasses the queue of
      delayed messages, so it too stays in order exactly when that queue is empty; a truncate, when no old
      message waits either. */
  lemma {:induction false} ImportInOrderIff(h: Hist, m: Message, crypto: Crypto)
    requires Inv(h) && FreshId(h, m.id) && m.enc == NotEncrypted && h.high + 1 < IDX_INVALID && Honest(crypto)
    ensures Inv(AddNew(h, m, crypto)) <==> h.haltedNew == IDX_INVALID && (h.haltedOld == IDX_INVALID || !IsTruncate(m))
  {
    hide Honest;
    if h.haltedNew == IDX_INVALID {
      hide Inv;
      ArrivalInOrderIff(h, m, crypto);
    } else {
      hide Classified, Agree;
      var g := AddNew(h, m, crypto);
      assert h.high + 1 !in h.rows;
      forall j | j in h.rows ensures h.rows[j].id != m.id { assert !HasId(h.rows, m.id); }
      if IsTruncate(m) {
        assert g.low == h.high + 1;
      } else {
        assert h.high + 1 in g.rows;
        assert g.DecryptedHigh() < h.high + 1;
      }
    }
  }

  /** A NEWMSG that does not bypass the queue keeps the history in order exactly when it is no truncate
      written while an old message waits for its keys. */
  lemma {:induction false} ArrivalInOrderIff(h: Hist, m: Message, crypto: Crypto)
    requires Inv(h) && FreshId(h, m.id) && h.high + 1 < IDX_INVALID && Honest(crypto)
    requires m.enc == Pending || (m.enc == NotEncrypted && h.haltedNew == IDX_INVALID)
    ensures Inv(AddNew(h, m, crypto)) <==> h.haltedOld == IDX_INVALID || !ArrivalTruncates(h, m, crypto)
  {
    hide Honest;
    if h.haltedOld == IDX_INVALID || !ArrivalTruncates(h, m, crypto) {
      hide Inv;
      AddNewKeeps(h, m, crypto);
    } else {
      hide Classified, Insert, Agree, UniqueIds, Table, Above, FreshId;
      assert Overrun(AddNew(h, m, crypto));
    }
  }

  /** OLDMSGs are not compared with what is there: one keeps the history in order exactly when it is fresh. */
  lemma {:induction false} OldInOrderIff(h: Hist, m: Message, crypto: Crypto)
    requires Inv(h) && m.id != NULL_ID && Honest(crypto) && !h.hasMore && m.enc == Pending
    ensures Inv(AddOld(h, m, crypto)) <==> FreshId(h, m.id)
  {
    hide Honest;
    if FreshId(h, m.id) {
      hide Inv;
      AddOldKeeps(h, m, crypto);
    } else {
      var i := AlreadyLoaded(h, m.id);
      RepeatedOld(h, m, crypto, i);
    }
  }

  lemma {:induction false} AlreadyLoaded(h: Hist, id: Id) returns (i: int)
    requires Inv(h) && !h.hasMore && id != NULL_ID && !FreshId(h, id)
    ensures i in h.ram && h.ram[i].id == id && h.low <= i
  {
    hide UniqueIds;
    if HasId(h.ram, id) {
      i :| i in h.ram && h.ram[i].id == id;
    } else {
      i :| i in h.rows && h.rows[i].id == id;
    }
  }

  lemma {:induction false} RepeatedOld(h: Hist, m: Message, crypto: Crypto, i: int)
    requires Honest(crypto) && m.enc == Pending && i in h.ram && h.low <= i && h.ram[i].id == m.id
    ensures !Inv(AddOld(h, m, crypto))
  {
    hide Window, Table, Agree, Insert;
    if crypto(m).Some? { ClassifiedKeeps(crypto(m).value); }
    hide Classified;
    var g := AddOld(h, m, crypto);
    assert i in g.ram && g.ram[i].id == m.id && h.low - 1 in g.ram && g.ram[h.low - 1].id == m.id;
  }

  /** The ids that the server's log gives to the indices of the client. */
  ghost predicate Numbers(idAt: int -> Id, h: Hist) {
    && (forall i, j :: idAt(i) == idAt(j) ==> i == j) && (forall i :: idAt(i) != NULL_ID)
    && (forall i :: i in h.ram ==> h.ram[i].id == idAt(i)) && (forall i :: i in h.rows ==> h.rows[i].id == idAt(i))
  }

  /** A login names the oldest stored message, and history goes on with the one before it.  That message is
      fresh exactly when no old message waits for its keys: otherwise it is the one that waits. */
  lemma {:induction false} NextOldIsFreshIff(h: Hist, idAt: int -> Id)
    requires Inv(h) && h.oldest != IDX_INVALID && Numbers(idAt, h)
    ensures FreshId(h, idAt(h.oldest - 1)) <==> h.haltedOld == IDX_INVALID
  {
    hide UniqueIds, Agree;
    if h.haltedOld != IDX_INVALID { assert h.ram[h.haltedOld].id == idAt(h.oldest - 1); }
  }

  /** A new truncate leaves nothing but itself, in RAM and table. */
  lemma {:induction false} NewTruncateClears(h: Hist, m: Message, crypto: Crypto)
    requires Inv(h) && FreshId(h, m.id) && h.high + 1 < IDX_INVALID && Honest(crypto)
    requires h.haltedNew == IDX_INVALID && (m.enc == Pending || m.enc == NotEncrypted) && ArrivalTruncates(h, m, crypto)
    ensures var g := AddNew(h, m, crypto);
            && g.low == g.high == g.oldest == h.high + 1 && !g.hasMore && g.oldestKnown == m.id
            && g.high in g.ram && g.ram[g.high] == Classified(AtOnce(h, m, crypto).value) && g.rows == g.ram
  {
    hide Classified, FreshId, Honest, Record, Agree, UniqueIds;
    var x := AtOnce(h, m, crypto).value;
    if m.enc != NotEncrypted { HonestAt(crypto, m); }
    RowsBelow(h);
    forall j | j in h.rows ensures h.rows[j].id != x.id { NotStored(h, m.id, j); }
    var h' := h.(oldestKnown := if h.oldestKnown == NULL_ID then m.id else h.oldestKnown);
    assert PushForward(h, m).(oldestKnown := h'.oldestKnown) == PushForward(h', m);
    TruncateForward(h', m, x);
  }

  lemma {:induction false} TruncateForward(h: Hist, m: Message, x: Message)
    requires IsTruncate(x) && h.low <= h.high + 1 && x.id == m.id
    requires (forall i :: i in h.rows ==> i <= h.high && h.rows[i].id != x.id) && forall i :: i in h.ram ==> i <= h.high
    ensures var g := Record(PushForward(h, m), true, h.high + 1, x);
            && g.low == g.high == g.oldest == h.high + 1 && !g.hasMore && g.oldestKnown == m.id
            && g.high in g.ram && g.ram[g.high] == Classified(x) && g.rows == g.ram
  {
    hide Classified, Above;
    var c := Classified(x);
    ClassifiedKeeps(x);
    assert Insert(h.rows, h.high + 1, c) == h.rows[h.high + 1 := c];
    assert h.ram[h.high + 1 := m][h.high + 1 := c] == h.ram[h.high + 1 := c];
    OnlyTop(h.rows, h.high, c);
    OnlyTop(h.ram, h.high, c);
  }

  lemma {:induction false} OnlyTop(was: map<int, Message>, top: int, c: Message)
    requires forall i :: i in was ==> i <= top
    ensures Above(was[top + 1 := c], top) == map[top + 1 := c]
  {
    SameMap(Above(was[top + 1 := c], top), map[top + 1 := c]);
  }

  lemma {:induction false} NotStored(h: Hist, id: Id, j: int)
    requires FreshId(h, id) && j in h.rows
    ensures h.rows[j].id != id
  {
  }

  /** At login the client decides whether rows remain to be loaded by comparing ids.  The answer is
      right exactly when no old message is waiting for its keys. */
  lemma {:induction false} LoginKnowsItsTableIff(h: Hist)
    requires Inv(h) && h.oldest != IDX_INVALID && h.low in h.ram
    ensures (HasMoreAtLogin(h) <==> h.oldest < h.low) <==> h.haltedOld == IDX_INVALID
  {
  }

  lemma {:induction false} ApplyKeeps(h: Hist, e: Event)
    requires Inv(h) && Allowed(h, e)
    ensures Inv(Apply(h, e)) && Keeps(h.rows, Apply(h, e).rows)
  {
    hide Inv, FreshId, Honest, AddNew, AddOld, FinishNew, FinishOld, Confirm;
    hide Appends, ArrivalTruncates, FinishTruncates;
    match e
    case NewArrives(m, crypto) =>
      AddNewKeeps(h, m, crypto);
      AppendsKeeps(h.rows, AddNew(h, m, crypto).rows, h.DecryptedHigh() + 1, AddNew(h, m, crypto).DecryptedHigh());
    case OldArrives(m, crypto) => AddOldKeeps(h, m, crypto);
    case NewDecrypted(done, crypto) =>
      FinishNewKeeps(h, done, crypto);
      AppendsKeeps(h.rows, FinishNew(h, done, crypto).rows, h.haltedNew, FinishNew(h, done, crypto).DecryptedHigh());
    case OldDecrypted(done, crypto) => FinishOldKeeps(h, done, crypto);
    case Confirmed(m) =>
      InHalted(h);
      ConfirmInOrderIff(h, m);
      BeyondTable(h);
  }

  /** One event keeps the history in order if and only if it overtakes no message that waits. */
  lemma {:induction false} ApplyKeepsIff(h: Hist, e: Event)
    requires Inv(h) && Promised(h, e)
    ensures Inv(Apply(h, e)) <==> InOrder(h, e)
  {
    hide Inv, FreshId, Honest, AddNew, AddOld, FinishNew, FinishOld, Confirm, FinishTruncates, IsTruncate;
    match e
    case NewArrives(m, crypto) =>
      if m.enc == NotEncrypted { ImportInOrderIff(h, m, crypto); } else { ArrivalInOrderIff(h, m, crypto); }
    case NewDecrypted(done, crypto) => FinishNewIff(h, done, crypto);
    case Confirmed(m) => ConfirmInOrderIff(h, m);
    case OldArrives(m, crypto) => OldInOrderIff(h, m, crypto);
    case _ => ApplyKeeps(h, e);
  }

  lemma {:induction false} BeyondTable(h: Hist)
    requires Inv(h)
    ensures h.high + 1 !in h.rows
  {
  }

  lemma {:induction false} AppendsKeeps(before: map<int, Message>, now: map<int, Message>, lo: int, hi: int)
    requires Appends(before, now, lo, hi)
    ensures Keeps(before, now)
  {
  }

  /** In-order persistence, for every run: the table stays one interval ending at the newest decrypted
      message, RAM and table agree on it, and a row once written stays as it is until a newer message is a
      truncate. */
  lemma {:induction false} RunStaysInOrder(h: Hist, es: seq<Event>)
    requires Inv(h) && AllowedRun(h, es)
    ensures Inv(RunAll(h, es)) && Keeps(h.rows, RunAll(h, es).rows)
    decreases |es|
  {
    hide Inv, Apply, Keeps;
    if es != [] {
      ApplyKeeps(h, es[0]);
      RunStaysInOrder(Apply(h, es[0]), es[1..]);
      KeepsThen(h.rows, Apply(h, es[0]).rows, RunAll(h, es).rows);
    } else {
      KeepsItself(h.rows);
    }
  }

  /** When nothing waits for keys and nothing remains to be loaded, RAM and table are the same. */
  lemma {:induction false} SettledMeansEqual(h: Hist, es: seq<Event>)
    requires Inv(h) && AllowedRun(h, es)
    requires var g := RunAll(h, es); g.haltedNew == IDX_INVALID && g.haltedOld == IDX_INVALID && !g.hasMore
    ensures RunAll(h, es).rows == RunAll(h, es).ram
  {
    hide AllowedRun, RunAll, UniqueIds;
    RunStaysInOrder(h, es);
    var g := RunAll(h, es);
    forall i ensures i in g.rows <==> i in g.ram {
    }
    SameMap(g.rows, g.ram);
  }
}
