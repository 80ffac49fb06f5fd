/** In-order persistence: whatever the order in which decryptions finish, the history table stays one
    interval, every message is written to it once, and only a new truncate takes rows out of it. */
module Pipeline {
  import opened ChatTypes
  import opened HistorySpec
  import opened Updates

  // ---------- One write ----------

  /** The halted index as the resume loop moves up: unset once it passes the newest message. */
  function UpTo(h: Hist, i: int): int { if i > h.high then IDX_INVALID else i }

  function DownTo(h: Hist, i: int): int { if i < h.low then IDX_INVALID else i }

  /** Message `i` is in RAM only. */
  ghost predicate Unwritten(h: Hist, i: int) {
    i in h.ram && i !in h.rows
  }

  /** Writing a message that is in RAM only adds exactly its row. */
  lemma {:induction false} StoreWrites(h: Hist, i: int, m: Message)
    requires UniqueIds(h) && Unwritten(h, i) && m.id == h.ram[i].id
    ensures Store(h, i, m).rows == h.rows[i := m]
    ensures UniqueIds(Store(h, i, m))
  {
    forall j | j in h.rows ensures h.rows[j].id != m.id {
      assert h.rows[j].id == h.ram[i].id ==> i == j;
    }
    var g := Store(h, i, m);
    assert g.rows == h.rows[i := m];
    forall j | j in g.ram ensures g.ram[j].id == h.ram[j].id {
    }
  }

  lemma {:induction false} StoreAgrees(h: Hist, i: int, m: Message, g: Hist)
    requires Window(h) && Agree(h) && Unwritten(h, i) && m.enc != Pending
    requires g == Store(h, i, m).(haltedNew := g.haltedNew, haltedOld := g.haltedOld) && g.rows == h.rows[i := m]
    requires h.DecryptedLow() <= h.DecryptedHigh() + 1
    requires || (g.DecryptedLow() == h.DecryptedLow() && h.DecryptedHigh() + 1 == i == g.DecryptedHigh())
             || (g.DecryptedHigh() == h.DecryptedHigh() && h.DecryptedLow() - 1 == i == g.DecryptedLow())
    ensures Agree(g)
  {
  }

  /** One turn of the resume loop of new messages, seen with the halted index moved past it. */
  lemma {:induction false} StoreUp(h: Hist, m: Message)
    requires Inv(h) && h.haltedNew != IDX_INVALID && m.enc != Pending && m.id == h.ram[h.haltedNew].id
    ensures var i := h.haltedNew; var g := Store(h, i, m).(haltedNew := UpTo(h, i + 1));
            Inv(g) && g.rows == h.rows[i := m] && i !in h.rows
  {
    hide Agree, UniqueIds;
    var i := h.haltedNew;
    var g := Store(h, i, m).(haltedNew := UpTo(h, i + 1));
    assert Unwritten(h, i);
    StoreWrites(h, i, m);
    StoreAgrees(h, i, m, g);
    assert UniqueIds(g) by { SameMessages(Store(h, i, m), g); }
  }

  lemma {:induction false} SameMessages(h: Hist, g: Hist)
    requires UniqueIds(h) && g.ram == h.ram && g.rows == h.rows
    ensures UniqueIds(g)
  {
  }

  lemma {:induction false} StoreDown(h: Hist, m: Message)
    requires Inv(h) && h.haltedOld != IDX_INVALID && m.enc != Pending && m.id == h.ram[h.haltedOld].id
    ensures var i := h.haltedOld; var g := Store(h, i, m).(haltedOld := DownTo(h, i - 1));
            Inv(g) && g.rows == h.rows[i := m] && i !in h.rows
  {
    hide Agree, UniqueIds;
    var i := h.haltedOld;
    var g := Store(h, i, m).(haltedOld := DownTo(h, i - 1));
    assert Unwritten(h, i);
    StoreWrites(h, i, m);
    StoreAgrees(h, i, m, g);
    assert UniqueIds(g) by { SameMessages(Store(h, i, m), g); }
  }

  // ---------- Delayed decryptions ----------

  /** `now` is `before` plus exactly the rows from `lo` to `hi`. */
  ghost predicate Extends(before: map<int, Message>, now: map<int, Message>, lo: int, hi: int) {
    && (forall k :: k in now <==> k in before || lo <= k <= hi)
    && (forall k :: k in before ==> now[k] == before[k])
    && (forall k :: k in before ==> !(lo <= k <= hi))
  }

  ghost predicate TruncateAt(m: map<int, Message>, t: int) {
    t in m && m[t].typ == MSG_TRUNCATE
  }

  /** `now` is `before` plus the newer rows from `lo` to `hi`, without those that are older than a truncate. */
  ghost predicate Appends(before: map<int, Message>, now: map<int, Message>, lo: int, hi: int) {
    && (forall k :: k in before ==> k < lo)
    && (forall k :: k in now ==> k in before || lo <= k <= hi)
    && (forall k :: k in before && k in now ==> now[k] == before[k])
    && (forall k :: (k in before || lo <= k <= hi) && k !in now ==> exists t :: k < t && TruncateAt(now, t))
  }

  lemma {:induction false} AppendsThen(a: map<int, Message>, b: map<int, Message>, c: map<int, Message>, lo: int,
          mid: int, hi: int)
    requires Appends(a, b, lo, mid) && Appends(b, c, mid + 1, hi) && lo <= mid + 1 <= hi + 1
    ensures Appends(a, c, lo, hi)
  {
    forall k | (k in a || lo <= k <= hi) && k !in c ensures exists t :: k < t && TruncateAt(c, t) {
      if (k in a || lo <= k <= mid) && k !in b {
        var t :| k < t && TruncateAt(b, t);
        if t in c { assert TruncateAt(c, t); }
      }
    }
  }

  lemma {:induction false} AppendsOne(before: map<int, Message>, i: int, m: Message)
    requires forall k :: k in before ==> k < i
    ensures Appends(before, before[i := m], i, i)
  {
  }

  lemma {:induction false} AppendsNone(before: map<int, Message>, lo: int, hi: int)
    requires hi < lo && forall k :: k in before ==> k < lo
    ensures Appends(before, before, lo, hi)
  {
  }

  /** A truncate at the end of what was appended cuts off everything before it. */
  lemma {:induction false} AppendsCut(before: map<int, Message>, now: map<int, Message>, i: int)
    requires Appends(before, now, i, i) && TruncateAt(now, i)
    ensures Appends(before, Above(now, i - 1), i, i)
  {
    assert TruncateAt(Above(now, i - 1), i);
    forall k | k in before && k !in Above(now, i - 1) ensures k < i {
    }
  }

  /** The loop that starts at `i` writes a truncate. */
  ghost predicate ResumeTruncates(ram: map<int, Message>, high: int, i: int, crypto: Crypto)
    decreases high - i
  {
    i <= high && i in ram && crypto(ram[i]).Some?
    && (IsTruncate(crypto(ram[i]).value) || ResumeTruncates(ram, high, i + 1, crypto))
  }

  ghost predicate SameFrom(m: map<int, Message>, n: map<int, Message>, i: int) {
    forall k :: k >= i ==> (k in m <==> k in n) && (k in m ==> m[k] == n[k])
  }

  lemma {:induction false} SameTruncates(m: map<int, Message>, n: map<int, Message>, high: int, i: int, crypto: Crypto)
    requires SameFrom(m, n, i)
    ensures ResumeTruncates(m, high, i, crypto) <==> ResumeTruncates(n, high, i, crypto)
    decreases high - i
  {
    if i <= high { SameTruncates(m, n, high, i + 1, crypto); }
  }

  lemma {:induction false} InHalted(h: Hist)
    requires Inv(h)
    ensures h.low <= h.high + 1 <= IDX_INVALID
    ensures h.haltedNew != IDX_INVALID ==>
              h.low <= h.haltedNew <= h.high && h.haltedNew in h.ram && h.ram[h.haltedNew].enc == Pending
    ensures h.haltedOld != IDX_INVALID ==>
              h.low <= h.haltedOld <= h.high && h.haltedOld in h.ram && h.ram[h.haltedOld].enc == Pending
  {
  }

  lemma {:induction false} StoreFields(h: Hist, i: int, m: Message)
    ensures var g := Store(h, i, m);
            && g.low == h.low && g.high == h.high && g.haltedNew == h.haltedNew && g.haltedOld == h.haltedOld
            && g == h.(ram := h.ram[i := m], rows := Insert(h.rows, i, m),
                       oldest := if h.oldest == IDX_INVALID || i < h.oldest then i else h.oldest)
  {
  }

  /** A new message is written with the halted index moved past it; a truncate then clears what is older. */
  lemma {:induction false} RecordUp(h: Hist, m: Message)
    requires Inv(h) && h.haltedNew != IDX_INVALID && m.enc != Pending && m.id == h.ram[h.haltedNew].id
    requires h.haltedOld == IDX_INVALID || !IsTruncate(m)
    ensures var i := h.haltedNew; var g := Record(h, true, i, m).(haltedNew := UpTo(h, i + 1));
            && Inv(g) && Appends(h.rows, g.rows, i, i) && SameFrom(g.ram, h.ram, i + 1)
            && h.low <= g.low <= i && g.high == h.high && g.haltedOld == h.haltedOld && i !in h.rows
  {
    hide Inv, Store, Classified, Appends;
    var i, x := h.haltedNew, Classified(m);
    InHalted(h);
    ClassifiedKeeps(m);
    StoreUp(h, x);
    StoreFields(h, i, x);
    RowsBelow(h);
    AppendsOne(h.rows, i, x);
    var s := Store(h, i, x).(haltedNew := UpTo(h, i + 1));
    if IsTruncate(m) {
      StoredIsSettled(s, i);
      TruncateKeeps(s, i);
      AppendsCut(h.rows, s.rows, i);
      assert Record(h, true, i, m).(haltedNew := UpTo(h, i + 1)) == Truncate(s, i);
    }
  }

  lemma {:induction false} RowsBelow(h: Hist)
    requires Inv(h)
    ensures forall k :: k in h.rows ==> k < h.DecryptedHigh() + 1
  {
    hide Agree, UniqueIds;
  }

  /** One turn of the loop: the message at `i` is decrypted and written. */
  lemma {:induction false} TurnUp(h: Hist, i: int, crypto: Crypto)
    requires h.haltedNew == IDX_INVALID && h.low <= i <= h.high && Inv(h.(haltedNew := i)) && Honest(crypto)
    requires i in h.ram && crypto(h.ram[i]).Some?
    requires h.haltedOld == IDX_INVALID || !IsTruncate(crypto(h.ram[i]).value)
    ensures var (g, settled) := AfterAdd(h, true, i, crypto);
            && settled && Inv(g.(haltedNew := UpTo(g, i + 1))) && Appends(h.rows, g.rows, i, i)
            && SameFrom(g.ram, h.ram, i + 1)
            && h.low <= g.low <= i && g.high == h.high && g.haltedNew == h.haltedNew && g.haltedOld == h.haltedOld
  {
    hide Inv, Store, Appends, IsTruncate, Classified, SameFrom;
    var halted := h.(haltedNew := i);
    InHalted(halted);
    HonestAt(crypto, h.ram[i]);
    var m := crypto(h.ram[i]).value;
    RecordUp(halted, m);
    StoreFields(h, i, Classified(m));
    StoreFields(halted, i, Classified(m));
    var g := Record(h, true, i, m);
    assert g.(haltedNew := UpTo(g, i + 1)) == Record(halted, true, i, m).(haltedNew := UpTo(h, i + 1));
  }

  /** One turn of the loop: the message at `i` is decrypted and written. */
  lemma {:induction false} TurnDown(h: Hist, i: int, crypto: Crypto)
    requires h.haltedOld == IDX_INVALID && h.low <= i <= h.high && Inv(h.(haltedOld := i)) && Honest(crypto)
    requires i in h.ram && crypto(h.ram[i]).Some?
    ensures var (g, settled) := AfterAdd(h, false, i, crypto);
            && settled && Inv(g.(haltedOld := DownTo(g, i - 1)))
            && i !in h.rows && i in g.rows && g.rows == h.rows[i := g.rows[i]]
            && g.low == h.low && g.high == h.high && g.haltedNew == h.haltedNew && g.haltedOld == h.haltedOld
  {
    hide Inv, Store;
    var halted := h.(haltedOld := i);
    InHalted(halted);
    var x := Classified(crypto(h.ram[i]).value);
    StoreDown(halted, x);
    StoreFields(h, i, x);
    StoreFields(halted, i, x);
    var g := Store(h, i, x);
    assert g.(haltedOld := DownTo(g, i - 1)) == Store(halted, i, x).(haltedOld := DownTo(h, i - 1));
  }

  /** The resume loop writes consecutive rows from `i` up, and stops only behind a message whose keys
      are still missing. */
  lemma {:induction false} ResumeNewKeeps(h: Hist, i: int, crypto: Crypto)
    requires h.haltedNew == IDX_INVALID && h.low <= i <= h.high + 1
    requires Inv(h.(haltedNew := UpTo(h, i))) && Honest(crypto)
    requires h.haltedOld == IDX_INVALID || !ResumeTruncates(h.ram, h.high, i, crypto)
    ensures var g := ResumeNew(h, i, crypto);
            && Inv(g) && h.low <= g.low && g.high == h.high && g.haltedOld == h.haltedOld
            && Appends(h.rows, g.rows, i, g.DecryptedHigh()) && i <= g.DecryptedHigh() + 1
            && (g.haltedNew == IDX_INVALID || (g.haltedNew in g.ram && crypto(g.ram[g.haltedNew]).None?))
    decreases h.high - i
  {
    hide Inv, Record, Appends, IsTruncate, SameFrom;
    InHalted(h.(haltedNew := UpTo(h, i)));
    if i <= h.high && crypto(h.ram[i]).Some? {
      TurnUp(h, i, crypto);
      var g := AfterAdd(h, true, i, crypto).0;
      SameTruncates(g.ram, h.ram, h.high, i + 1, crypto);
      ResumeNewKeeps(g, i + 1, crypto);
      AppendsThen(h.rows, g.rows, ResumeNew(g, i + 1, crypto).rows, i, i, ResumeNew(g, i + 1, crypto).DecryptedHigh());
    } else {
      RowsBelow(h.(haltedNew := UpTo(h, i)));
      AppendsNone(h.rows, i, i - 1);
      assert i <= h.high || h == h.(haltedNew := UpTo(h, i));
    }
  }

  /** A truncate has passed over an old message that still waits for its keys. */
  predicate Overrun(h: Hist) { h.haltedOld != IDX_INVALID && h.haltedOld < h.low }

  lemma {:induction false} OverrunStays(h: Hist, i: int, crypto: Crypto)
    requires Overrun(h)
    ensures Overrun(ResumeNew(h, i, crypto)) && !Inv(ResumeNew(h, i, crypto))
    decreases h.high - i
  {
    hide Insert, IsTruncate, Classified, Above, Agree, UniqueIds, Table;
    if i <= h.high && i in h.ram {
      var (g, settled) := AfterAdd(h, true, i, crypto);
      assert Overrun(g);
      if settled && g.high == h.high { OverrunStays(g, i + 1, crypto); }
    }
  }

  /** The loop keeps the history in order exactly when no old message waits for its keys, or no truncate
      is among the messages that it writes. */
  lemma {:induction false} ResumeNewIff(h: Hist, i: int, crypto: Crypto)
    requires h.haltedNew == IDX_INVALID && h.low <= i <= h.high + 1
    requires Inv(h.(haltedNew := UpTo(h, i))) && Honest(crypto)
    ensures Inv(ResumeNew(h, i, crypto)) <==> h.haltedOld == IDX_INVALID || !ResumeTruncates(h.ram, h.high, i, crypto)
    decreases h.high - i
  {
    hide Inv, Record, Appends, IsTruncate, SameFrom;
    if h.haltedOld == IDX_INVALID || !ResumeTruncates(h.ram, h.high, i, crypto) {
      ResumeNewKeeps(h, i, crypto);
    } else {
      InHalted(h.(haltedNew := UpTo(h, i)));
      var g := AfterAdd(h, true, i, crypto).0;
      if IsTruncate(crypto(h.ram[i]).value) {
        CutOverruns(h, i, crypto);
        OverrunStays(g, i + 1, crypto);
      } else {
        TurnUp(h, i, crypto);
        SameTruncates(g.ram, h.ram, h.high, i + 1, crypto);
        ResumeNewIff(g, i + 1, crypto);
      }
    }
  }

  lemma {:induction false} CutOverruns(h: Hist, i: int, crypto: Crypto)
    requires h.haltedNew == IDX_INVALID && h.low <= i <= h.high && h.haltedOld != IDX_INVALID && Inv(h.(haltedNew := i))
    requires i in h.ram && crypto(h.ram[i]).Some? && IsTruncate(crypto(h.ram[i]).value)
    ensures var (g, settled) := AfterAdd(h, true, i, crypto); settled && g.high == h.high && Overrun(g)
  {
    hide Insert, Classified, Above, UniqueIds, Table;
  }

  lemma {:induction false} ResumeOldKeeps(h: Hist, i: int, crypto: Crypto)
    requires h.haltedOld == IDX_INVALID && h.low - 1 <= i <= h.high
    requires Inv(h.(haltedOld := DownTo(h, i))) && Honest(crypto)
    ensures var g := ResumeOld(h, i, crypto);
            && Inv(g) && g.low == h.low && g.high == h.high && g.haltedNew == h.haltedNew
            && Extends(h.rows, g.rows, g.DecryptedLow(), i) && g.DecryptedLow() <= i + 1
            && (g.haltedOld == IDX_INVALID || (g.haltedOld in g.ram && crypto(g.ram[g.haltedOld]).None?))
    decreases i - h.low
  {
    hide Inv, Store;
    InHalted(h.(haltedOld := DownTo(h, i)));
    if i >= h.low {
      if crypto(h.ram[i]).Some? {
        TurnDown(h, i, crypto);
        ResumeOldKeeps(AfterAdd(h, false, i, crypto).0, i - 1, crypto);
      }
    } else {
      assert h == h.(haltedOld := DownTo(h, i));
    }
  }

  /** A delayed decryption that ends with `done` writes a truncate, itself or in the loop behind it. */
  ghost predicate FinishTruncates(h: Hist, done: Message, crypto: Crypto) {
    IsTruncate(done) || ResumeTruncates(h.ram, h.high, h.haltedNew + 1, crypto)
  }

  /** A delayed decryption of a new message ends, successfully or not: its row is written, then those
      of its successors in order. */
  lemma {:induction false} FinishNewKeeps(h: Hist, done: Message, crypto: Crypto)
    requires Inv(h) && h.haltedNew != IDX_INVALID && Honest(crypto)
    requires done.enc != Pending && done.id == h.ram[h.haltedNew].id
    requires h.haltedOld == IDX_INVALID || !FinishTruncates(h, done, crypto)
    ensures var g := FinishNew(h, done, crypto);
            && Inv(g) && h.low <= g.low && g.high == h.high && g.haltedOld == h.haltedOld
            && Appends(h.rows, g.rows, h.haltedNew, g.DecryptedHigh()) && h.haltedNew <= g.DecryptedHigh()
            && (g.haltedNew == IDX_INVALID || (g.haltedNew in g.ram && crypto(g.ram[g.haltedNew]).None?))
  {
    hide Inv, Honest, Record, ResumeNew, Appends, IsTruncate, SameFrom;
    var i := h.haltedNew;
    InHalted(h);
    RecordUp(h, done);
    RecordMoves(h, done);
    var g := Record(h, true, i, done).(haltedNew := IDX_INVALID);
    assert g.(haltedNew := UpTo(g, i + 1)) == Record(h, true, i, done).(haltedNew := UpTo(h, i + 1));
    SameTruncates(g.ram, h.ram, h.high, i + 1, crypto);
    ResumeNewKeeps(g, i + 1, crypto);
    AppendsThen(h.rows, g.rows, FinishNew(h, done, crypto).rows, i, i, FinishNew(h, done, crypto).DecryptedHigh());
  }

  lemma {:induction false} RecordMoves(h: Hist, m: Message)
    requires h.haltedNew in h.ram
    ensures var g := Record(h, true, h.haltedNew, m);
            g.high == h.high && g.haltedOld == h.haltedOld && g.haltedNew == h.haltedNew
  {
    hide Insert, Classified, Above;
  }

  /** The history stays in order exactly when no old message waits for its keys, or no truncate is
      among the new messages that are written. */
  lemma {:induction false} FinishNewIff(h: Hist, done: Message, crypto: Crypto)
    requires Inv(h) && h.haltedNew != IDX_INVALID && Honest(crypto)
    requires done.enc != Pending && done.id == h.ram[h.haltedNew].id
    ensures Inv(FinishNew(h, done, crypto)) <==> h.haltedOld == IDX_INVALID || !FinishTruncates(h, done, crypto)
  {
    hide Inv, Honest, ResumeNew, Appends, IsTruncate, SameFrom, Record;
    var i := h.haltedNew;
    InHalted(h);
    RecordMoves(h, done);
    var g := Record(h, true, i, done).(haltedNew := IDX_INVALID);
    if h.haltedOld != IDX_INVALID && IsTruncate(done) {
      DoneOverruns(h, done);
      OverrunStays(g, i + 1, crypto);
    } else {
      RecordUp(h, done);
      assert g.(haltedNew := UpTo(g, i + 1)) == Record(h, true, i, done).(haltedNew := UpTo(h, i + 1));
      SameTruncates(g.ram, h.ram, h.high, i + 1, crypto);
      ResumeNewIff(g, i + 1, crypto);
    }
  }

  lemma {:induction false} DoneOverruns(h: Hist, done: Message)
    requires Inv(h) && h.haltedNew != IDX_INVALID && h.haltedOld != IDX_INVALID && IsTruncate(done)
    ensures Overrun(Record(h, true, h.haltedNew, done).(haltedNew := IDX_INVALID))
  {
    hide Insert, Classified, Above, UniqueIds, Table;
  }

  lemma {:induction false} FinishOldKeeps(h: Hist, done: Message, crypto: Crypto)
    requires Inv(h) && h.haltedOld != IDX_INVALID && Honest(crypto)
    requires done.enc != Pending && done.id == h.ram[h.haltedOld].id
    ensures var g := FinishOld(h, done, crypto);
            && Inv(g) && g.low == h.low && g.high == h.high && g.haltedNew == h.haltedNew
            && Extends(h.rows, g.rows, g.DecryptedLow(), h.haltedOld) && g.DecryptedLow() <= h.haltedOld
            && (g.haltedOld == IDX_INVALID || (g.haltedOld in g.ram && crypto(g.ram[g.haltedOld]).None?))
  {
    hide Inv, Honest, Store, ResumeOld;
    var i, x := h.haltedOld, Classified(done);
    InHalted(h);
    StoreFields(h, i, x);
    StoreDown(h, x);
    var g := Store(h, i, x).(haltedOld := IDX_INVALID);
    assert g.(haltedOld := DownTo(g, i - 1)) == Store(h, i, x).(haltedOld := DownTo(h, i - 1));
    ResumeOldKeeps(g, i - 1, crypto);
  }

  // ---------- Edits of messages that wait ----------

  /** An edit of a loaded message that still waits for its keys changes RAM only.  When the loop gets to
      it, the message counts as settled: as if it had been decrypted to the edited one, with the history in
      order behind it, exactly when the edit could be decrypted; otherwise its row is missing for good. */
  lemma {:induction false} EditedTurnIff(h: Hist, i: int, u: Message, crypto: Crypto)
    requires h.haltedNew == IDX_INVALID && h.low <= i <= h.high && Inv(h.(haltedNew := i)) && i in h.ram
    requires u.enc != Pending && u.enc != NoType && !IsTruncate(RamUpdate(h.ram[i], u))
    ensures var x := RamUpdate(h.ram[i], u);
            var (g, settled) := AfterAdd(Edit(h, i, u), true, i, crypto);
            && settled && (Inv(g.(haltedNew := UpTo(g, i + 1))) <==> u.enc == NotEncrypted)
            && (u.enc == NotEncrypted ==> g == Record(h, true, i, x))
            && (u.enc != NotEncrypted ==> g == Edit(h, i, u) && i !in g.rows)
  {
    hide Inv, Classified, IsTruncate, Appends, SameFrom, Record;
    var halted, x := h.(haltedNew := i), RamUpdate(h.ram[i], u);
    InHalted(halted);
    RowsBelow(halted);
    assert Edit(h, i, u) == h.(ram := h.ram[i := x]);
    if x.enc == NotEncrypted {
      RecordUp(halted, x);
      EditedRecord(h, true, i, x, i, h.haltedOld);
      assert h.(haltedNew := i, haltedOld := h.haltedOld) == halted;
      assert Record(halted, true, i, x).(haltedNew := IDX_INVALID) == Record(h, true, i, x);
    } else {
      SkippedTurn(halted, x);
    }
  }

  /** What is recorded depends neither on the text that waited nor on the halted indices. */
  lemma {:induction false} EditedRecord(h: Hist, isNew: bool, i: int, x: Message, haltedNew: int, haltedOld: int)
    requires i in h.ram
    ensures Record(h.(ram := h.ram[i := x]), isNew, i, x) == Record(h, isNew, i, x)
    ensures Record(h.(haltedNew := haltedNew, haltedOld := haltedOld), isNew, i, x)
         == Record(h, isNew, i, x).(haltedNew := haltedNew, haltedOld := haltedOld)
    ensures Record(h, isNew, i, x).high == h.high
    ensures Record(h, isNew, i, x).haltedNew == h.haltedNew && Record(h, isNew, i, x).haltedOld == h.haltedOld
  {
    hide Classified, Insert;
    assert h.ram[i := x][i := Classified(x)] == h.ram[i := Classified(x)];
  }

  lemma {:induction false} SkippedTurn(h: Hist, x: Message)
    requires Inv(h) && h.haltedNew != IDX_INVALID
    ensures var g := h.(ram := h.ram[h.haltedNew := x], haltedNew := UpTo(h, h.haltedNew + 1));
            !Inv(g) && h.haltedNew !in g.rows
  {
    hide UniqueIds;
  }

  /** The same below the window of decrypted messages. */
  lemma {:induction false} EditedTurnDownIff(h: Hist, i: int, u: Message, crypto: Crypto)
    requires h.haltedOld == IDX_INVALID && h.low <= i <= h.high && Inv(h.(haltedOld := i)) && i in h.ram
    requires u.enc != Pending && u.enc != NoType && u.typ != MSG_TRUNCATE
    ensures var x := RamUpdate(h.ram[i], u);
            var (g, settled) := AfterAdd(Edit(h, i, u), false, i, crypto);
            && settled && (Inv(g.(haltedOld := DownTo(g, i - 1))) <==> u.enc == NotEncrypted)
            && (u.enc == NotEncrypted ==> g == Record(h, false, i, x))
            && (u.enc != NotEncrypted ==> g == Edit(h, i, u) && i !in g.rows)
  {
    hide Classified, UniqueIds, IsTruncate;
    var halted, x := h.(haltedOld := i), RamUpdate(h.ram[i], u);
    var e := Edit(h, i, u);
    assert i !in h.rows by { NotWritten(halted); }
    assert e == h.(ram := h.ram[i := x]);
    if x.enc == NotEncrypted {
      ClassifiedKeeps(x);
      StoreDown(halted, Classified(x));
      StoreFields(h, i, Classified(x));
      assert e.ram[i := Classified(x)] == h.ram[i := Classified(x)];
      var g := Store(h, i, Classified(x));
      assert Store(e, i, Classified(x)) == g;
      assert g.(haltedOld := DownTo(g, i - 1)) == Store(halted, i, Classified(x)).(haltedOld := DownTo(h, i - 1));
    }
  }

  lemma {:induction false} NotWritten(h: Hist)
    requires Inv(h) && h.haltedOld != IDX_INVALID
    ensures h.haltedOld !in h.rows
  {
  }

  // ---------- Arrivals ----------

  lemma {:induction false} PushKeepsIds(h: Hist, i: int, m: Message, g: Hist)
    requires UniqueIds(h) && FreshId(h, m.id) && g.ram == h.ram[i := m] && g.rows == h.rows
    ensures UniqueIds(g)
  {
  }

  lemma {:induction false} PushForwardKeeps(h: Hist, m: Message)
    requires Inv(h) && FreshId(h, m.id) && m.enc == Pending && h.high + 1 < IDX_INVALID
    ensures var p := PushForward(h, m);
            Inv(p.(haltedNew := if h.haltedNew == IDX_INVALID then p.high else h.haltedNew))
  {
    hide UniqueIds, FreshId;
    var g := PushForward(h, m).(haltedNew := if h.haltedNew == IDX_INVALID then h.high + 1 else h.haltedNew);
    PushKeepsIds(h, g.high, m, g);
    assert g.DecryptedLow() == h.DecryptedLow() && g.DecryptedHigh() == h.DecryptedHigh();
  }

  lemma {:induction false} PushBackKeeps(h: Hist, m: Message)
    requires Inv(h) && FreshId(h, m.id) && m.enc == Pending && !h.hasMore
    ensures var p := PushBack(h, m);
            Inv(p.(haltedOld := if h.haltedOld == IDX_INVALID then p.low else h.haltedOld))
  {
    hide UniqueIds, FreshId;
    var g := PushBack(h, m).(haltedOld := if h.haltedOld == IDX_INVALID then h.low - 1 else h.haltedOld);
    PushKeepsIds(h, g.low, m, g);
    assert g.DecryptedLow() == h.DecryptedLow() && g.DecryptedHigh() == h.DecryptedHigh();
  }

  /** A decrypted message is appended to the buffer and the table at once. */
  lemma {:induction false} StoreForward(h: Hist, m: Message)
    requires Inv(h) && h.haltedNew == IDX_INVALID && FreshId(h, m.id) && m.enc != Pending && h.high + 1 < IDX_INVALID
    ensures var g := Store(PushForward(h, m), h.high + 1, m);
            && Inv(g) && g.low == h.low && g.high == h.high + 1 && g.rows == h.rows[g.high := m] && g.high !in h.rows
            && g.haltedNew == IDX_INVALID && g.haltedOld == h.haltedOld && g.hasMore == h.hasMore
  {
    hide Inv, FreshId, Store;
    var c := m.(enc := Pending);
    PushForwardKeeps(h, c);
    var p := PushForward(h, c).(haltedNew := h.high + 1);
    InHalted(h);
    StoreUp(p, m);
    StoreFields(p, p.high, m);
    StoreFields(PushForward(h, m), h.high + 1, m);
    assert h.ram[h.high + 1 := c][h.high + 1 := m] == h.ram[h.high + 1 := m][h.high + 1 := m];
    assert Store(p, p.high, m).(haltedNew := IDX_INVALID) == Store(PushForward(h, m), h.high + 1, m);
  }

  lemma {:induction false} StoreBack(h: Hist, m: Message)
    requires Inv(h) && h.haltedOld == IDX_INVALID && FreshId(h, m.id) && m.enc != Pending && !h.hasMore
    ensures var g := Store(PushBack(h, m), h.low - 1, m);
            && Inv(g) && g.low == h.low - 1 && g.high == h.high && g.rows == h.rows[g.low := m] && g.low !in h.rows
            && g.haltedOld == IDX_INVALID && g.haltedNew == h.haltedNew && !g.hasMore
  {
    hide Inv, FreshId, Store;
    var c := m.(enc := Pending);
    PushBackKeeps(h, c);
    var p := PushBack(h, c).(haltedOld := h.low - 1);
    InHalted(h);
    StoreDown(p, m);
    StoreFields(p, p.low, m);
    StoreFields(PushBack(h, m), h.low - 1, m);
    assert h.ram[h.low - 1 := c][h.low - 1 := m] == h.ram[h.low - 1 := m][h.low - 1 := m];
    assert Store(p, p.low, m).(haltedOld := IDX_INVALID) == Store(PushBack(h, m), h.low - 1, m);
  }

  lemma {:induction false} OldestKnownFree(h: Hist, k: Id)
    requires Inv(h) && (h.hasMore ==> k == h.oldestKnown)
    ensures Inv(h.(oldestKnown := k))
  {
    hide Agree, UniqueIds;
    var g := h.(oldestKnown := k);
    assert Agree(g) by { SameAgree(h, g); }
    SameMessages(h, g);
  }

  lemma {:induction false} SameAgree(h: Hist, g: Hist)
    requires Agree(h) && g == h.(oldestKnown := g.oldestKnown)
    ensures Agree(g)
  {
  }

  // ---------- The pipeline as a whole ----------

  /** The plain text with which a NEWMSG is written at once, if it is. */
  function AtOnce(h: Hist, m: Message, crypto: Crypto): Option<Message> {
    if m.enc == NotEncrypted then Some(m) else if h.haltedNew == IDX_INVALID then crypto(m) else None
  }

  ghost predicate ArrivalTruncates(h: Hist, m: Message, crypto: Crypto) {
    AtOnce(h, m, crypto).Some? && IsTruncate(AtOnce(h, m, crypto).value)
  }

  /** A NEWMSG: it is written at once, or queues up behind a delayed one. */
  lemma {:induction false} AddNewKeeps(h: Hist, m: Message, crypto: Crypto)
    requires Inv(h) && FreshId(h, m.id) && Honest(crypto) && h.high + 1 < IDX_INVALID
    requires m.enc == Pending || (m.enc == NotEncrypted && h.haltedNew == IDX_INVALID)
    requires h.haltedOld == IDX_INVALID || !ArrivalTruncates(h, m, crypto)
    ensures var g := AddNew(h, m, crypto);
            && Inv(g) && h.low <= g.low && g.high == h.high + 1 && g.haltedOld == h.haltedOld
            && Appends(h.rows, g.rows, h.DecryptedHigh() + 1, g.DecryptedHigh())
            && (h.haltedNew != IDX_INVALID ==> g.haltedNew == h.haltedNew)
  {
    hide Inv, FreshId, Store, Honest, Classified, Appends, Truncate, IsTruncate;
    InHalted(h);
    var k := if h.oldestKnown == NULL_ID then m.id else h.oldestKnown;
    KnownIfMore(h);
    OldestKnownFree(h, k);
    var h' := h.(oldestKnown := k);
    FreshIdKnown(h, k, m.id);
    var p := PushForward(h', m);
    assert p == PushForward(h, m).(oldestKnown := k);
    if AtOnce(h, m, crypto).Some? {
      if m.enc != NotEncrypted { HonestAt(crypto, m); }
      RecordForward(h', m, AtOnce(h, m, crypto).value);
    } else {
      PushForwardKeeps(h', m);
      RowsBelow(h);
      AppendsNone(h.rows, h.DecryptedHigh() + 1, h.DecryptedHigh());
      assert p.(haltedNew := h.haltedNew) == p;
    }
  }

  lemma {:induction false} RecordForward(h: Hist, m: Message, x: Message)
    requires Inv(h) && h.haltedNew == IDX_INVALID && FreshId(h, m.id) && x.id == m.id && x.enc != Pending
    requires h.high + 1 < IDX_INVALID && (h.haltedOld == IDX_INVALID || !IsTruncate(x))
    ensures var g := Record(PushForward(h, m), true, h.high + 1, x);
            && Inv(g) && h.low <= g.low && g.high == h.high + 1
            && g.haltedNew == IDX_INVALID && g.haltedOld == h.haltedOld
            && Appends(h.rows, g.rows, h.high + 1, g.high)
  {
    hide Inv, FreshId, Store, Classified, Appends;
    ClassifiedKeeps(x);
    var c := Classified(x);
    StoreForward(h, c);
    PushOver(h, m, c);
    var s := Store(PushForward(h, m), h.high + 1, c);
    StoreFields(PushForward(h, m), h.high + 1, c);
    RowsBelow(h);
    AppendsOne(h.rows, h.high + 1, c);
    InHalted(h);
    if IsTruncate(x) {
      StoredIsSettled(s, h.high + 1);
      TruncateKeeps(s, h.high + 1);
      AppendsCut(h.rows, s.rows, h.high + 1);
    }
  }

  lemma {:induction false} AddOldKeeps(h: Hist, m: Message, crypto: Crypto)
    requires Inv(h) && FreshId(h, m.id) && Honest(crypto) && !h.hasMore && m.enc == Pending
    ensures var g := AddOld(h, m, crypto);
            && Inv(g) && g.low == h.low - 1 && g.high == h.high && g.haltedNew == h.haltedNew && !g.hasMore
            && Extends(h.rows, g.rows, g.DecryptedLow(), h.DecryptedLow() - 1)
            && (h.haltedOld != IDX_INVALID ==> g.haltedOld == h.haltedOld)
  {
    hide Inv, FreshId, Store, Honest, Classified;
    InHalted(h);
    OldestKnownFree(h, m.id);
    var h' := h.(oldestKnown := m.id);
    FreshIdKnown(h, m.id, m.id);
    var p := PushBack(h', m);
    if h.haltedOld == IDX_INVALID && crypto(m).Some? {
      HonestAt(crypto, m);
      ClassifiedKeeps(crypto(m).value);
      StoreBack(h', Classified(crypto(m).value));
      PushUnder(h', m, Classified(crypto(m).value));
    } else {
      PushBackKeeps(h', m);
      assert p.(haltedOld := h.haltedOld) == p;
    }
  }

  lemma {:induction false} KnownIfMore(h: Hist)
    requires Inv(h)
    ensures h.hasMore ==> h.oldestKnown != NULL_ID
  {
  }

  lemma {:induction false} FreshIdKnown(h: Hist, k: Id, id: Id)
    requires FreshId(h, id)
    ensures FreshId(h.(oldestKnown := k), id)
  {
  }

  lemma {:induction false} HonestAt(crypto: Crypto, m: Message)
    requires Honest(crypto) && crypto(m).Some?
    ensures crypto(m).value.id == m.id && crypto(m).value.enc == NotEncrypted
  {
  }

  lemma {:induction false} ClassifiedKeeps(m: Message)
    ensures Classified(m).id == m.id && Classified(m).enc == m.enc
  {
  }

  lemma {:induction false} PushOver(h: Hist, m: Message, x: Message)
    ensures Store(PushForward(h, m), h.high + 1, x) == Store(PushForward(h, x), h.high + 1, x)
  {
    assert h.ram[h.high + 1 := m][h.high + 1 := x] == h.ram[h.high + 1 := x][h.high + 1 := x];
  }

  lemma {:induction false} PushUnder(h: Hist, m: Message, x: Message)
    ensures Store(PushBack(h, m), h.low - 1, x) == Store(PushBack(h, x), h.low - 1, x)
  {
    assert h.ram[h.low - 1 := m][h.low - 1 := x] == h.ram[h.low - 1 := x][h.low - 1 := x];
  }
}
