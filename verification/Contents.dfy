/** What the pipeline writes: every new row holds the text that the crypto module returned for the message at
    its index, with the type that a special message carries in its text (src/chatd.cpp:5339-5560). */
module Contents {
  import opened ChatTypes
  import opened HistorySpec
  import opened Pipeline
  import opened PipelineRuns

  /** What is stored of a plain message: the message itself, but for the type of one whose text starts with
      a zero byte. */
  predicate IsStored(m: Message, n: Message) {
    && n == m.(typ := n.typ)
    && n.typ == if m.typ == 0x01 && |m.data| >= 2 && m.data[0] == 0 then (m.data[1] + 0x55) % 256 else m.typ
  }

  ghost predicate UnchangedBut(i: int, before: map<int, Message>, now: map<int, Message>, cut: bool) {
    forall j :: j != i ==> (j in now <==> j in before && (cut ==> j > i)) && (j in now ==> now[j] == before[j])
  }

  /** A message that is decrypted gets one row and its place in RAM, alike, and a new truncate removes what is
      older from both. */
  lemma {:induction false} RecordWrites(h: Hist, isNew: bool, i: int, m: Message)
    requires i !in h.rows && forall j :: j in h.rows ==> h.rows[j].id != m.id
    ensures var g := Record(h, isNew, i, m);
            && i in g.ram && i in g.rows && g.ram[i] == g.rows[i] && IsStored(m, g.rows[i])
            && UnchangedBut(i, h.ram, g.ram, isNew && g.rows[i].typ == 0x03)
            && UnchangedBut(i, h.rows, g.rows, isNew && g.rows[i].typ == 0x03)
  {
  }

  /** What `msgIncomingAfterAdd` does with the message at `i`.  One that is plain is stored; one that cannot be
      read for good, or has no key for good, is passed over; any other is stored if it can be decrypted at
      once, and otherwise, or behind one that waits, it waits itself. */
  lemma {:induction false} TurnDecides(h: Hist, isNew: bool, i: int, crypto: Crypto)
    requires i in h.ram
    ensures var (g, settled) := AfterAdd(h, isNew, i, crypto);
            var m, halted := h.ram[i], if isNew then h.haltedNew else h.haltedOld;
            match m.enc
            case NotEncrypted => settled && g == Record(h, isNew, i, m)
            case NoKey => settled && g == h
            case BadSignature => settled && g == h
            case Malformed => settled && g == h
            case _ =>
              if halted != 0x7fffffff then !settled && g == h
              else if crypto(m).Some? then settled && g == Record(h, isNew, i, crypto(m).value)
              else !settled && (if isNew then g == h.(haltedNew := i) else g == h.(haltedOld := i))
  {
    hide Record;
  }

  /** The message that is known to be the oldest: an old message when it arrives, a new one when none was known
      or it truncates the history. */
  lemma {:induction false} OldestKnownIs(h: Hist, m: Message, crypto: Crypto)
    requires Inv(h)
    requires Honest(crypto) && (m.enc == NotEncrypted || m.enc == Pending)
    ensures AddOld(h, m, crypto).oldestKnown == m.id
    ensures AddNew(h, m, crypto).oldestKnown
            == if h.oldestKnown == 0 || ArrivalTruncates(h, m, crypto) then m.id else h.oldestKnown
  {
    hide Inv, Insert, IsTruncate;
    if crypto(m).Some? {
      ClassifiedKeeps(crypto(m).value);
      HonestAt(crypto, m);
    }
    ClassifiedKeeps(m);
    hide Classified, Honest;
  }

  // ---------- The loops behind a delayed decryption ----------

  /** Row `k` holds what the message that waited at `k` was decrypted to. */
  ghost predicate IsDecrypted(ram: map<int, Message>, crypto: Crypto, k: int, row: Message) {
    k in ram && crypto(ram[k]).Some? && IsStored(crypto(ram[k]).value, row)
  }

  ghost predicate AllDecrypted(h: Hist, crypto: Crypto, lo: int, hi: int, g: Hist) {
    forall k :: k in g.rows && k !in h.rows ==> lo <= k <= hi && IsDecrypted(h.ram, crypto, k, g.rows[k])
  }

  lemma {:induction false} Waits(h: Hist, i: int)
    requires Inv(h) && (i == h.haltedNew || i == h.haltedOld) && i in h.ram
    ensures i !in h.rows && forall j :: j in h.rows ==> h.rows[j].id != h.ram[i].id
  {
    hide Agree;
  }

  lemma {:induction false} TurnUpWrites(h: Hist, i: int, crypto: Crypto)
    requires h.haltedNew == IDX_INVALID && h.low <= i <= h.high && Inv(h.(haltedNew := i)) && Honest(crypto)
    requires i in h.ram && crypto(h.ram[i]).Some?
    ensures var g := AfterAdd(h, true, i, crypto).0;
            i in g.rows && IsDecrypted(h.ram, crypto, i, g.rows[i]) && forall k :: k in g.rows && k != i ==> k in h.rows
  {
    hide Inv, Record;
    InHalted(h.(haltedNew := i));
    Waits(h.(haltedNew := i), i);
    HonestAt(crypto, h.ram[i]);
    RecordWrites(h, true, i, crypto(h.ram[i]).value);
  }

  lemma {:induction false} ResumeNewWrites(h: Hist, i: int, crypto: Crypto)
    requires h.haltedNew == IDX_INVALID && h.low <= i <= h.high + 1
    requires Inv(h.(haltedNew := UpTo(h, i))) && Honest(crypto)
    requires h.haltedOld == IDX_INVALID || !ResumeTruncates(h.ram, h.high, i, crypto)
    ensures AllDecrypted(h, crypto, i, h.high, ResumeNew(h, i, crypto))
    decreases h.high - i
  {
    hide Inv, Record, IsTruncate, IsStored, Honest, Appends, IsDecrypted;
    InHalted(h.(haltedNew := UpTo(h, i)));
    if i <= h.high && crypto(h.ram[i]).Some? {
      TurnUp(h, i, crypto);
      TurnUpWrites(h, i, crypto);
      var g := AfterAdd(h, true, i, crypto).0;
      SameTruncates(g.ram, h.ram, h.high, i + 1, crypto);
      ResumeNewWrites(g, i + 1, crypto);
      ResumeNewKeeps(g, i + 1, crypto);
      var r := ResumeNew(g, i + 1, crypto);
      forall k | k in r.rows && k !in h.rows ensures i <= k <= h.high && IsDecrypted(h.ram, crypto, k, r.rows[k]) {
        if k == i {
          AppendsStays(g.rows, r.rows, i + 1, r.DecryptedHigh(), i);
        } else {
          SameDecrypted(g.ram, h.ram, crypto, k, r.rows[k]);
        }
      }
    }
  }

  lemma {:induction false} AppendsStays(before: map<int, Message>, now: map<int, Message>, lo: int, hi: int, k: int)
    requires Appends(before, now, lo, hi) && k in before && k in now
    ensures now[k] == before[k]
  {
  }

  lemma {:induction false} SameDecrypted(m: map<int, Message>, n: map<int, Message>, crypto: Crypto, k: int,
          row: Message)
    requires IsDecrypted(m, crypto, k, row) && (k in m ==> k in n && n[k] == m[k])
    ensures IsDecrypted(n, crypto, k, row)
  {
  }

  lemma {:induction false} TurnDownWrites(h: Hist, i: int, crypto: Crypto)
    requires h.haltedOld == IDX_INVALID && h.low <= i <= h.high && Inv(h.(haltedOld := i)) && Honest(crypto)
    requires i in h.ram && crypto(h.ram[i]).Some?
    ensures var g := AfterAdd(h, false, i, crypto).0;
            && i in g.rows && IsDecrypted(h.ram, crypto, i, g.rows[i])
            && UnchangedBut(i, h.ram, g.ram, false)
  {
    hide Inv, Record;
    InHalted(h.(haltedOld := i));
    Waits(h.(haltedOld := i), i);
    HonestAt(crypto, h.ram[i]);
    RecordWrites(h, false, i, crypto(h.ram[i]).value);
  }

  lemma {:induction false} ResumeOldWrites(h: Hist, i: int, crypto: Crypto)
    requires h.haltedOld == IDX_INVALID && h.low - 1 <= i <= h.high
    requires Inv(h.(haltedOld := DownTo(h, i))) && Honest(crypto)
    ensures AllDecrypted(h, crypto, h.low, i, ResumeOld(h, i, crypto))
    decreases i - h.low
  {
    hide Inv, Record, IsStored, Honest, IsDecrypted;
    InHalted(h.(haltedOld := DownTo(h, i)));
    if i >= h.low && crypto(h.ram[i]).Some? {
      TurnDown(h, i, crypto);
      TurnDownWrites(h, i, crypto);
      var g := AfterAdd(h, false, i, crypto).0;
      ResumeOldWrites(g, i - 1, crypto);
      ResumeOldKeeps(g, i - 1, crypto);
      var r := ResumeOld(g, i - 1, crypto);
      forall k | k in r.rows && k !in h.rows ensures h.low <= k <= i && IsDecrypted(h.ram, crypto, k, r.rows[k]) {
        if k != i { SameDecrypted(g.ram, h.ram, crypto, k, r.rows[k]); }
      }
    }
  }

  // ---------- Every event ----------

  /** The plain text from which row `k` is written: that of the arriving message or of the delayed one, or what
      the message that waited at `k` is decrypted to. */
  ghost function Source(h: Hist, e: Event, k: int): Option<Message> {
    match e
    case NewArrives(m, crypto) => if k != h.high + 1 then None else if m.enc == NotEncrypted then Some(m) else crypto(m)
    case OldArrives(m, crypto) => if k != h.low - 1 then None else crypto(m)
    case NewDecrypted(done, crypto) =>
      if k == h.haltedNew then Some(done) else if k in h.ram && k > h.haltedNew then crypto(h.ram[k]) else None
    case OldDecrypted(done, crypto) =>
      if k == h.haltedOld then Some(done) else if k in h.ram && k < h.haltedOld then crypto(h.ram[k]) else None
    case Confirmed(m) => None
  }

  ghost predicate FromSource(h: Hist, e: Event, g: Hist) {
    forall k :: k in g.rows && k !in h.rows ==> Source(h, e, k).Some? && IsStored(Source(h, e, k).value, g.rows[k])
  }

  lemma {:induction false} AddNewWrites(h: Hist, m: Message, crypto: Crypto)
    requires Inv(h) && Allowed(h, NewArrives(m, crypto))
    ensures FromSource(h, NewArrives(m, crypto), AddNew(h, m, crypto))
    ensures (m.enc == NotEncrypted || (h.haltedNew == IDX_INVALID && crypto(m).Some?)) ==>
              h.high + 1 in AddNew(h, m, crypto).rows
  {
    hide Inv, Record, IsStored, Honest, ArrivalTruncates;
    InHalted(h);
    RowsBelow(h);
    NoRowOf(h, m.id);
    var x := AtOnce(h, m, crypto);
    var p := PushForward(h, m).(oldestKnown := if h.oldestKnown == NULL_ID then m.id else h.oldestKnown);
    if x.Some? {
      if m.enc != NotEncrypted { HonestAt(crypto, m); }
      RecordWrites(p, true, p.high, x.value);
    }
  }

  lemma {:induction false} NoRowOf(h: Hist, id: Id)
    requires FreshId(h, id)
    ensures forall j :: j in h.rows ==> h.rows[j].id != id
  {
  }

  lemma {:induction false} NothingBelow(h: Hist)
    requires Inv(h) && !h.hasMore
    ensures h.low - 1 !in h.rows
  {
    hide UniqueIds, Agree;
  }

  lemma {:induction false} AddOldWrites(h: Hist, m: Message, crypto: Crypto)
    requires Inv(h) && Allowed(h, OldArrives(m, crypto))
    ensures FromSource(h, OldArrives(m, crypto), AddOld(h, m, crypto))
    ensures h.haltedOld == IDX_INVALID && crypto(m).Some? ==> h.low - 1 in AddOld(h, m, crypto).rows
  {
    hide Inv, Record, IsStored, Honest;
    InHalted(h);
    AddOldKeeps(h, m, crypto);
    NoRowOf(h, m.id);
    NothingBelow(h);
    if h.haltedOld == IDX_INVALID && crypto(m).Some? {
      HonestAt(crypto, m);
      RecordWrites(PushBack(h, m).(oldestKnown := m.id), false, h.low - 1, crypto(m).value);
    }
  }

  lemma {:induction false} FinishNewWrites(h: Hist, done: Message, crypto: Crypto)
    requires Inv(h) && Allowed(h, NewDecrypted(done, crypto))
    ensures FromSource(h, NewDecrypted(done, crypto), FinishNew(h, done, crypto))
  {
    hide Inv, Record, IsStored, Honest, Appends, IsTruncate, IsDecrypted, ResumeNew;
    var i := h.haltedNew;
    InHalted(h);
    Waits(h, i);
    RecordWrites(h, true, i, done);
    RecordUp(h, done);
    RecordMoves(h, done);
    var g := Record(h, true, i, done).(haltedNew := IDX_INVALID);
    assert g.(haltedNew := UpTo(g, i + 1)) == Record(h, true, i, done).(haltedNew := UpTo(h, i + 1));
    SameTruncates(g.ram, h.ram, h.high, i + 1, crypto);
    ResumeNewKeeps(g, i + 1, crypto);
    ResumeNewWrites(g, i + 1, crypto);
    var r := FinishNew(h, done, crypto);
    forall k | k in r.rows && k !in h.rows
      ensures var x := Source(h, NewDecrypted(done, crypto), k); x.Some? && IsStored(x.value, r.rows[k])
    {
      if k == i {
        AppendsStays(g.rows, r.rows, i + 1, r.DecryptedHigh(), i);
      } else {
        Decrypted(g.ram, crypto, k, r.rows[k]);
      }
    }
  }

  lemma {:induction false} Decrypted(ram: map<int, Message>, crypto: Crypto, k: int, row: Message)
    requires IsDecrypted(ram, crypto, k, row)
    ensures k in ram && crypto(ram[k]).Some? && IsStored(crypto(ram[k]).value, row)
  {
  }

  lemma {:induction false} FinishOldWrites(h: Hist, done: Message, crypto: Crypto)
    requires Inv(h) && Allowed(h, OldDecrypted(done, crypto))
    ensures FromSource(h, OldDecrypted(done, crypto), FinishOld(h, done, crypto))
  {
    hide Inv, Store, IsStored, Honest, IsDecrypted, ResumeOld, Classified;
    var i, x := h.haltedOld, Classified(done);
    InHalted(h);
    Waits(h, i);
    RecordWrites(h, false, i, done);
    StoreFields(h, i, x);
    ClassifiedKeeps(done);
    StoreDown(h, x);
    var g := Store(h, i, x).(haltedOld := IDX_INVALID);
    assert g.(haltedOld := DownTo(g, i - 1)) == Store(h, i, x).(haltedOld := DownTo(h, i - 1));
    ResumeOldKeeps(g, i - 1, crypto);
    ResumeOldWrites(g, i - 1, crypto);
    var r := FinishOld(h, done, crypto);
    forall k | k in r.rows && k !in h.rows
      ensures var x := Source(h, OldDecrypted(done, crypto), k); x.Some? && IsStored(x.value, r.rows[k])
    {
      if k != i { Decrypted(g.ram, crypto, k, r.rows[k]); }
    }
  }

  /** Every event of the pipeline writes rows for the right messages: a new row holds the text that its own
      message was decrypted to, whichever message it had to wait for, and a confirmed message its own. */
  lemma {:induction false} NewRowsAreDecrypted(h: Hist, e: Event)
    requires Inv(h) && Allowed(h, e)
    ensures !e.Confirmed? ==> FromSource(h, e, Apply(h, e))
    ensures e.Confirmed? ==> Apply(h, e).rows == h.rows[h.high + 1 := e.m]
  {
    hide Inv, FromSource, AddNew, AddOld, FinishNew, FinishOld, Confirm, FreshId, Honest;
    match e
    case NewArrives(m, crypto) => AddNewWrites(h, m, crypto);
    case OldArrives(m, crypto) => AddOldWrites(h, m, crypto);
    case NewDecrypted(done, crypto) => FinishNewWrites(h, done, crypto);
    case OldDecrypted(done, crypto) => FinishOldWrites(h, done, crypto);
    case Confirmed(m) => ConfirmInOrderIff(h, m);
  }
}
