/** The history engine of a chat (src/chatd.cpp), with its buffer and its table.  Every method is proved
    against the specification functions on `View()` and `Pointers()`. */
module Chats {
  import opened ChatTypes
  import opened HistorySpec
  import opened Updates
  import opened Retention
  import opened Unread
  import opened Paging
  import opened ReadMarks
  import Pipeline
  import PipelineRuns
  import opened HistoryBuffers
  import opened HistoryTables

  /** A stored message named by a read pointer lies at or below that pointer's index. */
  ghost predicate Pointed(h: Hist, k: Marks) {
    && (forall i :: i in h.rows && h.rows[i].id == k.seenId ==> k.seenIdx != IDX_INVALID && i <= k.seenIdx)
    && (forall i :: i in h.rows && h.rows[i].id == k.recvId ==> k.recvIdx != IDX_INVALID && i <= k.recvIdx)
  }

  /** The marks once message `id` has been added (`handleLastReceivedSeen`). */
  ghost function ArrivalMarks(h: Hist, k: Marks, me: Id, id: Id): Marks {
    var s := if id == k.seenId then OnSeen(h, k, me, id).0 else k;
    if id == s.recvId then OnReceived(h, s, me, id).0 else s
  }

  /** The message that a pointer waits for, or that it names at a smaller index, is there: the pointer moves to
      it.  Pointers with other ids stay as they are. */
  lemma {:induction false} ArrivalMoves(h: Hist, k: Marks, me: Id, i: int)
    requires Bounded(h) && DistinctIds(h.ram) && DistinctIds(h.rows) && i in h.ram
    ensures var id := h.ram[i].id; var t := ArrivalMarks(h, k, me, id);
            && t.seenId == k.seenId && t.recvId == k.recvId
            && t.seenIdx == (if id == k.seenId && (k.seenIdx == IDX_INVALID || k.seenIdx < i) then i else k.seenIdx)
            && t.recvIdx == (if id == k.recvId && (k.recvIdx == IDX_INVALID || k.recvIdx < i) then i else k.recvIdx)
  {
    hide Notices, Locate;
    LocatedAt(h, h.ram[i].id, i);
    assert i != IDX_INVALID;
  }

  lemma {:induction false} NotIndexed(loaded: map<int, Message>, ids: map<Id, int>, id: Id)
    requires Inverse(loaded, ids)
    ensures HasId(loaded, id) <==> id in ids
  {
    if id in ids {
      var i := ids[id];
      assert i in loaded && loaded[i].id == id;
    }
    if HasId(loaded, id) {
      var i :| i in loaded && loaded[i].id == id;
      assert ids[loaded[i].id] == i;
    }
  }

  lemma {:induction false} SameArrival(g: Hist, h: Hist, k: Marks, me: Id, id: Id)
    requires h == g.(oldest := h.oldest)
    ensures ArrivalMarks(h, k, me, id) == ArrivalMarks(g, k, me, id)
  {
  }

  lemma {:induction false} FreshIsNew(h: Hist, id: Id)
    requires FreshId(h, id)
    ensures !HasId(h.ram, id)
  {
  }

  // ---------- Pages ----------

  /** The messages are the rows below `low`, from the newest down. */
  ghost predicate NextBelow(rows: map<int, Message>, low: int, messages: seq<Message>) {
    forall k :: 0 <= k < |messages| ==> low - 1 - k in rows && messages[k] == rows[low - 1 - k]
  }

  /** The rows that `loadMessages` finds below an interval are the next ones, in order. */
  lemma {:induction false} PageRows(h: Hist, count: nat, indices: seq<int>, messages: seq<Message>)
    requires |messages| == |indices|
    requires forall k :: 0 <= k < |indices| ==> indices[k] in h.rows && messages[k] == h.rows[indices[k]]
    requires Inv(h) && h.hasMore && |indices| <= count && Descending(h.rows, h.low - 1, indices)
    requires |indices| < count ==> forall i :: i in h.rows && i <= h.low - 1 ==> i in indices
    ensures h.oldest <= h.low && |indices| == Min(count, h.low - h.oldest)
    ensures NextBelow(h.rows, h.low, messages)
  {
    hide UniqueIds, Agree;
    forall k | 0 <= k < |indices| ensures indices[k] == h.low - 1 - k >= h.oldest {
      ConsecutiveRows(h.rows, h.oldest, h.low - 1, indices, k);
    }
    assert indices != [] ==> indices[|indices| - 1] >= h.oldest;
    if |indices| < count && h.oldest < h.low {
      assert h.oldest in h.rows;
      var k :| 0 <= k < |indices| && indices[k] == h.oldest;
    }
  }

  lemma {:induction false} ConsecutiveRows(rows: map<int, Message>, lo: int, top: int, indices: seq<int>, k: nat)
    requires Descending(rows, top, indices) && k < |indices|
    requires (forall i :: lo <= i <= top ==> i in rows) && forall i :: i in rows ==> lo <= i
    ensures indices[k] == top - k >= lo
    decreases k
  {
    assert lo <= indices[k] <= top - k by {
      assert indices[k] in rows;
      if k > 0 { ConsecutiveRows(rows, lo, top, indices, k - 1); }
    }
    if top - k in indices {
      var j :| 0 <= j < |indices| && indices[j] == top - k;
      if j < k {
        ConsecutiveRows(rows, lo, top, indices, k - 1);
        assert false;
      }
    }
  }

  lemma {:induction false} PageNone(h: Hist)
    requires Inv(h) && h.hasMore
    ensures Page(h, 0) == h && UniqueIds(h) && Bounded(h)
  {
    hide UniqueIds;
    assert Page(h, 0).ram == h.ram;
  }

  lemma {:induction false} PageLinked(h: Hist, k: nat)
    requires Inv(h) && h.hasMore && k < h.low - h.oldest
    ensures var p := Page(h, k);
            && h.low - k - 1 in h.rows && UniqueIds(PushBack(p, h.rows[h.low - k - 1])) && Bounded(p)
            && p.rows == h.rows && p.oldest < p.low && p.oldest != IDX_INVALID
  {
    hide Inv, UniqueIds, Page;
    PageStep(h, k);
    PageKeeps(h, k);
    PageKeeps(h, k + 1);
    InvIsUnique(Page(h, k + 1));
    InvIsUnique(Page(h, k));
    Pipeline.SameMessages(Page(h, k + 1), PushBack(Page(h, k), h.rows[h.low - k - 1]));
    PageOldest(h, k);
  }

  lemma {:induction false} PageOldest(h: Hist, k: nat)
    requires Inv(h) && h.hasMore && k < h.low - h.oldest
    ensures Page(h, k).oldest == h.oldest < Page(h, k).low && h.oldest != IDX_INVALID
  {
    hide UniqueIds, Agree;
  }

  lemma {:induction false} InvIsUnique(h: Hist)
    requires Inv(h)
    ensures UniqueIds(h) && Bounded(h)
  {
    hide Agree, UniqueIds;
  }

  /** Loading a message never moves a pointer that covers it. */
  lemma {:induction false} PagePointed(h: Hist, k: nat, marks: Marks, me: Id)
    requires Inv(h) && h.hasMore && k < h.low - h.oldest && Pointed(h, marks)
    ensures var i := h.low - k - 1; i in h.rows && ArrivalMarks(Page(h, k + 1), marks, me, h.rows[i].id) == marks
  {
    hide Inv, Locate, Page, ArrivalMarks;
    PageStep(h, k);
    PageKeeps(h, k + 1);
    LocatesRow(Page(h, k + 1), h.low - k - 1);
    CoveredStays(Page(h, k + 1), marks, me, h.low - k - 1);
  }

  lemma {:induction false} CoveredStays(g: Hist, marks: Marks, me: Id, i: int)
    requires i in g.rows && Pointed(g, marks) && Locate(g, g.rows[i].id) == i && i < IDX_INVALID
    ensures ArrivalMarks(g, marks, me, g.rows[i].id) == marks
  {
    hide Locate;
  }

  /** Fewer rows than expected although there should be more: all had been loaded. */
  lemma {:induction false} NothingMore(h: Hist, count: nat)
    requires Inv(h) && h.hasMore && 0 == Min(count, h.low - h.oldest) < count
    ensures h.oldest == h.low && h.low in h.ram && h.low in h.rows && h.ram[h.low] == h.rows[h.low]
            && h.rows[h.low].id == h.oldestKnown
  {
    hide UniqueIds;
  }

  lemma {:induction false} RowsBounded(h: Hist)
    requires Inv(h)
    ensures forall i :: i in h.rows ==> h.oldest <= i < IDX_INVALID
    ensures h.oldest != IDX_INVALID ==> h.oldest in h.rows
    ensures h.oldest == IDX_INVALID ==> h.rows == map[]
  {
    hide UniqueIds, Agree;
  }

  lemma {:induction false} PageEnough(h: Hist, n: nat, count: nat)
    requires Inv(h) && h.hasMore && n == Min(count, h.low - h.oldest)
    ensures Page(h, count) == if n == count then Page(h, n) else Page(h, n).(hasMore := false)
    ensures 0 < n < count ==> !Page(h, n).hasMore
  {
    hide UniqueIds, Agree;
  }

  // ---------- Arrivals ----------

  /** The history once an arrival has its index, before it is decrypted. */
  function Added(h: Hist, isNew: bool, m: Message): Hist {
    if isNew then PushForward(h, m).(oldestKnown := if h.oldestKnown == NULL_ID then m.id else h.oldestKnown)
    else PushBack(h, m).(oldestKnown := m.id)
  }

  /** The arrival that `MsgIncoming` handles, as an event of the pipeline. */
  function Arrival(isNew: bool, m: Message, crypto: Crypto): PipelineRuns.Event {
    if isNew then PipelineRuns.NewArrives(m, crypto) else PipelineRuns.OldArrives(m, crypto)
  }

  lemma {:induction false} ArrivalKeeps(h: Hist, isNew: bool, m: Message, crypto: Crypto)
    requires Inv(h) && PipelineRuns.Allowed(h, Arrival(isNew, m, crypto))
    ensures var g := if isNew then AddNew(h, m, crypto) else AddOld(h, m, crypto); Inv(g) && UniqueIds(g) && Bounded(g)
  {
    hide Inv, AddNew, AddOld, UniqueIds, Bounded, FreshId, Honest, Pipeline.ArrivalTruncates;
    if isNew {
      Pipeline.AddNewKeeps(h, m, crypto);
      InvIsUnique(AddNew(h, m, crypto));
    } else {
      Pipeline.AddOldKeeps(h, m, crypto);
      InvIsUnique(AddOld(h, m, crypto));
    }
  }

  lemma {:induction false} AddedFields(h: Hist, isNew: bool, m: Message)
    ensures Added(h, isNew, m).oldest == h.oldest
    ensures isNew ==>
        forall crypto: Crypto :: AddNew(h, m, crypto) == AfterAdd(Added(h, isNew, m), true, h.high + 1, crypto).0
    ensures !isNew ==>
        forall crypto: Crypto :: AddOld(h, m, crypto) == AfterAdd(Added(h, isNew, m), false, h.low - 1, crypto).0
    ensures (if isNew then Added(h, isNew, m).high else Added(h, isNew, m).low)
        == if isNew then h.high + 1 else h.low - 1
  {
    hide AfterAdd;
  }

  lemma {:induction false} AddedLinked(h: Hist, isNew: bool, m: Message)
    requires UniqueIds(h) && Bounded(h) && FreshId(h, m.id) && h.low <= h.high + 1 < IDX_INVALID
    ensures UniqueIds(Added(h, isNew, m)) && Bounded(Added(h, isNew, m))
  {
    hide UniqueIds, FreshId;
    var g := Added(h, isNew, m);
    Pipeline.PushKeepsIds(h, if isNew then g.high else g.low, m, g);
  }

  /** No row is at or above `i`, so the message at `i` can be written. */
  ghost predicate Ahead(h: Hist, i: int) {
    UniqueIds(h) && h.high < IDX_INVALID && forall j :: j in h.rows ==> j < i
  }

  lemma {:induction false} AheadStores(h: Hist, i: int, m: Message)
    requires Ahead(h, i) && i in h.ram && m.id == h.ram[i].id
    ensures var g := Store(h, i, m);
            Ahead(g, i + 1) && g.rows == h.rows[i := m] && DistinctIds(g.rows) && g.ram == h.ram[i := m]
  {
    hide UniqueIds, Insert;
    Pipeline.StoreWrites(h, i, m);
    assert DistinctIds(Store(h, i, m).rows) by { Distinct(Store(h, i, m)); }
  }

  lemma {:induction false} Distinct(h: Hist)
    requires UniqueIds(h)
    ensures DistinctIds(h.rows)
  {
  }

  lemma {:induction false} AheadRecords(h: Hist, isNew: bool, i: int, m: Message)
    requires Ahead(h, i) && i in h.ram && m.id == h.ram[i].id
    ensures Ahead(Record(h, isNew, i, m), i + 1)
  {
    hide Store, Classified, UniqueIds;
    var c := Classified(m);
    Pipeline.ClassifiedKeeps(m);
    AheadStores(h, i, c);
    Pipeline.StoreFields(h, i, c);
    var s := Store(h, i, c);
    if isNew && IsTruncate(m) { FewerIds(s, Truncate(s, i)); }
  }

  lemma {:induction false} FewerIds(h: Hist, g: Hist)
    requires UniqueIds(h)
    requires forall i :: i in g.ram ==> i in h.ram && g.ram[i] == h.ram[i]
    requires forall i :: i in g.rows ==> i in h.rows && g.rows[i] == h.rows[i]
    ensures UniqueIds(g)
  {
  }

  lemma {:induction false} AheadStays(h: Hist, i: int, crypto: Crypto)
    requires Ahead(h, i) && i in h.ram && Honest(crypto)
    ensures Ahead(AfterAdd(h, true, i, crypto).0, i + 1)
  {
    hide Record, UniqueIds, Honest;
    var x := Plain(h, true, i, crypto);
    if x.Some? {
      PlainIsHonest(h, true, i, crypto);
      AheadRecords(h, true, i, x.value);
    } else {
      var g := AfterAdd(h, true, i, crypto).0;
      Pipeline.SameMessages(h, g);
    }
  }

  lemma {:induction false} AddedAhead(h: Hist, m: Message)
    requires Bounded(h) && UniqueIds(Added(h, true, m)) && h.high + 1 < IDX_INVALID
    ensures Ahead(Added(h, true, m), h.high + 1)
  {
    hide UniqueIds;
  }

  lemma {:induction false} AheadUnhalted(h: Hist, i: int)
    requires Ahead(h, i)
    ensures Ahead(h.(haltedNew := IDX_INVALID), i)
  {
    hide UniqueIds;
    Pipeline.SameMessages(h, h.(haltedNew := IDX_INVALID));
  }

  lemma {:induction false} RowsUnder(h: Hist, i: int)
    requires Ahead(h, i)
    ensures DistinctIds(h.rows) && h.high < IDX_INVALID && forall j :: j in h.rows ==> j < i
  {
  }

  lemma {:induction false} HaltedAhead(h: Hist)
    requires Inv(h) && h.haltedNew != IDX_INVALID
    ensures Ahead(h, h.haltedNew)
  {
    hide UniqueIds, Agree;
  }

  // ---------- The pointers during arrivals ----------

  /** The text that `msgIncomingAfterAdd` hands on for the message at `i`, if any. */
  function Plain(h: Hist, isNew: bool, i: int, crypto: Crypto): Option<Message>
    requires i in h.ram
  {
    var m := h.ram[i];
    if m.enc == NotEncrypted then Some(m)
    else if m.enc != Pending && m.enc != NoType then None
    else if (if isNew then h.haltedNew else h.haltedOld) != IDX_INVALID then None
    else crypto(m)
  }

  lemma {:induction false} PlainIsHonest(h: Hist, isNew: bool, i: int, crypto: Crypto)
    requires i in h.ram && Honest(crypto) && Plain(h, isNew, i, crypto).Some?
    ensures Plain(h, isNew, i, crypto).value.id == h.ram[i].id
    ensures AfterAdd(h, isNew, i, crypto) == (Record(h, isNew, i, Plain(h, isNew, i, crypto).value), true)
  {
  }

  /** A new truncate unsets the pointers that do not lie beyond it. */
  function RecordMarks(k: Marks, isNew: bool, i: int, m: Message): Marks {
    if isNew && IsTruncate(m) then TruncateMarks(k, i) else k
  }

  function AddMarks(h: Hist, k: Marks, isNew: bool, i: int, crypto: Crypto): Marks
    requires i in h.ram
  {
    var x := Plain(h, isNew, i, crypto);
    if x.Some? then RecordMarks(k, isNew, i, x.value) else k
  }

  lemma {:induction false} OldMarks(h: Hist, k: Marks, i: int, crypto: Crypto)
    requires i in h.ram
    ensures AddMarks(h, k, false, i, crypto) == k
  {
  }

  function ResumeMarks(h: Hist, k: Marks, i: int, crypto: Crypto): Marks
    decreases h.high - i
  {
    if i > h.high || i !in h.ram then k else
    var (g, settled) := AfterAdd(h, true, i, crypto);
    var l := AddMarks(h, k, true, i, crypto);
    if settled && g.high == h.high then ResumeMarks(g, l, i + 1, crypto) else l
  }

  /** A pointer after a truncate at `i`, or none. */
  predicate Cut(was: int, wasId: Id, now: int, nowId: Id, unset: bool) {
    if unset then now == IDX_INVALID && nowId == NULL_ID else now == was && nowId == wasId
  }

  /** The loop that starts at `i` gets to the message at `j`, and that is a truncate. */
  ghost predicate CutsAt(ram: map<int, Message>, high: int, i: int, crypto: Crypto, j: int) {
    && i <= j <= high && (forall m :: i <= m <= j ==> m in ram && crypto(ram[m]).Some?)
    && IsTruncate(crypto(ram[j]).value)
  }

  ghost predicate CutsPast(ram: map<int, Message>, high: int, i: int, crypto: Crypto, pointer: int) {
    pointer != IDX_INVALID && exists j :: pointer <= j && CutsAt(ram, high, i, crypto, j)
  }

  lemma {:induction false} CutsStep(ram: map<int, Message>, high: int, i: int, crypto: Crypto, pointer: int)
    requires i in ram && i <= high && crypto(ram[i]).Some?
    ensures CutsPast(ram, high, i, crypto, pointer)
            <==> CutsPast(ram, high, i + 1, crypto, pointer)
                 || (pointer != IDX_INVALID && pointer <= i && IsTruncate(crypto(ram[i]).value))
  {
    hide IsTruncate;
    if CutsPast(ram, high, i + 1, crypto, pointer) {
      var j :| pointer <= j && CutsAt(ram, high, i + 1, crypto, j);
      assert CutsAt(ram, high, i, crypto, j);
    }
    if CutsPast(ram, high, i, crypto, pointer) {
      var j :| pointer <= j && CutsAt(ram, high, i, crypto, j);
      if j > i { assert CutsAt(ram, high, i + 1, crypto, j); }
    }
    if pointer != IDX_INVALID && pointer <= i && IsTruncate(crypto(ram[i]).value) {
      assert CutsAt(ram, high, i, crypto, i);
    }
  }

  lemma {:induction false} SameCuts(m: map<int, Message>, n: map<int, Message>, high: int, i: int, crypto: Crypto,
          pointer: int)
    requires Pipeline.SameFrom(m, n, i)
    ensures CutsPast(m, high, i, crypto, pointer) <==> CutsPast(n, high, i, crypto, pointer)
  {
    hide IsTruncate;
    if CutsPast(m, high, i, crypto, pointer) {
      var j :| pointer <= j && CutsAt(m, high, i, crypto, j);
      assert CutsAt(n, high, i, crypto, j);
    }
    if CutsPast(n, high, i, crypto, pointer) {
      var j :| pointer <= j && CutsAt(n, high, i, crypto, j);
      assert CutsAt(m, high, i, crypto, j);
    }
  }

  /** The loop behind a delayed decryption unsets a pointer, with its id, if and only if it writes a truncate at
      or beyond it. */
  lemma {:induction false} ResumeMarksIff(h: Hist, k: Marks, i: int, crypto: Crypto)
    requires h.haltedNew == IDX_INVALID && h.low <= i <= h.high + 1
    requires Inv(h.(haltedNew := Pipeline.UpTo(h, i))) && Honest(crypto)
    requires h.haltedOld == IDX_INVALID || !Pipeline.ResumeTruncates(h.ram, h.high, i, crypto)
    ensures var t := ResumeMarks(h, k, i, crypto);
            && Cut(k.seenIdx, k.seenId, t.seenIdx, t.seenId, CutsPast(h.ram, h.high, i, crypto, k.seenIdx))
            && Cut(k.recvIdx, k.recvId, t.recvIdx, t.recvId, CutsPast(h.ram, h.high, i, crypto, k.recvIdx))
    decreases h.high - i
  {
    hide Inv, Record, IsTruncate, Honest, CutsPast;
    Pipeline.InHalted(h.(haltedNew := Pipeline.UpTo(h, i)));
    if i <= h.high && crypto(h.ram[i]).Some? {
      Pipeline.TurnUp(h, i, crypto);
      var g := AfterAdd(h, true, i, crypto).0;
      var l := AddMarks(h, k, true, i, crypto);
      Pipeline.SameTruncates(g.ram, h.ram, h.high, i + 1, crypto);
      ResumeMarksIff(g, l, i + 1, crypto);
      SameCuts(g.ram, h.ram, h.high, i + 1, crypto, k.seenIdx);
      SameCuts(g.ram, h.ram, h.high, i + 1, crypto, k.recvIdx);
      NoneCutUnset(g.ram, h.high, i + 1, crypto);
      CutsStep(h.ram, h.high, i, crypto, k.seenIdx);
      CutsStep(h.ram, h.high, i, crypto, k.recvIdx);
    } else {
      NothingCuts(h.ram, h.high, i, crypto, k.seenIdx);
      NothingCuts(h.ram, h.high, i, crypto, k.recvIdx);
    }
  }

  lemma {:induction false} NoneCutUnset(ram: map<int, Message>, high: int, i: int, crypto: Crypto)
    ensures !CutsPast(ram, high, i, crypto, IDX_INVALID)
  {
  }

  lemma {:induction false} NothingCuts(ram: map<int, Message>, high: int, i: int, crypto: Crypto, pointer: int)
    requires i > high || i !in ram || crypto(ram[i]).None?
    ensures !CutsPast(ram, high, i, crypto, pointer)
  {
  }

  /** The pointers after the delayed decryption of a new message. */
  function FinishMarks(h: Hist, k: Marks, done: Message, crypto: Crypto): Marks {
    ResumeMarks(Record(h, true, h.haltedNew, done).(haltedNew := IDX_INVALID),
                RecordMarks(k, true, h.haltedNew, done), h.haltedNew + 1, crypto)
  }

  /** The delayed decryption of a new message unsets a pointer if and only if a truncate at or beyond it is
      written, be it that message or one behind it. */
  lemma {:induction false} FinishMarksIff(h: Hist, k: Marks, done: Message, crypto: Crypto)
    requires Inv(h) && h.haltedNew != IDX_INVALID && Honest(crypto)
    requires done.enc != Pending && h.haltedNew in h.ram && done.id == h.ram[h.haltedNew].id
    requires h.haltedOld == IDX_INVALID || !Pipeline.FinishTruncates(h, done, crypto)
    ensures var t := FinishMarks(h, k, done, crypto);
            && Cut(k.seenIdx, k.seenId, t.seenIdx, t.seenId, FinishCuts(h, done, crypto, k.seenIdx))
            && Cut(k.recvIdx, k.recvId, t.recvIdx, t.recvId, FinishCuts(h, done, crypto, k.recvIdx))
  {
    hide Inv, Honest, Record, IsTruncate, Pipeline.Appends, CutsPast, ResumeMarks;
    var i := h.haltedNew;
    Pipeline.InHalted(h);
    Pipeline.RecordUp(h, done);
    Pipeline.RecordMoves(h, done);
    var g := Record(h, true, i, done).(haltedNew := IDX_INVALID);
    assert g.(haltedNew := Pipeline.UpTo(g, i + 1)) == Record(h, true, i, done).(haltedNew := Pipeline.UpTo(h, i + 1));
    Pipeline.SameTruncates(g.ram, h.ram, h.high, i + 1, crypto);
    ResumeMarksIff(g, RecordMarks(k, true, i, done), i + 1, crypto);
    SameCuts(g.ram, h.ram, h.high, i + 1, crypto, k.seenIdx);
    SameCuts(g.ram, h.ram, h.high, i + 1, crypto, k.recvIdx);
    NoneCutUnset(g.ram, h.high, i + 1, crypto);
  }

  ghost predicate FinishCuts(h: Hist, done: Message, crypto: Crypto, pointer: int) {
    || (pointer != IDX_INVALID && pointer <= h.haltedNew && IsTruncate(done))
    || CutsPast(h.ram, h.high, h.haltedNew + 1, crypto, pointer)
  }

  lemma {:induction false} RecordRange(h: Hist, isNew: bool, i: int, m: Message)
    requires i != IDX_INVALID && h.low <= i
    ensures var g := Record(h, isNew, i, m);
            && h.low <= g.low <= Max(h.low, i) && (!isNew ==> g.low == h.low)
            && g.high == h.high && g.oldest != IDX_INVALID
            && g.haltedNew == h.haltedNew && g.haltedOld == h.haltedOld
  {
    hide Insert, Classified;
  }

  /** Settling a message does not move the newest index of the window, and does not unset the oldest one. */
  lemma {:induction false} AfterAddRange(h: Hist, isNew: bool, i: int, crypto: Crypto)
    requires i in h.ram && h.low <= i <= h.high < IDX_INVALID
    ensures var g := AfterAdd(h, isNew, i, crypto).0;
            && h.low <= g.low <= i && g.high == h.high && (!isNew ==> g.low == h.low)
            && (g.oldest == IDX_INVALID ==> h.oldest == IDX_INVALID)
  {
    hide Insert, Classified;
  }

  // ---------- Edits ----------

  /** The row of message `id`, if there is one, is at `idx`. */
  ghost predicate RowAt(rows: map<int, Message>, idx: int, id: Id) {
    && DistinctIds(rows) && (forall i :: i in rows ==> i < IDX_INVALID)
    && (forall i :: i in rows && rows[i].id == id ==> i == idx) && (idx in rows ==> rows[idx].id == id)
  }

  lemma {:induction false} OneRow(rows: map<int, Message>, j: int, u: Message)
    requires RowAt(rows, j, u.id)
    ensures UpdateRows(rows, u.id, u) == if j in rows then rows[j := RowUpdate(rows[j], u)] else rows
  {
    SameMap(UpdateRows(rows, u.id, u), if j in rows then rows[j := RowUpdate(rows[j], u)] else rows);
  }

  lemma {:induction false} LoadedRow(h: Hist, ids: map<Id, int>, id: Id)
    requires Inv(h) && Inverse(h.ram, ids) && id in ids
    ensures var idx := ids[id];
            h.low <= idx <= h.high && idx in h.ram && h.ram[idx].id == id && RowAt(h.rows, idx, id)
  {
    hide Table, UniqueIds;
    var idx := ids[id];
    StoredRows(h);
    if idx in h.rows { StoredIsSettled(h, idx); }
    SameIndex(h, idx);
  }

  lemma {:induction false} SameIndex(h: Hist, idx: int)
    requires UniqueIds(h) && idx in h.ram
    ensures forall i :: i in h.rows && h.rows[i].id == h.ram[idx].id ==> i == idx
  {
  }

  lemma {:induction false} EditedRow(h: Hist, idx: int, u: Message)
    requires idx in h.ram && RowAt(h.rows, idx, h.ram[idx].id)
    ensures var g := Edit(h, idx, u); g.ram[idx].id == h.ram[idx].id && RowAt(g.rows, idx, h.ram[idx].id)
  {
  }

  lemma {:induction false} OnlyRowAt(rows: map<int, Message>, idx: int)
    requires DistinctIds(rows) && idx in rows && forall i :: i in rows ==> i < IDX_INVALID
    ensures RowAt(rows, idx, rows[idx].id)
  {
  }

  lemma {:induction false} StoredRows(h: Hist)
    requires Inv(h)
    ensures DistinctIds(h.rows) && forall i :: i in h.rows ==> i < IDX_INVALID
  {
    hide Agree;
  }

  /** What `StoredUpdated` does to the rows keeps the history consistent. */
  lemma {:induction false} OnlyStored(h: Hist, u: Message, rows: map<int, Message>)
    requires Inv(h) && u.enc != Pending && !HasId(h.ram, u.id)
    requires HasId(h.rows, u.id) ==>
               exists j :: j in h.rows && h.rows[j].id == u.id && rows == UpdateStored(h.rows, j, u)
    requires !HasId(h.rows, u.id) ==> rows == h.rows
    ensures Inv(h.(rows := rows)) && UniqueIds(h.(rows := rows)) && Bounded(h.(rows := rows))
  {
    hide Inv, UpdateStored, UniqueIds, Bounded;
    if HasId(h.rows, u.id) {
      var j :| j in h.rows && h.rows[j].id == u.id && rows == UpdateStored(h.rows, j, u);
      NotLoaded(h, j);
      StoredUpdateKeeps(h, j, u);
    }
    InvIsUnique(h.(rows := rows));
  }

  lemma {:induction false} NotLoaded(h: Hist, j: int)
    requires Inv(h) && j in h.rows && !HasId(h.ram, h.rows[j].id)
    ensures j !in h.ram
  {
    hide UniqueIds;
  }

  lemma {:induction false} AboveAt(m: map<int, Message>, idx: int)
    requires idx in m
    ensures idx in Above(m, idx - 1) && Above(m, idx - 1)[idx] == m[idx]
  {
  }

  // ---------- Retention ----------

  lemma {:induction false} DropShape(h: Hist, e: int)
    requires Inv(h) && h.oldest != IDX_INVALID && Stored(h, e)
    ensures e <= h.high < IDX_INVALID && h.low <= h.high + 1
    ensures Empties(h, e) ==> Above(h.rows, e) == map[]
    ensures !Empties(h, e) ==> Max(h.oldest, e + 1) in Above(h.rows, e)
    ensures !Empties(h, e) ==> Above(h.rows, e)[Max(h.oldest, e + 1)] == h.rows[Max(h.oldest, e + 1)]
    ensures forall i :: i in Above(h.rows, e) ==> Max(h.oldest, e + 1) <= i < IDX_INVALID
    ensures Above(h.ram, e) == map[] <==> h.high <= e || h.high < h.low
  {
    hide UniqueIds, Agree;
    if h.low <= h.high && e < h.high { assert h.high in Above(h.ram, e); }
  }

  lemma {:induction false} NoIds(loaded: map<int, Message>, ids: map<Id, int>)
    requires Inverse(loaded, ids) && loaded == map[]
    ensures ids == map[]
  {
  }

  // ---------- Counting ----------

  ghost function UnreadUpTo(m: map<int, Message>, me: Id, first: int, last: int): set<int> {
    set i | i in m && first <= i <= last && IsValidUnread(m[i], me)
  }

  lemma {:induction false} UnreadNone(m: map<int, Message>, me: Id, first: int)
    ensures |UnreadUpTo(m, me, first, first - 1)| == 0
  {
    assert UnreadUpTo(m, me, first, first - 1) == {};
  }

  lemma {:induction false} UnreadOneMore(m: map<int, Message>, me: Id, first: int, i: int)
    requires first <= i && i in m
    ensures |UnreadUpTo(m, me, first, i)|
        == |UnreadUpTo(m, me, first, i - 1)| + if IsValidUnread(m[i], me) then 1 else 0
  {
    hide IsValidUnread;
    var was := UnreadUpTo(m, me, first, i - 1);
    if IsValidUnread(m[i], me) {
      assert UnreadUpTo(m, me, first, i) == was + {i};
    } else {
      assert UnreadUpTo(m, me, first, i) == was;
    }
  }

  lemma {:induction false} UnreadAll(m: map<int, Message>, me: Id, first: int, last: int)
    requires (forall i :: i in m ==> i <= last) && first - 1 != IDX_INVALID
    ensures UnreadUpTo(m, me, first, last) == UnreadSet(m, me, first - 1)
  {
    hide IsValidUnread;
  }

  // ---------- Opening ----------

  /** The pointers as the constructor finds them in the table. */
  ghost function FirstMarks(rows: map<int, Message>, seen: Id, recv: Id): Marks {
    Marks(IdxOf(rows, seen), seen, IdxOf(rows, recv), recv)
  }

  lemma {:induction false} FirstIdx(rows: map<int, Message>, id: Id, idx: int)
    requires DistinctIds(rows) && (idx == IDX_INVALID ==> !HasId(rows, id))
    requires idx != IDX_INVALID ==> idx in rows && rows[idx].id == id
    ensures IdxOf(rows, id) == idx
  {
    if idx != IDX_INVALID { IdxOfUnique(rows, idx); }
  }

  lemma {:induction false} MarksCover(rows: map<int, Message>, lo: int, hi: int, seen: Id, recv: Id)
    requires IsTable(rows, lo, hi)
    ensures Pointed(Opened(rows, lo, hi), FirstMarks(rows, seen, recv))
  {
    forall i | i in rows ensures IdxOf(rows, rows[i].id) == i {
      IdxOfUnique(rows, i);
    }
  }

  lemma {:induction false} OpenedIs(rows: map<int, Message>, lo: int, hi: int, h: Hist)
    requires IsTable(rows, lo, hi) && h.ram == map[] && h.rows == rows && h.low == h.high + 1
    requires h.haltedNew == h.haltedOld == IDX_INVALID && (h.hasMore <==> h.oldestKnown != NULL_ID)
    requires rows == map[] ==> h.oldest == IDX_INVALID && h.low == 0 && h.oldestKnown == NULL_ID
    requires rows != map[] ==>
               && h.oldest in rows && h.high in rows && h.oldestKnown == rows[h.oldest].id
               && forall i :: i in rows ==> h.oldest <= i <= h.high
    ensures h == Opened(rows, lo, hi)
  {
    if rows != map[] { assert lo in rows && hi in rows; }
  }

  lemma {:induction false} NothingLoaded(loaded: map<int, Message>, ids: map<Id, int>)
    requires loaded == map[] && ids == map[]
    ensures Inverse(loaded, ids)
  {
  }

  lemma {:induction false} TableFacts(rows: map<int, Message>, lo: int, hi: int)
    requires IsTable(rows, lo, hi)
    ensures DistinctIds(rows) && (forall i :: i in rows ==> lo <= i <= hi < IDX_INVALID && rows[i].id != NULL_ID)
    ensures rows != map[] ==> lo in rows && hi in rows
    ensures rows == map[] ==> lo == IDX_INVALID && hi == -1
  {
  }

  const PAGE := 32  // initialHistoryFetchCount

  class Chat {
    const me: Id
    const buf: HistoryBuffer
    const db: HistoryTable
    var decryptNewHaltedAt: int
    var decryptOldHaltedAt: int
    var oldestKnownMsgId: Id
    var oldestIdxInDb: int
    var hasMoreHistoryInDb: bool
    var haveAllHistory: bool
    var lastSeenId: Id
    var lastSeenIdx: int
    var lastReceivedId: Id
    var lastReceivedIdx: int
    var unreadCount: int
    var retentionTime: uint32
    var seenNotices: seq<int>        // indices reported with status kSeen, in order
    var deliveredNotices: seq<int>   // indices reported with status kDelivered, in order

    ghost function View(): Hist reads this, buf, db {
      Hist(buf.Loaded(), buf.LowNum(), buf.HighNum(), db.rows, decryptNewHaltedAt, decryptOldHaltedAt,
           oldestIdxInDb, oldestKnownMsgId, hasMoreHistoryInDb)
    }

    ghost function Pointers(): Marks reads this {
      Marks(lastSeenIdx, lastSeenId, lastReceivedIdx, lastReceivedId)
    }

    /** The id map fits the buffer and ids are unique. */
    ghost predicate Linked() reads this, buf, db {
      buf.Indexed() && Bounded(View()) && UniqueIds(View())
    }

    /** The persisted pointers are the current ones. */
    ghost predicate Persisted() reads this, db {
      db.lastSeen == lastSeenId && db.lastRecv == lastReceivedId
    }

    ghost predicate Valid() reads this, buf, db {
      Linked() && Inv(View())
    }

    // ---------- Opening ----------

    /** The pointers stored with a chat and, for a chat with history, their places in the table. */
    static method ReadPointers(table: HistoryTable) returns (seen: Id, seenIdx: int, recv: Id, recvIdx: int)
      requires DistinctIds(table.rows) && forall i :: i in table.rows ==> i < IDX_INVALID
      ensures table.rows == map[] ==> seen == recv == NULL_ID
      ensures table.rows != map[] ==> seen == table.lastSeen && recv == table.lastRecv
      ensures Marks(seenIdx, seen, recvIdx, recv) == FirstMarks(table.rows, seen, recv)
    {
      hide DistinctIds, IdxOf;
      seen, recv := NULL_ID, NULL_ID;
      var oldest := table.GetOldestIdx();
      if oldest != IDX_INVALID { seen, recv := table.lastSeen, table.lastRecv; }
      seenIdx := table.GetIdxOfMsgid(seen);
      recvIdx := table.GetIdxOfMsgid(recv);
      FirstIdx(table.rows, seen, seenIdx);
      FirstIdx(table.rows, recv, recvIdx);
    }

    /** `Chat::Chat`: a chat opened on its table, with the newest page loaded. */
    constructor (me: Id, table: HistoryTable, ghost lo: int, ghost hi: int)
      requires IsTable(table.rows, lo, hi)
      modifies table`lastSeen, table`lastRecv
      ensures Valid() && db == table && fresh(buf)
      ensures View() == OpenedPage(table.rows, lo, hi, PAGE)
      ensures db.rows != map[] ==> Persisted() && lastSeenId == old(table.lastSeen)
      ensures db.rows != map[] ==> lastReceivedId == old(table.lastRecv)
      ensures Pointers() == FirstMarks(db.rows, lastSeenId, lastReceivedId)
      ensures haveAllHistory == table.haveAllHistory
    {
      hide IsTable, Inv, Bounded, UniqueIds, Inverse, DistinctIds, FirstMarks, Opened, OpenedPage;
      this.me := me;
      db := table;
      TableFacts(table.rows, lo, hi);
      var oldest, oldestId, newest := table.GetHistoryInfo();
      haveAllHistory := table.haveAllHistory;
      var seen, seenIdx, recv, recvIdx := ReadPointers(table);
      lastSeenId, lastSeenIdx, lastReceivedId, lastReceivedIdx := seen, seenIdx, recv, recvIdx;
      oldestIdxInDb, oldestKnownMsgId, hasMoreHistoryInDb := oldest, oldestId, oldestId != NULL_ID;
      decryptNewHaltedAt, decryptOldHaltedAt := IDX_INVALID, IDX_INVALID;
      unreadCount, retentionTime, seenNotices, deliveredNotices := 0, 0, [], [];
      buf := new HistoryBuffer(if oldestId == NULL_ID then 0 else newest + 1);
      new;
      OpenedIs(db.rows, lo, hi, View());
      LoadFirstPage(lo, hi);
    }

    method LoadFirstPage(ghost lo: int, ghost hi: int)
      requires IsTable(db.rows, lo, hi) && View() == Opened(db.rows, lo, hi) && buf.idToIndex == map[]
      requires Pointers() == FirstMarks(db.rows, lastSeenId, lastReceivedId)
      modifies buf, this`hasMoreHistoryInDb, this`oldestIdxInDb, this`oldestKnownMsgId
      modifies this`lastSeenId, this`lastSeenIdx, this`unreadCount, this`seenNotices, db`lastSeen
      modifies this`lastReceivedId, this`lastReceivedIdx, this`deliveredNotices, db`lastRecv
      ensures Valid() && View() == OpenedPage(db.rows, lo, hi, PAGE)
      ensures Pointers() == old(Pointers()) && (old(Persisted()) ==> Persisted())
      ensures unreadCount == UnreadBranch(View(), me, lastSeenIdx, haveAllHistory)
    {
      hide IsTable, Inv, Bounded, UniqueIds, Inverse, Pointed, FirstMarks, UnreadBranch;
      OpenedHolds(db.rows, lo, hi);
      InvIsUnique(View());
      NothingLoaded(buf.Loaded(), buf.idToIndex);
      MarksCover(db.rows, lo, hi, lastSeenId, lastReceivedId);
      if hasMoreHistoryInDb { GetHistoryFromDb(PAGE); }
      CalculateUnreadCount();
    }

    // ---------- Read pointers ----------

    /** The index of a message in RAM or else in the table. */
    method IndexOf(id: Id) returns (idx: int, loaded: bool)
      requires Linked()
      ensures idx == Locate(View(), id) && (loaded <==> HasId(View().ram, id))
      ensures loaded ==> buf.HasNum(idx) && idx != IDX_INVALID
      ensures idx == IDX_INVALID || idx <= buf.HighNum()
    {
      LocatedBelow(View(), id);
      if id in buf.idToIndex {
        idx, loaded := buf.idToIndex[id], true;
        IdxOfUnique(View().ram, idx);
      } else {
        idx := db.GetIdxOfMsgid(id);
        loaded := false;
        assert !HasId(View().ram, id);
        if idx != IDX_INVALID { IdxOfUnique(View().rows, idx); }
      }
    }

    /** `calculateUnreadCount`. */
    method CalculateUnreadCount()
      modifies this`unreadCount
      ensures unreadCount == UnreadBranch(View(), me, lastSeenIdx, haveAllHistory)
    {
      if lastSeenIdx == IDX_INVALID {
        var n := db.GetUnreadMsgCountAfterIdx(me, lastSeenIdx);
        unreadCount := if haveAllHistory then n else -n;
      } else if lastSeenIdx < buf.LowNum() {
        unreadCount := db.GetUnreadMsgCountAfterIdx(me, lastSeenIdx);
      } else {
        unreadCount := CountUnreadInRam(lastSeenIdx + 1);
      }
    }

    method CountUnreadInRam(first: int) returns (count: nat)
      requires first > buf.LowNum() && first - 1 != IDX_INVALID
      ensures count == |UnreadSet(buf.Loaded(), me, first - 1)|
    {
      hide IsValidUnread, UnreadSet, UnreadUpTo;
      ghost var loaded := buf.Loaded();
      count := 0;
      UnreadNone(loaded, me, first);
      var i := first;
      while i <= buf.HighNum()
        invariant first <= i && count == |UnreadUpTo(loaded, me, first, i - 1)|
        decreases buf.HighNum() - i
      {
        UnreadOneMore(loaded, me, first, i);
        if IsValidUnread(buf.At(i), me) { count := count + 1; }
        i := i + 1;
      }
      UnreadAll(loaded, me, first, i - 1);
    }

    /** The loop that reports loaded messages from `from` to `upto` with a new status. */
    method Notify(mine: bool, from: int, upto: int) returns (reported: seq<int>)
      requires from >= buf.LowNum() && upto <= buf.HighNum()
      ensures reported == Notices(buf.Loaded(), me, mine, from, upto)
    {
      reported := [];
      var i := from;
      while i <= upto
        invariant from <= i && (i <= upto + 1 || i == from)
        invariant reported == Notices(buf.Loaded(), me, mine, from, i - 1)
        decreases upto - i
      {
        if (buf.At(i).userid == me) == mine { reported := reported + [i]; }
        i := i + 1;
      }
    }

    /** `onLastSeen`. */
    method OnLastSeen(id: Id)
      requires Linked()
      modifies this`lastSeenId, this`lastSeenIdx, this`unreadCount, this`seenNotices, db`lastSeen
      ensures Linked() && View() == old(View()) && (old(Persisted()) ==> Persisted())
      ensures var (k, n) := OnSeen(View(), old(Pointers()), me, id);
              Pointers() == k && seenNotices == old(seenNotices) + n
      ensures Pointers() != old(Pointers()) ==> unreadCount == UnreadBranch(View(), me, lastSeenIdx, haveAllHistory)
    {
      hide Bounded, UniqueIds, Inverse, Locate, HasId, UnreadBranch, Notices;
      var idx, loaded := IndexOf(id);
      if idx == IDX_INVALID {
        if lastSeenIdx == IDX_INVALID {
          lastSeenId := id;
          db.lastSeen := id;
          CalculateUnreadCount();
          return;
        }
      } else if lastSeenIdx != IDX_INVALID && idx < lastSeenIdx {
        return;
      }
      if idx == lastSeenIdx { return; }
      lastSeenId := id;
      db.lastSeen := id;
      if idx != IDX_INVALID {
        var oldLastSeenIdx := lastSeenIdx;
        lastSeenIdx := idx;
        var notifyOldest := NotifyStart(oldLastSeenIdx);
        var reported := Notify(false, notifyOldest, idx);
        seenNotices := seenNotices + reported;
      }
      CalculateUnreadCount();
    }

    /** The first index to report.  `onLastSeen` adds one to an unset pointer too: a signed overflow,
        which is read here as the smallest index, raised to `lownum()` afterwards. */
    method NotifyStart(pointer: int) returns (from: int)
      ensures from == NotifyFrom(View(), pointer) && from >= buf.LowNum()
    {
      var low := buf.LowNum();
      from := if pointer == IDX_INVALID || pointer + 1 < low then low else pointer + 1;
    }

    /** `onLastReceived`. */
    method OnLastReceived(id: Id)
      requires Linked()
      modifies this`lastReceivedId, this`lastReceivedIdx, this`deliveredNotices, db`lastRecv
      ensures Linked() && View() == old(View()) && (old(Persisted()) ==> Persisted())
      ensures var (k, n) := OnReceived(View(), old(Pointers()), me, id);
              Pointers() == k && deliveredNotices == old(deliveredNotices) + n
    {
      hide Bounded, UniqueIds, Inverse, Locate, HasId, UnreadBranch, Notices;
      lastReceivedId := id;
      db.lastRecv := id;
      var idx, loaded := IndexOf(id);
      if !loaded {
        if idx != IDX_INVALID && (lastReceivedIdx == IDX_INVALID || idx >= lastReceivedIdx) {
          lastReceivedIdx := idx;
        }
        return;
      }
      if idx == lastReceivedIdx { return; }
      if lastReceivedIdx != IDX_INVALID && lastReceivedIdx > idx { return; }
      var notifyOldest := NotifyStart(lastReceivedIdx);
      lastReceivedIdx := idx;
      var reported := Notify(true, notifyOldest, lastReceivedIdx);
      deliveredNotices := deliveredNotices + reported;
    }

    /** `setMessageSeen`, and the timer that it starts, for a loaded message. */
    method SetMessageSeen(idx: int)
      requires Linked() && buf.HasNum(idx)
      modifies this`lastSeenId, this`lastSeenIdx, this`unreadCount, this`seenNotices, db`lastSeen
      ensures Linked() && View() == old(View()) && (old(Persisted()) ==> Persisted())
      ensures old(buf.At(idx).userid) == me ==> Pointers() == old(Pointers()) && seenNotices == old(seenNotices)
      ensures old(buf.At(idx).userid) != me ==>
                var (k, n) := OnMark(View(), old(Pointers()), me, idx);
                Pointers() == k && seenNotices == old(seenNotices) + n
      ensures Pointers() != old(Pointers()) ==> unreadCount == UnreadBranch(View(), me, lastSeenIdx, haveAllHistory)
    {
      hide Bounded, UniqueIds, Inverse, Locate, HasId, UnreadBranch, Notices;
      if lastSeenIdx != IDX_INVALID && idx <= lastSeenIdx { return; }
      if buf.At(idx).userid == me { return; }
      var id := buf.At(idx).id;
      var from := NotifyStart(lastSeenIdx);
      lastSeenIdx := idx;
      var highest := buf.HighNum();
      var notifyEnd := if lastSeenIdx > highest then highest else lastSeenIdx;
      var reported := Notify(false, from, notifyEnd);
      seenNotices := seenNotices + reported;
      lastSeenId := id;
      db.lastSeen := id;
      CalculateUnreadCount();
    }

    /** `handleLastReceivedSeen`. */
    method HandleLastReceivedSeen(id: Id)
      requires Linked()
      modifies this`lastSeenId, this`lastSeenIdx, this`unreadCount, this`seenNotices, db`lastSeen
      modifies this`lastReceivedId, this`lastReceivedIdx, this`deliveredNotices, db`lastRecv
      ensures Linked() && View() == old(View()) && (old(Persisted()) ==> Persisted())
      ensures Pointers() == ArrivalMarks(View(), old(Pointers()), me, id)
    {
      hide Bounded, UniqueIds, Inverse, Locate, HasId, UnreadBranch, Notices;
      if id == lastSeenId { OnLastSeen(id); }
      if lastReceivedId == id { OnLastReceived(id); }
    }

    // ---------- Loading ----------

    /** `msgIncoming` of a message loaded from the table. */
    method LoadOne(m: Message)
      requires Linked() && !HasId(View().ram, m.id)
      requires UniqueIds(PushBack(View(), m))
      modifies buf, this`hasMoreHistoryInDb, this`oldestIdxInDb
      modifies this`lastSeenId, this`lastSeenIdx, this`unreadCount, this`seenNotices, db`lastSeen
      modifies this`lastReceivedId, this`lastReceivedIdx, this`deliveredNotices, db`lastRecv
      ensures Linked() && (old(Persisted()) ==> Persisted())
      ensures View() == PushBack(old(View()), m).(
                hasMore := m.id != oldestKnownMsgId && old(hasMoreHistoryInDb),
                oldest := if old(oldestIdxInDb) == IDX_INVALID || buf.LowNum() < old(oldestIdxInDb) then buf.LowNum()
                          else old(oldestIdxInDb))
      ensures Pointers() == ArrivalMarks(View(), old(Pointers()), me, m.id)
    {
      hide UniqueIds, ArrivalMarks, DistinctIds, HasId, Inverse, IsInterval;
      ghost var h := View();
      NotIndexed(h.ram, buf.idToIndex, m.id);
      var idx := buf.PushBack(m);
      if m.id == oldestKnownMsgId { hasMoreHistoryInDb := false; }
      assert View() == PushBack(h, m).(hasMore := hasMoreHistoryInDb);
      Pipeline.SameMessages(PushBack(h, m), View());
      HandleLastReceivedSeen(m.id);
      ghost var g := View();
      if oldestIdxInDb == IDX_INVALID || idx < oldestIdxInDb { oldestIdxInDb := idx; }
      Pipeline.SameMessages(g, View());
      SameArrival(g, View(), old(Pointers()), me, m.id);
    }

    /** The loop of `getHistoryFromDb` over the messages found below the window. */
    method LoadAll(messages: seq<Message>)
      requires Valid() && hasMoreHistoryInDb && |messages| <= buf.LowNum() - oldestIdxInDb
      requires NextBelow(db.rows, buf.LowNum(), messages)
      modifies buf, this`hasMoreHistoryInDb, this`oldestIdxInDb
      modifies this`lastSeenId, this`lastSeenIdx, this`unreadCount, this`seenNotices, db`lastSeen
      modifies this`lastReceivedId, this`lastReceivedIdx, this`deliveredNotices, db`lastRecv
      ensures Linked() && View() == Page(old(View()), |messages|) && (old(Persisted()) ==> Persisted())
      ensures old(Pointed(View(), Pointers())) ==> Pointers() == old(Pointers())
    {
      hide Inv, Page, UniqueIds, Inverse, Pointed, ArrivalMarks, Bounded, HasId, Locate;
      ghost var h, marks := View(), Pointers();
      PageNone(h);
      var k := 0;
      while k < |messages|
        invariant 0 <= k <= |messages|
        invariant Linked() && View() == Page(h, k) && (old(Persisted()) ==> Persisted())
        invariant Pointed(h, marks) ==> Pointers() == marks
      {
        PageStep(h, k);
        PageLinked(h, k);
        if Pointed(h, marks) { PagePointed(h, k, marks, me); }
        LoadOne(messages[k]);
        k := k + 1;
      }
    }

    /** `getHistoryFromDb`.  The pointers stay where they are when they cover the stored messages that
        they name.  When fewer rows than expected are found, `mHasMoreHistoryInDb` is worked out anew. */
    method GetHistoryFromDb(count: nat)
      requires Valid() && hasMoreHistoryInDb
      modifies buf, this`hasMoreHistoryInDb, this`oldestIdxInDb, this`oldestKnownMsgId
      modifies this`lastSeenId, this`lastSeenIdx, this`unreadCount, this`seenNotices, db`lastSeen
      modifies this`lastReceivedId, this`lastReceivedIdx, this`deliveredNotices, db`lastRecv
      ensures Valid() && View() == Page(old(View()), count) && (old(Persisted()) ==> Persisted())
      ensures old(Pointed(View(), Pointers())) ==> Pointers() == old(Pointers())
    {
      hide Inv, Page, UniqueIds, Inverse, Pointed, Bounded, Descending, NextBelow;
      ghost var h := View();
      var messages, indices := db.LoadMessages(count, buf.LowNum() - 1);
      PageRows(h, count, indices, messages);
      LoadAll(messages);
      PageNone(h);
      PageEnough(h, |messages|, count);
      PageKeeps(h, count);
      if |messages| < count && hasMoreHistoryInDb {
        NothingMore(h, count);
        RowsBounded(h);
        RecheckMore();
      }
      InvIsUnique(Page(h, count));
    }

    /** What `getHistoryFromDb` does when it finds fewer rows than expected: here it clears the flag. */
    method RecheckMore()
      requires forall i :: i in db.rows ==> oldestIdxInDb <= i < IDX_INVALID
      requires oldestIdxInDb in db.rows && oldestKnownMsgId == db.rows[oldestIdxInDb].id
      requires buf.HasNum(buf.LowNum()) && buf.At(buf.LowNum()).id == oldestKnownMsgId
      modifies this`oldestIdxInDb, this`oldestKnownMsgId, this`hasMoreHistoryInDb
      ensures !hasMoreHistoryInDb && oldestIdxInDb == old(oldestIdxInDb) && oldestKnownMsgId == old(oldestKnownMsgId)
    {
      var oldestIdx, oldestId, _ := db.GetHistoryInfo();
      oldestIdxInDb, oldestKnownMsgId := oldestIdx, oldestId;
      hasMoreHistoryInDb := HasMoreHistoryInDb();
    }

    /** `hasMoreHistoryInDb`. */
    method HasMoreHistoryInDb() returns (more: bool)
      ensures more <==> oldestKnownMsgId != NULL_ID && (buf.Empty() || buf.At(buf.LowNum()).id != oldestKnownMsgId)
    {
      if oldestKnownMsgId == NULL_ID { return false; }
      var m := buf.FindOrNull(buf.LowNum());
      if m.None? { return true; }
      return m.value.id != oldestKnownMsgId;
    }

    // ---------- Arrivals ----------

    /** The message that was decrypted goes to the table, and the oldest index is kept up to date. */
    method StoreDecrypted(idx: int, msg: Message)
      requires buf.Indexed() && buf.HasNum(idx) && msg.id == buf.At(idx).id
      modifies buf`forwardList, buf`backwardList, db`rows, this`oldestIdxInDb
      ensures buf.Indexed() && View() == Store(old(View()), idx, msg) && buf.HasNum(idx)
    {
      hide Inverse, Insert;
      if oldestIdxInDb == IDX_INVALID || idx < oldestIdxInDb { oldestIdxInDb := idx; }
      buf.Assign(idx, msg);
      db.AddMessage(msg, idx);
    }

    /** `msgIncomingAfterDecrypt` for a message from the server.  The retention check that follows the
        very first row is left out. */
    method MsgIncomingAfterDecrypt(isNew: bool, idx: int, m: Message)
      requires buf.Indexed() && buf.HasNum(idx) && m.id == buf.At(idx).id
      requires isNew ==> Ahead(View(), idx)
      requires retentionTime == 0 || oldestIdxInDb != IDX_INVALID
      modifies buf, db, this
      ensures buf.Indexed() && View() == Record(old(View()), isNew, idx, m)
      ensures Pointers() == RecordMarks(old(Pointers()), isNew, idx, m) && (old(Persisted()) ==> Persisted())
      ensures isNew && IsTruncate(m) ==> haveAllHistory && db.haveAllHistory
      ensures retentionTime == old(retentionTime)
    {
      hide Inverse, Insert, Ahead, DistinctIds, TruncateMarks, Truncate, Store, UnreadBranch;
      ghost var h := View();
      var msg := m;
      if msg.data != [] && msg.typ == MSG_NORMAL && msg.data[0] == 0 && |msg.data| >= 2 {
        msg := msg.(typ := (msg.data[1] + MSG_OFFSET) % 256);
      }
      assert msg == Classified(m);
      StoreDecrypted(idx, msg);
      if msg.typ == MSG_TRUNCATE && isNew {
        AheadStores(h, idx, msg);
        RowsUnder(View(), idx + 1);
        assert idx <= buf.HighNum() < IDX_INVALID;
        OnlyRowAt(db.rows, idx);
        HandleTruncate(msg.id, idx);
      }
    }

    /** `msgIncomingAfterAdd` for a message from the server. */
    method MsgIncomingAfterAdd(isNew: bool, idx: int, crypto: Crypto) returns (settled: bool)
      requires buf.Indexed() && buf.HasNum(idx) && Honest(crypto)
      requires isNew ==> Ahead(View(), idx)
      requires retentionTime == 0 || oldestIdxInDb != IDX_INVALID
      modifies buf, db, this
      ensures buf.Indexed() && View() == AfterAdd(old(View()), isNew, idx, crypto).0
      ensures settled == AfterAdd(old(View()), isNew, idx, crypto).1
      ensures Pointers() == AddMarks(old(View()), old(Pointers()), isNew, idx, crypto)
      ensures old(Persisted()) ==> Persisted()
      ensures retentionTime == old(retentionTime)
    {
      hide Inverse, Record, Honest, Ahead, RecordMarks;
      var m := buf.At(idx);
      if m.enc == NotEncrypted {
        MsgIncomingAfterDecrypt(isNew, idx, m);
        return true;
      }
      if m.enc != Pending && m.enc != NoType { return true; }
      if isNew {
        if decryptNewHaltedAt != IDX_INVALID { return false; }
      } else {
        if decryptOldHaltedAt != IDX_INVALID { return false; }
      }
      var plain := crypto(m);
      if plain.Some? {
        Pipeline.HonestAt(crypto, m);
        MsgIncomingAfterDecrypt(isNew, idx, plain.value);
        return true;
      }
      if isNew { decryptNewHaltedAt := idx; } else { decryptOldHaltedAt := idx; }
      return false;
    }

    /** The message gets its index. */
    method AddToBuffer(isNew: bool, m: Message) returns (idx: int)
      requires buf.Indexed() && m.id !in buf.idToIndex
      modifies buf, this`oldestKnownMsgId
      ensures buf.Indexed() && View() == Added(old(View()), isNew, m)
      ensures idx == if isNew then buf.HighNum() else buf.LowNum()
      ensures buf.HasNum(idx)
    {
      hide Inverse;
      if isNew {
        idx := buf.PushForward(m);
        if oldestKnownMsgId == NULL_ID { oldestKnownMsgId := m.id; }
      } else {
        idx := buf.PushBack(m);
        oldestKnownMsgId := m.id;
      }
    }

    /** `msgIncoming` of a message from the server: a NEWMSG that is loaded already is ignored. */
    method MsgIncoming(isNew: bool, m: Message, crypto: Crypto) returns (idx: int)
      requires Linked() && Honest(crypto) && buf.HighNum() + 1 < IDX_INVALID && m.id != NULL_ID
      requires HasId(View().ram, m.id) ==> isNew
      requires HasId(db.rows, m.id) ==> HasId(View().ram, m.id)
      requires retentionTime == 0 || oldestIdxInDb != IDX_INVALID
      requires !isNew ==> !hasMoreHistoryInDb
      modifies buf, db, this
      ensures buf.Indexed() && (old(Persisted()) ==> Persisted())
      ensures old(HasId(View().ram, m.id)) ==>
                View() == old(View()) && Pointers() == old(Pointers()) && idx == old(buf.MsgIndexFromId(m.id))
      ensures !old(HasId(View().ram, m.id)) ==>
                && idx == (if isNew then old(buf.HighNum()) + 1 else old(buf.LowNum()) - 1)
                && View() == PipelineRuns.Apply(old(View()), Arrival(isNew, m, crypto))
                && var p := Added(old(View()), isNew, m);
                   idx in p.ram
                   && Pointers() == AddMarks(p, ArrivalMarks(p, old(Pointers()), me, m.id), isNew, idx, crypto)
      ensures old(Valid() && PipelineRuns.Allowed(View(), Arrival(isNew, m, crypto))) ==> Valid()
      ensures old(Valid()) && old(HasId(View().ram, m.id)) ==> Valid()
    {
      hide Inverse, UniqueIds, DistinctIds, Honest, ArrivalMarks, HasId, AfterAdd, Bounded, Added, Inv, Ahead, AddMarks;
      hide PipelineRuns.InOrder;
      ghost var h := View();
      NotIndexed(h.ram, buf.idToIndex, m.id);
      AddedFields(h, isNew, m);
      if Inv(h) && PipelineRuns.Allowed(h, Arrival(isNew, m, crypto)) { ArrivalKeeps(h, isNew, m, crypto); }
      if isNew && m.id in buf.idToIndex { return buf.idToIndex[m.id]; }
      idx := AddToBuffer(isNew, m);
      AddedLinked(h, isNew, m);
      HandleLastReceivedSeen(m.id);
      if isNew { AddedAhead(h, m); }
      var _ := MsgIncomingAfterAdd(isNew, idx, crypto);
    }

    /** A delayed decryption of a new message ends with `done`: what queued up behind it is decrypted
        in order, up to the first message whose keys are still missing. */
    method NewDecrypted(done: Message, crypto: Crypto)
      requires Valid() && decryptNewHaltedAt != IDX_INVALID && Honest(crypto)
      requires done.enc != Pending && done.id == buf.At(decryptNewHaltedAt).id
      requires retentionTime == 0 || oldestIdxInDb != IDX_INVALID
      modifies buf, db, this
      ensures buf.Indexed() && View() == FinishNew(old(View()), done, crypto)
      ensures Pointers() == FinishMarks(old(View()), old(Pointers()), done, crypto)
      ensures old(Persisted()) ==> Persisted()
      ensures Inv(View()) <==> old(decryptOldHaltedAt == IDX_INVALID || !Pipeline.FinishTruncates(View(), done, crypto))
      ensures Inv(View()) ==> Valid()
    {
      hide Inv, Inverse, Record, Honest, AfterAdd, Bounded, UniqueIds, ResumeNew, Ahead, ResumeMarks, RecordMarks;
      hide Pipeline.FinishTruncates;
      ghost var h := View();
      Pipeline.InHalted(h);
      RecordRange(h, true, h.haltedNew, done);
      Pipeline.FinishNewIff(h, done, crypto);
      HaltedAhead(h);
      AheadRecords(h, true, h.haltedNew, done);
      MsgIncomingAfterDecrypt(true, decryptNewHaltedAt, done);
      var first := decryptNewHaltedAt + 1;
      AheadUnhalted(View(), first);
      decryptNewHaltedAt := IDX_INVALID;
      ResumeForward(first, crypto);
      if Inv(View()) { InvIsUnique(View()); }
    }

    method ResumeForward(first: int, crypto: Crypto)
      requires buf.Indexed() && buf.LowNum() <= first && buf.HighNum() < IDX_INVALID && Honest(crypto)
      requires Ahead(View(), first)
      requires retentionTime == 0 || oldestIdxInDb != IDX_INVALID
      modifies buf, db, this
      ensures buf.Indexed() && View() == ResumeNew(old(View()), first, crypto)
      ensures Pointers() == ResumeMarks(old(View()), old(Pointers()), first, crypto)
      ensures old(Persisted()) ==> Persisted()
    {
      hide Inverse, Record, Honest, AfterAdd, AddMarks, Ahead;
      ghost var h, k := View(), Pointers();
      var last := buf.HighNum();
      var i := first;
      while i <= last
        invariant buf.Indexed() && buf.LowNum() <= i && last == buf.HighNum() < IDX_INVALID && Ahead(View(), i)
        invariant retentionTime == 0 || oldestIdxInDb != IDX_INVALID
        invariant old(Persisted()) ==> Persisted()
        invariant ResumeNew(View(), i, crypto) == ResumeNew(h, first, crypto)
        invariant ResumeMarks(View(), Pointers(), i, crypto) == ResumeMarks(h, k, first, crypto)
        decreases last - i
      {
        AfterAddRange(View(), true, i, crypto);
        AheadStays(View(), i, crypto);
        var settled := MsgIncomingAfterAdd(true, i, crypto);
        if !settled { return; }
        i := i + 1;
      }
    }

    /** The same for an old message: nothing but its row and those of its predecessors changes. */
    method OldDecrypted(done: Message, crypto: Crypto)
      requires Valid() && decryptOldHaltedAt != IDX_INVALID && Honest(crypto)
      requires done.enc != Pending && done.id == buf.At(decryptOldHaltedAt).id
      requires retentionTime == 0 || oldestIdxInDb != IDX_INVALID
      modifies buf, db, this
      ensures Valid() && View() == FinishOld(old(View()), done, crypto)
      ensures Pointers() == old(Pointers()) && (old(Persisted()) ==> Persisted())
    {
      hide Inv, Inverse, Record, Honest, AfterAdd, Bounded, UniqueIds, ResumeOld;
      ghost var h := View();
      Pipeline.InHalted(h);
      RecordRange(h, false, h.haltedOld, done);
      Pipeline.FinishOldKeeps(h, done, crypto);
      InvIsUnique(FinishOld(h, done, crypto));
      MsgIncomingAfterDecrypt(false, decryptOldHaltedAt, done);
      var first := decryptOldHaltedAt - 1;
      decryptOldHaltedAt := IDX_INVALID;
      ResumeBackward(first, crypto);
    }

    method ResumeBackward(first: int, crypto: Crypto)
      requires buf.Indexed() && first <= buf.HighNum() < IDX_INVALID && Honest(crypto)
      requires retentionTime == 0 || oldestIdxInDb != IDX_INVALID
      modifies buf, db, this
      ensures buf.Indexed() && View() == ResumeOld(old(View()), first, crypto)
      ensures Pointers() == old(Pointers()) && (old(Persisted()) ==> Persisted())
    {
      hide Inverse, Record, Honest, AfterAdd, AddMarks;
      ghost var h, k := View(), Pointers();
      var last := buf.LowNum();
      var i := first;
      while i >= last
        invariant buf.Indexed() && i <= buf.HighNum() < IDX_INVALID && last == buf.LowNum()
        invariant retentionTime == 0 || oldestIdxInDb != IDX_INVALID
        invariant Pointers() == k && (old(Persisted()) ==> Persisted())
        invariant ResumeOld(View(), i, crypto) == ResumeOld(h, first, crypto)
        decreases i - last
      {
        AfterAddRange(View(), false, i, crypto);
        OldMarks(View(), k, i, crypto);
        var settled := MsgIncomingAfterAdd(false, i, crypto);
        if !settled { return; }
        i := i - 1;
      }
    }

    /** The history part of `msgConfirm`: an own message that got its msgid, at time `now`.  The very first
        row of a table is followed by a retention check. */
    method ConfirmInHistory(m: Message, now: int) returns (idx: int, ghost e: int)
      requires buf.Indexed() && FreshId(View(), m.id)
      requires retentionTime != 0 && oldestIdxInDb == IDX_INVALID ==>
                 Inv(View()) && PipelineRuns.Allowed(View(), PipelineRuns.Confirmed(m))
      modifies buf, db, this
      ensures idx == old(buf.HighNum()) + 1 && buf.Indexed() && (old(Persisted()) ==> Persisted())
      ensures old(retentionTime == 0 || oldestIdxInDb != IDX_INVALID) ==>
                View() == Confirm(old(View()), m) && Pointers() == old(Pointers())
      ensures old(retentionTime != 0 && oldestIdxInDb == IDX_INVALID) ==>
                && Inv(Confirm(old(View()), m)) && retentionTime != 0
                && IsExpiredIdx(Confirm(old(View()), m), now - retentionTime, e)
                && View() == Retain(Confirm(old(View()), m), e)
    {
      hide Inv, Inverse, FreshId, IsExpiredIdx, Retain, Confirm;
      e := IDX_INVALID;
      var first := oldestIdxInDb == IDX_INVALID;
      ghost var h := View();
      if retentionTime != 0 && first { PipelineRuns.ApplyKeeps(h, PipelineRuns.Confirmed(m)); }
      idx := AppendConfirmed(m);
      if first && retentionTime != 0 {
        e := HandleRetentionTime(now);
      }
    }

    method AppendConfirmed(m: Message) returns (idx: int)
      requires buf.Indexed() && FreshId(View(), m.id)
      modifies buf, db`rows, this`oldestIdxInDb
      ensures buf.Indexed() && idx == buf.HighNum() == old(buf.HighNum()) + 1 && View() == Confirm(old(View()), m)
      ensures old(Valid()) && m.enc == NotEncrypted && idx < IDX_INVALID ==>
                (Inv(View()) <==> decryptNewHaltedAt == IDX_INVALID) && (Inv(View()) ==> Valid())
    {
      hide Inverse, Insert, Inv, UniqueIds, Bounded, FreshId;
      ghost var h := View();
      FreshIsNew(h, m.id);
      NotIndexed(buf.Loaded(), buf.idToIndex, m.id);
      if Inv(h) && m.enc == NotEncrypted && h.high + 1 < IDX_INVALID {
        PipelineRuns.ConfirmInOrderIff(h, m);
        if Inv(Confirm(h, m)) { InvIsUnique(Confirm(h, m)); }
      }
      idx := buf.PushForward(m);
      db.AddMessage(m, idx);
      if oldestIdxInDb == IDX_INVALID { oldestIdxInDb := idx; }
    }

    // ---------- Edits and truncation ----------

    /** `onMsgUpdatedAfterDecrypt`: an update of a loaded message, of a stored one, or of neither. */
    method OnMsgUpdatedAfterDecrypt(msg: Message)
      requires Valid() && msg.enc != Pending
      modifies buf, db, this
      ensures var u, ids := Classified(msg), old(buf.idToIndex);
              && (u.id in ids ==>
                    && View() == UpdateLoaded(old(View()), ids[u.id], u)
                    && Pointers() == UpdateMarks(old(View()), old(Pointers()), ids[u.id], u)
                    && (Inv(View()) <==> Agreeable(old(View()), ids[u.id], u)))
              && (u.id !in ids ==>
                    && View() == old(View()).(rows := db.rows) && Pointers() == old(Pointers())
                    && (HasId(old(db.rows), u.id) ==>
                          exists j :: j in old(db.rows) && old(db.rows)[j].id == u.id
                                      && db.rows == UpdateStored(old(db.rows), j, u))
                    && (!HasId(old(db.rows), u.id) ==> db.rows == old(db.rows)) && Valid())
      ensures buf.Indexed() && (old(Persisted()) ==> Persisted())
    {
      hide Inv, Inverse, Bounded, UniqueIds, DistinctIds, UpdateLoaded, UpdateMarks, Agreeable, HasId, UpdateStored;
      var u := msg;
      if u.data != [] && u.typ == MSG_NORMAL && u.data[0] == 0 && |u.data| >= 2 {
        u := u.(typ := (u.data[1] + MSG_OFFSET) % 256);
      }
      assert u == Classified(msg) && u.enc == msg.enc;
      if u.id in buf.idToIndex {
        LoadedUpdated(u);
      } else {
        ghost var h := View();
        StoredRows(h);
        NotIndexed(h.ram, buf.idToIndex, u.id);
        StoredUpdated(u);
        OnlyStored(h, u, db.rows);
      }
    }

    /** The branch for a loaded message. */
    method LoadedUpdated(u: Message)
      requires Valid() && u.id in buf.idToIndex && u.enc != Pending
      modifies buf, db, this
      ensures var idx := old(buf.idToIndex[u.id]);
              && View() == UpdateLoaded(old(View()), idx, u)
              && Pointers() == UpdateMarks(old(View()), old(Pointers()), idx, u)
              && (Inv(View()) <==> Agreeable(old(View()), idx, u))
      ensures buf.Indexed() && (Inv(View()) ==> Valid()) && (old(Persisted()) ==> Persisted())
    {
      hide Inv, Inverse, Bounded, UniqueIds, RamUpdate, RowUpdate, TruncateMarks, Truncate, RowAt, UpdateRows;
      hide Agreeable;
      ghost var h := View();
      var idx := buf.idToIndex[u.id];
      LoadedRow(h, buf.idToIndex, u.id);
      UpdateKeepsIff(h, idx, u);
      if Inv(UpdateLoaded(h, idx, u)) { InvIsUnique(UpdateLoaded(h, idx, u)); }
      var m := buf.At(idx);
      if u.typ == MSG_TRUNCATE && m.typ == u.typ && m.ts == u.ts { return; }
      if u.typ != MSG_TRUNCATE && m.updated == u.updated { return; }
      db.UpdateMsgInHistory(u.id, u);
      OneRow(h.rows, idx, u);
      AssignUpdate(idx, u);
      assert View() == Edit(h, idx, u);
      if u.typ == MSG_TRUNCATE {
        EditedRow(h, idx, u);
        HandleTruncate(u.id, idx);
      }
    }

    /** The fields of a loaded message that an update replaces. */
    method AssignUpdate(idx: int, u: Message)
      requires buf.Indexed() && buf.HasNum(idx)
      modifies buf`forwardList, buf`backwardList
      ensures buf.Indexed() && buf.Loaded() == old(buf.Loaded())[idx := RamUpdate(old(buf.At(idx)), u)]
      ensures buf.LowNum() == old(buf.LowNum()) && buf.HighNum() == old(buf.HighNum())
    {
      hide Inverse;
      var m := buf.At(idx);
      m := m.(data := u.data, updated := u.updated, typ := u.typ, userid := u.userid, enc := u.enc);
      if u.typ == MSG_TRUNCATE { m := m.(ts := u.ts, keyid := u.keyid); }
      buf.Assign(idx, m);
    }

    /** `handleTruncate` for a loaded message. */
    method HandleTruncate(id: Id, idx: int)
      requires buf.Indexed() && buf.HasNum(idx) && buf.At(idx).id == id
      requires RowAt(db.rows, idx, id)
      modifies buf, db, this
      ensures View() == Truncate(old(View()), idx) && Pointers() == TruncateMarks(old(Pointers()), idx)
      ensures buf.Indexed() && haveAllHistory && db.haveAllHistory && (old(Persisted()) ==> Persisted())
      ensures retentionTime == old(retentionTime)
      ensures unreadCount == UnreadBranch(View(), me, lastSeenIdx, haveAllHistory)
    {
      hide Inverse, RowAt, Above, IdsAbove, TruncateMarks, UnreadBranch;
      TruncateLists(id, idx);
      TruncatePointers(idx);
      TruncateFacts(id);
    }

    /** What is known of the history after a truncate. */
    method TruncateFacts(id: Id)
      requires buf.HasNum(buf.LowNum()) && buf.At(buf.LowNum()).id == id
      modifies this`oldestKnownMsgId, this`hasMoreHistoryInDb, this`haveAllHistory, this`unreadCount, db`haveAllHistory
      ensures oldestKnownMsgId == id && !hasMoreHistoryInDb && haveAllHistory && db.haveAllHistory
      ensures unreadCount == UnreadBranch(View(), me, lastSeenIdx, haveAllHistory)
    {
      hide UnreadBranch;
      db.haveAllHistory := true;
      haveAllHistory := true;
      oldestKnownMsgId := id;
      hasMoreHistoryInDb := HasMoreHistoryInDb();
      CalculateUnreadCount();
    }

    method TruncateLists(id: Id, idx: int)
      requires buf.Indexed() && buf.HasNum(idx)
      requires RowAt(db.rows, idx, id)
      modifies buf, db`rows, this`oldestIdxInDb
      ensures buf.Indexed() && buf.Loaded() == Above(old(buf.Loaded()), idx - 1)
              && db.rows == (if idx in old(db.rows) then Above(old(db.rows), idx - 1) else old(db.rows))
      ensures buf.LowNum() == idx && buf.HighNum() == old(buf.HighNum()) && buf.At(idx) == old(buf.At(idx))
              && oldestIdxInDb == idx
    {
      hide Inverse, DistinctIds, Above, IdsAbove;
      ghost var loaded := buf.Loaded();
      db.TruncateHistory(id);
      oldestIdxInDb := idx;
      buf.DeleteOlderMessagesIncluding(idx - 1);
      AboveAt(loaded, idx);
    }

    method TruncatePointers(idx: int)
      modifies this`lastSeenId, this`lastSeenIdx, this`lastReceivedId, this`lastReceivedIdx, db`lastSeen, db`lastRecv
      ensures Pointers() == TruncateMarks(old(Pointers()), idx) && (old(Persisted()) ==> Persisted())
    {
      if lastSeenIdx != IDX_INVALID {
        if lastSeenIdx <= idx {
          lastSeenIdx, lastSeenId := IDX_INVALID, NULL_ID;
          db.lastSeen := NULL_ID;
        }
      }
      if lastReceivedIdx != IDX_INVALID {
        if lastReceivedIdx <= idx {
          lastReceivedIdx, lastReceivedId := IDX_INVALID, NULL_ID;
          db.lastRecv := NULL_ID;
        }
      }
    }

    /** The branch for a message that is not loaded: a message that is in the table changes its row. */
    method StoredUpdated(u: Message)
      requires DistinctIds(db.rows) && (forall i :: i in db.rows ==> i < IDX_INVALID)
      modifies db`rows
      ensures HasId(old(db.rows), u.id) ==>
                exists j ::
                  j in old(db.rows) && old(db.rows)[j].id == u.id && db.rows == UpdateStored(old(db.rows), j, u)
      ensures !HasId(old(db.rows), u.id) ==> db.rows == old(db.rows)
    {
      hide RowUpdate;
      ghost var rows := db.rows;
      var j := db.GetIdxOfMsgid(u.id);
      var delta := if j == IDX_INVALID then 0 else db.rows[j].updated;
      if j != IDX_INVALID { OnlyRowAt(rows, j); }
      OneRow(rows, j, u);
      if delta < u.updated { db.UpdateMsgInHistory(u.id, u); }
      assert j in rows ==> db.rows == UpdateStored(rows, j, u);
    }

    // ---------- Retention ----------

    /** `getIdxByRetentionTime`. */
    method GetIdxByRetentionTime(limit: int) returns (idx: int)
      requires oldestIdxInDb != IDX_INVALID && forall i :: i in db.rows ==> i < IDX_INVALID
      ensures IsExpiredIdx(View(), limit, idx)
    {
      var i := buf.HighNum();
      while i >= buf.LowNum()
        invariant i <= buf.HighNum()
        invariant forall j :: j in View().ram && j > i ==> View().ram[j].ts > limit
        decreases i - buf.LowNum()
      {
        if buf.At(i).ts <= limit { return i; }
        i := i - 1;
      }
      if buf.LowNum() == oldestIdxInDb { return IDX_INVALID; }
      idx := db.GetIdxByRetentionTime(Cast(limit));
    }

    /** `handleRetentionTime` at time `now`, which may find messages that wait for their keys. */
    method HandleRetentionTime(now: int) returns (ghost e: int)
      requires buf.Indexed() && Inv(View())
      modifies buf, db, this
      ensures retentionTime == 0 ==> View() == old(View()) && Pointers() == old(Pointers())
      ensures retentionTime != 0 ==>
                IsExpiredIdx(old(View()), now - retentionTime, e) && View() == Retain(old(View()), e)
      ensures retentionTime != 0 && e != IDX_INVALID ==>
                && (Inv(View()) <==> DropsInOrder(old(View()), e))
                && (buf.Empty() ==> Pointers() == Marks(IDX_INVALID, NULL_ID, IDX_INVALID, NULL_ID))
                && (db.rows == map[] ==> haveAllHistory && db.haveAllHistory)
      ensures !buf.Empty() || e == IDX_INVALID ==> Pointers() == old(Pointers())
      ensures buf.Indexed() && (old(Persisted()) ==> Persisted()) && retentionTime == old(retentionTime)
    {
      hide Inverse, Inv, UnreadBranch, DropThrough, DropsInOrder, Stored, IsNewestExpired, NoneExpired, IsQueryAnswer;
      e := IDX_INVALID;
      ghost var h := View();
      if retentionTime == 0 || oldestIdxInDb == IDX_INVALID { return; }
      RowsBounded(h);
      var idx := GetIdxByRetentionTime(now - retentionTime);
      e := idx;
      ExpiredIsStored(h, now - retentionTime, e);
      if idx == IDX_INVALID { return; }
      DropKeepsIff(h, e);
      var notifyUnreadChanged := idx >= lastSeenIdx || lastSeenIdx == IDX_INVALID;
      DropThroughIndex(idx);
      if notifyUnreadChanged { CalculateUnreadCount(); }
    }

    /** The deletion itself, with what it leaves behind when nothing survives. */
    method DropThroughIndex(idx: int)
      requires buf.Indexed() && Inv(View()) && oldestIdxInDb != IDX_INVALID && Stored(View(), idx)
      modifies buf, db, this
      ensures View() == DropThrough(old(View()), idx) && buf.Indexed()
      ensures db.rows == map[] ==> haveAllHistory && db.haveAllHistory
      ensures Pointers() == if buf.Empty() then Marks(IDX_INVALID, NULL_ID, IDX_INVALID, NULL_ID) else old(Pointers())
      ensures retentionTime == old(retentionTime) && (old(Persisted()) ==> Persisted())
    {
      hide Inverse, Inv, Above, Stored;
      ghost var h := View();
      DropShape(h, idx);
      OldestLeft(h, idx);
      DropLists(idx);
      Refresh(if Empties(h, idx) then IDX_INVALID else Max(h.oldest, idx + 1));
      if buf.Empty() {
        NoIds(buf.Loaded(), buf.idToIndex);
        buf.Restart();
        ResetPointers();
      }
    }

    /** The cached facts about the table are read from it again. */
    method Refresh(ghost oldest: int)
      requires forall i :: i in db.rows ==> oldest <= i < IDX_INVALID
      requires if oldest == IDX_INVALID then db.rows == map[] else oldest in db.rows
      modifies this`oldestIdxInDb, this`oldestKnownMsgId, this`hasMoreHistoryInDb, this`haveAllHistory,
               db`haveAllHistory
      ensures oldestIdxInDb == oldest
      ensures oldestKnownMsgId == if oldest == IDX_INVALID then NULL_ID else db.rows[oldest].id
      ensures if oldest == IDX_INVALID then haveAllHistory && db.haveAllHistory && !hasMoreHistoryInDb
              else unchanged(`haveAllHistory) && unchanged(`hasMoreHistoryInDb) && unchanged(db`haveAllHistory)
    {
      var oldestIdx, oldestId, _ := db.GetHistoryInfo();
      oldestIdxInDb, oldestKnownMsgId := oldestIdx, oldestId;
      if oldestIdxInDb == IDX_INVALID {
        haveAllHistory, hasMoreHistoryInDb := true, false;
        db.haveAllHistory := true;
      }
    }

    method DropLists(idx: int)
      requires buf.Indexed() && idx <= buf.HighNum() && idx != IDX_INVALID
      modifies buf, db`rows
      ensures buf.Indexed() && buf.Loaded() == Above(old(buf.Loaded()), idx) && db.rows == Above(old(db.rows), idx)
      ensures buf.LowNum() == (if idx < old(buf.LowNum()) then old(buf.LowNum()) else idx + 1)
      ensures buf.HighNum() == old(buf.HighNum())
    {
      hide Inverse, Above, IdsAbove;
      db.RetentionHistoryTruncate(idx);
      buf.DeleteOlderMessagesIncluding(idx);
    }

    method ResetPointers()
      modifies this`lastSeenId, this`lastSeenIdx, this`lastReceivedId, this`lastReceivedIdx, db`lastSeen, db`lastRecv
      ensures Pointers() == Marks(IDX_INVALID, NULL_ID, IDX_INVALID, NULL_ID) && Persisted()
    {
      lastSeenIdx, lastSeenId := IDX_INVALID, NULL_ID;
      db.lastSeen := NULL_ID;
      lastReceivedIdx, lastReceivedId := IDX_INVALID, NULL_ID;
      db.lastRecv := NULL_ID;
    }
  }
}
