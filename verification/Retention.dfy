/** Retention: deleting what is older than the period set for the chat (`handleRetentionTime`,
    `getIdxByRetentionTime`; src/chatd.cpp:4925-5009, src/chatdDb.h:678-693).  It may fire at any moment,
    while messages wait for their keys too. */
module Retention {
  import opened ChatTypes
  import opened HistorySpec

  ghost predicate IsNewestExpired(m: map<int, Message>, limit: int, e: int) {
    e in m && m[e].ts <= limit && forall j :: j in m && j > e ==> m[j].ts > limit
  }

  ghost predicate NoneExpired(m: map<int, Message>, limit: int) {
    forall j :: j in m ==> m[j].ts > limit
  }

  /** `select MAX(idx) from history where ts <= limit`. */
  ghost predicate IsQueryAnswer(m: map<int, Message>, limit: int, e: int) {
    if e == IDX_INVALID then NoneExpired(m, limit) else IsNewestExpired(m, limit, e)
  }

  /** The limit as the table query receives it, cast to an unsigned 32-bit number. */
  function Cast(limit: int): uint32 { limit % 0x1_0000_0000 }

  /** The index through which `handleRetentionTime` deletes: none without stored history, then the newest
      expired message in RAM, and otherwise, unless RAM holds the whole table, the answer of the query. */
  ghost predicate IsExpiredIdx(h: Hist, limit: int, e: int) {
    if h.oldest == IDX_INVALID then e == IDX_INVALID
    else if !NoneExpired(h.ram, limit) then IsNewestExpired(h.ram, limit, e)
    else if h.low == h.oldest then e == IDX_INVALID
    else IsQueryAnswer(h.rows, Cast(limit), e)
  }

  /** Whether the deletion through `e` leaves nothing in the table. */
  predicate Empties(h: Hist, e: int) { h.DecryptedHigh() <= e }

  /** The history after `retentionHistoryTruncate(e)`, `deleteOlderMessagesIncluding(e)` and a new look into
      the table.  The marks at which decryption is halted stay as they are, and an empty buffer starts
      its indices anew. */
  ghost function DropThrough(h: Hist, e: int): Hist
    requires Inv(h) && h.oldest != IDX_INVALID
  {
    var oldest := if Empties(h, e) then IDX_INVALID else Max(h.oldest, e + 1);
    OldestLeft(h, e);
    h.(ram := Above(h.ram, e), rows := Above(h.rows, e),
       low := if h.high <= e || h.high < h.low then 0 else Max(h.low, e + 1),
       high := if h.high <= e || h.high < h.low then -1 else h.high,
       oldest := oldest, oldestKnown := if Empties(h, e) then NULL_ID else h.rows[oldest].id,
       hasMore := h.hasMore && !Empties(h, e))
  }

  lemma {:induction false} OldestLeft(h: Hist, e: int)
    requires Inv(h) && h.oldest != IDX_INVALID
    ensures Empties(h, e) ==> Above(h.rows, e) == map[]
    ensures !Empties(h, e) ==> Max(h.oldest, e + 1) in h.rows
  {
    hide UniqueIds, Agree;
  }

  ghost predicate Stored(h: Hist, e: int) { e in h.ram || e in h.rows }

  /** The deletion passes over a message that waits for its keys. */
  predicate PassesHalted(h: Hist, e: int) {
    (h.haltedNew != IDX_INVALID && h.haltedNew <= e) || (h.haltedOld != IDX_INVALID && h.haltedOld <= e)
  }

  /** The deletion reaches no message that waits, and is not fired at an empty buffer over a table that
      keeps a row. */
  predicate DropsInOrder(h: Hist, e: int) {
    !PassesHalted(h, e) && (h.low <= h.high || h.high <= e || h.high == -1)
  }

  /** What is newer than `e` stays as it is, in RAM and table alike, and nothing else stays. */
  lemma {:induction false} DropExactly(h: Hist, e: int)
    requires Inv(h) && h.oldest != IDX_INVALID
    ensures var g := DropThrough(h, e);
            && (forall i :: i in g.rows <==> i in h.rows && i > e) && (forall i :: i in g.ram <==> i in h.ram && i > e)
            && (forall i :: i in g.rows ==> g.rows[i] == h.rows[i]) && (forall i :: i in g.ram ==> g.ram[i] == h.ram[i])
  {
    hide Inv;
  }

  /** Deletion removes the messages that wait for their keys like all others, but not the marks that
      decryption is halted there.  The history stays consistent exactly when it reaches neither of the
      two, and an empty buffer does not start its indices anew below a row that stays. */
  lemma {:induction false} DropKeepsIff(h: Hist, e: int)
    requires Inv(h) && h.oldest != IDX_INVALID && Stored(h, e)
    ensures Inv(DropThrough(h, e)) <==> DropsInOrder(h, e)
  {
    if DropsInOrder(h, e) {
      DropKeeps(h, e);
    } else {
      DropBreaks(h, e);
    }
  }

  lemma {:induction false} DropKeeps(h: Hist, e: int)
    requires Inv(h) && h.oldest != IDX_INVALID && Stored(h, e) && DropsInOrder(h, e)
    ensures Inv(DropThrough(h, e))
  {
    hide Window, Table, Agree, UniqueIds, DropThrough;
    DropExactly(h, e);
    DropWindow(h, e);
    DropTable(h, e);
    DropAgrees(h, e);
    DropKeepsIds(h, DropThrough(h, e));
  }

  lemma {:induction false} DropWindow(h: Hist, e: int)
    requires Inv(h) && h.oldest != IDX_INVALID && Stored(h, e) && DropsInOrder(h, e)
    ensures var g := DropThrough(h, e); Window(g) && (e < h.high ==> g.DecryptedHigh() == h.DecryptedHigh())
    ensures DropThrough(h, e).DecryptedLow() >= h.DecryptedLow() || h.high <= e
  {
    hide UniqueIds, Agree, Above;
    DropExactly(h, e);
  }

  lemma {:induction false} DropTable(h: Hist, e: int)
    requires Inv(h) && h.oldest != IDX_INVALID && Stored(h, e) && DropsInOrder(h, e)
    ensures Table(DropThrough(h, e))
  {
    hide UniqueIds, Agree, Above;
    var g := DropThrough(h, e);
    DropExactly(h, e);
    OldestLeft(h, e);
    if !Empties(h, e) { assert g.rows[g.oldest] == h.rows[g.oldest]; }
  }

  lemma {:induction false} DropAgrees(h: Hist, e: int)
    requires Inv(h) && h.oldest != IDX_INVALID && Stored(h, e) && DropsInOrder(h, e)
    ensures Agree(DropThrough(h, e))
  {
    hide UniqueIds, Above;
    var g := DropThrough(h, e);
    DropExactly(h, e);
    forall i | i in g.ram
      ensures g.DecryptedLow() <= i <= g.DecryptedHigh() <==> h.DecryptedLow() <= i <= h.DecryptedHigh()
    {
    }
  }

  lemma {:induction false} DropKeepsIds(h: Hist, g: Hist)
    requires UniqueIds(h)
    requires (forall i :: i in g.ram ==> i in h.ram && g.ram[i] == h.ram[i])
    requires (forall i :: i in g.rows ==> i in h.rows && g.rows[i] == h.rows[i])
    ensures UniqueIds(g)
  {
  }

  lemma {:induction false} DropBreaks(h: Hist, e: int)
    requires Inv(h) && h.oldest != IDX_INVALID && Stored(h, e) && !DropsInOrder(h, e)
    ensures !Inv(DropThrough(h, e))
  {
    hide UniqueIds, Agree, Above;
    var g := DropThrough(h, e);
    if PassesHalted(h, e) {
      assert !Window(g);
    } else {
      DropExactly(h, e);
      assert h.high in g.rows && g.DecryptedHigh() == -1 && g.oldest <= h.high;
      assert !IsInterval(g.rows, g.oldest, -1) by {
        if h.high < -1 { assert -1 !in g.rows; }
      }
    }
  }

  /** `mHasMoreHistoryInDb` is not recomputed here.  It stays exact exactly when it was unset, or some
      row below the loaded window survives, or no row does. */
  lemma {:induction false} HasMoreStaysExactIff(h: Hist, e: int)
    requires Inv(h) && h.oldest != IDX_INVALID && Stored(h, e) && (h.hasMore <==> h.oldest < h.low)
    requires h.low <= h.high || h.high <= e
    ensures var g := DropThrough(h, e);
            (g.hasMore <==> g.oldest != IDX_INVALID && g.oldest < g.low)
                <==> !h.hasMore || e < h.low - 1 || Empties(h, e)
  {
    hide UniqueIds, Agree;
  }

  /** `handleRetentionTime` on the history, given the index through which it deletes. */
  ghost function Retain(h: Hist, e: int): Hist
    requires Inv(h) && (h.oldest == IDX_INVALID ==> e == IDX_INVALID)
  {
    if e == IDX_INVALID then h else DropThrough(h, e)
  }

  lemma {:induction false} ExpiredIsStored(h: Hist, limit: int, e: int)
    requires IsExpiredIdx(h, limit, e)
    ensures e == IDX_INVALID || (h.oldest != IDX_INVALID && Stored(h, e))
  {
  }

  /** Message `i`, loaded or stored, belongs to the longest suffix of the history in which nothing has
      expired. */
  ghost predicate Live(h: Hist, limit: int, i: int) {
    Stored(h, i) && Fresh(h.ram, limit, i) && Fresh(h.rows, limit, i)
  }

  ghost predicate Fresh(m: map<int, Message>, limit: int, i: int) {
    forall j :: j in m && j >= i ==> m[j].ts > limit
  }

  ghost predicate KeepsLiveSuffix(h: Hist, limit: int, g: Hist) {
    forall i :: Stored(g, i) <==> Live(h, limit, i)
  }

  /** The limit that the query sees is as good as the one it was given: it lies within 32 bits, or else
      it is negative and no row is as old as its cast, or beyond 32 bits and the newest row is. */
  ghost predicate CastIsHarmless(h: Hist, limit: int)
    requires Inv(h) && h.oldest != IDX_INVALID
  {
    NewestRow(h);
    0 <= limit < 0x1_0000_0000
    || (if limit < 0 then NoneExpired(h.rows, Cast(limit)) else h.rows[h.DecryptedHigh()].ts <= Cast(limit))
  }

  lemma {:induction false} NewestRow(h: Hist)
    requires Inv(h) && h.oldest != IDX_INVALID
    ensures h.DecryptedHigh() in h.rows && forall i :: i in h.rows ==> i <= h.DecryptedHigh() <= h.high
    ensures forall i :: i in h.rows ==> i >= h.oldest
    ensures forall i :: i in h.ram ==> h.low <= i < IDX_INVALID
    ensures forall i :: i in h.rows && i >= h.low ==> i in h.ram && h.ram[i] == h.rows[i]
  {
    hide UniqueIds;
  }

  /** Retention keeps exactly the longest live suffix of what is loaded and stored, even when timestamps
      are not monotone and messages wait for their keys, if and only if: without stored history, nothing
      has expired; otherwise something loaded has, or RAM begins where the table does, or the cast of
      the limit does no harm. */
  lemma {:induction false} KeepsLiveSuffixIff(h: Hist, limit: int, e: int)
    requires Inv(h) && IsExpiredIdx(h, limit, e)
    ensures KeepsLiveSuffix(h, limit, Retain(h, e))
            <==> if h.oldest == IDX_INVALID then NoneExpired(h.ram, limit)
                 else !NoneExpired(h.ram, limit) || h.low == h.oldest || CastIsHarmless(h, limit)
  {
    ExpiredIsStored(h, limit, e);
    if h.oldest == IDX_INVALID {
      NothingStored(h, limit);
    } else if !NoneExpired(h.ram, limit) || h.low == h.oldest {
      LoadedAnswer(h, limit, e);
    } else {
      QueriedAnswer(h, limit, e);
    }
  }

  lemma {:induction false} NothingStored(h: Hist, limit: int)
    requires Inv(h) && h.oldest == IDX_INVALID
    ensures KeepsLiveSuffix(h, limit, h) <==> NoneExpired(h.ram, limit)
  {
    hide UniqueIds, Agree, Window;
    assert h.rows == map[];
    if j :| j in h.ram && h.ram[j].ts <= limit { assert Stored(h, j) && !Live(h, limit, j); }
  }

  lemma {:induction false} LoadedAnswer(h: Hist, limit: int, e: int)
    requires Inv(h) && h.oldest != IDX_INVALID && IsExpiredIdx(h, limit, e)
    requires !NoneExpired(h.ram, limit) || h.low == h.oldest
    ensures KeepsLiveSuffix(h, limit, Retain(h, e))
  {
    hide Inv, DropThrough;
    NewestRow(h);
    if e == IDX_INVALID {
      assert NoneExpired(h.rows, limit);
    } else {
      DropExactly(h, e);
      assert !Fresh(h.ram, limit, e);
      forall i ensures Stored(Retain(h, e), i) <==> Live(h, limit, i) {
        if i <= e { assert !Fresh(h.ram, limit, i); }
      }
    }
  }

  lemma {:induction false} QueriedAnswer(h: Hist, limit: int, e: int)
    requires Inv(h) && h.oldest != IDX_INVALID && NoneExpired(h.ram, limit) && IsQueryAnswer(h.rows, Cast(limit), e)
    ensures KeepsLiveSuffix(h, limit, Retain(h, e)) <==> CastIsHarmless(h, limit)
  {
    hide Inv, KeepsLiveSuffix, Retain, NoneExpired, IsQueryAnswer;
    if limit < 0 {
      NegativeLimit(h, limit, e);
    } else if limit < 0x1_0000_0000 {
      GoodLimit(h, limit, e);
    } else {
      WideLimit(h, limit, e);
    }
  }

  /** Nothing is older than a negative limit, so every deletion is wrong. */
  lemma {:induction false} NegativeLimit(h: Hist, limit: int, e: int)
    requires Inv(h) && h.oldest != IDX_INVALID && IsQueryAnswer(h.rows, Cast(limit), e) && limit < 0
    ensures KeepsLiveSuffix(h, limit, Retain(h, e)) <==> NoneExpired(h.rows, Cast(limit))
  {
    hide Inv, DropThrough;
    NewestRow(h);
    assert forall i :: Stored(h, i) <==> Live(h, limit, i);
    if e != IDX_INVALID {
      DropExactly(h, e);
      assert Live(h, limit, e) && !Stored(Retain(h, e), e);
    }
  }

  /** A limit within 32 bits is answered correctly: the newest expired row of all. */
  lemma {:induction false} GoodLimit(h: Hist, limit: int, e: int)
    requires Inv(h) && h.oldest != IDX_INVALID && NoneExpired(h.ram, limit) && IsQueryAnswer(h.rows, limit, e)
    ensures KeepsLiveSuffix(h, limit, Retain(h, e))
  {
    hide Inv, DropThrough;
    NewestRow(h);
    if e != IDX_INVALID {
      DropExactly(h, e);
      assert e < h.low by { assert e < h.low || e in h.ram; }
      assert !Fresh(h.rows, limit, e);
      forall i ensures Stored(Retain(h, e), i) <==> Live(h, limit, i) {
        if i <= e { assert !Fresh(h.rows, limit, i); }
      }
    }
  }

  /** Everything is older than a limit beyond 32 bits, so all rows must go. */
  lemma {:induction false} WideLimit(h: Hist, limit: int, e: int)
    requires Inv(h) && h.oldest != IDX_INVALID && NoneExpired(h.ram, limit) && IsQueryAnswer(h.rows, Cast(limit), e)
    requires limit >= 0x1_0000_0000
    ensures h.DecryptedHigh() in h.rows
    ensures KeepsLiveSuffix(h, limit, Retain(h, e)) <==> h.rows[h.DecryptedHigh()].ts <= Cast(limit)
  {
    hide Inv, DropThrough;
    NewestRow(h);
    var top := h.DecryptedHigh();
    forall i ensures !Live(h, limit, i) {
      assert i !in h.ram || h.ram[i].ts <= limit;
      assert i !in h.rows || h.rows[i].ts <= limit;
    }
    if e != IDX_INVALID { DropExactly(h, e); }
    assert Stored(h, top);
    assert Stored(Retain(h, e), top) <==> e == IDX_INVALID || e < top;
  }
}
