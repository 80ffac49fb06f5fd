/** Loading stored history into RAM page by page (`Chat::getHistoryFromDb`, src/chatd.cpp:2025-2083). */
module Paging {
  import opened ChatTypes
  import opened HistorySpec

  /** The rows from `lo` up to, but not including, `hi`. */
  ghost function Rows(h: Hist, lo: int, hi: int): (r: map<int, Message>)
    requires Inv(h) && h.oldest != IDX_INVALID && h.oldest <= lo && hi <= h.DecryptedHigh() + 1
  {
    map i | lo <= i < hi :: h.rows[i]
  }

  /** What one call of `getHistoryFromDb(count)` achieves: the next `count` rows, or all that are left,
      are in RAM at the indices they have in the table, and `mHasMoreHistoryInDb` is exact. */
  ghost function Page(h: Hist, count: nat): Hist
    requires Inv(h) && h.hasMore
  {
    var low := h.low - Min(count, h.low - h.oldest);
    h.(low := low, ram := h.ram + Rows(h, low, h.low), hasMore := if count == 0 then h.hasMore else h.oldest < low)
  }

  lemma {:induction false} PageWindow(h: Hist, count: nat)
    requires Inv(h) && h.hasMore
    ensures Window(Page(h, count)) && Table(Page(h, count))
  {
    hide UniqueIds, Agree;
    var g := Page(h, count);
    assert g.DecryptedHigh() == h.DecryptedHigh();
  }

  lemma {:induction false} PageAgrees(h: Hist, count: nat)
    requires Inv(h) && h.hasMore
    ensures Agree(Page(h, count)) && UniqueIds(Page(h, count))
  {
    var g := Page(h, count);
    assert g.DecryptedHigh() == h.DecryptedHigh() && g.DecryptedLow() == g.low && h.DecryptedLow() == h.low;
    forall i | i in g.ram && i < h.low ensures i in h.rows && g.ram[i] == h.rows[i] {
    }
    forall i | i in g.ram && i >= h.low ensures i in h.ram && g.ram[i] == h.ram[i] {
    }
  }

  lemma {:induction false} PageKeeps(h: Hist, count: nat)
    requires Inv(h) && h.hasMore
    ensures Inv(Page(h, count)) && Page(h, count).rows == h.rows
    ensures count > 0 ==> (Page(h, count).hasMore <==> h.oldest < Page(h, count).low)
  {
    PageWindow(h, count);
    PageAgrees(h, count);
  }

  /** One page brings the next `count` rows below the window, or all that are left, to RAM at the indices they
      have in the table, and changes nothing else. */
  lemma {:induction false} PageBrings(h: Hist, count: nat)
    requires Inv(h) && h.hasMore
    ensures var g := Page(h, count);
            && g == h.(low := g.low, ram := g.ram, hasMore := g.hasMore)
            && g.low == (if h.low - count < h.oldest then h.oldest else h.low - count)
            && (forall i :: i in g.ram <==> i in h.ram || g.low <= i < h.low)
            && (forall i :: i in h.ram ==> g.ram[i] == h.ram[i])
            && (forall i :: g.low <= i < h.low ==> i in h.rows && g.ram[i] == h.rows[i])
  {
    hide UniqueIds, Agree;
  }

  /** Repeated loading, as the application scrolls back. */
  ghost function PageAll(h: Hist, count: nat): Hist
    requires Inv(h) && count > 0
    decreases h.low - h.oldest, h.hasMore
  {
    if !h.hasMore then h else
    PageKeeps(h, count);
    PageAll(Page(h, count), count)
  }

  /** Paging rebuilds history: it ends, with every row of the table in RAM under its own index and the
      newer part of the window untouched. */
  lemma {:induction false} PagingRebuilds(h: Hist, count: nat)
    requires Inv(h) && count > 0
    ensures var g := PageAll(h, count);
            && Inv(g) && !g.hasMore && g.rows == h.rows && g.high == h.high
            && (forall i :: i in h.rows ==> i in g.ram && g.ram[i] == h.rows[i])
            && (forall i :: i in h.ram ==> i in g.ram && g.ram[i] == h.ram[i])
    decreases h.low - h.oldest, h.hasMore
  {
    hide UniqueIds;
    if h.hasMore {
      PageKeeps(h, count);
      PagingRebuilds(Page(h, count), count);
    }
  }

  /** One more message loaded. */
  lemma {:induction false} PageStep(h: Hist, k: nat)
    requires Inv(h) && h.hasMore && k < h.low - h.oldest
    ensures var p, idx := Page(h, k), h.low - k - 1;
            && p.low - 1 == idx && idx in h.rows && idx !in h.ram
            && (h.rows[idx].id == p.oldestKnown <==> idx == h.oldest)
            && Page(h, k + 1) == PushBack(p, h.rows[idx]).(hasMore := h.rows[idx].id != p.oldestKnown && p.hasMore)
            && !HasId(p.ram, h.rows[idx].id)
  {
    hide Agree, UniqueIds;
    var p, idx := Page(h, k), h.low - k - 1;
    assert Page(h, k + 1).ram == p.ram[idx := h.rows[idx]];
    PageHolds(h, k);
    NotLoadedYet(p, idx);
    OldestKnown(h, idx);
  }

  lemma {:induction false} NotLoadedYet(p: Hist, idx: int)
    requires Inv(p) && idx in p.rows && idx !in p.ram
    ensures !HasId(p.ram, p.rows[idx].id)
  {
    hide Agree, Table, Window;
  }

  lemma {:induction false} OldestKnown(h: Hist, idx: int)
    requires Inv(h) && h.hasMore && idx in h.rows
    ensures h.rows[idx].id == h.oldestKnown <==> idx == h.oldest
  {
    hide Agree;
  }

  lemma {:induction false} PageHolds(h: Hist, count: nat)
    requires Inv(h) && h.hasMore
    ensures Inv(Page(h, count))
  {
    hide Inv;
    PageKeeps(h, count);
  }

  // ---------- A restart ----------

  /** A table as an earlier session leaves it, with the range `getHistoryInfo` reports: an interval of
      settled messages, or nothing. */
  ghost predicate IsTable(rows: map<int, Message>, lo: int, hi: int) {
    && DistinctIds(rows) && IsInterval(rows, lo, hi) && hi < IDX_INVALID
    && (forall i :: i in rows ==> rows[i].enc != Pending)
    && (rows == map[] ==> lo == IDX_INVALID && hi == -1) && (rows != map[] ==> lo <= hi)
  }

  /** The history of a chat that has just been opened on its table, before anything is loaded. */
  ghost function Opened(rows: map<int, Message>, lo: int, hi: int): Hist
    requires IsTable(rows, lo, hi)
  {
    if rows == map[] then Hist(map[], 0, -1, map[], IDX_INVALID, IDX_INVALID, IDX_INVALID, NULL_ID, false)
    else Hist(map[], hi + 1, hi, rows, IDX_INVALID, IDX_INVALID, lo, rows[lo].id, true)
  }

  lemma {:induction false} OpenedHolds(rows: map<int, Message>, lo: int, hi: int)
    requires IsTable(rows, lo, hi)
    ensures Inv(Opened(rows, lo, hi))
  {
  }

  /** The chat once its constructor has loaded the newest page. */
  ghost function OpenedPage(rows: map<int, Message>, lo: int, hi: int, count: nat): Hist
    requires IsTable(rows, lo, hi)
  {
    OpenedHolds(rows, lo, hi);
    var o := Opened(rows, lo, hi);
    if o.hasMore then Page(o, count) else o
  }

  /** After a crash or a shutdown at any moment, even with decryptions halted, the chat opens in a
      consistent state, and paging brings back every message that had been decrypted, at its old index. */
  lemma {:induction false} RestartRebuilds(h: Hist, count: nat)
    requires Inv(h) && count > 0
    ensures var hi := if h.oldest == IDX_INVALID then -1 else h.DecryptedHigh();
            && IsTable(h.rows, h.oldest, hi) && Inv(Opened(h.rows, h.oldest, hi))
            && var g := PageAll(Opened(h.rows, h.oldest, hi), count);
            && Inv(g) && g.ram == h.rows && g.rows == h.rows && g.oldest == h.oldest && !g.hasMore
  {
    hide Inv, IsTable, Opened, PageAll;
    var hi := if h.oldest == IDX_INVALID then -1 else h.DecryptedHigh();
    RowsAreTable(h);
    OpenedHolds(h.rows, h.oldest, hi);
    var o := Opened(h.rows, h.oldest, hi);
    OpenedFields(h.rows, h.oldest, hi);
    PagingRebuilds(o, count);
    PagingStopsAtOldest(o, count);
    AllLoaded(PageAll(o, count));
  }

  lemma {:induction false} AllLoaded(g: Hist)
    requires Inv(g) && !g.hasMore && g.haltedNew == g.haltedOld == IDX_INVALID
    ensures g.ram == g.rows
  {
    hide UniqueIds;
    SameMap(g.ram, g.rows);
  }

  lemma {:induction false} OpenedFields(rows: map<int, Message>, lo: int, hi: int)
    requires IsTable(rows, lo, hi)
    ensures var o := Opened(rows, lo, hi);
            && o.rows == rows && o.oldest == lo && o.haltedNew == o.haltedOld == IDX_INVALID
            && o.ram == map[] && o.low == o.high + 1 && o.high == hi
  {
  }

  lemma {:induction false} RowsAreTable(h: Hist)
    requires Inv(h)
    ensures IsTable(h.rows, h.oldest, if h.oldest == IDX_INVALID then -1 else h.DecryptedHigh())
  {
    if h.oldest != IDX_INVALID { assert h.oldest in h.rows; }
  }

  lemma {:induction false} PagingStopsAtOldest(h: Hist, count: nat)
    requires Inv(h) && count > 0
    ensures var g := PageAll(h, count);
            && g.oldest == h.oldest && g.oldestKnown == h.oldestKnown
            && g.haltedNew == h.haltedNew && g.haltedOld == h.haltedOld
    decreases h.low - h.oldest, h.hasMore
  {
    hide Inv;
    if h.hasMore {
      PageKeeps(h, count);
      PageMeasure(h, count);
      PagingStopsAtOldest(Page(h, count), count);
    }
  }

  lemma {:induction false} PageMeasure(h: Hist, count: nat)
    requires Inv(h) && h.hasMore && count > 0
    ensures h.low - h.oldest >= 0
    ensures var g := Page(h, count);
            g.oldest == h.oldest && (g.low - g.oldest < h.low - h.oldest || (g.low == h.low && !g.hasMore))
  {
    hide UniqueIds, Agree;
  }
}
