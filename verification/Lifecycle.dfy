/** The whole life of a chat's history: everything that changes it, in any order. */
module Lifecycle {
  import opened ChatTypes
  import opened HistorySpec
  import opened Updates
  import opened Retention
  import opened Paging
  import P = Pipeline
  import opened PipelineRuns

  datatype Change =
    | Piped(event: Event)                      // an arrival, a finished decryption or a confirmation
    | Paged(count: nat)                        // the application scrolls back
    | Updated(idx: int, u: Message)            // a MSGUPD of a loaded message: an edit or a truncate
    | UpdatedRow(idx: int, u: Message)         // a MSGUPD of a message that is stored and not loaded
    | Expired(limit: int, e: int)              // the retention timer fires
    | LoggedIn                                 // the client looks into its table again
    | Restarted(count: nat)                    // the application was closed and opened again

  /** The change can happen. */
  ghost predicate Possible(h: Hist, c: Change) {
    match c
    case Piped(e) => Promised(h, e)
    case Paged(count) => h.hasMore
    case Updated(idx, u) => idx in h.ram && u.enc != Pending
    case UpdatedRow(idx, u) => idx in h.rows && idx !in h.ram && u.enc != Pending
    case Expired(limit, e) => IsExpiredIdx(h, limit, e)
    case LoggedIn => true
    case Restarted(count) => true
  }

  /** The original handles the change correctly: nothing overtakes or deletes a message that waits for its
      keys, and no update changes one, and a truncate has the fields that its row will get. */
  ghost predicate Harmless(h: Hist, c: Change)
    requires Possible(h, c)
  {
    match c
    case Piped(e) => InOrder(h, e)
    case Updated(idx, u) => Agreeable(h, idx, u)
    case Expired(limit, e) => e != IDX_INVALID ==> DropsInOrder(h, e)
    case LoggedIn => h.haltedOld == IDX_INVALID || h.oldest == IDX_INVALID
    case _ => true
  }

  /** `login` reads the oldest row and recomputes `mHasMoreHistoryInDb`. */
  ghost function Login(h: Hist): Hist
    requires Inv(h)
  {
    KnownOldest(h);
    h.(oldestKnown := if h.oldest == IDX_INVALID then NULL_ID else h.rows[h.oldest].id, hasMore := HasMoreAtLogin(h))
  }

  lemma {:induction false} KnownOldest(h: Hist)
    requires Inv(h)
    ensures h.oldest == IDX_INVALID || h.oldest in h.rows
  {
    hide UniqueIds, Agree;
  }

  lemma {:induction false} LoginKeepsIff(h: Hist)
    requires Inv(h)
    ensures Inv(Login(h)) <==> h.haltedOld == IDX_INVALID || h.oldest == IDX_INVALID
  {
    hide UniqueIds;
    KnownOldest(h);
    var g := Login(h);
    assert UniqueIds(g) by { P.SameMessages(h, g); }
    assert g.DecryptedLow() == h.DecryptedLow() && g.DecryptedHigh() == h.DecryptedHigh();
    if h.oldest != IDX_INVALID && h.low in h.ram { LoginKnowsItsTableIff(h); }
  }

  function TableEnd(h: Hist): int { if h.oldest == IDX_INVALID then -1 else h.DecryptedHigh() }

  ghost function Next(h: Hist, c: Change): Hist
    requires Inv(h) && Possible(h, c)
  {
    match c
    case Piped(e) => Apply(h, e)
    case Paged(count) => Page(h, count)
    case Updated(idx, u) => UpdateLoaded(h, idx, u)
    case UpdatedRow(idx, u) => h.(rows := UpdateStored(h.rows, idx, u))
    case Expired(limit, e) => ExpiredIsStored(h, limit, e); Retain(h, e)
    case LoggedIn => Login(h)
    case Restarted(count) => RowsAreTable(h); OpenedPage(h.rows, h.oldest, TableEnd(h), count)
  }

  lemma {:induction false} RestartKeeps(h: Hist, count: nat)
    requires Inv(h)
    ensures IsTable(h.rows, h.oldest, TableEnd(h))
    ensures Inv(OpenedPage(h.rows, h.oldest, TableEnd(h), count))
            && OpenedPage(h.rows, h.oldest, TableEnd(h), count).rows == h.rows
  {
    hide Inv, IsTable, Opened;
    RowsAreTable(h);
    var o := Opened(h.rows, h.oldest, TableEnd(h));
    OpenedHolds(h.rows, h.oldest, TableEnd(h));
    OpenedFields(h.rows, h.oldest, TableEnd(h));
    if o.hasMore { PageKeeps(o, count); }
  }

  /** One change keeps the history consistent if and only if it is harmless. */
  lemma {:induction false} NextKeepsIff(h: Hist, c: Change)
    requires Inv(h) && Possible(h, c)
    ensures Inv(Next(h, c)) <==> Harmless(h, c)
  {
    hide Inv, Apply, Promised, InOrder, Agreeable, Page, UpdateLoaded, UpdateStored, Login, OpenedPage, DropThrough;
    hide DropsInOrder, IsNewestExpired, NoneExpired, IsQueryAnswer;
    match c
    case Piped(e) => ApplyKeepsIff(h, e);
    case Paged(count) => PageKeeps(h, count);
    case Updated(idx, u) => UpdateKeepsIff(h, idx, u);
    case UpdatedRow(idx, u) => StoredUpdateKeeps(h, idx, u);
    case Expired(limit, e) =>
      ExpiredIsStored(h, limit, e);
      if e != IDX_INVALID { DropKeepsIff(h, e); }
    case LoggedIn => LoginKeepsIff(h);
    case Restarted(count) => RestartKeeps(h, count);
  }

  ghost predicate PossibleRun(h: Hist, cs: seq<Change>)
    requires Inv(h)
    decreases |cs|
  {
    cs != [] ==>
      Possible(h, cs[0]) && Harmless(h, cs[0]) && (NextKeepsIff(h, cs[0]); PossibleRun(Next(h, cs[0]), cs[1..]))
  }

  ghost function RunOf(h: Hist, cs: seq<Change>): Hist
    requires Inv(h) && PossibleRun(h, cs)
    decreases |cs|
  {
    if cs == [] then h else (NextKeepsIff(h, cs[0]); RunOf(Next(h, cs[0]), cs[1..]))
  }

  /** RAM and table agree, always: over every run of arrivals, delayed decryptions, confirmations, pages,
      edits, truncates, retention, logins and restarts, as long as each change is harmless. */
  lemma {:induction false} HistoryStaysConsistent(h: Hist, cs: seq<Change>)
    requires Inv(h) && PossibleRun(h, cs)
    ensures Inv(RunOf(h, cs))
    decreases |cs|
  {
    hide Inv, Next, Possible, Harmless;
    if cs != [] {
      NextKeepsIff(h, cs[0]);
      HistoryStaysConsistent(Next(h, cs[0]), cs[1..]);
    }
  }
}
