/** Where the promises about the history stop: for each condition of `PipelineRuns`, `Updates`, `Retention`
    and `ReadMarks` a run from an empty chat that reaches an input on which it fails. */
module HistoryLimits {
  import opened ChatTypes
  import opened HistorySpec
  import opened Updates
  import opened Retention
  import opened Paging
  import opened PipelineRuns
  import opened Lifecycle
  import M = ReadMarks

  /** A message as it comes from the server. */
  function Sent(id: uint32): Message { Message(id, 900, id, 0, 1, MSG_NORMAL, [1], Pending, 0) }

  /** The same message, decrypted. */
  function Plain(id: uint32): Message { Sent(id).(enc := NotEncrypted) }

  function Malformed1(): Message { Sent(1).(enc := Malformed) }

  function NoKeys(): Crypto { (m: Message) => None }

  function Keys(): Crypto { (m: Message) => Some(m.(enc := NotEncrypted)) }

  const EMPTY := Hist(map[], 0, -1, map[], IDX_INVALID, IDX_INVALID, IDX_INVALID, NULL_ID, false)

  /** The first message of a chat waits for its keys. */
  const WAITING := EMPTY.(ram := map[0 := Sent(1)], high := 0, haltedNew := 0, oldestKnown := 1)

  /** The first message of a chat is stored. */
  const ONE := EMPTY.(ram := map[0 := Plain(1)], high := 0, rows := map[0 := Plain(1)], oldest := 0, oldestKnown := 1)

  /** An older message waits for its keys below it. */
  const OLDER := ONE.(ram := map[-1 := Sent(2), 0 := Plain(1)], low := -1, haltedOld := -1, oldestKnown := 2)

  const TWO := ONE.(ram := map[0 := Plain(1), 1 := Plain(3)], high := 1, rows := map[0 := Plain(1), 1 := Plain(3)])

  /** The first message of a chat turned out to be malformed. */
  const BROKEN :=
    EMPTY.(ram := map[0 := Malformed1()], high := 0, rows := map[0 := Malformed1()], oldest := 0, oldestKnown := 1)

  /** The second message waits behind the first one. */
  const QUEUED := WAITING.(ram := map[0 := Sent(1), 1 := Sent(3)], high := 1)

  /** Two messages are stored, and after a restart the newer one is loaded. */
  const REOPENED := TWO.(ram := map[1 := Plain(3)], low := 1, hasMore := true)

  // ---------- Reachable histories ----------

  /** Some run of harmless changes leads from an empty chat to `h`. */
  ghost predicate Reached(h: Hist) {
    Inv(EMPTY) && exists cs :: PossibleRun(EMPTY, cs) && RunOf(EMPTY, cs) == h
  }

  lemma {:induction false} EmptyReached()
    ensures Reached(EMPTY) && Inv(EMPTY)
    ensures IsTable(map[], IDX_INVALID, -1) && EMPTY == Opened(map[], IDX_INVALID, -1)
  {
    OpenedHolds(map[], IDX_INVALID, -1);
    assert PossibleRun(EMPTY, []) && RunOf(EMPTY, []) == EMPTY;
  }

  lemma {:induction false} RunThen(h: Hist, cs: seq<Change>, c: Change)
    requires Inv(h) && PossibleRun(h, cs)
    requires Inv(RunOf(h, cs)) && Possible(RunOf(h, cs), c) && Harmless(RunOf(h, cs), c)
    ensures PossibleRun(h, cs + [c]) && RunOf(h, cs + [c]) == Next(RunOf(h, cs), c)
    decreases |cs|
  {
    hide Inv, Possible, Harmless, Next;
    if cs == [] {
      assert cs + [c] == [c] && [c][1..] == [];
      NextKeepsIff(h, c);
    } else {
      assert (cs + [c])[0] == cs[0] && (cs + [c])[1..] == cs[1..] + [c];
      NextKeepsIff(h, cs[0]);
      RunThen(Next(h, cs[0]), cs[1..], c);
    }
  }

  lemma {:induction false} ReachedNext(h: Hist, c: Change)
    requires Reached(h) && Inv(h) && Possible(h, c) && Harmless(h, c)
    ensures Reached(Next(h, c)) && Inv(Next(h, c))
  {
    hide Inv, Possible, Harmless, Next;
    var cs :| PossibleRun(EMPTY, cs) && RunOf(EMPTY, cs) == h;
    RunThen(EMPTY, cs, c);
    NextKeepsIff(h, c);
    assert PossibleRun(EMPTY, cs + [c]) && RunOf(EMPTY, cs + [c]) == Next(h, c);
  }

  lemma {:induction false} HonestKeys()
    ensures Honest(Keys()) && Honest(NoKeys())
  {
  }

  lemma {:induction false} FirstAdds()
    ensures AddNew(EMPTY, Sent(1), NoKeys()) == WAITING && AddNew(EMPTY, Sent(1), Keys()) == ONE && FreshId(EMPTY, 1)
  {
    assert EMPTY.ram[0 := Sent(1)] == map[0 := Sent(1)];
    assert EMPTY.ram[0 := Sent(1)][0 := Plain(1)] == map[0 := Plain(1)];
    assert EMPTY.rows[0 := Plain(1)] == map[0 := Plain(1)];
  }

  lemma {:induction false} FirstWaits()
    ensures Reached(WAITING) && Inv(WAITING)
  {
    hide Reached, PossibleRun, RunOf, Inv, AddNew, FreshId, Honest;
    EmptyReached();
    HonestKeys();
    FirstAdds();
    ReachedNext(EMPTY, Piped(NewArrives(Sent(1), NoKeys())));
  }

  lemma {:induction false} FirstStored()
    ensures Reached(ONE) && Inv(ONE)
  {
    hide Reached, PossibleRun, RunOf, Inv, AddNew, FreshId, Honest;
    EmptyReached();
    HonestKeys();
    FirstAdds();
    ReachedNext(EMPTY, Piped(NewArrives(Sent(1), Keys())));
  }

  lemma {:induction false} OlderAdds()
    ensures AddOld(ONE, Sent(2), NoKeys()) == OLDER && FreshId(ONE, 2)
  {
    assert ONE.ram[-1 := Sent(2)] == OLDER.ram;
  }

  lemma {:induction false} OlderWaits()
    ensures Reached(OLDER) && Inv(OLDER)
  {
    hide Reached, PossibleRun, RunOf, Inv, AddOld, FreshId, Honest;
    FirstStored();
    HonestKeys();
    OlderAdds();
    ReachedNext(ONE, Piped(OldArrives(Sent(2), NoKeys())));
  }

  lemma {:induction false} SecondAdds()
    ensures AddNew(ONE, Sent(3), Keys()) == TWO && FreshId(ONE, 3)
  {
    assert ONE.ram[1 := Sent(3)][1 := Plain(3)] == TWO.ram;
    assert ONE.rows[1 := Plain(3)] == TWO.rows;
  }

  lemma {:induction false} SecondStored()
    ensures Reached(TWO) && Inv(TWO)
  {
    hide Reached, PossibleRun, RunOf, Inv, AddNew, FreshId, Honest;
    FirstStored();
    HonestKeys();
    SecondAdds();
    ReachedNext(ONE, Piped(NewArrives(Sent(3), Keys())));
  }

  lemma {:induction false} FirstBreaks()
    ensures FinishNew(WAITING, Malformed1(), NoKeys()) == BROKEN && !IsTruncate(Malformed1())
  {
    assert WAITING.ram[0 := Malformed1()] == BROKEN.ram;
    assert WAITING.rows[0 := Malformed1()] == BROKEN.rows;
  }

  lemma {:induction false} FirstMalformed()
    ensures Reached(BROKEN) && Inv(BROKEN)
  {
    hide Reached, PossibleRun, RunOf, Inv, FinishNew, Honest;
    FirstWaits();
    HonestKeys();
    FirstBreaks();
    ReachedNext(WAITING, Piped(NewDecrypted(Malformed1(), NoKeys())));
  }

  lemma {:induction false} SecondQueues()
    ensures AddNew(WAITING, Sent(3), NoKeys()) == QUEUED && FreshId(WAITING, 3)
  {
    assert WAITING.ram[1 := Sent(3)] == QUEUED.ram;
  }

  lemma {:induction false} SecondWaits()
    ensures Reached(QUEUED) && Inv(QUEUED)
  {
    hide Reached, PossibleRun, RunOf, Inv, AddNew, FreshId, Honest;
    FirstWaits();
    HonestKeys();
    SecondQueues();
    ReachedNext(WAITING, Piped(NewArrives(Sent(3), NoKeys())));
  }

  lemma {:induction false} SecondReloads()
    ensures IsTable(TWO.rows, 0, 1) && OpenedPage(TWO.rows, 0, 1, 1) == REOPENED
  {
    assert 0 in TWO.rows;
    OpenedHolds(TWO.rows, 0, 1);
    var o := Opened(TWO.rows, 0, 1);
    assert Rows(o, 1, 2) == map[1 := Plain(3)];
    assert o.ram + Rows(o, 1, 2) == REOPENED.ram;
  }

  lemma {:induction false} Reopens()
    ensures Reached(REOPENED) && Inv(REOPENED)
  {
    hide Reached, PossibleRun, RunOf, Inv, OpenedPage;
    SecondStored();
    SecondReloads();
    ReachedNext(TWO, Restarted(1));
  }

  // ---------- The failures ----------

  /** `TruncateKeepsIff`: a truncate of the stored message removes the older one that waits, not its mark. */
  lemma {:induction false} TruncateLosesWaiting()
    ensures Reached(OLDER) && Inv(OLDER) && Settled(OLDER, 0) && !Inv(Truncate(OLDER, 0))
  {
    hide Reached;
    OlderWaits();
    TruncateKeepsIff(OLDER, 0);
  }

  /** `ConfirmInOrderIff`: an own message is confirmed while one that came before it waits. */
  lemma {:induction false} ConfirmOvertakes()
    ensures Reached(WAITING) && Promised(WAITING, Confirmed(Plain(4))) && !Inv(Confirm(WAITING, Plain(4)))
  {
    hide Reached;
    FirstWaits();
    ConfirmInOrderIff(WAITING, Plain(4));
  }

  /** `ImportInOrderIff`: an imported message arrives in the same situation. */
  lemma {:induction false} ImportOvertakes()
    ensures Reached(WAITING) && Promised(WAITING, NewArrives(Plain(4), NoKeys()))
    ensures !Inv(AddNew(WAITING, Plain(4), NoKeys()))
  {
    hide Reached;
    FirstWaits();
    HonestKeys();
    ImportInOrderIff(WAITING, Plain(4), NoKeys());
  }

  /** `ArrivalInOrderIff`: a new truncate removes the older message that waits, not its mark. */
  lemma {:induction false} NewTruncateLosesWaiting()
    ensures var m := Sent(5).(typ := MSG_TRUNCATE);
            Reached(OLDER) && Promised(OLDER, NewArrives(m, Keys())) && !Inv(AddNew(OLDER, m, Keys()))
  {
    hide Reached;
    OlderWaits();
    HonestKeys();
    ArrivalInOrderIff(OLDER, Sent(5).(typ := MSG_TRUNCATE), Keys());
  }

  /** `LoginKnowsItsTableIff`: at login the client believes that rows remain to be loaded; there is none. */
  lemma {:induction false} LoginIsMistaken()
    ensures Reached(OLDER) && Inv(OLDER) && HasMoreAtLogin(OLDER) && OLDER.oldest >= OLDER.low && !Inv(Login(OLDER))
  {
    hide Reached;
    OlderWaits();
    LoginKeepsIff(OLDER);
  }

  /** `HasMoreStaysExactIff`: retention deletes the one row that was not loaded, and the flag stays. */
  lemma {:induction false} HasMoreGoesStale()
    ensures Reached(REOPENED) && Inv(REOPENED) && IsExpiredIdx(REOPENED, 2, 0)
    ensures var g := DropThrough(REOPENED, 0); g.hasMore && g.oldest == g.low == 1 && g.rows == g.ram
  {
    hide Reached;
    Reopens();
    var g := DropThrough(REOPENED, 0);
    assert g.rows == map[1 := Plain(3)];
    assert g.ram == map[1 := Plain(3)];
  }

  /** `KeepsLiveSuffixIff`: with a period that reaches back before the epoch nothing has expired, and
      everything is deleted. */
  lemma {:induction false} NegativeLimitDeletesAll()
    ensures Reached(REOPENED) && Inv(REOPENED) && IsExpiredIdx(REOPENED, -1, 1) && NoneExpired(REOPENED.rows, -1)
    ensures DropThrough(REOPENED, 1).rows == map[] && DropThrough(REOPENED, 1).ram == map[]
  {
    hide Reached;
    Reopens();
    assert Cast(-1) == 0xFFFF_FFFF;
  }

  /** `DropKeepsIff`: retention deletes the message that waits, not its mark. */
  lemma {:induction false} RetentionLosesWaiting()
    ensures Reached(OLDER) && Inv(OLDER) && IsExpiredIdx(OLDER, 5, 0) && !Inv(DropThrough(OLDER, 0))
  {
    hide Reached;
    OlderWaits();
    DropKeepsIff(OLDER, 0);
  }

  /** `ReceivedSurvivesRestartIff`: a RECEIVED of the older message is persisted, though the pointer stays at
      the newer one. */
  lemma {:induction false} ReceivedMovesBack()
    ensures Reached(TWO) && Inv(TWO)
    ensures var k := M.OnReceived(TWO, Marks(IDX_INVALID, NULL_ID, IDX_INVALID, NULL_ID), 800, 3).0;
            var k' := M.OnReceived(TWO, k, 800, 1).0;
            k'.recvIdx == 1 && k'.recvId == 1 && M.IdxOf(TWO.rows, k'.recvId) == 0
  {
    hide Reached;
    SecondStored();
    M.LocatesRow(TWO, 0);
    M.LocatesRow(TWO, 1);
  }

  /** `SeenSurvivesRestartIff`: a SEEN of an unknown message overwrites the id of the pointer, and a restart
      finds it unset. */
  lemma {:induction false} SeenIsForgotten()
    ensures Reached(TWO) && Inv(TWO)
    ensures var k := M.OnSeen(TWO, Marks(IDX_INVALID, NULL_ID, IDX_INVALID, NULL_ID), 800, 3).0;
            var k' := M.OnSeen(TWO, k, 800, 7).0;
            && M.IdxOf(TWO.rows, k.seenId) == k.seenIdx == 1
            && k'.seenIdx == 1 && M.IdxOf(TWO.rows, k'.seenId) == IDX_INVALID
  {
    hide Reached;
    SecondStored();
    M.LocatesRow(TWO, 1);
  }

  /** `ReceivedSurvivesRestartIff`: so does a RECEIVED. */
  lemma {:induction false} ReceivedIsForgotten()
    ensures Reached(TWO) && Inv(TWO)
    ensures var k := M.OnReceived(TWO, Marks(IDX_INVALID, NULL_ID, IDX_INVALID, NULL_ID), 800, 3).0;
            var k' := M.OnReceived(TWO, k, 800, 7).0;
            && M.IdxOf(TWO.rows, k.recvId) == k.recvIdx == 1
            && k'.recvIdx == 1 && M.IdxOf(TWO.rows, k'.recvId) == IDX_INVALID
  {
    hide Reached;
    SecondStored();
    M.LocatesRow(TWO, 1);
  }

  /** `UpdateKeepsIff`: a truncate of a message that was stored as malformed leaves it decrypted in RAM and
      malformed in the table. */
  lemma {:induction false} TruncateDisagrees()
    ensures Reached(BROKEN) && Inv(BROKEN)
    ensures var g := UpdateLoaded(BROKEN, 0, Plain(1).(typ := MSG_TRUNCATE, ts := 7));
            && 0 in g.ram && 0 in g.rows && g.ram[0].enc == NotEncrypted && g.rows[0].enc == Malformed && !Inv(g)
  {
    hide Reached;
    FirstMalformed();
    UpdateKeepsIff(BROKEN, 0, Plain(1).(typ := MSG_TRUNCATE, ts := 7));
  }

  /** `EditedTurnIff`: an edit of the second message that cannot be decrypted arrives while both wait.  When
      the first is decrypted nothing waits any more, and the second has no row. */
  lemma {:induction false} EditMakesHole()
    ensures Reached(QUEUED) && Inv(QUEUED)
    ensures var e := UpdateLoaded(QUEUED, 1, Sent(3).(updated := 1, enc := Malformed));
            var g := FinishNew(e, Plain(1), Keys());
            g.haltedNew == IDX_INVALID && 1 in g.ram && g.rows == map[0 := Plain(1)] && !Inv(g)
  {
    hide Reached;
    SecondWaits();
    var e := UpdateLoaded(QUEUED, 1, Sent(3).(updated := 1, enc := Malformed));
    var r := Record(e, true, 0, Plain(1)).(haltedNew := IDX_INVALID);
    assert r.rows == map[0 := Plain(1)];
    assert ResumeNew(r, 1, Keys()) == r;
  }

  /** `NextOldIsFreshIff`: after a login the old message that waits comes a second time. */
  lemma {:induction false} OldComesAgain()
    ensures Reached(OLDER) && Inv(OLDER) && Promised(OLDER, OldArrives(Sent(2), NoKeys()))
    ensures !Inv(AddOld(OLDER, Sent(2), NoKeys()))
  {
    hide Reached;
    OlderWaits();
    HonestKeys();
    assert OLDER.ram[-1].id == 2;
    OldInOrderIff(OLDER, Sent(2), NoKeys());
  }
}
