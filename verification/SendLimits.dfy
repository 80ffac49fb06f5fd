/** Where the promises about the send queue stop, with a run from an empty queue that shows it. */
module SendLimits {
  import opened ChatTypes
  import opened SendQueue
  import opened SendQueueRuns
  import opened SendChats
  import S = SendSessions
  import A = SendAnswers

  const EMPTY := Outbox([], map[], 0)

  lemma {:induction false} EmptyHolds()
    ensures Inv(EMPTY) && Dependent(EMPTY.queue)
  {
  }

  lemma {:induction false} RunOne(s: Outbox, c: Event)
    requires Inv(s) && Allowed(s, c)
    ensures AllowedRun(s, [c]) && Run(s, [c]) == Step(s, c)
  {
    hide Inv, Allowed, Step;
    StepKeeps(s, c);
    assert [c][1..] == [];
  }

  lemma {:induction false} RunTwo(s: Outbox, c: Event, d: Event)
    requires Inv(s) && Allowed(s, c) && Inv(Step(s, c)) && Allowed(Step(s, c), d)
    ensures AllowedRun(s, [c, d]) && Run(s, [c, d]) == Step(Step(s, c), d)
  {
    hide Inv, Allowed, Step;
    StepKeeps(s, c);
    RunOne(Step(s, c), d);
    assert [c, d][1..] == [d];
  }

  lemma {:induction false} RunThree(s: Outbox, c: Event, d: Event, e: Event)
    requires Inv(s) && Allowed(s, c) && Inv(Step(s, c)) && Allowed(Step(s, c), d)
    requires Inv(Step(Step(s, c), d)) && Allowed(Step(Step(s, c), d), e)
    ensures AllowedRun(s, [c, d, e]) && Run(s, [c, d, e]) == Step(Step(Step(s, c), d), e)
  {
    hide Inv, Allowed, Step;
    StepKeeps(s, c);
    RunTwo(Step(s, c), d, e);
    assert [c, d, e][1..] == [d, e];
  }

  /** `DropOrphansIff`: message 1 is submitted, edited, and then rejected.  Its edit is left alone at the
      front, where it blocks the queue. */
  lemma {:induction false} RejectionOrphans()
    ensures Inv(EMPTY)
    ensures var es := [Submit(false, 1, [1], MSG_NORMAL), EditedUnsent(0, [2], MSG_NORMAL, 1), Dropped(1)];
            AllowedRun(EMPTY, es)
            && var q := Run(EMPTY, es).queue;
               |q| == 1 && q[0].op == MsgUpdX && q[0].id == 1 && !Dependent(q)
  {
    hide Inv, Dependent;
    EmptyHolds();
    var c, d, e := Submit(false, 1, [1], MSG_NORMAL), EditedUnsent(0, [2], MSG_NORMAL, 1), Dropped(1);
    StepKeeps(EMPTY, c);
    var s := Step(EMPTY, c);
    StepKeeps(s, d);
    RunThree(EMPTY, c, d, e);
    var q := Step(Step(s, d), e).queue;
    assert |q| == 1 && q[0].op == MsgUpdX && q[0].id == 1;
    Alone(q);
  }

  lemma {:induction false} Alone(q: seq<Item>)
    requires |q| == 1 && q[0].op == MsgUpdX
    ensures !Dependent(q)
  {
    assert q[0].op == MsgUpdX && !HasNewBefore(q, 0);
  }

  /** `ConfirmReachesIff`: an edit waits at the front of one chat, and message 1 of another chat is answered.
      The first chat takes the answer, and gives up its edit; message 1 stays in its queue. */
  lemma {:induction false} ConfirmationSwallowed()
    ensures Inv(EMPTY)
    ensures var es, fs := [EditedSent(50, 3, [2], MSG_NORMAL, 1)], [Submit(false, 1, [1], MSG_NORMAL)];
            AllowedRun(EMPTY, es) && AllowedRun(EMPTY, fs)
            && var a := Run(EMPTY, es); var b := Run(EMPTY, fs);
               && a.queue != [] && SentBy([a, b], 1, 1)
               && ConfirmAny([a, b], 1, 60) == [RemoveAt(a, 0), b]
  {
    hide Inv;
    EmptyHolds();
    var c, d := EditedSent(50, 3, [2], MSG_NORMAL, 1), Submit(false, 1, [1], MSG_NORMAL);
    RunOne(EMPTY, c);
    RunOne(EMPTY, d);
    var a, b := Step(EMPTY, c), Step(EMPTY, d);
    assert |a.queue| == 1 && EditFirst([a, b][0].queue);
    var t := RemoveAt(a, 0);
    assert t.queue == [] && t.rows == map[];
    assert Confirm(a, 1, 60) == t;
  }

  /** `SealDelayedIff`: message 1 is sent, and the encryption of message 2 ends before message 1 is confirmed.
      The ciphertext of message 2 replaces that of message 1 in RAM. */
  lemma {:induction false} CiphertextMisplaced()
    ensures Inv(EMPTY)
    ensures var es := [Submit(false, 1, [1], MSG_NORMAL), Encrypted(0, KEYID_MIN, Some(KEYID_MIN)),
                       Submit(false, 2, [1], MSG_NORMAL)];
            AllowedRun(EMPTY, es)
            && var t := Run(EMPTY, es);
               && |t.queue| == 2 && !t.queue[1].sealed && t.queue[1].rowid in t.rows
               && !Inv(SealDelayed(t, 1, KEYID_MIN + 1, Some(KEYID_MIN + 1)))
               && SealDelayed(t, 1, KEYID_MIN + 1, Some(KEYID_MIN + 1)).queue[0].key == Some(KEYID_MIN + 1)
  {
    hide Inv;
    EmptyHolds();
    var b, c := Submit(false, 1, [1], MSG_NORMAL), Encrypted(0, KEYID_MIN, Some(KEYID_MIN));
    var d := Submit(false, 2, [1], MSG_NORMAL);
    StepKeeps(EMPTY, b);
    var s := Step(EMPTY, b);
    StepKeeps(s, c);
    StepKeeps(Step(s, c), d);
    RunThree(EMPTY, b, c, d);
    var t := Step(Step(s, c), d);
    SealDelayedIff(t, 1, KEYID_MIN + 1, Some(KEYID_MIN + 1));
  }

  /** `KeyCountsAgreeIff`: message 1 is sent with a new key, the encryption of message 2 is delayed, and
      message 1 is edited.  Its edit waits without ciphertext behind message 2, under the key that is
      confirmed next. */
  lemma {:induction false} KeyCountsDiffer()
    ensures Inv(EMPTY)
    ensures var es := [Submit(false, 1, [1], MSG_NORMAL), Encrypted(0, KEYID_MIN, Some(KEYID_MIN)),
                       Submit(false, 2, [1], MSG_NORMAL), EditedUnsent(0, [2], MSG_NORMAL, 1)];
            AllowedRun(EMPTY, es)
            && var t := Run(EMPTY, es);
               && t.queue != [] && t.queue[0].key == Some(KEYID_MIN) && !OnlySealed(t.queue, KEYID_MIN)
               && |RowsWhere(t.rows, (r: Row) => r.keyid == Some(KEYID_MIN))|
                  != |Rowids(t.queue, (i: Item) => i.keyid == KEYID_MIN)|
  {
    hide Inv;
    EmptyHolds();
    var b, c := Submit(false, 1, [1], MSG_NORMAL), Encrypted(0, KEYID_MIN, Some(KEYID_MIN));
    var d, e := Submit(false, 2, [1], MSG_NORMAL), EditedUnsent(0, [2], MSG_NORMAL, 1);
    StepKeeps(EMPTY, b);
    var s := Step(EMPTY, b);
    StepKeeps(s, c);
    StepKeeps(Step(s, c), d);
    RunFour(EMPTY, b, c, d, e);
    var t := Step(Step(Step(s, c), d), e);
    StepKeeps(Step(Step(s, c), d), e);
    assert t.queue[2].keyid == KEYID_MIN && !t.queue[2].sealed;
    Persists(t);
    KeyCountsAgreeIff(t, KEYID_MIN);
  }

  lemma {:induction false} Persists(s: Outbox)
    requires Inv(s)
    ensures Persisted(s)
  {
  }

  lemma {:induction false} RunFour(s: Outbox, b: Event, c: Event, d: Event, e: Event)
    requires Inv(s) && Allowed(s, b) && Inv(Step(s, b)) && Allowed(Step(s, b), c)
    requires Inv(Step(Step(s, b), c)) && Allowed(Step(Step(s, b), c), d)
    requires Inv(Step(Step(Step(s, b), c), d)) && Allowed(Step(Step(Step(s, b), c), d), e)
    ensures AllowedRun(s, [b, c, d, e]) && Run(s, [b, c, d, e]) == Step(Step(Step(Step(s, b), c), d), e)
  {
    hide Inv, Allowed, Step;
    StepKeeps(s, b);
    RunThree(Step(s, b), c, d, e);
    assert [b, c, d, e][1..] == [c, d, e];
  }

  // ---------- An answered message leaves its edit behind ----------

  /** What a state looks like; the table follows from the queue. */
  ghost predicate At(t: A.State, online: bool, next: nat, last: nat, queue: seq<Item>, pending: seq<A.Answer>) {
    && A.TalkInv(t) && t.session.online == online && t.session.next == next && t.session.box.last == last
    && A.Queue(t) == queue && t.pending == pending
  }

  const START := A.State(S.Session(EMPTY, false, 0), [])

  /** Messages are encrypted with a key that is confirmed; message 2 announces the next one. */
  function Cipher(k: nat): S.Cipher {
    if k < 2 then S.Cipher(3, None) else S.Cipher(KEYID_MIN, Some(KEYID_MIN))
  }

  const First := Item(NewMsg, 1, KEYID_INVALID, [1], MSG_NORMAL, 0, 1, false, None)
  const FirstSent := First.(keyid := 3, sealed := true)
  const FirstEdited := FirstSent.(content := [2], updated := 1)
  const Edit := Item(MsgUpdX, 1, 3, [2], MSG_NORMAL, 1, 2, false, None)
  const EditSealed := Edit.(sealed := true)
  const Second := Item(NewMsg, 2, KEYID_INVALID, [1], MSG_NORMAL, 0, 3, false, None)
  const SecondSent := Second.(keyid := KEYID_MIN, sealed := true, key := Some(KEYID_MIN))
  const Awaited := [A.Final(1), A.Final(2), A.KeyAnswer(3, KEYID_MIN), A.Final(3)]

  lemma {:induction false} Starts()
    ensures At(START, false, 0, 0, [], [])
  {
  }

  lemma {:induction false} Posted(t: A.State, next: nat, last: nat, queue: seq<Item>, e: Event, q: seq<Item>)
    requires At(t, false, next, last, queue, []) && Allowed(t.session.box, e) && S.Posts(e)
    requires Step(t.session.box, e).queue == q && Step(t.session.box, e).last == last + 1
    requires A.KeysApart(q)
    ensures var d := A.Does(S.Queue(e, A.Quiet()));
            A.Allowed(t, d) && At(A.Step(t, d), false, next, last + 1, q, [])
  {
    hide Inv, Allowed, Step, A.KeysApart;
    A.StepKeeps(t, A.Does(S.Queue(e, A.Quiet())));
  }

  lemma {:induction false} LogsIn(t: A.State, next: nat, last: nat, queue: seq<Item>, q: seq<Item>)
    requires At(t, false, next, last, queue, []) && |q| == |queue| && A.KeysApart(q)
    requires forall j :: 0 <= j < |q| ==>
               q[j] == if queue[j].sealed then queue[j]
                       else queue[j].(keyid := Cipher(j).keyid, sealed := true, key := Cipher(j).key)
    ensures var d := A.Does(S.LoggedIn(Cipher));
            A.Allowed(t, d) && At(A.Step(t, d), true, |q|, last, q, A.AnswersAll(q))
  {
    hide Inv, A.KeysApart, A.AnswersAll;
    S.FlushEncrypts(t.session.box, 0, Cipher);
    assert S.Flush(t.session.box, 0, Cipher).queue == q;
    A.StepKeeps(t, A.Does(S.LoggedIn(Cipher)));
  }

  lemma {:induction false} Disconnects(t: A.State, next: nat, last: nat, queue: seq<Item>, pending: seq<A.Answer>)
    requires At(t, true, next, last, queue, pending)
    ensures A.Allowed(t, A.Does(S.Disconnected)) && At(A.Step(t, A.Does(S.Disconnected)), false, next, last, queue, [])
  {
    A.StepKeeps(t, A.Does(S.Disconnected));
  }

  lemma {:induction false} Answers(t: A.State, n: nat, last: nat, queue: seq<Item>, pending: seq<A.Answer>, e: Event,
          q: seq<Item>)
    requires At(t, true, n, last, queue, pending) && pending != [] && pending[0].Final?
    requires Allowed(t.session.box, e) && Step(t.session.box, e).queue == q && Step(t.session.box, e).last == last
    requires A.TakesEdits(t.session.box, e) || A.TakesNew(t.session.box, e)
    requires queue != [] && queue[0].rowid == pending[0].rowid && A.Fits(queue[0], e) && !A.LeftOver(pending, queue)
    ensures A.Allowed(t, A.Replies(e)) && A.Reaches(t, A.Replies(e))
    ensures At(A.Step(t, A.Replies(e)), true, |q|, last, q, pending[1..])
  {
    hide Inv, Allowed, Step, A.TakesNew, A.TakesEdits, S.NextAfter, A.Fits, A.LeftOver, Frees;
    A.InOrder(t.session.box);
    A.ReceivedStep(t, A.Replies(e));
    A.StepKeeps(t, A.Replies(e));
  }

  /** What follows a step that may be taken follows the state before it. */
  lemma {:induction false} Then(t: A.State, e: A.Event, es: seq<A.Event>)
    requires A.TalkInv(t) && A.Allowed(t, e) && A.TalkInv(A.Step(t, e)) && A.AllowedRun(A.Step(t, e), es)
    requires A.Reaches(t, e) && A.ReachingRun(A.Step(t, e), es)
    ensures A.AllowedRun(t, [e] + es) && A.ReachingRun(t, [e] + es)
    ensures A.Run(t, [e] + es) == A.Run(A.Step(t, e), es)
  {
    hide A.TalkInv, A.Allowed, A.Step, A.Reaches;
    assert ([e] + es)[1..] == es;
  }

  ghost predicate Blocked(t: A.State) {
    && A.TalkInv(t) && A.KeyIsNext(t) && t.pending[0] == A.KeyAnswer(3, KEYID_MIN)
    && A.Queue(t) == [EditSealed, SecondSent]
  }

  /** From here the run can go on and ends with the edit at the front. */
  ghost predicate Leads(t: A.State, es: seq<A.Event>) {
    A.TalkInv(t) && A.AllowedRun(t, es) && A.ReachingRun(t, es) && Blocked(A.Run(t, es))
  }

  lemma {:induction false} ThenLeads(t: A.State, e: A.Event, es: seq<A.Event>)
    requires A.TalkInv(t) && A.Allowed(t, e) && A.TalkInv(A.Step(t, e)) && A.Reaches(t, e) && Leads(A.Step(t, e), es)
    ensures Leads(t, [e] + es)
  {
    hide A.TalkInv, A.Allowed, A.Step, A.Reaches, A.AllowedRun, A.ReachingRun, A.Run, Blocked;
    Then(t, e, es);
  }

  lemma {:induction false} Done(t: A.State)
    requires At(t, true, 2, 3, [EditSealed, SecondSent], Awaited[2..])
    ensures Leads(t, [])
  {
  }

  lemma {:induction false} OtherIdStays(s: Outbox, k: nat, id: Id)
    requires forall j :: 0 <= j < |s.queue| ==> s.queue[j].id != id
    ensures Supersede(s, k, id, false, 1) == s
    decreases |s.queue| - k
  {
    if k < |s.queue| { OtherIdStays(s, k + 1, id); }
  }

  lemma {:induction false} EditTakes(s: Outbox)
    requires s.queue == [EditSealed, SecondSent]
    ensures var e := OwnUpdate(90, false, 1);
            A.Fits(EditSealed, e) && A.TakesEdits(s, e) && Allowed(s, e) && (Inv(s) ==> Step(s, e) == s)
  {
    hide Inv;
    OtherIdStays(s, 0, 90);
  }

  lemma {:induction false} MessageTakes(s: Outbox)
    requires s.queue == [FirstEdited, EditSealed, SecondSent]
    ensures var e := Dropped(1);
            && A.Fits(FirstEdited, e) && A.TakesNew(s, e) && Allowed(s, e)
            && (Inv(s) ==> Step(s, e).queue == [EditSealed, SecondSent] && Step(s, e).last == s.last)
  {
    hide Inv;
  }

  lemma {:induction false} NothingLeftOver()
    ensures !A.LeftOver(Awaited, [FirstEdited, EditSealed, SecondSent])
    ensures !A.LeftOver(Awaited[1..], [EditSealed, SecondSent])
  {
    assert Awaited[0] == A.Final(1) && Awaited[1] == A.Final(2) && Awaited[3] == A.Final(3);
    assert Awaited[1..][0] == A.Final(2) && Awaited[1..][2] == A.Final(3);
  }

  /** The edit is answered with a MSGUPD under the id that message 1 has had since it was first sent. */
  lemma {:induction false} EditAnswered(t: A.State)
    requires At(t, true, 2, 3, [EditSealed, SecondSent], Awaited[1..])
    ensures Leads(t, [A.Replies(OwnUpdate(90, false, 1))])
  {
    hide Step, Allowed, Inv, A.Step, A.Allowed, A.Reaches, Leads, A.TakesEdits, A.Fits, A.LeftOver;
    var e, q := OwnUpdate(90, false, 1), [EditSealed, SecondSent];
    EditTakes(t.session.box);
    NothingLeftOver();
    Answers(t, 2, 3, q, Awaited[1..], e, q);
    Done(A.Step(t, A.Replies(e)));
    assert [A.Replies(e)] + [] == [A.Replies(e)];
    ThenLeads(t, A.Replies(e), []);
  }

  lemma {:induction false} MessageAnswered(t: A.State)
    requires At(t, true, 3, 3, [FirstEdited, EditSealed, SecondSent], Awaited)
    ensures Leads(t, [A.Replies(Dropped(1))] + [A.Replies(OwnUpdate(90, false, 1))])
  {
    hide Step, Allowed, Inv, A.Step, A.Allowed, A.Reaches, Leads, A.TakesNew, A.Fits, A.LeftOver;
    var e := Dropped(1);
    MessageTakes(t.session.box);
    NothingLeftOver();
    Answers(t, 3, 3, [FirstEdited, EditSealed, SecondSent], Awaited, e, [EditSealed, SecondSent]);
    EditAnswered(A.Step(t, A.Replies(e)));
    ThenLeads(t, A.Replies(e), [A.Replies(OwnUpdate(90, false, 1))]);
  }

  const Replied := [A.Replies(Dropped(1))] + [A.Replies(OwnUpdate(90, false, 1))]
  const LogIn := A.Does(S.LoggedIn(Cipher))

  function Posting(e: Event): A.Event { A.Does(S.Queue(e, A.Quiet())) }
  function Submitting(id: Id): Event { Submit(false, id, [1], MSG_NORMAL) }

  /** All three are sent, in order. */
  lemma {:induction false} AllSent(t: A.State)
    requires At(t, false, 1, 3, [FirstEdited, Edit, Second], [])
    ensures Leads(t, [LogIn] + Replied)
  {
    hide Inv, A.Step, A.Allowed, Leads;
    var q := [FirstEdited, EditSealed, SecondSent];
    LogsIn(t, 1, 3, [FirstEdited, Edit, Second], q);
    AwaitsAll(q);
    MessageAnswered(A.Step(t, LogIn));
    ThenLeads(t, LogIn, Replied);
  }

  lemma {:induction false} AwaitsAll(q: seq<Item>)
    requires q == [FirstEdited, EditSealed, SecondSent]
    ensures A.AnswersAll(q) == Awaited
  {
    assert q[..2] == [FirstEdited, EditSealed] && q[..2][..1] == [FirstEdited] && q[..2][..1][..0] == [];
    assert A.AnswersAll([FirstEdited]) == [A.Final(1)];
    assert A.AnswersAll([FirstEdited, EditSealed]) == [A.Final(1), A.Final(2)];
  }

  lemma {:induction false} SecondPosted(t: A.State)
    requires At(t, false, 1, 2, [FirstEdited, Edit], [])
    ensures Leads(t, [Posting(Submitting(2))] + ([LogIn] + Replied))
  {
    hide Inv, A.Step, A.Allowed, Leads;
    var e := Submitting(2);
    Posted(t, 1, 2, [FirstEdited, Edit], e, [FirstEdited, Edit, Second]);
    AllSent(A.Step(t, Posting(e)));
    ThenLeads(t, Posting(e), [LogIn] + Replied);
  }

  lemma {:induction false} FirstIsEdited(t: A.State)
    requires At(t, false, 1, 1, [FirstSent], [])
    ensures Leads(t, [Posting(EditedUnsent(0, [2], MSG_NORMAL, 1))] + ([Posting(Submitting(2))] + ([LogIn] + Replied)))
  {
    hide Inv, A.Step, A.Allowed, Leads;
    var e := EditedUnsent(0, [2], MSG_NORMAL, 1);
    Posted(t, 1, 1, [FirstSent], e, [FirstEdited, Edit]);
    SecondPosted(A.Step(t, Posting(e)));
    ThenLeads(t, Posting(e), [Posting(Submitting(2))] + ([LogIn] + Replied));
  }

  const Unanswered := [A.Does(S.Disconnected)]
                      + ([Posting(EditedUnsent(0, [2], MSG_NORMAL, 1))]
                         + ([Posting(Submitting(2))] + ([LogIn] + Replied)))

  lemma {:induction false} AnswerLost(t: A.State)
    requires At(t, true, 1, 1, [FirstSent], [A.Final(1)])
    ensures Leads(t, Unanswered)
  {
    hide Inv, A.Step, A.Allowed, Leads;
    Disconnects(t, 1, 1, [FirstSent], [A.Final(1)]);
    FirstIsEdited(A.Step(t, A.Does(S.Disconnected)));
    ThenLeads(t, A.Does(S.Disconnected), Unanswered[1..]);
  }

  lemma {:induction false} FirstSentOnce(t: A.State)
    requires At(t, false, 0, 1, [First], [])
    ensures Leads(t, [LogIn] + Unanswered)
  {
    hide Inv, A.Step, A.Allowed, Leads;
    LogsIn(t, 0, 1, [First], [FirstSent]);
    assert [FirstSent][..0] == [] && A.AnswersAll([FirstSent]) == [A.Final(1)];
    AnswerLost(A.Step(t, LogIn));
    ThenLeads(t, LogIn, Unanswered);
  }

  /** `SendAnswers.NewKeyIdMeetsNoOrphanIff`: message 1 is sent and its answer lost; then it is edited, and
      message 2 is posted, which needs a new key.  After the next login message 1 is answered with MSGID, and
      its edit with a MSGUPD under the id of the history, so that the edit stays.  The NEWKEYID that comes next
      finds it at the front, without a key, and the key with message 2 behind it. */
  lemma {:induction false} KeyMeetsOrphan()
    ensures A.TalkInv(START) && A.OnlyOrphansStay(START)
    ensures var es := [Posting(Submitting(1)), LogIn, A.Does(S.Disconnected),
                       Posting(EditedUnsent(0, [2], MSG_NORMAL, 1)), Posting(Submitting(2)), LogIn,
                       A.Replies(Dropped(1)), A.Replies(OwnUpdate(90, false, 1))];
            A.AllowedRun(START, es) && A.ReachingRun(START, es)
            && var u := A.Run(START, es);
               && A.KeyIsNext(u) && |A.Queue(u)| == 2
               && A.Queue(u)[0].op == MsgUpdX && A.Queue(u)[0].key.None?
               && A.Queue(u)[1].key == Some(u.pending[0].local)
  {
    hide Inv, A.Step, A.Allowed, A.AllowedRun, A.ReachingRun, A.Run;
    var e := Submitting(1);
    Starts();
    Posted(START, 0, 0, [], e, [First]);
    FirstSentOnce(A.Step(START, Posting(e)));
    ThenLeads(START, Posting(e), [LogIn] + Unanswered);
    assert [Posting(e)] + ([LogIn] + Unanswered)
           == [Posting(e), LogIn, A.Does(S.Disconnected), Posting(EditedUnsent(0, [2], MSG_NORMAL, 1)),
               Posting(Submitting(2)), LogIn, A.Replies(Dropped(1)), A.Replies(OwnUpdate(90, false, 1))];
  }
}
