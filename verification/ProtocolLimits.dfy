/** Where the promises of the protocol stop, with a run that shows it. */
module ProtocolLimits {
  import opened ChatTypes
  import opened Protocol
  import opened ProtocolInvariant
  import opened ProtocolRuns
  import opened ProtocolClaims
  import opened ProtocolTheorems

  /** A HIST answer supports the conclusion drawn from it, whatever the server still has, exactly
      when it asked for 1 to 256 messages. */
  lemma {:induction false} HistCountDecidesTruth(count: nat)
    ensures (forall cursor: nat :: ConcludesAll(HistReplySize(count, cursor), count) ==>
        HistReplySize(count, cursor) == cursor)
            <==> 0 < count <= 256
  {
    if !(0 < count <= HIST_LIMIT) {
      assert ConcludesAll(HistReplySize(count, 300), count) && HistReplySize(count, 300) != 300;
    }
  }

  lemma {:induction false} RunConcat(s: System, a: seq<Event>, b: seq<Event>)
    ensures Run(s, a + b) == Run(Run(s, a), b)
    decreases |a|
  {
    if a == [] {
      assert a + b == b;
    } else {
      assert (a + b)[1..] == a[1..] + b;
      RunConcat(Step(s, a[0]), a[1..], b);
    }
  }

  function Writes(first: Id, n: nat): (r: seq<Event>)
    decreases n
  {
    if n == 0 then [] else [ForeignWrite(first)] + Writes(first + 1, n - 1)
  }

  function Receives(n: nat): seq<Event> { seq(n, _ => Receive) }

  /** Other users write `n` messages while the client is away. */
  lemma {:induction false} WritesExtend(s: System, first: Id, n: nat)
    requires s.cursor.None? && forall i :: 0 <= i < |s.log| ==> s.log[i].id < first
    ensures var t := Run(s, Writes(first, n));
            t == s.(log := t.log) && |t.log| == |s.log| + n && t.log[..|s.log|] == s.log
            && (forall i :: 0 <= i < |t.log| ==> t.log[i].id < first + n)
            && (forall i :: |s.log| <= i < |t.log| ==> t.log[i].origin == Foreign)
    decreases n
  {
    if n > 0 {
      var u := Step(s, ForeignWrite(first));
      assert u == s.(log := s.log + [Entry(first, Foreign)]);
      assert Writes(first, n)[1..] == Writes(first + 1, n - 1);
      WritesExtend(u, first + 1, n - 1);
      assert Run(u, Writes(first + 1, n - 1)).log[..|s.log|] == u.log[..|s.log|];
    }
  }

  /** The client receives a batch of history. */
  lemma {:induction false} BatchReceived(s: System, n: nat)
    requires n <= s.low <= |s.log| && s.client.fetches == [Messages]
    requires s.down == OldMsgs(s.log, s.low, n) + [HistDone]
    ensures var t := Run(s, Receives(n));
            t == s.(down := [HistDone], low := s.low - n,
                    client := s.client.(history := t.client.history, received := s.client.received + n))
            && |t.client.history| == |s.client.history| + n
    decreases n
  {
    if n > 0 {
      var u := Step(s, Receive);
      assert s.down[1..] == OldMsgs(s.log, s.low - 1, n - 1) + [HistDone];
      assert Receives(n)[1..] == Receives(n - 1);
      BatchReceived(u, n - 1);
    } else {
      assert s.down == [HistDone];
    }
  }

  function JoinBatch(newId: Id, attachments: seq<Id>, n: nat): seq<Event> {
    [Serve(newId, attachments), Serve(newId, attachments)] + (Receives(n) + [Receive])
  }

  /** A client without history joins, and the server's batch reaches it undisturbed: it is logged in with
      the newest messages of the log, up to 32.  They are all there is if and only if the log has no more
      than 32, and a client that claims the whole history now is suspect exactly when it has. */
  lemma {:induction false} JoinBatchIff(es: seq<Event>, newId: Id, attachments: seq<Id>)
    requires var s := Run(START, es); s.client.online.Joining? && s.client.history == [] && s.cursor.None?
    ensures var s := Run(START, es);
            var t := Run(s, JoinBatch(newId, attachments, Min(32, |s.log|)));
            && t.log == s.log && t.client.online.LoggedIn?
            && t.low == |s.log| - Min(32, |s.log|)
            && t.client.history == Ids(s.log[t.low..])
            && (t.low == 0 <==> |s.log| <= 32)
            && (t.client.haveAll <==> s.client.haveAll || |s.log| < 32)
            && (t.suspect <==> s.client.haveAll && |s.log| > 32)
            && t.cut == OwnBelow(s.log, t.low)
  {
    hide Step, OwnBelow, Routed, Delivers, Retreats, LogInv, QueueInv, LeftInv, Kinds, Sends, Answers, HistCounts;
    Reachable(es);
    var s := Run(START, es);
    var n := HistReplySize(INITIAL_FETCH, |s.log|);
    var e := Serve(newId, attachments);
    RunConcat(s, [e, e], Receives(n) + [Receive]);
    JoinServed(s, newId, attachments);
    var b := Run(s, [e, e]);
    RunConcat(b, Receives(n), [Receive]);
    BatchReceived(b, n);
    var u := Run(b, Receives(n));
    OneStep(u, Receive);
    BatchEnds(u);
    var t := Step(u, Receive);
    RunKeeps(s, JoinBatch(newId, attachments, n));
    assert t == Run(s, JoinBatch(newId, attachments, n));
    assert Slice(t.client.history, t.log, t.low);
  }

  lemma {:induction false} BatchEnds(s: System)
    requires s.down == [HistDone] && s.client.fetches == [Messages] && s.client.online.Joining? && s.client.fetchingOld
    ensures var t := Step(s, Receive);
            t == s.(client := t.client, up := t.up, down := []) && t.client.online.LoggedIn?
            && t.client.history == s.client.history
            && (t.client.haveAll <==> s.client.haveAll || ConcludesAll(s.client.received, s.client.requested))
  {
  }

  // ---------- What a request for history brings ----------

  /** The client is logged in and nothing is in flight. */
  ghost predicate Quiet(s: System) { s.client.online.LoggedIn? && s.up == [] && s.down == [] }

  /** Then no fetch is open, and the server stands where the client's history begins. */
  lemma {:induction false} AtRest(es: seq<Event>)
    requires Quiet(Run(START, es))
    ensures var s := Run(START, es);
            s.cursor == Some(s.low) && s.low <= |s.log| && s.client.fetches == [] && !s.client.fetchingOld
  {
    hide Run, LogInv, QueueInv, LeftInv, HistInv, Claims, Slice;
    Reachable(es);
    var s := Run(START, es);
    assert Collect(FetchOf, s.up) == [];
    CursorBounds(s);
  }

  function Ask(n: nat, newId: Id, attachments: seq<Id>, k: nat): seq<Event> {
    [RequestHist(n), Serve(newId, attachments)] + (Receives(k) + [Receive])
  }

  /** A request for `n` messages of history brings as many, but no more than 256 and no more than there are:
      the history begins that much earlier in the log.  The client concludes that this was all if and only
      if it got none, or fewer than it asked for. */
  lemma {:induction false} HistRequestIff(es: seq<Event>, n: nat, newId: Id, attachments: seq<Id>)
    requires Quiet(Run(START, es)) && !Run(START, es).client.haveAll
    ensures var s := Run(START, es);
            var k := Min(Min(n, 256), s.low);
            var t := Run(s, [RequestHist(n), Serve(newId, attachments)] + (Receives(k) + [Receive]));
            && t.log == s.log && k <= s.low <= |s.log| && t.low == s.low - k
            && t.client.history == Ids(s.log[t.low..])
            && (t.client.haveAll <==> k == 0 || k < n)
            && t.client.online.LoggedIn? && !t.client.fetchingOld && t.up == [] && t.down == []
            && t.client.nodes == s.client.nodes && t.client.sending == s.client.sending
  {
    hide Run, OwnBelow, Step, Receives;
    AtRest(es);
    var s := Run(START, es);
    var k: nat := Min(Min(n, 256), s.low);
    RunConcat(s, [RequestHist(n), Serve(newId, attachments)], Receives(k) + [Receive]);
    Asked(s, n, newId, attachments, k);
    var b := Run(s, [RequestHist(n), Serve(newId, attachments)]);
    RunConcat(b, Receives(k), [Receive]);
    BatchReceived(b, k);
    var u := Run(b, Receives(k));
    OneStep(u, Receive);
    RequestEnds(u);
    RunConcat(START, es, Ask(n, newId, attachments, k));
    QuiescentIsComplete(es + Ask(n, newId, attachments, k));
    HistoryIsLogSlice(es + Ask(n, newId, attachments, k));
  }

  lemma {:induction false} Asked(s: System, n: nat, newId: Id, attachments: seq<Id>, k: nat)
    requires Quiet(s) && !s.client.haveAll && !s.client.fetchingOld
    requires s.cursor == Some(s.low) && s.low <= |s.log| && s.client.fetches == []
    requires k == HistReplySize(n, s.low)
    ensures var t := Run(s, [RequestHist(n), Serve(newId, attachments)]);
            t == s.(client := s.client.(fetches := [Messages], fetchingOld := true, requested := n, received := 0),
                    down := OldMsgs(s.log, s.low, k) + [HistDone], cursor := Some(s.low - k), suspect := t.suspect)
  {
    var a := Step(s, RequestHist(n));
    assert a.up == [Hist(n)];
    var b := Step(a, Serve(newId, attachments));
    assert b.up == [];
    RunTwo(s, [RequestHist(n), Serve(newId, attachments)]);
  }

  lemma {:induction false} RequestEnds(s: System)
    requires s.down == [HistDone] && s.client.fetches == [Messages] && s.client.online.LoggedIn? && s.client.fetchingOld
    ensures Step(s, Receive)
         == s.(client := s.client.(fetches := [], fetchingOld := false,
                   haveAll := s.client.haveAll || s.client.received == 0 || s.client.received < s.client.requested),
               down := [])
  {
  }

  /** A request for node history brings the attachments that the server has to offer, in their order. */
  lemma {:induction false} NodesReceived(s: System, ids: seq<Id>)
    requires s.client.fetches == [Nodes] && s.down == NodeMsgs(ids) + [HistDone]
    ensures Run(s, Receives(|ids|) + [Receive])
         == s.(down := [], client := s.client.(nodes := s.client.nodes + ids, fetches := []))
    decreases |ids|
  {
    hide Step;
    if ids == [] {
      assert NodeMsgs(ids) == [] && Receives(0) + [Receive] == [Receive];
      OneStep(s, Receive);
      NodesDone(s);
      assert s.client.nodes + ids == s.client.nodes;
    } else {
      var u := Step(s, Receive);
      OneNode(s, ids);
      NodesReceived(u, ids[1..]);
      assert (Receives(|ids|) + [Receive])[1..] == Receives(|ids| - 1) + [Receive];
      assert s.client.nodes + [ids[0]] + ids[1..] == s.client.nodes + ids;
    }
  }

  lemma {:induction false} NodesDone(s: System)
    requires s.client.fetches == [Nodes] && s.down == [HistDone]
    ensures Step(s, Receive) == s.(down := [], client := s.client.(fetches := []))
  {
  }

  lemma {:induction false} OneNode(s: System, ids: seq<Id>)
    requires s.client.fetches == [Nodes] && s.down == NodeMsgs(ids) + [HistDone] && ids != []
    ensures Step(s, Receive)
         == s.(down := NodeMsgs(ids[1..]) + [HistDone], client := s.client.(nodes := s.client.nodes + [ids[0]]))
  {
    assert s.down[0] == OldMsg(ids[0], Nodes);
    assert s.down[1..] == NodeMsgs(ids[1..]) + [HistDone];
  }

  lemma {:induction false} NodeRequestBrings(es: seq<Event>, newId: Id, attachments: seq<Id>)
    requires Quiet(Run(START, es))
    ensures var s := Run(START, es);
            var t := Run(s, [RequestNodeHist, Serve(newId, attachments)] + (Receives(|attachments|) + [Receive]));
            t == s.(client := s.client.(nodes := s.client.nodes + attachments))
  {
    hide Run, Receives;
    AtRest(es);
    var s := Run(START, es);
    var a := Step(s, RequestNodeHist);
    assert a.up == [NodeHist];
    var b := Step(a, Serve(newId, attachments));
    assert b.up == [] && b.down == NodeMsgs(attachments) + [HistDone];
    RunTwo(s, [RequestNodeHist, Serve(newId, attachments)]);
    RunConcat(s, [RequestNodeHist, Serve(newId, attachments)], Receives(|attachments|) + [Receive]);
    NodesReceived(b, attachments);
  }

  /** A message that a lost connection had accepted may still be written afterwards, once. */
  lemma {:induction false} LateWrite(s: System, x: Xid, newId: Id, later: Id)
    requires SendMsg(x) in s.up && !HasXid(s.log, x) && !HasId(s.log, newId)
    ensures var t := Run(s, [Disconnect, StaleWrite(x, newId)]);
            && t.log == s.log + [Entry(newId, Own(x))]
            && Step(t, StaleWrite(x, later)) == t
  {
    hide OwnBelow, Arriving;
    var r :| r in s.up && r == SendMsg(x);
    RunTwo(s, [Disconnect, StaleWrite(x, newId)]);
    var t := Run(s, [Disconnect, StaleWrite(x, newId)]);
    assert t.log[|s.log|].origin == Own(x);
  }

  /** A client joins an empty chat, submits message 7 and loses the connection before the server's
      answer arrives. */
  function LostAnswer(): seq<Event> {
    [Login, Serve(0, []), Serve(0, []), Receive, Submit(7), Serve(5, []), Disconnect]
  }

  /** Logged in to an empty chat. */
  function Joined(): System {
    START.(client := START.client.(online := LoggedIn, requested := INITIAL_FETCH, haveAll := true), cursor := Some(0))
  }

  lemma {:induction false} JoinsEmptyChat()
    ensures Run(START, [Login, Serve(0, []), Serve(0, []), Receive]) == Joined()
  {
    var s1 := Step(START, Login);
    assert s1.up == [Join, Hist(INITIAL_FETCH)];
    var s2 := Step(s1, Serve(0, []));
    assert s2.up == [Hist(INITIAL_FETCH)];
    var s3 := Step(s2, Serve(0, []));
    assert s3.up == [] && s3.down == [HistDone];
    RunThree(START, [Login, Serve(0, []), Serve(0, [])]);
    RunConcat(START, [Login, Serve(0, []), Serve(0, [])], [Receive]);
    assert [Login, Serve(0, []), Serve(0, [])] + [Receive] == [Login, Serve(0, []), Serve(0, []), Receive];
    OneStep(s3, Receive);
  }

  lemma {:induction false} OneStep(s: System, e: Event)
    ensures Run(s, [e]) == Step(s, e)
  {
    hide Step;
    assert [e][1..] == [];
  }

  lemma {:induction false} AnswerIsLost()
    ensures Run(Joined(), [Submit(7), Serve(5, []), Disconnect])
         == START.(client := START.client.(sending := [7], requested := INITIAL_FETCH, haveAll := true),
                   log := [Entry(5, Own(7))], used := {7})
  {
    var s1 := Step(Joined(), Submit(7));
    assert s1.up == [SendMsg(7)] && s1.client.sending == [7];
    var s2 := Step(s1, Serve(5, []));
    assert s2.log == [Entry(5, Own(7))];
    var s3 := Step(s2, Disconnect);
    assert s3.stale == {};
    RunThree(Joined(), [Submit(7), Serve(5, []), Disconnect]);
  }

  lemma {:induction false} AfterLostAnswer()
    ensures Run(START, LostAnswer())
         == START.(client := START.client.(sending := [7], requested := INITIAL_FETCH, haveAll := true),
                   log := [Entry(5, Own(7))], used := {7})
  {
    hide Step, Run;
    var a, b := [Login, Serve(0, []), Serve(0, []), Receive], [Submit(7), Serve(5, []), Disconnect];
    assert a + b == LostAnswer();
    RunConcat(START, a, b);
    JoinsEmptyChat();
    AnswerIsLost();
  }

  lemma {:induction false} RunTwo(s: System, es: seq<Event>)
    requires |es| == 2
    ensures Run(s, es) == Step(Step(s, es[0]), es[1])
  {
    hide Step;
    assert es == [es[0]] + [es[1]];
    RunConcat(s, [es[0]], [es[1]]);
    OneStep(s, es[0]);
    OneStep(Step(s, es[0]), es[1]);
  }

  lemma {:induction false} RunThree(s: System, es: seq<Event>)
    requires |es| == 3
    ensures Run(s, es) == Step(Step(Step(s, es[0]), es[1]), es[2])
  {
    hide Step;
    RunTwo(Step(s, es[0]), es[1..]);
  }

  /** The run: 32 other messages arrive in between, the client joins again with no history, loads the
      newest 32, sends message 7 once more and is told that it was written before. */
  function Reconnect(): seq<Event> {
    [Login] + ([Serve(0, []), Serve(0, [])] + (Receives(INITIAL_FETCH) + [Receive, Serve(100, []), Receive]))
  }

  function ForgottenMessage(): seq<Event> {
    LostAnswer() + (Writes(6, INITIAL_FETCH) + Reconnect())
  }

  /** The server answers the two requests of a client without history. */
  lemma {:induction false} JoinServed(s: System, newId: Id, attachments: seq<Id>)
    requires s.up == [Join, Hist(INITIAL_FETCH)] && s.down == [] && s.cursor.None? && s.client.history == []
    ensures Run(s, [Serve(newId, attachments), Serve(newId, attachments)])
         == s.(up := [], low := |s.log|, suspect := s.client.haveAll && |s.log| > INITIAL_FETCH,
               down := OldMsgs(s.log, |s.log|, HistReplySize(INITIAL_FETCH, |s.log|)) + [HistDone],
               cursor := Some(|s.log| - HistReplySize(INITIAL_FETCH, |s.log|)),
               cut := OwnBelow(s.log, |s.log| - HistReplySize(INITIAL_FETCH, |s.log|)))
  {
    hide OwnBelow;
    var e := Serve(newId, attachments);
    var a := Step(s, e);
    assert a.up == [Hist(INITIAL_FETCH)];
    var b := Step(a, e);
    assert b.up == [];
    RunTwo(s, [e, e]);
  }

  lemma {:induction false} MessageSentAgain(s: System)
    requires s.client.online.Joining? && s.client.fetches == [Messages] && s.client.sending == [7]
             && s.client.left == map[]
    requires s.up == [] && s.down == [HistDone] && s.cursor == Some(1) && !HasId(s.log, 100)
    requires s.log != [] && s.log[0] == Entry(5, Own(7))
    requires forall i :: 0 < i < |s.log| ==> s.log[i].origin == Foreign
    ensures var t := Run(s, [Receive, Serve(100, []), Receive]);
            t.log == s.log && t.low == s.low && t.used == s.used && t.cut == s.cut && t.suspect == s.suspect
            && t.client.history == s.client.history
            && t.client.left == map[7 := 5] && (s.client.haveAll ==> t.client.haveAll)
  {
    var a := Step(s, Receive);
    assert a.up == [SendMsg(7)] && a.down == [];
    assert IndexOfXid(a.log, 7) == 0;
    var b := Step(a, Serve(100, []));
    assert b.up == [] && b.down == [AlreadyMsgId(7, 5)];
    RunThree(s, [Receive, Serve(100, []), Receive]);
  }

  lemma {:induction false} OneCut(log: seq<Entry>)
    requires |log| > 1 && log[0].origin == Own(7)
    ensures 7 in OwnBelow(log, 1)
  {
  }

  /** The protocol leaves message 7 out of the stored history, although the queue is done with it and
      the client still claims to have the whole history: a JOIN cuts it off. */
  lemma {:induction false} MessageForgotten()
    ensures var s := Run(START, ForgottenMessage());
            && s.client.left == map[7 := 5] && 5 !in s.client.history && HasId(s.log, 5)
            && s.client.haveAll && s.client.history != [] && s.low == 1 && 7 in s.cut && s.suspect
  {
    hide Step, Inv, Run, OwnBelow, OccursOnce, Arriving;
    var s0 := Run(START, LostAnswer());
    AfterLostAnswer();
    RunConcat(START, LostAnswer(), Writes(6, INITIAL_FETCH) + Reconnect());
    RunConcat(s0, Writes(6, INITIAL_FETCH), Reconnect());
    WritesExtend(s0, 6, INITIAL_FETCH);
    var s1 := Run(s0, Writes(6, INITIAL_FETCH));
    assert s1.log[..1][0] == s1.log[0];
    Rejoined(s1);
    ExactlyOnce(ForgottenMessage(), 7);
    assert IndexOfXid(s1.log, 7) == 0;
  }

  lemma {:induction false} Rejoined(s: System)
    requires s.client == START.client.(sending := [7], requested := INITIAL_FETCH, haveAll := true)
    requires s == START.(client := s.client, log := s.log, used := {7})
    requires |s.log| == INITIAL_FETCH + 1 && s.log[0] == Entry(5, Own(7)) && !HasId(s.log, 100)
    requires forall i :: 0 < i < |s.log| ==> s.log[i].origin == Foreign
    ensures var t := Run(s, Reconnect());
            t.log == s.log && t.low == 1 && t.used == {7} && 7 in t.cut && t.suspect && t.client.haveAll
            && t.client.left == map[7 := 5] && t.client.history != []
  {
    hide Run, OwnBelow;
    var a := Step(s, Login);
    assert a.up == [Join, Hist(INITIAL_FETCH)];
    hide Step;
    OneStep(s, Login);
    RunConcat(s, [Login],
        [Serve(0, []), Serve(0, [])] + (Receives(INITIAL_FETCH) + [Receive, Serve(100, []), Receive]));
    JoinServed(a, 0, []);
    var b := Run(a, [Serve(0, []), Serve(0, [])]);
    RunConcat(a, [Serve(0, []), Serve(0, [])], Receives(INITIAL_FETCH) + [Receive, Serve(100, []), Receive]);
    RunConcat(b, Receives(INITIAL_FETCH), [Receive, Serve(100, []), Receive]);
    BatchReceived(b, INITIAL_FETCH);
    OneCut(s.log);
    MessageSentAgain(Run(b, Receives(INITIAL_FETCH)));
  }

  /** The second way to lose a message: a log of two is shorter than the batch, but the connection is lost
      after the first of them. */
  function LostBatch(): seq<Event> {
    LostAnswer() + [ForeignWrite(6), Login, Serve(0, []), Serve(0, []), Receive, Disconnect]
  }

  lemma {:induction false} BatchLost()
    ensures var s := Run(START, LostBatch());
            && |s.log| == 2 && s.client.history == [6] && s.low == 1 && s.client.haveAll && s.suspect
            && s.log[0] == Entry(5, Own(7)) && 7 in s.cut
  {
    hide Run, OwnBelow, Arriving;
    AfterLostAnswer();
    var s := Run(START, LostAnswer());
    RunConcat(START, LostAnswer(), [ForeignWrite(6), Login, Serve(0, []), Serve(0, []), Receive, Disconnect]);
    var a := Step(s, ForeignWrite(6));
    assert a == s.(log := [Entry(5, Own(7)), Entry(6, Foreign)]);
    var b := Step(a, Login);
    assert b.up == [Join, Hist(INITIAL_FETCH)];
    JoinServed(b, 0, []);
    var c := Run(b, [Serve(0, []), Serve(0, [])]);
    var d := Step(c, Receive);
    SixRun(s, ForeignWrite(6), Login, Serve(0, []), Serve(0, []), Receive, Disconnect);
    assert OldMsgs(a.log, 2, 2) == [OldMsg(6, Messages), OldMsg(5, Messages)];
    assert c.down == [OldMsg(6, Messages), OldMsg(5, Messages), HistDone];
    assert d.down == [OldMsg(5, Messages), HistDone] && d.client.history == [6] && d.low == 1;
    assert Arriving(d) by { StillArrives(d); }
    OneCut(a.log);
  }

  lemma {:induction false} StillArrives(s: System)
    requires s.cursor.Some? && s.down != [] && s.down[0].OldMsg? && s.down[0].kind == Messages
    ensures Arriving(s)
  {
    assert s.down[0] in s.down;
  }

  lemma {:induction false} SixRun(s: System, a: Event, b: Event, c: Event, d: Event, e: Event, f: Event)
    ensures Run(s, [a, b, c, d, e, f]) == Step(Step(Run(Step(Step(s, a), b), [c, d]), e), f)
  {
    hide Run, Step;
    assert [a, b, c, d, e, f] == [a, b] + ([c, d] + [e, f]);
    RunConcat(s, [a, b], [c, d] + [e, f]);
    RunTwo(s, [a, b]);
    var t := Step(Step(s, a), b);
    RunConcat(t, [c, d], [e, f]);
    RunTwo(Run(t, [c, d]), [e, f]);
  }

  /** A client joins a chat with one message more than the batch, and asks for no message at all. */
  function EmptyRequest(): seq<Event> {
    Writes(6, INITIAL_FETCH + 1)
    + ([Login] + (JoinBatch(0, [], INITIAL_FETCH) + [RequestHist(0), Serve(0, []), Receive]))
  }

  /** `AllHistoryIsTrue`: the empty answer makes it believe that it has the whole history. */
  lemma {:induction false} EmptyRequestMisleads()
    ensures var s := Run(START, EmptyRequest());
            && |s.log| == INITIAL_FETCH + 1 && |s.client.history| == INITIAL_FETCH && s.low == 1
            && s.client.haveAll && s.suspect && !Arriving(s)
  {
    hide Run, OwnBelow, Arriving, Step;
    var rest := JoinBatch(0, [], INITIAL_FETCH) + [RequestHist(0), Serve(0, []), Receive];
    RunConcat(START, Writes(6, INITIAL_FETCH + 1), [Login] + rest);
    WritesExtend(START, 6, INITIAL_FETCH + 1);
    var s := Run(START, Writes(6, INITIAL_FETCH + 1));
    RunConcat(s, [Login], rest);
    OneStep(s, Login);
    var a := Step(s, Login);
    FreshLogin(s);
    RunConcat(a, JoinBatch(0, [], INITIAL_FETCH), [RequestHist(0), Serve(0, []), Receive]);
    RunConcat(a, [Serve(0, []), Serve(0, [])], Receives(INITIAL_FETCH) + [Receive]);
    JoinServed(a, 0, []);
    var b := Run(a, [Serve(0, []), Serve(0, [])]);
    RunConcat(b, Receives(INITIAL_FETCH), [Receive]);
    BatchReceived(b, INITIAL_FETCH);
    var c := Run(b, Receives(INITIAL_FETCH));
    OneStep(c, Receive);
    LoggedInWithMore(c);
  }

  lemma {:induction false} FreshLogin(s: System)
    requires s == START.(log := s.log)
    ensures Step(s, Login)
         == s.(client := START.client.(online := Joining, fetches := [Messages], fetchingOld := true,
                                       requested := INITIAL_FETCH),
               up := [Join, Hist(INITIAL_FETCH)])
  {
  }

  lemma {:induction false} LoggedInWithMore(s: System)
    requires s.up == [] && s.down == [HistDone] && s.cursor == Some(1) && s.low == 1 && |s.log| == INITIAL_FETCH + 1
    requires var c := s.client;
             && c.online.Joining? && c.fetches == [Messages] && c.fetchingOld && c.sending == []
             && !c.haveAll && c.received == c.requested == INITIAL_FETCH
    ensures var t := Run(Step(s, Receive), [RequestHist(0), Serve(0, []), Receive]);
            && t.log == s.log && t.low == 1 && t.client.history == s.client.history
            && t.client.haveAll && t.suspect && !Arriving(t)
  {
    var a := Step(s, Receive);
    assert a.up == [] && a.down == [] && a.client.fetches == [];
    var b := Step(a, RequestHist(0));
    assert b.up == [Hist(0)] && b.client.fetches == [Messages];
    var c := Step(b, Serve(0, []));
    assert c.up == [] && c.down == [HistDone];
    RunThree(a, [RequestHist(0), Serve(0, []), Receive]);
  }
}
