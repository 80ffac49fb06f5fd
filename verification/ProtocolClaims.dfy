/** What a client may claim and what it may miss: when `mHaveAllHistory` is true of the server's log, and
    which own messages are left out of the stored history. */
module ProtocolClaims {
  import opened ChatTypes
  import opened Protocol
  import opened ProtocolInvariant
  import opened ProtocolRuns

  // ---------- The invariant ----------

  /** Where the client's slice begins once the batch that is on its way has been received. */
  function FinalLow(s: System): nat {
    if s.cursor.None? then s.low
    else if HistCounts(s.up) != [] then s.cursor.value - HistReplySize(HistCounts(s.up)[0], s.cursor.value)
    else s.cursor.value
  }

  /** A client without history has sent nothing, or has claimed the whole, then empty, history. */
  ghost predicate JoinInv(s: System) {
    var c := s.client;
    && (c.history == [] ==> c.left == map[])
    && (c.online.Joining? && (c.history == [] || c.fetchingOld) ==>
          c.fetchingOld && c.requested == INITIAL_FETCH && c.left == map[])
    && (c.online.Joining? && c.history == [] ==> c.received == 0)
    && (c.online.Joining? && !c.fetchingOld && s.cursor.Some? ==> s.low == s.cursor.value)
    && (c.online.LoggedIn? && c.history == [] ==> c.haveAll && s.low == 0)
    && (c.haveAll && c.fetchingOld ==> c.online.Joining?)
    && (!c.haveAll && c.history == [] ==> s.stale == {} && OwnBelow(s.log, |s.log|) == {})
  }

  /** The whole history is claimed wrongly exactly in suspect states. */
  ghost predicate ClaimInv(s: System) {
    var c := s.client;
    && (c.haveAll && (c.history != [] || s.cursor.Some?) ==> (s.suspect <==> FinalLow(s) > 0))
    && (!c.haveAll && c.fetchingOld && s.cursor.Some? && HistCounts(s.up) == [] ==>
          (s.suspect <==> !Sound(c.requested) && s.cursor.value > 0))
  }

  /** The own messages below the slice are those that were cut off, and only a client that claims the
      whole history has any. */
  ghost predicate CutInv(s: System) {
    && (!s.client.haveAll ==> s.cut == {} && OwnBelow(s.log, s.low) == {})
    && (s.client.history != [] || s.cursor.Some? ==> s.cut == OwnBelow(s.log, FinalLow(s)))
  }

  ghost predicate Claims(s: System) {
    JoinInv(s) && ClaimInv(s) && CutInv(s)
  }

  // ---------- Facts ----------

  lemma {:induction false} OwnBelowGrows(log: seq<Entry>, e: Entry, n: nat)
    requires n <= |log|
    ensures OwnBelow(log + [e], n) == OwnBelow(log, n)
    ensures e.origin.Foreign? ==> OwnBelow(log + [e], |log| + 1) == OwnBelow(log, |log|)
  {
    var l := log + [e];
    assert forall i :: 0 <= i < |log| ==> l[i] == log[i];
  }

  lemma {:induction false} OwnBelowShrinks(log: seq<Entry>, m: nat, n: nat)
    requires m <= n
    ensures OwnBelow(log, m) <= OwnBelow(log, n)
  {
  }

  lemma {:induction false} OwnBelowAll(log: seq<Entry>, n: nat)
    requires OwnBelow(log, |log|) == {}
    ensures OwnBelow(log, n) == {}
  {
    assert OwnBelow(log, n) <= OwnBelow(log, |log|);
  }

  ghost predicate HasOldMsg(d: seq<Reply>) {
    exists r :: r in d && r.OldMsg? && r.kind == Messages
  }

  /** The slice moves down exactly when messages of a batch are in flight. */
  lemma {:induction false} RetreatsBy(d: seq<Reply>, log: seq<Entry>, low: nat, cursor: nat)
    requires Retreats(d, log, low, cursor)
    ensures cursor <= low && (cursor < low <==> HasOldMsg(d))
  {
    if d != [] {
      RetreatsBy(d[1..], log, if d[0].OldMsg? && d[0].kind == Messages then low - 1 else low, cursor);
      if d[0].OldMsg? && d[0].kind == Messages {
        assert d[0] in d;
      } else {
        assert HasOldMsg(d) <==> HasOldMsg(d[1..]) by {
          assert forall r :: r in d <==> r == d[0] || r in d[1..];
        }
      }
    }
  }

  lemma {:induction false} HistCountsNamed(u: seq<Request>)
    ensures HistCounts(u) == [] ==> forall r :: r in u ==> !r.Hist?
    ensures |HistCounts(u)| == 1 ==> exists r :: r in u && r.Hist?
    ensures |HistCounts(u)| == 1 ==> forall r :: r in u && r.Hist? ==> r.count == HistCounts(u)[0]
  {
    if u != [] {
      CollectUnfold(CountOf, u);
      HistCountsNamed(u[1..]);
      assert forall r :: r in u <==> r == u[0] || r in u[1..];
      if u[0].Hist? { assert u[0] in u; }
    }
  }

  lemma {:induction false} CursorBounds(s: System)
    requires Inv(s)
    ensures FinalLow(s) <= s.low <= |s.log|
    ensures s.cursor.Some? ==> s.cursor.value <= s.low
    ensures Arriving(s) <==> FinalLow(s) < s.low
  {
    hide Routed, Delivers, Retreats, Kinds, Answers, Sends, HistCounts, LogInv, QueueInv, LeftInv;
    if s.cursor.Some? {
      RetreatsBy(s.down, s.log, s.low, s.cursor.value);
      HistCountsNamed(s.up);
      assert |HistCounts(s.up)| <= 1;
    }
  }

  // ---------- Client steps ----------

  lemma {:induction false} SubmitClaims(s: System, xid: Xid)
    requires Inv(s) && Claims(s)
    ensures Claims(Step(s, Submit(xid)))
  {
    hide LogInv, Slice, QueueInv, LeftInv, ChannelInv, HistInv, HistCounts, OwnBelow;
    OneRequest(SendMsg(xid));
    UpAppend(s.up, [SendMsg(xid)]);
    assert HistCounts(s.up) + [] == HistCounts(s.up);
  }

  lemma {:induction false} LoginClaims(s: System)
    requires Inv(s) && Claims(s)
    ensures Claims(Step(s, Login))
  {
    hide LogInv, Slice, QueueInv, LeftInv, HistInv, HistCounts, OwnBelow, Routed, Delivers, Retreats;
  }

  lemma {:induction false} DisconnectClaims(s: System)
    requires Inv(s) && Claims(s)
    ensures Claims(Step(s, Disconnect))
  {
    hide LogInv, QueueInv, LeftInv, HistInv, HistCounts, Sends, Answers, Routed, Delivers, Retreats, Kinds;
    hide OwnBelow, Arriving, FinalLow;
    CursorBounds(s);
    var t := Step(s, Disconnect);
    assert FinalLow(t) == t.low == s.low by { OfflineLow(t); }
    if s.client.history == [] && !s.client.haveAll {
      forall r | r in s.up ensures !r.SendMsg? {
        if r.SendMsg? { SendsAreSends(s.up, r.xid); }
      }
    }
    if s.client.history != [] { OwnBelowShrinks(s.log, FinalLow(s), s.low); }
  }

  lemma {:induction false} OfflineLow(s: System)
    requires s.cursor.None?
    ensures FinalLow(s) == s.low && !Arriving(s)
  {
  }

  lemma {:induction false} RequestHistClaims(s: System, count: nat)
    requires Inv(s) && Claims(s)
    ensures Claims(Step(s, RequestHist(count)))
  {
    hide LogInv, Slice, QueueInv, LeftInv, HistCounts, OwnBelow, Routed, Delivers, Retreats, Kinds, Answers, Sends;
    var t := Step(s, RequestHist(count));
    if t != s {
      OneRequest(Hist(count));
      UpAppend(s.up, [Hist(count)]);
      StepKeeps(s, RequestHist(count));
      CursorBounds(t);
      OwnBelowShrinks(s.log, FinalLow(t), s.low);
    }
  }

  lemma {:induction false} RequestNodeHistClaims(s: System)
    requires Inv(s) && Claims(s)
    ensures Claims(Step(s, RequestNodeHist))
  {
    hide LogInv, Slice, QueueInv, LeftInv, ChannelInv, HistInv, HistCounts, OwnBelow;
    OneRequest(NodeHist);
    UpAppend(s.up, [NodeHist]);
    assert HistCounts(s.up) + [] == HistCounts(s.up);
  }

  // ---------- Server steps ----------

  lemma {:induction false} BroadcastClaims(s: System, e: Entry)
    requires Inv(s) && Claims(s)
    requires e.origin.Own? ==> s.client.haveAll || s.client.history != []
    ensures Claims(Broadcast(s, e))
  {
    hide LogInv, QueueInv, LeftInv, ChannelInv, HistInv, HistCounts, OwnBelow, FinalLow;
    CursorBounds(s);
    var t := Broadcast(s, e);
    assert FinalLow(t) == FinalLow(s) by { SameChannel(s, t); }
    OwnBelowGrows(s.log, e, s.low);
    OwnBelowGrows(s.log, e, FinalLow(s));
  }

  lemma {:induction false} SameChannel(s: System, t: System)
    requires t.cursor == s.cursor && t.low == s.low && HistCounts(t.up) == HistCounts(s.up)
    ensures FinalLow(t) == FinalLow(s)
  {
    hide HistCounts;
  }

  lemma {:induction false} ServeJoinClaims(s: System, newId: Id, attachments: seq<Id>)
    requires Inv(s) && Claims(s) && s.up != [] && s.up[0].Join?
    ensures Claims(ServeHead(s, newId, attachments))
  {
    hide LogInv, QueueInv, LeftInv, HistInv, HistCounts, OwnBelow, Routed, Delivers, Retreats, Kinds, Answers, Sends;
    if s.cursor.None? {
      var t := ServeHead(s, newId, attachments);
      assert t.up == [Hist(INITIAL_FETCH)];
      OneRequest(Hist(INITIAL_FETCH));
      assert FinalLow(t) == |s.log| - HistReplySize(INITIAL_FETCH, |s.log|);
      if !s.client.haveAll { OwnBelowAll(s.log, FinalLow(t)); }
    }
  }

  lemma {:induction false} ServeJoinRangeClaims(s: System, newId: Id, attachments: seq<Id>)
    requires Inv(s) && Claims(s) && s.up != [] && s.up[0].JoinRangeHist?
    ensures Claims(ServeHead(s, newId, attachments))
  {
    hide LogInv, Slice, QueueInv, LeftInv, HistInv, HistCounts, Sends, Answers, Routed, Delivers, Retreats, Kinds;
    hide OwnBelow;
    if s.cursor.None? {
      ReplayOf(s, newId, attachments);
      NoRequests([]);
    }
  }

  lemma {:induction false} ServeHistClaims(s: System, newId: Id, attachments: seq<Id>)
    requires Inv(s) && Claims(s) && s.up != [] && s.up[0].Hist?
    ensures Claims(ServeHead(s, newId, attachments))
  {
    hide LogInv, Slice, QueueInv, LeftInv, ChannelInv, HistCounts, OwnBelow;
    if s.cursor.Some? && s.cursor.value <= |s.log| {
      KindsTail(s.up);
      OneRequest(s.up[0]);
      assert HistCounts(s.up)[0] == s.up[0].count;
      assert |HistCounts(s.up)| == 1;
      assert HistCounts(s.up[1..]) == [];
    }
  }

  lemma {:induction false} ServeOtherClaims(s: System, newId: Id, attachments: seq<Id>)
    requires Inv(s) && Claims(s) && s.up != [] && (s.up[0].NodeHist? || s.up[0].SendMsg?)
    ensures Claims(ServeHead(s, newId, attachments))
  {
    hide LogInv, QueueInv, LeftInv, HistInv, HistCounts, OwnBelow, FinalLow, Routed, Delivers, Retreats, Kinds, Answers;
    var t := ServeHead(s, newId, attachments);
    KindsTail(s.up);
    OneRequest(s.up[0]);
    assert HistCounts(s.up) == HistCounts(s.up[1..]) by {
      assert [] + HistCounts(s.up[1..]) == HistCounts(s.up[1..]);
    }
    SameChannel(s, t);
    CursorBounds(s);
    if s.up[0].SendMsg? {
      assert s.up[0] in s.up;
      SendsAreSends(s.up, s.up[0].xid);
      OwnBelowGrows(s.log, Entry(newId, Own(s.up[0].xid)), s.low);
      OwnBelowGrows(s.log, Entry(newId, Own(s.up[0].xid)), FinalLow(s));
    }
  }

  // ---------- Receiving ----------

  lemma {:induction false} ReceiveOldMsgClaims(s: System)
    requires Inv(s) && Claims(s) && s.down != [] && s.down[0].OldMsg?
    ensures Claims(ReceiveHead(s))
  {
    hide LogInv, QueueInv, LeftInv, HistCounts, OwnBelow, FinalLow, Routed, Delivers, Retreats, Kinds, Answers, Sends;
    var t := ReceiveHead(s);
    WireTail(s);
    if s.down[0].kind == Messages {
      JoinedLow(s, t);
      OwnBelowShrinks(s.log, t.low, s.low);
    } else {
      SameChannel(s, t);
    }
  }

  /** While a connection lasts, the end of the batch does not depend on what has been received. */
  lemma {:induction false} JoinedLow(s: System, t: System)
    requires s.cursor.Some? && t.cursor == s.cursor && HistCounts(t.up) == HistCounts(s.up)
    ensures FinalLow(t) == FinalLow(s)
  {
    hide HistCounts;
  }

  lemma {:induction false} ReceiveNewClaims(s: System)
    requires Inv(s) && Claims(s) && s.down != [] && !s.down[0].OldMsg? && !s.down[0].HistDone?
    ensures Claims(ReceiveHead(s))
  {
    hide LogInv, Slice, QueueInv, HistCounts, OwnBelow, FinalLow, Routed, Delivers, Retreats, Kinds, Sends;
    var t := ReceiveHead(s);
    WireTail(s);
    AnswersUnfold(s.down);
    SameChannel(s, t);
    if s.down[0].NewMsgId? || s.down[0].AlreadyMsgId? {
      Answering(s, s.down[0].xid);
      if s.client.history == [] && s.down[0].AlreadyMsgId? {
        NothingWritten(s.log, s.down[0].xid, s.down[0].id);
      }
    }
  }

  lemma {:induction false} NothingWritten(log: seq<Entry>, x: Xid, id: Id)
    ensures !Written(log, 0, x, id)
  {
  }

  lemma {:induction false} ReceiveHistDoneClaims(s: System)
    requires Inv(s) && Claims(s) && s.down != [] && s.down[0].HistDone?
    ensures Claims(ReceiveHead(s))
  {
    hide LogInv, Slice, QueueInv, LeftInv, HistCounts, OwnBelow, Routed, Delivers, Retreats, Kinds, Answers, Sends;
    var t, c := ReceiveHead(s), s.client;
    WireTail(s);
    SendAllReads(c.sending);
    UpAppend(s.up, SendAll(c.sending));
    assert HistCounts(s.up) + [] == HistCounts(s.up);
    if c.fetches[0] == Messages {
      assert c.fetches[..1] == [Messages];
      FetchComplete(s);
    }
  }

  // ---------- Runs ----------

  lemma {:induction false} ServeClaims(s: System, newId: Id, attachments: seq<Id>)
    requires Inv(s) && Claims(s) && s.up != []
    ensures Claims(ServeHead(s, newId, attachments))
  {
    hide Inv, Claims;
    match s.up[0]
    case Join => ServeJoinClaims(s, newId, attachments);
    case JoinRangeHist(_, _) => ServeJoinRangeClaims(s, newId, attachments);
    case Hist(_) => ServeHistClaims(s, newId, attachments);
    case _ => ServeOtherClaims(s, newId, attachments);
  }

  lemma {:induction false} WriteClaims(s: System, e: Event)
    requires Inv(s) && Claims(s) && (e.ForeignWrite? || e.StaleWrite?)
    ensures Claims(Step(s, e))
  {
    hide LogInv, Slice, QueueInv, LeftInv, ChannelInv, HistInv, OwnBelow, FinalLow, ClaimInv, CutInv;
    match e
    case ForeignWrite(newId) => BroadcastClaims(s, Entry(newId, Foreign));
    case StaleWrite(xid, newId) => if xid in s.stale { BroadcastClaims(s, Entry(newId, Own(xid))); }
  }

  lemma {:induction false} StepClaims(s: System, e: Event)
    requires Inv(s) && Claims(s)
    ensures Claims(Step(s, e))
  {
    hide Inv, Claims, ServeHead, ReceiveHead, Broadcast, DisconnectStep, LoginStep;
    match e
    case Submit(xid) => SubmitClaims(s, xid);
    case Login => LoginClaims(s);
    case Disconnect => DisconnectClaims(s);
    case RequestHist(count) => RequestHistClaims(s, count);
    case RequestNodeHist => RequestNodeHistClaims(s);
    case Serve(newId, attachments) => if s.up != [] { ServeClaims(s, newId, attachments); }
    case ForeignWrite(newId) => WriteClaims(s, e);
    case StaleWrite(xid, newId) => WriteClaims(s, e);
    case Receive =>
      if s.down != [] {
        if s.down[0].OldMsg? {
          ReceiveOldMsgClaims(s);
        } else if s.down[0].HistDone? {
          ReceiveHistDoneClaims(s);
        } else {
          ReceiveNewClaims(s);
        }
      }
  }

  lemma {:induction false} RunClaims(s: System, es: seq<Event>)
    requires Inv(s) && Claims(s)
    ensures Inv(Run(s, es)) && Claims(Run(s, es))
    decreases |es|
  {
    hide Inv, Claims, Step;
    if es != [] {
      StepKeeps(s, es[0]);
      StepClaims(s, es[0]);
      RunClaims(Step(s, es[0]), es[1..]);
    }
  }
}
