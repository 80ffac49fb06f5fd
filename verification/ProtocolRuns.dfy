/** Theorems about every run of the replication protocol. */
module ProtocolRuns {
  import opened ChatTypes
  import opened Protocol
  import opened ProtocolInvariant

  // ---------- Client steps ----------

  lemma {:induction false} SubmitKeepsQueue(sending: seq<Xid>, left: map<Xid, Id>, used: set<Xid>, xid: Xid)
    requires QueueInv(sending, left, used) && xid !in used
    ensures QueueInv(sending + [xid], left, used + {xid})
  {
    var d := sending + [xid];
    assert forall x :: x in d <==> x in sending || x == xid;
  }

  lemma {:induction false} SubmitKeepsLog(log: seq<Entry>, used: set<Xid>, xid: Xid)
    requires LogInv(log, used)
    ensures LogInv(log, used + {xid})
  {
  }

  lemma {:induction false} SubmitKeeps(s: System, xid: Xid)
    requires Inv(s)
    ensures Inv(Step(s, Submit(xid)))
  {
    hide Routed, Delivers, Retreats, Kinds, Answers, Sends, HistCounts, Slice, QueueInv, LeftInv, LogInv;
    if xid !in s.used {
      var t := Step(s, Submit(xid));
      SubmitKeepsQueue(s.client.sending, s.client.left, s.used, xid);
      SubmitKeepsLog(s.log, s.used, xid);
      if s.client.online.LoggedIn? {
        WireAsk(s.down, s.up, SendMsg(xid), s.client.fetches, s.log, High(s), s.low, s.cursor.value);
        OneRequest(SendMsg(xid));
        UpAppend(s.up, [SendMsg(xid)]);
        assert s.client.fetches + [] == s.client.fetches && HistCounts(s.up) + [] == HistCounts(s.up);
        assert Answers(s.down) + (Sends(s.up) + [xid]) == Answers(s.down) + Sends(s.up) + [xid];
      }
    }
  }

  lemma {:induction false} LoginKeeps(s: System)
    requires Inv(s)
    ensures Inv(Step(s, Login))
  {
    hide Routed, Delivers, Retreats, Kinds, Sends, HistCounts, LogInv, Slice, QueueInv, LeftInv;
    if s.client.online.Offline? {
      var up := Step(s, Login).up;
      KindsTail(up);
      OneRequest(up[0]);
      if s.client.history != [] {
        NoRequests(up[1..]);
      } else {
        assert up[1..] == [Hist(INITIAL_FETCH)];
        OneRequest(up[1]);
      }
    }
  }

  lemma {:induction false} DisconnectKeeps(s: System)
    requires Inv(s)
    ensures Inv(Step(s, Disconnect))
  {
    var t := Step(s, Disconnect);
    forall x | x in t.stale ensures x in t.used {
      if x !in s.stale {
        SendsAreSends(s.up, x);
        assert x in s.client.sending;
      }
    }
  }

  lemma {:induction false} SendsAreSends(u: seq<Request>, x: Xid)
    requires SendMsg(x) in u
    ensures x in Sends(u)
  {
    if u[0] != SendMsg(x) { SendsAreSends(u[1..], x); }
  }

  lemma {:induction false} RequestHistKeeps(s: System, count: nat)
    requires Inv(s)
    ensures Inv(Step(s, RequestHist(count)))
  {
    hide Routed, Delivers, Retreats, Kinds, Answers, Sends, HistCounts,
      LogInv, Slice, QueueInv, LeftInv;
    var c := s.client;
    if c.online.LoggedIn? && !c.fetchingOld && !c.haveAll {
      var t := Step(s, RequestHist(count));
      WireAsk(s.down, s.up, Hist(count), c.fetches, s.log, High(s), s.low, s.cursor.value);
      NoBacklog(s.down, c.fetches, Kinds(s.up), s.log, s.low, s.cursor.value);
      OneRequest(Hist(count));
      UpAppend(s.up, [Hist(count)]);
      assert HistCounts(t.up) == [count] && Sends(t.up) == Sends(s.up);
    }
  }

  lemma {:induction false} RequestNodeHistKeeps(s: System)
    requires Inv(s)
    ensures Inv(Step(s, RequestNodeHist))
  {
    hide Routed, Delivers, Retreats, Kinds, Answers, Sends, HistCounts,
      LogInv, Slice, QueueInv, LeftInv;
    var c := s.client;
    if c.online.LoggedIn? && Nodes !in c.fetches {
      var t := Step(s, RequestNodeHist);
      WireAsk(s.down, s.up, NodeHist, c.fetches, s.log, High(s), s.low, s.cursor.value);
      OneRequest(NodeHist);
      UpAppend(s.up, [NodeHist]);
      assert HistCounts(t.up) == HistCounts(s.up) && Sends(t.up) == Sends(s.up);
    }
  }

  // ---------- Server steps ----------

  lemma {:induction false} LogGrows(s: System, e: Entry)
    requires LogInv(s.log, s.used) && !HasId(s.log, e.id)
    requires e.origin.Own? ==> e.origin.xid in s.used && !HasXid(s.log, e.origin.xid)
    ensures LogInv(s.log + [e], s.used)
  {
  }

  lemma {:induction false} DataInLongerLog(s: System, ext: seq<Entry>)
    requires Slice(s.client.history, s.log, s.low) && LeftInv(s.client.left, s.log, High(s))
    ensures Slice(s.client.history, s.log + ext, s.low) && LeftInv(s.client.left, s.log + ext, High(s))
    ensures High(s) <= |s.log|
  {
    var log := s.log + ext;
    assert log[s.low..High(s)] == s.log[s.low..High(s)];
    forall x | x in s.client.left ensures Written(log, High(s), x, s.client.left[x]) {
      WrittenGrows(s.log, ext, High(s), High(s), x, s.client.left[x]);
    }
  }

  function Sent(s: System, batch: seq<Reply>, ext: seq<Entry>, up: seq<Request>, cursor: nat): System {
    s.(down := s.down + batch, log := s.log + ext, up := up, cursor := Some(cursor))
  }

  /** The server of a joined connection writes `ext` to the log and sends `batch`. */
  lemma {:induction false} ServerSends(s: System, batch: seq<Reply>, ext: seq<Entry>, up: seq<Request>, cursor: nat)
    requires Inv(s) && s.cursor.Some? && LogInv(s.log + ext, s.used)
    requires Delivers(batch, s.log + ext, |s.log|) && Retreats(batch, s.log + ext, s.cursor.value, cursor)
    requires Routed(batch, Kinds(s.up), Kinds(up)) && (forall r :: r in up ==> r in s.up)
    requires Sends(s.up) == Answers(batch) + Sends(up)
    requires HistInv(Sent(s, batch, ext, up, cursor))
    ensures Inv(Sent(s, batch, ext, up, cursor))
  {
    hide Routed, Delivers, Retreats, Kinds, Answers, Sends, HistCounts,
      LogInv, Slice, QueueInv, LeftInv;
    WirePush(s.down, s.up, up, s.client.fetches, s.log, ext, batch, High(s), s.low, s.cursor.value, cursor);
    DataInLongerLog(s, ext);
    AnswersAppend(s.down, batch);
    assert (Answers(s.down) + Answers(batch)) + Sends(up) == Answers(s.down) + (Answers(batch) + Sends(up));
  }

  lemma {:induction false} BroadcastKeeps(s: System, e: Entry)
    requires Inv(s) && !HasId(s.log, e.id)
    requires e.origin.Own? ==> e.origin.xid in s.used && !HasXid(s.log, e.origin.xid)
    ensures Inv(Broadcast(s, e))
  {
    LogGrows(s, e);
    if s.cursor.Some? {
      NewEntryDelivers(s.log, e, s.cursor.value, Kinds(s.up));
      assert [] + Sends(s.up) == Sends(s.up);
      ServerSends(s, [NewMsg(e.id)], [e], s.up, s.cursor.value);
      assert Broadcast(s, e) == Sent(s, [NewMsg(e.id)], [e], s.up, s.cursor.value);
    } else {
      DataInLongerLog(s, [e]);
    }
  }

  /** A client without history starts its slice at the end of the log. */
  lemma {:induction false} EmptySlice(s: System)
    requires LeftInv(s.client.left, s.log, High(s)) && High(s) <= |s.log|
    ensures Slice([], s.log, |s.log|) && LeftInv(s.client.left, s.log, |s.log|)
  {
    assert s.log[|s.log|..|s.log|] == [];
    forall x | x in s.client.left ensures Written(s.log, |s.log|, x, s.client.left[x]) {
      assert Written(s.log, High(s), x, s.client.left[x]);
    }
  }

  lemma {:induction false} ServeJoinKeeps(s: System, newId: Id, attachments: seq<Id>)
    requires Inv(s) && s.up != [] && s.up[0].Join?
    ensures Inv(ServeHead(s, newId, attachments))
  {
    hide Kinds, HistCounts, Sends, QueueInv, LeftInv;
    if s.cursor.None? {
      var t := ServeHead(s, newId, attachments);
      assert t.up == [Hist(INITIAL_FETCH)];
      OneRequest(Hist(INITIAL_FETCH));
      KindsTail(s.up);
      OneRequest(Join);
      EmptySlice(s);
    }
  }

  lemma {:induction false} ServeJoinRangeKeeps(s: System, newId: Id, attachments: seq<Id>)
    requires Inv(s) && s.up != [] && s.up[0].JoinRangeHist?
    ensures Inv(ServeHead(s, newId, attachments))
  {
    hide Routed, Delivers, Retreats, Kinds, Sends, HistCounts, LeftInv, QueueInv, Answers, LogInv;
    if s.cursor.None? {
      var batch := NewMsgs(s.log[High(s)..]) + [HistDone];
      NoRequests(s.up[1..]);
      OneRequest(s.up[0]);
      assert s.up == [s.up[0]];
      NewMsgsDeliver(s.log, High(s), s.low);
      ReplayOf(s, newId, attachments);
    }
  }

  lemma {:induction false} ReplayOf(s: System, newId: Id, attachments: seq<Id>)
    requires Inv(s) && s.up != [] && s.up[0].JoinRangeHist? && s.cursor.None?
    ensures ServeHead(s, newId, attachments)
         == s.(up := [], down := NewMsgs(s.log[High(s)..]) + [HistDone], cursor := Some(s.low))
  {
    hide Routed, Delivers, Retreats, Kinds, Sends, HistCounts, LeftInv, QueueInv, Answers;
    HistoryEnds(s);
    assert s.down == [] && s.up[1..] == [];
  }

  lemma {:induction false} NoRequests(u: seq<Request>)
    requires u == []
    ensures Kinds(u) == [] && Sends(u) == [] && HistCounts(u) == []
  {
  }

  /** JOINRANGEHIST names the two ends of the client's slice. */
  lemma {:induction false} HistoryEnds(s: System)
    requires LogInv(s.log, s.used) && Slice(s.client.history, s.log, s.low) && s.client.history != []
    ensures var h := s.client.history;
            HasId(s.log, h[0]) && IndexOfId(s.log, h[0]) == s.low
            && HasId(s.log, h[|h| - 1]) && IndexOfId(s.log, h[|h| - 1]) == High(s) - 1
  {
    var h := s.client.history;
    assert h[0] == s.log[s.low].id;
    assert h[|h| - 1] == s.log[High(s) - 1].id;
  }

  lemma {:induction false} ServeHistKeeps(s: System, newId: Id, attachments: seq<Id>)
    requires Inv(s) && s.up != [] && s.up[0].Hist? && s.cursor.Some? && s.cursor.value <= |s.log|
    ensures Inv(ServeHead(s, newId, attachments))
  {
    hide Routed, Delivers, Retreats, Kinds, Answers, Sends, HistCounts,
      LogInv, Slice, QueueInv, LeftInv;
    var count, cursor := s.up[0].count, s.cursor.value;
    var n := HistReplySize(count, cursor);
    var batch := OldMsgs(s.log, cursor, n) + [HistDone];
    KindsTail(s.up);
    OneRequest(s.up[0]);
    OldMsgsRetreat(s.log, cursor, n, Kinds(s.up[1..]));
    assert s.log + [] == s.log;
    assert [] + Sends(s.up[1..]) == Sends(s.up[1..]);
    HistAnswered(s, count, n, batch);
    ServerSends(s, batch, [], s.up[1..], cursor - n);
    var t := ServeHead(s, newId, attachments);
    assert t == Sent(s, batch, [], s.up[1..], cursor - n).(suspect := t.suspect);
    SuspicionIsFree(Sent(s, batch, [], s.up[1..], cursor - n), t.suspect);
  }

  lemma {:induction false} SuspicionIsFree(s: System, suspect: bool)
    requires Inv(s)
    ensures Inv(s.(suspect := suspect))
  {
    hide Routed, Delivers, Retreats, Kinds, Answers, Sends, HistCounts, LogInv, Slice, QueueInv, LeftInv;
  }

  lemma {:induction false} HistAnswered(s: System, count: nat, n: nat, batch: seq<Reply>)
    requires HistInv(s) && s.up != [] && s.cursor.Some? && HistCounts(s.up) == [count] + HistCounts(s.up[1..])
    requires n == HistReplySize(count, s.cursor.value)
    ensures HistInv(Sent(s, batch, [], s.up[1..], s.cursor.value - n))
  {
    assert HistCounts(s.up)[0] == count;
    assert s.client.fetchingOld;
    assert |HistCounts(s.up)| == 1;
  }

  lemma {:induction false} ServeNodeHistKeeps(s: System, newId: Id, attachments: seq<Id>)
    requires Inv(s) && s.up != [] && s.up[0].NodeHist? && s.cursor.Some?
    ensures Inv(ServeHead(s, newId, attachments))
  {
    hide Routed, Delivers, Retreats, Kinds, Answers, Sends, HistCounts,
      LogInv, Slice, QueueInv, LeftInv;
    var batch := NodeMsgs(attachments) + [HistDone];
    KindsTail(s.up);
    OneRequest(s.up[0]);
    NodeMsgsPass(s.log, attachments, s.cursor.value, Kinds(s.up[1..]));
    assert s.log + [] == s.log;
    assert [] + Sends(s.up[1..]) == Sends(s.up[1..]) && [] + HistCounts(s.up[1..]) == HistCounts(s.up[1..]);
    ServerSends(s, batch, [], s.up[1..], s.cursor.value);
    assert ServeHead(s, newId, attachments) == Sent(s, batch, [], s.up[1..], s.cursor.value);
  }

  lemma {:induction false} AlreadyDelivers(log: seq<Entry>, xid: Xid, cursor: nat, q: seq<Kind>)
    requires HasXid(log, xid)
    ensures var r := AlreadyMsgId(xid, log[IndexOfXid(log, xid)].id);
            && Delivers([r], log, |log|) && Retreats([r], log, cursor, cursor)
            && Routed([r], q, q) && Answers([r]) == [xid]
  {
    var i := IndexOfXid(log, xid);
    assert log[i] == Entry(log[i].id, Own(xid));
    assert [AlreadyMsgId(xid, log[i].id)][1..] == [];
    OneReply(AlreadyMsgId(xid, log[i].id));
  }

  lemma {:induction false} ServeResendKeeps(s: System, newId: Id, attachments: seq<Id>)
    requires Inv(s) && s.up != [] && s.up[0].SendMsg? && s.cursor.Some? && !HasId(s.log, newId)
    requires HasXid(s.log, s.up[0].xid)
    ensures Inv(ServeHead(s, newId, attachments))
  {
    hide Routed, Delivers, Retreats, Kinds, Answers, Sends, HistCounts, LogInv, Slice, QueueInv, LeftInv;
    var xid := s.up[0].xid;
    var r := AlreadyMsgId(xid, s.log[IndexOfXid(s.log, xid)].id);
    AlreadyDelivers(s.log, xid, s.cursor.value, Kinds(s.up));
    assert s.log + [] == s.log;
    KindsTail(s.up);
    OneRequest(s.up[0]);
    assert [] + Kinds(s.up[1..]) == Kinds(s.up[1..]) && [] + HistCounts(s.up[1..]) == HistCounts(s.up[1..]);
    ServerSends(s, [r], [], s.up[1..], s.cursor.value);
    assert ServeHead(s, newId, attachments) == Sent(s, [r], [], s.up[1..], s.cursor.value);
  }

  lemma {:induction false} ServeNewKeeps(s: System, newId: Id, attachments: seq<Id>)
    requires Inv(s) && s.up != [] && s.up[0].SendMsg? && s.cursor.Some? && !HasId(s.log, newId)
    requires !HasXid(s.log, s.up[0].xid) && s.up[0].xid in s.used
    ensures Inv(ServeHead(s, newId, attachments))
  {
    hide Routed, Delivers, Retreats, Kinds, Answers, Sends, HistCounts,
      LogInv, Slice, QueueInv, LeftInv;
    var e := Entry(newId, Own(s.up[0].xid));
    var r := NewMsgId(s.up[0].xid, newId);
    LogGrows(s, e);
    NewEntryDelivers(s.log, e, s.cursor.value, Kinds(s.up));
    KindsTail(s.up);
    OneRequest(s.up[0]);
    assert [] + Kinds(s.up[1..]) == Kinds(s.up[1..]) && [] + HistCounts(s.up[1..]) == HistCounts(s.up[1..]);
    ServerSends(s, [r], [e], s.up[1..], s.cursor.value);
    assert ServeHead(s, newId, attachments) == Sent(s, [r], [e], s.up[1..], s.cursor.value);
  }

  lemma {:induction false} ServeKeeps(s: System, newId: Id, attachments: seq<Id>)
    requires Inv(s) && s.up != []
    ensures Inv(ServeHead(s, newId, attachments))
  {
    match s.up[0]
    case Join => ServeJoinKeeps(s, newId, attachments);
    case JoinRangeHist(_, _) => ServeJoinRangeKeeps(s, newId, attachments);
    case Hist(_) =>
      if s.cursor.Some? && s.cursor.value <= |s.log| { ServeHistKeeps(s, newId, attachments); }
    case NodeHist =>
      if s.cursor.Some? { ServeNodeHistKeeps(s, newId, attachments); }
    case SendMsg(xid) =>
      if s.cursor.Some? && !HasId(s.log, newId) {
        assert s.up[0] in s.up;
        SendsAreSends(s.up, xid);
        assert xid in s.client.sending;
        if HasXid(s.log, xid) {
          ServeResendKeeps(s, newId, attachments);
        } else {
          ServeNewKeeps(s, newId, attachments);
        }
      }
  }

  // ---------- Receiving ----------

  /** The wire once the head of `down` is taken off. */
  lemma {:induction false} WireTail(s: System)
    requires s.cursor.Some? && s.down != []
             && Wire(s.down, s.up, s.client.fetches, s.log, High(s), s.low, s.cursor.value)
    ensures var q := s.client.fetches;
            match s.down[0]
            case NewMsg(id) =>
              High(s) < |s.log| && s.log[High(s)].id == id
              && Wire(s.down[1..], s.up, q, s.log, High(s) + 1, s.low, s.cursor.value)
            case NewMsgId(x, id) =>
              High(s) < |s.log| && s.log[High(s)] == Entry(id, Own(x))
              && Wire(s.down[1..], s.up, q, s.log, High(s) + 1, s.low, s.cursor.value)
            case AlreadyMsgId(x, id) =>
              Written(s.log, High(s), x, id)
              && Wire(s.down[1..], s.up, q, s.log, High(s), s.low, s.cursor.value)
            case HistDone => q != [] && Wire(s.down[1..], s.up, q[1..], s.log, High(s), s.low, s.cursor.value)
            case OldMsg(id, kind) =>
              q != [] && q[0] == kind
              && if kind == Nodes then Wire(s.down[1..], s.up, q, s.log, High(s), s.low, s.cursor.value)
                 else s.cursor.value < s.low <= |s.log| && s.log[s.low - 1].id == id
                      && Wire(s.down[1..], s.up, q, s.log, High(s), s.low - 1, s.cursor.value)
  {
    hide Kinds;
    if s.down[0].OldMsg? && s.down[0].kind == Messages {
      RetreatsDown(s.down[1..], s.log, s.low - 1, s.cursor.value);
    }
  }

  lemma {:induction false} RetreatsDown(d: seq<Reply>, log: seq<Entry>, low: nat, cursor: nat)
    requires Retreats(d, log, low, cursor)
    ensures cursor <= low
  {
    if d != [] {
      RetreatsDown(d[1..], log, if d[0].OldMsg? && d[0].kind == Messages then low - 1 else low, cursor);
    }
  }

  lemma {:induction false} SliceAppend(history: seq<Id>, log: seq<Entry>, low: nat, id: Id, used: set<Xid>)
    requires Slice(history, log, low) && low + |history| < |log| && log[low + |history|].id == id && LogInv(log, used)
    ensures Slice(history + [id], log, low) && id !in history
  {
    var n := low + |history|;
    assert log[low..n + 1] == log[low..n] + [log[n]];
    forall i | 0 <= i < |history| ensures history[i] != id {
      assert history[i] == log[low + i].id;
    }
  }

  lemma {:induction false} SlicePrepend(history: seq<Id>, log: seq<Entry>, low: nat, id: Id)
    requires Slice(history, log, low) && low > 0 && log[low - 1].id == id
    ensures Slice([id] + history, log, low - 1)
  {
    assert log[low - 1..low + |history|] == [log[low - 1]] + log[low..low + |history|];
  }

  lemma {:induction false} LeftGrows(left: map<Xid, Id>, log: seq<Entry>, high: nat, high': nat)
    requires LeftInv(left, log, high) && high <= high'
    ensures LeftInv(left, log, high')
  {
    forall x | x in left ensures Written(log, high', x, left[x]) {
      assert Written(log, high, x, left[x]);
    }
  }

  lemma {:induction false} LeftAdds(left: map<Xid, Id>, log: seq<Entry>, high: nat, x: Xid, id: Id)
    requires LeftInv(left, log, high) && Written(log, high, x, id)
    ensures LeftInv(left[x := id], log, high)
  {
  }

  lemma {:induction false} QueuePops(sending: seq<Xid>, left: map<Xid, Id>, used: set<Xid>, id: Id)
    requires QueueInv(sending, left, used) && sending != []
    ensures QueueInv(sending[1..], left[sending[0] := id], used)
  {
    forall x | x in used ensures x in sending[1..] || x in left[sending[0] := id] {
      if x in sending && x != sending[0] {
        var i :| 0 <= i < |sending| && sending[i] == x;
        assert sending[1..][i - 1] == x;
      }
    }
  }

  lemma {:induction false} ReceiveNewMsgKeeps(s: System)
    requires Inv(s) && s.down != [] && s.down[0].NewMsg?
    ensures Inv(ReceiveHead(s))
  {
    hide Routed, Delivers, Retreats, Kinds, Answers, Sends, HistCounts, LogInv, Slice, QueueInv, LeftInv;
    WireTail(s);
    AnswersUnfold(s.down);
    SliceAppend(s.client.history, s.log, s.low, s.down[0].id, s.used);
    LeftGrows(s.client.left, s.log, High(s), High(s) + 1);
  }

  lemma {:induction false} ReceiveOldMsgKeeps(s: System)
    requires Inv(s) && s.down != [] && s.down[0].OldMsg?
    ensures Inv(ReceiveHead(s))
  {
    hide Routed, Delivers, Retreats, Kinds, Answers, Sends, HistCounts, LogInv, Slice, QueueInv, LeftInv;
    WireTail(s);
    AnswersUnfold(s.down);
    if s.down[0].kind == Messages {
      SlicePrepend(s.client.history, s.log, s.low, s.down[0].id);
    }
  }

  lemma {:induction false} Answering(s: System, x: Xid)
    requires ChannelInv(s) && s.down != [] && Answers(s.down) == [x] + Answers(s.down[1..])
    ensures s.client.online.LoggedIn? && s.client.sending != [] && s.client.sending[0] == x
    ensures Answers(s.down[1..]) + Sends(s.up) == s.client.sending[1..]
  {
    hide Routed, Delivers, Retreats, Kinds, Answers, Sends;
    assert Answers(s.down)[0] == x;
    assert s.client.sending == [x] + (Answers(s.down[1..]) + Sends(s.up));
  }

  lemma {:induction false} ReceiveNewMsgIdKeeps(s: System)
    requires Inv(s) && s.down != [] && s.down[0].NewMsgId?
    ensures Inv(ReceiveHead(s))
  {
    hide Routed, Delivers, Retreats, Kinds, Answers, Sends, HistCounts, LogInv, Slice, QueueInv, LeftInv;
    var x, id := s.down[0].xid, s.down[0].id;
    WireTail(s);
    AnswersUnfold(s.down);
    Answering(s, x);
    SliceAppend(s.client.history, s.log, s.low, id, s.used);
    LeftGrows(s.client.left, s.log, High(s), High(s) + 1);
    LeftAdds(s.client.left, s.log, High(s) + 1, x, id);
    QueuePops(s.client.sending, s.client.left, s.used, id);
  }

  lemma {:induction false} ReceiveAlreadyMsgIdKeeps(s: System)
    requires Inv(s) && s.down != [] && s.down[0].AlreadyMsgId?
    ensures Inv(ReceiveHead(s))
  {
    hide Routed, Delivers, Retreats, Kinds, Answers, Sends, HistCounts, LogInv, Slice, QueueInv, LeftInv;
    var x, id := s.down[0].xid, s.down[0].id;
    WireTail(s);
    AnswersUnfold(s.down);
    Answering(s, x);
    LeftAdds(s.client.left, s.log, High(s), x, id);
    QueuePops(s.client.sending, s.client.left, s.used, id);
  }

  /** When HISTDONE completes a history fetch, its whole batch has been received. */
  lemma {:induction false} FetchComplete(s: System)
    requires Inv(s) && s.down != [] && s.down[0].HistDone? && s.client.fetches[..1] == [Messages]
    ensures s.cursor.Some? && s.low == s.cursor.value && HistCounts(s.up) == []
    ensures Messages !in s.client.fetches[1..]
  {
    hide Delivers, Answers, Sends, HistCounts, LogInv, Slice, QueueInv, LeftInv;
    var q := s.client.fetches;
    assert q[0] == q[..1][0];
    WireTail(s);
    NoBacklog(s.down[1..], q[1..], Kinds(s.up), s.log, s.low, s.cursor.value);
    NoHistCounts(s.up);
  }

  lemma {:induction false} ReceiveHistDoneKeeps(s: System)
    requires Inv(s) && s.down != [] && s.down[0].HistDone?
    ensures Inv(ReceiveHead(s))
  {
    hide Routed, Delivers, Retreats, Kinds, Answers, Sends, HistCounts, LogInv, Slice, QueueInv, LeftInv;
    var c := s.client;
    WireTail(s);
    AnswersUnfold(s.down);
    if c.fetches[0] == Messages {
      assert c.fetches[..1] == [Messages];
      FetchComplete(s);
      if c.online.Joining? { JoinCompletes(s); }
    }
  }

  /** HISTDONE of a join: the whole queue is sent again, in order. */
  lemma {:induction false} JoinCompletes(s: System)
    requires Inv(s) && s.down != [] && s.down[0].HistDone? && s.client.online.Joining? && s.cursor.Some?
    requires Wire(s.down[1..], s.up, s.client.fetches[1..], s.log, High(s), s.low, s.cursor.value)
    requires Answers(s.down) == [] + Answers(s.down[1..])
    ensures var up := s.up + SendAll(s.client.sending);
            && Wire(s.down[1..], up, s.client.fetches[1..], s.log, High(s), s.low, s.cursor.value)
            && Answers(s.down[1..]) + Sends(up) == s.client.sending && HistCounts(up) == HistCounts(s.up)
  {
    hide Routed, Delivers, Retreats, Kinds, Answers, Sends, HistCounts, LogInv, Slice, QueueInv, LeftInv;
    SendAllReads(s.client.sending);
    UpAppend(s.up, SendAll(s.client.sending));
    assert Kinds(s.up) + [] == Kinds(s.up) && HistCounts(s.up) + [] == HistCounts(s.up);
    assert [] + ([] + s.client.sending) == s.client.sending;
  }

  lemma {:induction false} StepKeeps(s: System, e: Event)
    requires Inv(s)
    ensures Inv(Step(s, e))
  {
    hide Routed, Delivers, Retreats, Kinds, Answers, Sends, HistCounts, LogInv, Slice, QueueInv, LeftInv;
    match e
    case Submit(xid) => SubmitKeeps(s, xid);
    case Login => LoginKeeps(s);
    case Disconnect => DisconnectKeeps(s);
    case RequestHist(count) => RequestHistKeeps(s, count);
    case RequestNodeHist => RequestNodeHistKeeps(s);
    case Serve(newId, attachments) => if s.up != [] { ServeKeeps(s, newId, attachments); }
    case ForeignWrite(newId) => if !HasId(s.log, newId) { BroadcastKeeps(s, Entry(newId, Foreign)); }
    case StaleWrite(xid, newId) =>
      if xid in s.stale && !HasXid(s.log, xid) && !HasId(s.log, newId) { BroadcastKeeps(s, Entry(newId, Own(xid))); }
    case Receive =>
      if s.down != [] {
        match s.down[0]
        case NewMsg(_) => ReceiveNewMsgKeeps(s);
        case OldMsg(_, _) => ReceiveOldMsgKeeps(s);
        case HistDone => ReceiveHistDoneKeeps(s);
        case NewMsgId(_, _) => ReceiveNewMsgIdKeeps(s);
        case AlreadyMsgId(_, _) => ReceiveAlreadyMsgIdKeeps(s);
      }
  }

  /** The invariant holds in every reachable state. */
  lemma {:induction false} RunKeeps(s: System, es: seq<Event>)
    requires Inv(s)
    ensures Inv(Run(s, es))
    decreases |es|
  {
    if es != [] {
      StepKeeps(s, es[0]);
      RunKeeps(Step(s, es[0]), es[1..]);
    }
  }
}
