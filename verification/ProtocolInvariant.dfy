/** What every step of the replication protocol keeps. */
module ProtocolInvariant {
  import opened ChatTypes
  import opened Protocol

  // ---------- Reading the channels ----------

  /** The concatenation of `f` over a channel. */
  function Collect<R, T>(f: R -> seq<T>, d: seq<R>): seq<T> {
    if d == [] then [] else f(d[0]) + Collect(f, d[1..])
  }

  function AnswerOf(r: Reply): seq<Xid> { if r.NewMsgId? || r.AlreadyMsgId? then [r.xid] else [] }

  function SendOf(r: Request): seq<Xid> { if r.SendMsg? then [r.xid] else [] }

  function CountOf(r: Request): seq<nat> { if r.Hist? then [r.count] else [] }

  function FetchOf(r: Request): seq<Kind> {
    if r.Hist? || r.JoinRangeHist? then [Messages] else if r.NodeHist? then [Nodes] else []
  }

  /** msgxids answered by the replies in flight, in order. */
  function Answers(d: seq<Reply>): seq<Xid> { Collect(AnswerOf, d) }

  function Sends(u: seq<Request>): seq<Xid> { Collect(SendOf, u) }

  function HistCounts(u: seq<Request>): seq<nat> { Collect(CountOf, u) }

  /** The fetches that the requests in flight will complete. */
  function Kinds(u: seq<Request>): seq<Kind> { Collect(FetchOf, u) }

  ghost predicate NoJoins(u: seq<Request>) {
    forall r :: r in u ==> !r.Join? && !r.JoinRangeHist?
  }

  /** Every OLDMSG in flight arrives while the head of `mFetchRequest` names the request it
      answers, and `pending` is what is left of the queue afterwards. */
  ghost predicate Routed(d: seq<Reply>, fetches: seq<Kind>, pending: seq<Kind>) {
    if d == [] then fetches == pending else
    match d[0]
    case OldMsg(_, kind) => fetches != [] && fetches[0] == kind && Routed(d[1..], fetches, pending)
    case HistDone => fetches != [] && Routed(d[1..], fetches[1..], pending)
    case _ => Routed(d[1..], fetches, pending)
  }

  ghost predicate Written(log: seq<Entry>, bound: nat, xid: Xid, id: Id) {
    exists j :: 0 <= j < bound && j < |log| && log[j] == Entry(id, Own(xid))
  }

  /** Received in order, `d` takes a client that has the log up to `high` to its end, and every
      MSGID names a message that the client has by then. */
  ghost predicate Delivers(d: seq<Reply>, log: seq<Entry>, high: nat) {
    if d == [] then high == |log| else
    match d[0]
    case NewMsg(id) => high < |log| && log[high].id == id && Delivers(d[1..], log, high + 1)
    case NewMsgId(x, id) => high < |log| && log[high] == Entry(id, Own(x)) && Delivers(d[1..], log, high + 1)
    case AlreadyMsgId(x, id) => Written(log, high, x, id) && Delivers(d[1..], log, high)
    case _ => Delivers(d[1..], log, high)
  }

  /** The history OLDMSGs of `d` take a client whose oldest message is at `low` down to `cursor`. */
  ghost predicate Retreats(d: seq<Reply>, log: seq<Entry>, low: nat, cursor: nat) {
    if d == [] then low == cursor else
    match d[0]
    case OldMsg(id, Messages) => 0 < low <= |log| && log[low - 1].id == id && Retreats(d[1..], log, low - 1, cursor)
    case _ => Retreats(d[1..], log, low, cursor)
  }

  // ---------- The invariant ----------

  ghost predicate LogInv(log: seq<Entry>, used: set<Xid>) {
    && (forall i, j :: 0 <= i < j < |log| ==> log[i].id != log[j].id)
    && (forall i, j :: 0 <= i < j < |log| && log[i].origin.Own? ==> log[i].origin != log[j].origin)
    && (forall i :: 0 <= i < |log| && log[i].origin.Own? ==> log[i].origin.xid in used)
  }

  /** The stored history is the slice of the log that starts at `low`. */
  ghost predicate Slice(history: seq<Id>, log: seq<Entry>, low: nat) {
    low + |history| <= |log| && history == Ids(log[low..low + |history|])
  }

  function High(s: System): nat { s.low + |s.client.history| }

  /** Every message ever submitted is either still queued, once, or has left the queue. */
  ghost predicate QueueInv(sending: seq<Xid>, left: map<Xid, Id>, used: set<Xid>) {
    && (forall i, j :: 0 <= i < j < |sending| ==> sending[i] != sending[j])
    && (forall x :: x in sending ==> x in used && x !in left)
    && (forall x :: x in left ==> x in used)
    && (forall x :: x in used ==> x in sending || x in left)
  }

  /** Messages that left the queue are in the log, at or below the client's newest message. */
  ghost predicate LeftInv(left: map<Xid, Id>, log: seq<Entry>, high: nat) {
    forall x :: x in left ==> Written(log, high, x, left[x])
  }

  /** Where an outstanding HIST stands: still on its way up, or answered down to `cursor`. */
  ghost predicate HistInv(s: System) {
    var c := s.client;
    if !c.fetchingOld then HistCounts(s.up) == [] else
    if HistCounts(s.up) != [] then
      HistCounts(s.up) == [c.requested] && c.received == 0 && (s.cursor.Some? ==> s.low == s.cursor.value)
    else
      && s.cursor.Some?
      && (Sound(c.requested) ==> c.received + s.low >= c.requested + s.cursor.value || s.cursor.value == 0)
  }

  ghost predicate NoDuplicateFetch(fetches: seq<Kind>) {
    forall i, j :: 0 <= i < j < |fetches| ==> fetches[i] != fetches[j]
  }

  /** The two channels of a joined connection, and the fetch queue that reads them. */
  ghost predicate Wire(down: seq<Reply>, up: seq<Request>, fetches: seq<Kind>, log: seq<Entry>,
                       high: nat, low: nat, cursor: nat) {
    && Routed(down, fetches, Kinds(up)) && NoJoins(up)
    && Delivers(down, log, high) && Retreats(down, log, low, cursor)
  }

  /** A connection whose join the server has not handled yet. */
  ghost predicate Handshake(s: System) {
    var c := s.client;
    && s.down == [] && c.fetches == [Messages]
    && if c.history == [] then s.up == [Join, Hist(INITIAL_FETCH)] && c.fetchingOld
       else s.up == [JoinRangeHist(c.history[0], c.history[|c.history| - 1])] && !c.fetchingOld
  }

  ghost predicate ChannelInv(s: System) {
    var c := s.client;
    && (s.cursor.Some? ==> Wire(s.down, s.up, c.fetches, s.log, High(s), s.low, s.cursor.value))
    && match c.online
       case Offline => s.up == [] && s.down == [] && s.cursor.None? && c.fetches == [] && !c.fetchingOld
       case Joining =>
         && c.fetches == [Messages] && Answers(s.down) == [] && Sends(s.up) == []
         && (s.cursor.None? ==> Handshake(s))
       case LoggedIn =>
         && s.cursor.Some? && Answers(s.down) + Sends(s.up) == c.sending
         && NoDuplicateFetch(c.fetches) && (Messages in c.fetches <==> c.fetchingOld)
  }

  ghost predicate Inv(s: System) {
    && LogInv(s.log, s.used) && Slice(s.client.history, s.log, s.low)
    && QueueInv(s.client.sending, s.client.left, s.used) && LeftInv(s.client.left, s.log, High(s))
    && HistInv(s) && ChannelInv(s) && s.stale <= s.used
  }

  // ---------- Appending to the channels ----------

  lemma {:induction false} ConcatAssoc<T>(a: seq<T>, b: seq<T>, c: seq<T>)
    ensures (a + b) + c == a + (b + c)
  {
  }

  lemma {:induction false} CollectUnfold<R, T>(f: R -> seq<T>, a: seq<R>)
    requires a != []
    ensures Collect(f, a) == f(a[0]) + Collect(f, a[1..])
  {
  }

  lemma {:induction false} CollectAppend<R, T>(f: R -> seq<T>, a: seq<R>, b: seq<R>)
    ensures Collect(f, a + b) == Collect(f, a) + Collect(f, b)
  {
    if a == [] {
      assert a + b == b;
    } else {
      CollectUnfold(f, a);
      CollectUnfold(f, a + b);
      hide Collect;
      assert (a + b)[1..] == a[1..] + b;
      CollectAppend(f, a[1..], b);
      ConcatAssoc(f(a[0]), Collect(f, a[1..]), Collect(f, b));
    }
  }

  lemma {:induction false} CollectOne<R, T>(f: R -> seq<T>, r: R)
    ensures Collect(f, [r]) == f(r)
  {
    assert [r][1..] == [];
    assert f(r) + [] == f(r);
  }

  lemma {:induction false} UpAppend(a: seq<Request>, b: seq<Request>)
    ensures Sends(a + b) == Sends(a) + Sends(b)
    ensures HistCounts(a + b) == HistCounts(a) + HistCounts(b)
    ensures Kinds(a + b) == Kinds(a) + Kinds(b)
  {
    CollectAppend(SendOf, a, b);
    CollectAppend(CountOf, a, b);
    CollectAppend(FetchOf, a, b);
  }

  lemma {:induction false} AnswersAppend(a: seq<Reply>, b: seq<Reply>)
    ensures Answers(a + b) == Answers(a) + Answers(b)
  {
    CollectAppend(AnswerOf, a, b);
  }

  lemma {:induction false} AnswersUnfold(a: seq<Reply>)
    requires a != []
    ensures Answers(a) == AnswerOf(a[0]) + Answers(a[1..])
  {
    CollectUnfold(AnswerOf, a);
  }

  lemma {:induction false} SendAllReads(xids: seq<Xid>)
    ensures Sends(SendAll(xids)) == xids && HistCounts(SendAll(xids)) == [] && Kinds(SendAll(xids)) == []
  {
    if xids != [] {
      SendAllReads(xids[1..]);
      assert SendAll(xids)[1..] == SendAll(xids[1..]);
    }
  }

  lemma {:induction false} RoutedAppend(d: seq<Reply>, e: seq<Reply>, q: seq<Kind>, mid: seq<Kind>, p: seq<Kind>)
    requires Routed(d, q, mid) && Routed(e, mid, p)
    ensures Routed(d + e, q, p)
  {
    if d == [] {
      assert d + e == e;
    } else {
      assert (d + e)[1..] == d[1..] + e;
      match d[0]
      case HistDone => RoutedAppend(d[1..], e, q[1..], mid, p);
      case _ => RoutedAppend(d[1..], e, q, mid, p);
    }
  }

  /** A new request goes to the back of `mFetchRequest` and of the channel. */
  lemma {:induction false} RoutedRequest(d: seq<Reply>, q: seq<Kind>, p: seq<Kind>, k: Kind)
    requires Routed(d, q, p)
    ensures Routed(d, q + [k], p + [k])
  {
    if d != [] {
      match d[0]
      case HistDone =>
        assert (q + [k])[1..] == q[1..] + [k];
        RoutedRequest(d[1..], q[1..], p, k);
      case _ => RoutedRequest(d[1..], q, p, k);
    }
  }

  /** Once no history fetch is queued, no history OLDMSG is in flight. */
  lemma {:induction false} NoBacklog(d: seq<Reply>, q: seq<Kind>, p: seq<Kind>, log: seq<Entry>, low: nat, cursor: nat)
    requires Routed(d, q, p) && Messages !in q && Retreats(d, log, low, cursor)
    ensures low == cursor && Messages !in p
  {
    if d != [] {
      match d[0]
      case HistDone => NoBacklog(d[1..], q[1..], p, log, low, cursor);
      case _ => NoBacklog(d[1..], q, p, log, low, cursor);
    }
  }

  lemma {:induction false} NoHistCounts(u: seq<Request>)
    requires Messages !in Kinds(u)
    ensures HistCounts(u) == []
  {
    if u != [] { NoHistCounts(u[1..]); }
  }

  lemma {:induction false} DeliversAppend(d: seq<Reply>, e: seq<Reply>, log: seq<Entry>, ext: seq<Entry>, high: nat)
    requires Delivers(d, log, high) && Delivers(e, log + ext, |log|)
    ensures Delivers(d + e, log + ext, high)
  {
    if d == [] {
      assert d + e == e;
    } else {
      assert (d + e)[1..] == d[1..] + e;
      match d[0]
      case NewMsg(_) => DeliversAppend(d[1..], e, log, ext, high + 1);
      case NewMsgId(_, _) => DeliversAppend(d[1..], e, log, ext, high + 1);
      case AlreadyMsgId(x, id) =>
        WrittenGrows(log, ext, high, high, x, id);
        DeliversAppend(d[1..], e, log, ext, high);
      case _ => DeliversAppend(d[1..], e, log, ext, high);
    }
  }

  lemma {:induction false} WrittenGrows(log: seq<Entry>, ext: seq<Entry>, b: nat, b': nat, x: Xid, id: Id)
    requires Written(log, b, x, id) && b <= b'
    ensures Written(log + ext, b', x, id)
  {
    var j :| 0 <= j < b && j < |log| && log[j] == Entry(id, Own(x));
    assert (log + ext)[j] == log[j];
  }

  lemma {:induction false} RetreatsAppend(d: seq<Reply>, e: seq<Reply>, log: seq<Entry>, low: nat, mid: nat,
          cursor: nat)
    requires Retreats(d, log, low, mid) && Retreats(e, log, mid, cursor)
    ensures Retreats(d + e, log, low, cursor)
  {
    if d == [] {
      assert d + e == e;
    } else {
      assert (d + e)[1..] == d[1..] + e;
      match d[0]
      case OldMsg(_, Messages) => RetreatsAppend(d[1..], e, log, low - 1, mid, cursor);
      case _ => RetreatsAppend(d[1..], e, log, low, mid, cursor);
    }
  }

  lemma {:induction false} RetreatsInLongerLog(d: seq<Reply>, log: seq<Entry>, ext: seq<Entry>, low: nat, cursor: nat)
    requires Retreats(d, log, low, cursor)
    ensures Retreats(d, log + ext, low, cursor)
  {
    if d != [] {
      match d[0]
      case OldMsg(_, Messages) => RetreatsInLongerLog(d[1..], log, ext, low - 1, cursor);
      case _ => RetreatsInLongerLog(d[1..], log, ext, low, cursor);
    }
  }

  lemma {:induction false} KindsTail(u: seq<Request>)
    requires u != []
    ensures Kinds(u) == Kinds([u[0]]) + Kinds(u[1..])
    ensures Sends(u) == Sends([u[0]]) + Sends(u[1..])
    ensures HistCounts(u) == HistCounts([u[0]]) + HistCounts(u[1..])
  {
    assert u == [u[0]] + u[1..];
    UpAppend([u[0]], u[1..]);
  }

  lemma {:induction false} OneRequest(r: Request)
    ensures Sends([r]) == SendOf(r) && HistCounts([r]) == CountOf(r) && Kinds([r]) == FetchOf(r)
  {
    CollectOne(SendOf, r);
    CollectOne(CountOf, r);
    CollectOne(FetchOf, r);
  }

  lemma {:induction false} OneReply(r: Reply)
    ensures Answers([r]) == AnswerOf(r)
  {
    CollectOne(AnswerOf, r);
  }

  /** The server appends a batch. */
  lemma {:induction false} WirePush(down: seq<Reply>, up: seq<Request>, up': seq<Request>, q: seq<Kind>,
          log: seq<Entry>,
                                    ext: seq<Entry>, batch: seq<Reply>, high: nat, low: nat, c: nat, c': nat)
    requires Wire(down, up, q, log, high, low, c) && forall r :: r in up' ==> r in up
    requires Delivers(batch, log + ext, |log|) && Retreats(batch, log + ext, c, c')
             && Routed(batch, Kinds(up), Kinds(up'))
    ensures Wire(down + batch, up', q, log + ext, high, low, c')
  {
    hide Routed, Delivers, Retreats, Kinds;
    DeliversAppend(down, batch, log, ext, high);
    RetreatsInLongerLog(down, log, ext, low, c);
    RetreatsAppend(down, batch, log + ext, low, c, c');
    RoutedAppend(down, batch, q, Kinds(up), Kinds(up'));
  }

  /** The client appends a request. */
  lemma {:induction false} WireAsk(down: seq<Reply>, up: seq<Request>, r: Request, q: seq<Kind>, log: seq<Entry>,
                                   high: nat, low: nat, c: nat)
    requires Wire(down, up, q, log, high, low, c) && !r.Join? && !r.JoinRangeHist?
    ensures Wire(down, up + [r], q + Kinds([r]), log, high, low, c)
  {
    hide Routed, Delivers, Retreats;
    UpAppend(up, [r]);
    OneRequest(r);
    if r.SendMsg? {
      assert q + [] == q && Kinds(up) + [] == Kinds(up);
    } else {
      RoutedRequest(down, q, Kinds(up), if r.Hist? then Messages else Nodes);
    }
  }

  // ---------- The batches a server sends ----------

  lemma {:induction false} NewMsgsDeliver(log: seq<Entry>, high: nat, cursor: nat)
    requires high <= |log|
    ensures Delivers(NewMsgs(log[high..]) + [HistDone], log, high)
    ensures Retreats(NewMsgs(log[high..]) + [HistDone], log, cursor, cursor)
    ensures Routed(NewMsgs(log[high..]) + [HistDone], [Messages], [])
    ensures Answers(NewMsgs(log[high..]) + [HistDone]) == []
    decreases |log| - high
  {
    var b := NewMsgs(log[high..]) + [HistDone];
    if high == |log| {
      assert b == [HistDone];
      OneReply(HistDone);
    } else {
      NewMsgsDeliver(log, high + 1, cursor);
      AnswersUnfold(b);
      assert b[1..] == NewMsgs(log[high + 1..]) + [HistDone];
      assert b[0] == NewMsg(log[high].id);
    }
  }

  lemma {:induction false} OldMsgsRetreat(log: seq<Entry>, cursor: nat, n: nat, rest: seq<Kind>)
    requires n <= cursor <= |log|
    ensures Delivers(OldMsgs(log, cursor, n) + [HistDone], log, |log|)
    ensures Retreats(OldMsgs(log, cursor, n) + [HistDone], log, cursor, cursor - n)
    ensures Routed(OldMsgs(log, cursor, n) + [HistDone], [Messages] + rest, rest)
    ensures Answers(OldMsgs(log, cursor, n) + [HistDone]) == []
    decreases n
  {
    var b := OldMsgs(log, cursor, n) + [HistDone];
    if n == 0 {
      assert b == [HistDone];
      OneReply(HistDone);
      assert ([Messages] + rest)[1..] == rest;
    } else {
      OldMsgsRetreat(log, cursor - 1, n - 1, rest);
      AnswersUnfold(b);
      assert b[1..] == OldMsgs(log, cursor - 1, n - 1) + [HistDone];
      assert b[0] == OldMsg(log[cursor - 1].id, Messages);
    }
  }

  lemma {:induction false} NodeMsgsPass(log: seq<Entry>, ids: seq<Id>, cursor: nat, rest: seq<Kind>)
    ensures Delivers(NodeMsgs(ids) + [HistDone], log, |log|)
    ensures Retreats(NodeMsgs(ids) + [HistDone], log, cursor, cursor)
    ensures Routed(NodeMsgs(ids) + [HistDone], [Nodes] + rest, rest)
    ensures Answers(NodeMsgs(ids) + [HistDone]) == []
    decreases |ids|
  {
    var b := NodeMsgs(ids) + [HistDone];
    if ids == [] {
      assert b == [HistDone];
      OneReply(HistDone);
      assert ([Nodes] + rest)[1..] == rest;
    } else {
      NodeMsgsPass(log, ids[1..], cursor, rest);
      AnswersUnfold(b);
      assert b[1..] == NodeMsgs(ids[1..]) + [HistDone];
      assert b[0] == OldMsg(ids[0], Nodes);
    }
  }

  lemma {:induction false} NewEntryDelivers(log: seq<Entry>, e: Entry, cursor: nat, q: seq<Kind>)
    ensures Delivers([NewMsg(e.id)], log + [e], |log|)
    ensures Retreats([NewMsg(e.id)], log + [e], cursor, cursor)
    ensures Routed([NewMsg(e.id)], q, q)
    ensures Answers([NewMsg(e.id)]) == []
    ensures e.origin.Own? ==> Delivers([NewMsgId(e.origin.xid, e.id)], log + [e], |log|)
    ensures e.origin.Own? ==> Retreats([NewMsgId(e.origin.xid, e.id)], log + [e], cursor, cursor)
    ensures e.origin.Own? ==> Routed([NewMsgId(e.origin.xid, e.id)], q, q)
    ensures e.origin.Own? ==> Answers([NewMsgId(e.origin.xid, e.id)]) == [e.origin.xid]
  {
    assert [NewMsg(e.id)][1..] == [];
    OneReply(NewMsg(e.id));
    if e.origin.Own? {
      OneReply(NewMsgId(e.origin.xid, e.id));
      assert [NewMsgId(e.origin.xid, e.id)][1..] == [];
    }
  }
}
