/** The chatd replication protocol, seen from one client and one chatroom.

    A run interleaves the application (submitting messages, asking for history), the client
    engine (src/chatd.cpp), two FIFO channels, and a server that keeps the log promised by the
    opcode contracts of src/chatdMsg.h.  Decryption and encryption resolve at once here;
    `Pipeline` treats delays.

    Three components of `System` are bookkeeping that no participant reads: `low`, the number of
    log entries older than the client's oldest message; `cut`, the own messages that a JOIN left below
    its batch; and `suspect`, which records that the whole history is claimed too early: a JOIN was
    served to a client that already claimed it while the log exceeded the batch, the connection of
    such a client was lost before the batch was through, or a HIST of zero or of more than 256 messages
    was answered with less than there was. */
module Protocol {
  import opened ChatTypes

  type Xid = nat

  datatype Origin = Foreign | Own(xid: Xid)
  datatype Entry = Entry(id: Id, origin: Origin)

  /** Kinds of fetch recorded in `mFetchRequest`. */
  datatype Kind = Messages | Nodes

  datatype Request =
    | Join
    | JoinRangeHist(oldest: Id, newest: Id)
    | Hist(count: nat)
    | NodeHist
    | SendMsg(xid: Xid)

  /** What the server sends.  `kind` is not on the wire: it says which request an OLDMSG answers,
      and `Receive` never looks at it. */
  datatype Reply =
    | NewMsg(id: Id)
    | OldMsg(id: Id, kind: Kind)
    | HistDone
    | NewMsgId(xid: Xid, id: Id)
    | AlreadyMsgId(xid: Xid, id: Id)

  datatype Online = Offline | Joining | LoggedIn

  datatype Client = Client(
    history: seq<Id>,        // stored history (DB rows, then the RAM window), oldest first
    nodes: seq<Id>,          // node history, in order of arrival
    sending: seq<Xid>,       // NEWMSGs in mSending
    left: map<Xid, Id>,      // messages that left mSending, with the id the server gave them
    online: Online,
    fetches: seq<Kind>,      // mFetchRequest
    fetchingOld: bool,       // mServerFetchState has kHistOldFlag
    requested: nat,          // -mLastServerRequested
    received: nat,           // mLastServerHistFetchCount
    haveAll: bool)           // mHaveAllHistory

  datatype System = System(
    client: Client,
    up: seq<Request>,
    down: seq<Reply>,
    log: seq<Entry>,
    cursor: Option<nat>,     // the server's HIST position for this connection; None before the join is served
    stale: set<Xid>,         // NEWMSGs of dead connections that may still reach the server
    used: set<Xid>,          // every msgxid ever generated
    cut: set<Xid>,
    low: nat,
    suspect: bool)

  datatype Event =
    | Submit(xid: Xid)
    | Login
    | Disconnect
    | RequestHist(count: nat)
    | RequestNodeHist
    | Serve(newId: Id, attachments: seq<Id>)
    | ForeignWrite(newId: Id)
    | StaleWrite(xid: Xid, newId: Id)
    | Receive

  const INITIAL_FETCH := 32   // initialHistoryFetchCount
  const HIST_LIMIT := 256     // the server's cap on a HIST

  // ---------- Log ----------

  function Ids(log: seq<Entry>): (r: seq<Id>)
    ensures |r| == |log|
    ensures forall i :: 0 <= i < |log| ==> r[i] == log[i].id
  {
    seq(|log|, i requires 0 <= i < |log| => log[i].id)
  }

  predicate HasId(log: seq<Entry>, id: Id) {
    exists i :: 0 <= i < |log| && log[i].id == id
  }

  predicate HasXid(log: seq<Entry>, xid: Xid) {
    exists i :: 0 <= i < |log| && log[i].origin == Own(xid)
  }

  /** The own messages among the first `n` entries. */
  function OwnBelow(log: seq<Entry>, n: nat): set<Xid> {
    set i | 0 <= i < n && i < |log| && log[i].origin.Own? :: log[i].origin.xid
  }

  function IndexOfId(log: seq<Entry>, id: Id): (i: nat)
    requires HasId(log, id)
    ensures i < |log| && log[i].id == id
  {
    if log[|log| - 1].id == id then |log| - 1 else IndexOfId(log[..|log| - 1], id)
  }

  function IndexOfXid(log: seq<Entry>, xid: Xid): (i: nat)
    requires HasXid(log, xid)
    ensures i < |log| && log[i].origin == Own(xid)
  {
    if log[|log| - 1].origin == Own(xid) then |log| - 1 else IndexOfXid(log[..|log| - 1], xid)
  }

  // ---------- Server ----------

  function NewMsgs(log: seq<Entry>): (r: seq<Reply>)
    ensures |r| == |log|
    ensures forall i :: 0 <= i < |log| ==> r[i] == NewMsg(log[i].id)
  {
    seq(|log|, i requires 0 <= i < |log| => NewMsg(log[i].id))
  }

  /** The `n` messages below `cursor`, newest first. */
  function OldMsgs(log: seq<Entry>, cursor: nat, n: nat): (r: seq<Reply>)
    requires n <= cursor <= |log|
    ensures |r| == n
    ensures forall k :: 0 <= k < n ==> r[k] == OldMsg(log[cursor - 1 - k].id, Messages)
  {
    seq(n, k requires 0 <= k < n => OldMsg(log[cursor - 1 - k].id, Messages))
  }

  function NodeMsgs(ids: seq<Id>): (r: seq<Reply>)
    ensures |r| == |ids|
    ensures forall i :: 0 <= i < |ids| ==> r[i] == OldMsg(ids[i], Nodes)
  {
    seq(|ids|, i requires 0 <= i < |ids| => OldMsg(ids[i], Nodes))
  }

  function HistReplySize(count: nat, cursor: nat): nat { Min(Min(count, HIST_LIMIT), cursor) }

  /** A count from which a client can tell whether the answer was all there is. */
  predicate Sound(count: nat) { 0 < count <= HIST_LIMIT }

  /** History that the client asked for is still on its way. */
  predicate Arriving(s: System) {
    s.cursor.Some?
    && ((exists r :: r in s.up && r.Hist? && HistReplySize(r.count, s.cursor.value) > 0)
        || (exists r :: r in s.down && r.OldMsg? && r.kind == Messages))
  }

  /** The server handles the oldest request of this connection.  Requests that the contract does
      not cover (unknown ids, a second join) are not answered. */
  function ServeHead(s: System, newId: Id, attachments: seq<Id>): System
    requires s.up != []
  {
    var rest := s.(up := s.up[1..]);
    match s.up[0]
    case Join =>
      if s.cursor.Some? then s else
      var joined := rest.(cursor := Some(|s.log|));
      if s.client.history != [] then joined else
      joined.(low := |s.log|, cut := OwnBelow(s.log, |s.log| - HistReplySize(INITIAL_FETCH, |s.log|)),
              suspect := s.client.haveAll && |s.log| > INITIAL_FETCH)
    case JoinRangeHist(oldest, newest) =>
      if s.cursor.Some? || !HasId(s.log, oldest) || !HasId(s.log, newest) then s else
      rest.(cursor := Some(IndexOfId(s.log, oldest)),
            down := s.down + (NewMsgs(s.log[IndexOfId(s.log, newest) + 1..]) + [HistDone]))
    case Hist(count) =>
      if s.cursor.None? || s.cursor.value > |s.log| then s else
      var n := HistReplySize(count, s.cursor.value);
      rest.(cursor := Some(s.cursor.value - n),
            suspect := if s.client.haveAll then s.suspect else !Sound(count) && n < s.cursor.value,
            down := s.down + (OldMsgs(s.log, s.cursor.value, n) + [HistDone]))
    case NodeHist =>
      if s.cursor.None? then s else
      rest.(down := s.down + (NodeMsgs(attachments) + [HistDone]))
    case SendMsg(xid) =>
      if s.cursor.None? || HasId(s.log, newId) then s
      else if HasXid(s.log, xid) then
        rest.(down := s.down + [AlreadyMsgId(xid, s.log[IndexOfXid(s.log, xid)].id)])
      else
        rest.(log := s.log + [Entry(newId, Own(xid))], down := s.down + [NewMsgId(xid, newId)])
  }

  /** Another connection writes: a joined client is told with a NEWMSG. */
  function Broadcast(s: System, e: Entry): System {
    s.(log := s.log + [e], down := if s.cursor.Some? then s.down + [NewMsg(e.id)] else s.down)
  }

  // ---------- Client ----------

  function SendAll(xids: seq<Xid>): (r: seq<Request>)
    ensures |r| == |xids|
    ensures forall i :: 0 <= i < |xids| ==> r[i] == SendMsg(xids[i])
  {
    seq(|xids|, i requires 0 <= i < |xids| => SendMsg(xids[i]))
  }

  /** `Chat::login`, `joinRangeHist`, `join` and `requestHistoryFromServer`. */
  function LoginStep(s: System): System {
    var c := s.client;
    if c.history != [] then
      s.(client := c.(online := Joining, fetches := c.fetches + [Messages], fetchingOld := false),
         up := s.up + [JoinRangeHist(c.history[0], c.history[|c.history| - 1])])
    else
      s.(client := c.(online := Joining, fetches := c.fetches + [Messages], fetchingOld := true,
                      requested := INITIAL_FETCH, received := 0),
         up := s.up + [Join, Hist(INITIAL_FETCH)])
  }

  /** `Chat::onDisconnect`: everything in flight is lost to this connection, but the server may
      still receive what the old socket had already accepted. */
  function DisconnectStep(s: System): System {
    var cuts := s.client.history != [] && Arriving(s);
    s.(client := s.client.(online := Offline, fetches := [], fetchingOld := false),
       cut := if cuts then OwnBelow(s.log, s.low) else s.cut,
       suspect := s.suspect || (cuts && s.client.haveAll),
       up := [], down := [], cursor := None, stale := s.stale + (set r | r in s.up && r.SendMsg? :: r.xid))
  }

  /** `onFetchHistDone`: fewer messages than requested mean that the start of history was reached. */
  predicate ConcludesAll(received: nat, requested: nat) { received == 0 || received < requested }

  /** `Chat::onHistDone` for the fetch at the head of `mFetchRequest`. */
  function HistDoneStep(s: System): System
    requires s.client.fetches != []
  {
    var c := s.client.(fetches := s.client.fetches[1..]);
    if s.client.fetches[0] == Nodes then s.(client := c) else
    var all := c.fetchingOld && ConcludesAll(c.received, c.requested);
    var d := c.(fetchingOld := false, haveAll := c.haveAll || all);
    if c.online.Joining? then
      s.(client := d.(online := LoggedIn), up := s.up + SendAll(c.sending))
    else s.(client := d)
  }

  /** `Connection::execCommand` on the oldest reply. */
  function ReceiveHead(s: System): System
    requires s.down != []
  {
    var t := s.(down := s.down[1..]);
    var c := t.client;
    match s.down[0]
    case NewMsg(id) =>
      if id in c.history then t else t.(client := c.(history := c.history + [id]))
    case OldMsg(id, _) =>
      if c.fetches != [] && c.fetches[0] == Nodes then t.(client := c.(nodes := c.nodes + [id]))
      else t.(client := c.(history := [id] + c.history, received := c.received + 1),
              low := if t.low > 0 then t.low - 1 else 0)
    case HistDone => if c.fetches == [] then t else HistDoneStep(t)
    case NewMsgId(xid, id) =>
      if c.sending == [] || c.sending[0] != xid then t
      else t.(client := c.(sending := c.sending[1..], left := c.left[xid := id], history := c.history + [id]))
    case AlreadyMsgId(xid, id) =>
      if c.sending == [] || c.sending[0] != xid then t
      else t.(client := c.(sending := c.sending[1..], left := c.left[xid := id]))
  }

  /** One step.  An event that is not enabled changes nothing. */
  function Step(s: System, e: Event): System {
    var c := s.client;
    match e
    case Submit(xid) =>
      if xid in s.used then s else
      s.(used := s.used + {xid},
         client := c.(sending := c.sending + [xid]),
         up := if c.online.LoggedIn? then s.up + [SendMsg(xid)] else s.up)
    case Login => if c.online.Offline? then LoginStep(s) else s
    case Disconnect => DisconnectStep(s)
    case RequestHist(count) =>
      if !c.online.LoggedIn? || c.fetchingOld || c.haveAll then s else
      s.(client := c.(fetches := c.fetches + [Messages], fetchingOld := true, requested := count, received := 0),
         up := s.up + [Hist(count)])
    case RequestNodeHist =>
      if !c.online.LoggedIn? || Nodes in c.fetches then s else
      s.(client := c.(fetches := c.fetches + [Nodes]), up := s.up + [NodeHist])
    case Serve(newId, attachments) => if s.up == [] then s else ServeHead(s, newId, attachments)
    case ForeignWrite(newId) => if HasId(s.log, newId) then s else Broadcast(s, Entry(newId, Foreign))
    case StaleWrite(xid, newId) =>
      if xid !in s.stale || HasXid(s.log, xid) || HasId(s.log, newId) then s
      else Broadcast(s, Entry(newId, Own(xid)))
    case Receive => if s.down == [] then s else ReceiveHead(s)
  }

  function Run(s: System, es: seq<Event>): System
    decreases |es|
  {
    if es == [] then s else Run(Step(s, es[0]), es[1..])
  }

  const START :=
    System(Client([], [], [], map[], Offline, [], false, 0, 0, false), [], [], [], None, {}, {}, {}, 0, false)
}
