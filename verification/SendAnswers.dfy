/** What a connection answers, and in which order.  Every message is sent with the key it announces, if any;
    the server answers commands in the order in which they were sent: a NEWKEY with NEWKEYID or a rejection, a
    message or an edit in one of several ways.  Updates of the own messages, and answers that belong to other
    chats, may come in between and take edits out of the queue.  An answer need not take its item out: that of
    a message may be swallowed by another chat, and that of an edit may name another id.

    `keyConfirm` asserts that the front of the queue carries the key that is confirmed (src/chatd.cpp:4490-4493).
    It does exactly when the front has not been answered yet, and, as long as answers reach what they answer
    and no orphaned edit is taken away, exactly when it is no MSGUPDX. */
module SendAnswers {
  import opened ChatTypes
  import opened SendQueue
  import R = SendQueueRuns
  import S = SendSessions

  /** An answer that is still to come, with the row of the item that was sent. */
  datatype Answer = KeyAnswer(rowid: nat, local: uint32) | Final(rowid: nat)

  function AnswersOf(i: Item): seq<Answer> {
    (if i.key.Some? then [KeyAnswer(i.rowid, i.key.value)] else []) + [Final(i.rowid)]
  }

  function AnswersAll(queue: seq<Item>): seq<Answer> {
    if queue == [] then [] else AnswersAll(queue[..|queue| - 1]) + AnswersOf(queue[|queue| - 1])
  }

  predicate Before(a: Answer, b: Answer) {
    a.rowid < b.rowid || (a.rowid == b.rowid && a.KeyAnswer? && b.Final?)
  }

  ghost predicate InTurn(pending: seq<Answer>) {
    forall i, j :: 0 <= i < j < |pending| ==> Before(pending[i], pending[j])
  }

  /** A key travels with a new message, under a local id of its own. */
  ghost predicate KeysApart(queue: seq<Item>) {
    && (forall k :: 0 <= k < |queue| && queue[k].op.IsEdit() ==> queue[k].key.None?)
    && (forall j, k :: 0 <= j < k < |queue| && queue[j].key.Some? ==> queue[j].key != queue[k].key)
  }

  ghost predicate Carries(queue: seq<Item>, rowid: nat, l: uint32) {
    exists k :: 0 <= k < |queue| && queue[k].rowid == rowid && queue[k].key == Some(l)
  }

  /** Answers come in the order of the queue.  A key whose answer is to come is still with its message, and
      items that have been answered and are left over precede all that wait for an answer. */
  ghost predicate Tracks(pending: seq<Answer>, queue: seq<Item>) {
    && InTurn(pending)
    && (forall a :: a in pending && a.KeyAnswer? ==> Carries(queue, a.rowid, a.local) && Final(a.rowid) in pending)
    && (forall k, a :: 0 <= k < |queue| && a in pending && Final(queue[k].rowid) !in pending ==>
         queue[k].rowid < a.rowid)
  }

  /** When the oldest answer to come is that of a key, the front carries this key if and only if it has not
      been answered yet. */
  lemma {:induction false} FrontCarriesIff(pending: seq<Answer>, queue: seq<Item>)
    requires Tracks(pending, queue) && Ascending(queue) && KeysApart(queue)
    requires pending != [] && pending[0].KeyAnswer?
    ensures queue != []
    ensures queue[0].key == Some(pending[0].local) <==> Final(queue[0].rowid) in pending
  {
    var a := pending[0];
    assert a in pending;
    var k :| 0 <= k < |queue| && queue[k].rowid == a.rowid && queue[k].key == Some(a.local);
    if Final(queue[0].rowid) in pending {
      var j :| 0 <= j < |pending| && pending[j] == Final(queue[0].rowid);
      assert Before(pending[0], pending[j]);
      assert k == 0;
    }
  }

  // ---------- Edits leave the queue ----------

  predicate Alike(i: Item, j: Item) { i.rowid == j.rowid && i.key == j.key && i.op.IsEdit() == j.op.IsEdit() }

  /** `q` is `queue` without some of its edits, as far as rowids and keys go. */
  ghost predicate Thinned(q: seq<Item>, queue: seq<Item>)
    decreases |queue|
  {
    if queue == [] then q == [] else
    || (q != [] && Alike(q[0], queue[0]) && Thinned(q[1..], queue[1..]))
    || (queue[0].op.IsEdit() && Thinned(q, queue[1..]))
  }

  lemma {:induction false} ThinnedSame(q: seq<Item>, queue: seq<Item>)
    requires |q| == |queue| && forall k :: 0 <= k < |q| ==> Alike(q[k], queue[k])
    ensures Thinned(q, queue)
    decreases |queue|
  {
    if queue != [] { ThinnedSame(q[1..], queue[1..]); }
  }

  lemma {:induction false} ThinnedRowids(q: seq<Item>, queue: seq<Item>, r: nat)
    requires Thinned(q, queue) && Queued(q, r)
    ensures Queued(queue, r)
    decreases |queue|
  {
    var k :| 0 <= k < |q| && q[k].rowid == r;
    if q != [] && Alike(q[0], queue[0]) && Thinned(q[1..], queue[1..]) {
      if k == 0 {
        assert queue[0].rowid == r;
      } else {
        assert q[1..][k - 1].rowid == r;
        ThinnedRowids(q[1..], queue[1..], r);
        QueuedTail(queue, r);
      }
    } else {
      ThinnedRowids(q, queue[1..], r);
      QueuedTail(queue, r);
    }
  }

  lemma {:induction false} QueuedTail(queue: seq<Item>, r: nat)
    requires queue != []
    ensures Queued(queue, r) <==> queue[0].rowid == r || Queued(queue[1..], r)
  {
    if Queued(queue, r) {
      var k :| 0 <= k < |queue| && queue[k].rowid == r;
      if k > 0 { assert queue[1..][k - 1].rowid == r; }
    }
    if Queued(queue[1..], r) {
      var k :| 0 <= k < |queue| - 1 && queue[1..][k].rowid == r;
      assert queue[k + 1].rowid == r;
    }
  }

  // ---------- Keys stay apart ----------

  ghost predicate HasKey(queue: seq<Item>, l: uint32) {
    exists k :: 0 <= k < |queue| && queue[k].key == Some(l)
  }

  lemma {:induction false} KeysTail(queue: seq<Item>)
    requires KeysApart(queue) && queue != []
    ensures KeysApart(queue[1..]) && (queue[0].key.Some? ==> !HasKey(queue[1..], queue[0].key.value))
    ensures queue[0].op.IsEdit() ==> queue[0].key.None?
  {
    assert forall k :: 0 <= k < |queue| - 1 ==> queue[1..][k] == queue[k + 1];
  }

  lemma {:induction false} KeysCons(i: Item, rest: seq<Item>)
    requires KeysApart(rest) && (i.key.Some? ==> !HasKey(rest, i.key.value)) && (i.op.IsEdit() ==> i.key.None?)
    ensures KeysApart([i] + rest)
  {
    var q := [i] + rest;
    assert forall k :: 0 < k < |q| ==> q[k] == rest[k - 1];
  }

  lemma {:induction false} HasKeyTail(queue: seq<Item>, l: uint32)
    requires queue != []
    ensures HasKey(queue, l) <==> queue[0].key == Some(l) || HasKey(queue[1..], l)
  {
    if HasKey(queue, l) {
      var k :| 0 <= k < |queue| && queue[k].key == Some(l);
      if k > 0 { assert queue[1..][k - 1].key == Some(l); }
    }
    if HasKey(queue[1..], l) {
      var k :| 0 <= k < |queue| - 1 && queue[1..][k].key == Some(l);
      assert queue[k + 1].key == Some(l);
    }
  }

  lemma {:induction false} ThinnedKeys(q: seq<Item>, queue: seq<Item>)
    requires Thinned(q, queue) && KeysApart(queue)
    ensures KeysApart(q) && forall l :: HasKey(q, l) ==> HasKey(queue, l)
    decreases |queue|
  {
    hide KeysApart, HasKey;
    if queue == [] {
      NoKeys(q);
    } else {
      KeysTail(queue);
      forall l: uint32 ensures HasKey(queue, l) <==> queue[0].key == Some(l) || HasKey(queue[1..], l) {
        HasKeyTail(queue, l);
      }
      if q != [] && Alike(q[0], queue[0]) && Thinned(q[1..], queue[1..]) {
        ThinnedKeys(q[1..], queue[1..]);
        forall l: uint32 ensures HasKey(q, l) <==> q[0].key == Some(l) || HasKey(q[1..], l) {
          HasKeyTail(q, l);
        }
        assert [q[0]] + q[1..] == q;
        KeysCons(q[0], q[1..]);
      } else {
        ThinnedKeys(q, queue[1..]);
      }
    }
  }

  lemma {:induction false} NoKeys(q: seq<Item>)
    requires q == []
    ensures KeysApart(q) && forall l :: !HasKey(q, l)
  {
  }

  /** A message with a key is no edit, so it stays. */
  lemma {:induction false} ThinnedCarries(q: seq<Item>, queue: seq<Item>, r: nat, l: uint32)
    requires Thinned(q, queue) && KeysApart(queue) && Carries(queue, r, l)
    ensures Carries(q, r, l)
    decreases |queue|
  {
    var k :| 0 <= k < |queue| && queue[k].rowid == r && queue[k].key == Some(l);
    KeysTail(queue);
    if q != [] && Alike(q[0], queue[0]) && Thinned(q[1..], queue[1..]) {
      if k == 0 {
        assert q[0].key == Some(l);
      } else {
        assert queue[1..][k - 1].key == Some(l);
        ThinnedCarries(q[1..], queue[1..], r, l);
        CarriesTail(q, r, l);
      }
    } else {
      assert queue[1..][k - 1].key == Some(l);
      ThinnedCarries(q, queue[1..], r, l);
    }
  }

  lemma {:induction false} CarriesTail(q: seq<Item>, r: nat, l: uint32)
    requires q != [] && Carries(q[1..], r, l)
    ensures Carries(q, r, l)
  {
    var k :| 0 <= k < |q| - 1 && q[1..][k].rowid == r && q[1..][k].key == Some(l);
    assert q[k + 1].rowid == r;
  }

  lemma {:induction false} TracksThinned(pending: seq<Answer>, queue: seq<Item>, q: seq<Item>)
    requires Tracks(pending, queue) && Thinned(q, queue) && KeysApart(queue)
    ensures Tracks(pending, q)
  {
    hide Thinned, Carries, KeysApart, InTurn;
    forall a | a in pending && a.KeyAnswer? ensures Carries(q, a.rowid, a.local) {
      ThinnedCarries(q, queue, a.rowid, a.local);
    }
    forall k | 0 <= k < |q| ensures exists j :: 0 <= j < |queue| && queue[j].rowid == q[k].rowid {
      assert Queued(q, q[k].rowid);
      ThinnedRowids(q, queue, q[k].rowid);
    }
  }

  // ---------- Answers come ----------

  /** The oldest answer has come, and its item is as it was. */
  lemma {:induction false} TracksTail(pending: seq<Answer>, queue: seq<Item>)
    requires Tracks(pending, queue) && pending != []
    ensures Tracks(pending[1..], queue)
  {
    hide Carries;
    var tail := pending[1..];
    assert forall k :: 0 <= k < |tail| ==> tail[k] == pending[k + 1];
    forall a | a in tail ensures a in pending && Before(pending[0], a) {
      var k :| 0 <= k < |tail| && tail[k] == a;
      assert pending[k + 1] == a;
    }
    forall a | a in tail && a.KeyAnswer? ensures Final(a.rowid) in tail {
      assert Final(a.rowid) in pending && Final(a.rowid) != pending[0];
      InTail(pending, Final(a.rowid));
    }
    forall k, a | 0 <= k < |queue| && a in tail && Final(queue[k].rowid) !in tail ensures queue[k].rowid < a.rowid {
      if Final(queue[k].rowid) in pending {
        NotInTail(pending, Final(queue[k].rowid));
        assert Before(pending[0], a);
      }
    }
  }

  lemma {:induction false} InTail(pending: seq<Answer>, a: Answer)
    requires pending != [] && a in pending && a != pending[0]
    ensures a in pending[1..]
  {
    var k :| 0 <= k < |pending| && pending[k] == a;
    assert pending[1..][k - 1] == a;
  }

  lemma {:induction false} NotInTail(pending: seq<Answer>, a: Answer)
    requires pending != [] && a in pending && a !in pending[1..]
    ensures a == pending[0]
  {
    if a != pending[0] { InTail(pending, a); }
  }

  /** The key at the front loses its mark: its answer has come. */
  lemma {:induction false} TracksKey(pending: seq<Answer>, queue: seq<Item>, q: seq<Item>)
    requires Tracks(pending, queue) && pending != [] && queue != [] && |q| == |queue|
    requires forall k :: 0 <= k < |q| ==> q[k].rowid == queue[k].rowid
    requires forall k :: 0 <= k < |q| && queue[k].key.Some? && queue[k].key != queue[0].key ==> q[k].key == queue[k].key
    requires forall a :: a in pending[1..] && a.KeyAnswer? ==> Some(a.local) != queue[0].key
    ensures Tracks(pending[1..], q)
  {
    TracksTail(pending, queue);
    forall a | a in pending[1..] && a.KeyAnswer? ensures Carries(q, a.rowid, a.local) {
      var k :| 0 <= k < |queue| && queue[k].rowid == a.rowid && queue[k].key == Some(a.local);
      assert q[k].rowid == a.rowid && q[k].key == Some(a.local);
    }
  }

  // ---------- Items are sent ----------

  lemma {:induction false} TracksAppend(pending: seq<Answer>, queue: seq<Item>, i: Item)
    requires Tracks(pending, queue) && forall a :: a in pending ==> a.rowid < i.rowid
    requires forall k :: 0 <= k < |queue| ==> queue[k].rowid < i.rowid
    ensures Tracks(pending + AnswersOf(i), queue + [i])
  {
    var more, q := AnswersOf(i), queue + [i];
    var all := pending + more;
    assert q[|queue|] == i;
    assert forall k :: 0 <= k < |queue| ==> q[k] == queue[k];
    assert forall a :: a in all <==> a in pending || a in more;
    assert Final(i.rowid) == more[|more| - 1];
    assert Final(i.rowid) in more;
    AppendInTurn(pending, i);
    forall a | a in all && a.KeyAnswer? ensures Carries(q, a.rowid, a.local) {
      if a in pending {
        var k :| 0 <= k < |queue| && queue[k].rowid == a.rowid && queue[k].key == Some(a.local);
        assert q[k].rowid == a.rowid;
      }
    }
    forall k, a | 0 <= k < |q| && a in all && Final(q[k].rowid) !in all ensures q[k].rowid < a.rowid {
      assert k < |queue|;
      if a in more { assert a.rowid == i.rowid; }
    }
  }

  lemma {:induction false} AppendInTurn(pending: seq<Answer>, i: Item)
    requires InTurn(pending) && forall a :: a in pending ==> a.rowid < i.rowid
    ensures InTurn(pending + AnswersOf(i))
  {
    var more := AnswersOf(i);
    var all := pending + more;
    forall j, k | 0 <= j < k < |all| ensures Before(all[j], all[k]) {
      if k < |pending| {
        assert Before(pending[j], pending[k]);
      } else if j < |pending| {
        assert all[j] in pending && all[k] == more[k - |pending|];
      } else {
        assert all[j] == more[j - |pending|] && all[k] == more[k - |pending|];
      }
    }
  }

  /** Every answer to come belongs to a queued item, and each item waits for one. */
  lemma {:induction false} AllAnswered(queue: seq<Item>)
    ensures forall a :: a in AnswersAll(queue) ==> Queued(queue, a.rowid)
    ensures forall k :: 0 <= k < |queue| ==> Final(queue[k].rowid) in AnswersAll(queue)
  {
    hide AnswersOf, Queued;
    if queue != [] {
      var n := |queue| - 1;
      AllAnswered(queue[..n]);
      assert queue[..n] + [queue[n]] == queue;
      FinalOf(queue[n]);
      forall a | a in AnswersAll(queue) ensures Queued(queue, a.rowid) {
        R.PostHasRow(queue[..n], queue[n], a.rowid);
      }
      forall k | 0 <= k < |queue| ensures Final(queue[k].rowid) in AnswersAll(queue) {
        if k < n { assert queue[..n][k] == queue[k]; }
      }
    }
  }

  /** Everything is sent anew: nothing is left over. */
  lemma {:induction false} TracksAll(queue: seq<Item>)
    requires Ascending(queue)
    ensures Tracks(AnswersAll(queue), queue)
  {
    hide Tracks, AnswersOf;
    if queue == [] {
      NothingTracked();
    } else {
      var n := |queue| - 1;
      TracksAll(queue[..n]);
      AllAnswered(queue[..n]);
      assert queue[..n] + [queue[n]] == queue;
      forall a | a in AnswersAll(queue[..n]) ensures a.rowid < queue[n].rowid {
        assert Queued(queue[..n], a.rowid);
        var k :| 0 <= k < n && queue[..n][k].rowid == a.rowid;
        assert queue[k].rowid < queue[n].rowid;
      }
      TracksAppend(AnswersAll(queue[..n]), queue[..n], queue[n]);
    }
  }

  lemma {:induction false} NothingTracked()
    ensures Tracks([], [])
  {
  }

  lemma {:induction false} FinalOf(i: Item)
    ensures forall a :: a in AnswersOf(i) ==> a.rowid == i.rowid
    ensures Final(i.rowid) in AnswersOf(i)
  {
    assert AnswersOf(i)[|AnswersOf(i)| - 1] == Final(i.rowid);
  }

  // ---------- Events ----------

  datatype State = State(session: S.Session, pending: seq<Answer>)

  datatype Event =
    | Does(d: S.Event)       // the application posts or restarts, the connection comes or goes
    | Replies(q: R.Event)    // the oldest answer to come arrives
    | Misses                 // it is taken by another chat, or rejects a key
    | Hears(q: R.Event)      // an update, or an answer for another chat, arrives unasked

  /** No message is encrypted when something is received. */
  function Quiet(): S.Crypto { (k: nat) => S.Cipher(KEYID_INVALID, None) }

  function Queue(t: State): seq<Item> { t.session.box.queue }

  ghost predicate TalkInv(t: State) {
    && S.SessionInv(t.session) && KeysApart(Queue(t))
    && (forall a :: a in t.pending ==> a.rowid <= t.session.box.last)
    && (if t.session.online then Tracks(t.pending, Queue(t)) else t.pending == [])
  }

  /** The new message at the front is answered. */
  predicate TakesNew(s: Outbox, e: R.Event) {
    (e.Confirmed? || e.Dropped?) && Answered(s.queue, e.xid) && s.queue[0].op.IsNew()
  }

  predicate TakesEdits(s: Outbox, e: R.Event) {
    (e.Confirmed? || e.Dropped? || e.EditRejected? || e.OwnUpdate?) && !TakesNew(s, e)
  }

  /** What the server, the crypto module and the other clients may do.  A new message leaves the queue for its
      own answer only; an edit may leave it for any, or stay.  A NEWKEYID that finds no key at the front ends
      the run: the original fails there. */
  ghost predicate Allowed(t: State, e: Event)
    requires TalkInv(t)
  {
    match e
    case Does(d) =>
      && S.Allowed(t.session, d) && (d.Queue? ==> S.Posts(d.e) || d.e.Restarted?)
      && (d.LoggedIn? ==> !t.session.online)
      && KeysApart(S.Step(t.session, d).box.queue)
    case Replies(q) =>
      && t.session.online && t.pending != []
      && if t.pending[0].KeyAnswer? then q.KeyConfirmed? && Queue(t) != [] && Queue(t)[0].key.Some?
         else && R.Allowed(t.session.box, q)
              && (TakesEdits(t.session.box, q)
                  || (TakesNew(t.session.box, q) && Queue(t)[0].rowid == t.pending[0].rowid))
    case Misses => t.session.online && t.pending != []
    case Hears(q) => R.Allowed(t.session.box, q) && TakesEdits(t.session.box, q)
  }

  lemma {:induction false} Receivable(t: State, q: R.Event)
    requires TalkInv(t) && (Allowed(t, Replies(q)) || Allowed(t, Hears(q)))
    ensures S.Allowed(t.session, S.Queue(q, Quiet()))
  {
    hide R.Allowed, S.SessionInv;
  }

  ghost function Step(t: State, e: Event): State
    requires TalkInv(t) && Allowed(t, e)
  {
    match e
    case Does(d) =>
      var s := S.Step(t.session, d);
      State(s, if !s.online then []
               else if d.LoggedIn? then AnswersAll(s.box.queue)
               else t.pending + (if s.box.queue == [] then [] else AnswersOf(s.box.queue[|s.box.queue| - 1])))
    case Replies(q) => Receivable(t, q); State(S.Step(t.session, S.Queue(q, Quiet())), t.pending[1..])
    case Misses => t.(pending := t.pending[1..])
    case Hears(q) => Receivable(t, q); State(S.Step(t.session, S.Queue(q, Quiet())), t.pending)
  }

  // ---------- Every step keeps it ----------

  lemma {:induction false} RemainingThins(queue: seq<Item>, id: Id, truncate: bool, delta: uint16)
    ensures Thinned(R.Remaining(queue, id, truncate, delta), queue)
  {
    if queue != [] {
      RemainingThins(queue[1..], id, truncate, delta);
      var rest := R.Remaining(queue[1..], id, truncate, delta);
      assert ([queue[0]] + rest)[1..] == rest;
      assert [] + rest == rest;
    }
  }

  lemma {:induction false} Dropped(queue: seq<Item>, q: seq<Item>)
    requires queue != [] && queue[0].op.IsEdit() && Thinned(q, queue[1..])
    ensures Thinned(q, queue)
  {
  }

  /** What a confirmation leaves behind the front. */
  lemma {:induction false} ConfirmThins(s: Outbox, xid: Id, msgid: Id)
    requires Answered(s.queue, xid) && R.MayConfirm(s.queue, xid, msgid)
    ensures Thinned(Confirm(s, xid, msgid).queue, s.queue[1..])
  {
    hide R.Meets;
    R.ConfirmTurnsItsEdits(s, xid, msgid);
    ThinnedSame(Confirm(s, xid, msgid).queue, s.queue[1..]);
  }

  lemma {:induction false} ReceivedThins(s: Outbox, e: R.Event)
    requires Inv(s) && R.Allowed(s, e) && (TakesEdits(s, e) || TakesNew(s, e))
    ensures var q := R.Step(s, e).queue;
            && R.Step(s, e).last == s.last
            && (TakesEdits(s, e) ==> Thinned(q, s.queue)) && (TakesNew(s, e) ==> Thinned(q, s.queue[1..]))
  {
    hide Inv, Thinned, R.MayConfirm, Confirm;
    match e
    case OwnUpdate(id, truncate, delta) =>
      R.SupersedeFilters(s, 0, id, truncate, delta);
      SupersedeLast(s, 0, id, truncate, delta);
      assert s.queue[0..] == s.queue;
      assert s.queue[..0] + R.Remaining(s.queue, id, truncate, delta) == R.Remaining(s.queue, id, truncate, delta);
      RemainingThins(s.queue, id, truncate, delta);
    case Confirmed(xid, msgid) =>
      ThinnedSame(s.queue, s.queue);
      ConfirmLast(s, xid, msgid);
      if Answered(s.queue, xid) {
        ConfirmThins(s, xid, msgid);
        if !s.queue[0].op.IsNew() { Dropped(s.queue, Confirm(s, xid, msgid).queue); }
      }
    case Dropped(xid) =>
      ThinnedSame(s.queue, s.queue);
      if Answered(s.queue, xid) {
        assert RemoveAt(s, 0).queue == s.queue[1..];
        ThinnedSame(s.queue[1..], s.queue[1..]);
        if !s.queue[0].op.IsNew() { Dropped(s.queue, s.queue[1..]); }
      }
    case EditRejected(id) =>
      ThinnedSame(s.queue, s.queue);
      if RejectEdit(s, id).Accepted? {
        assert RemoveAt(s, 0).queue == s.queue[1..];
        ThinnedSame(s.queue[1..], s.queue[1..]);
        Dropped(s.queue, s.queue[1..]);
      }
  }

  lemma {:induction false} SupersedeLast(s: Outbox, k: nat, id: Id, truncate: bool, delta: uint16)
    ensures Supersede(s, k, id, truncate, delta).last == s.last
    decreases |s.queue| - k
  {
    if k < |s.queue| {
      if Superseded(s.queue[k], id, truncate, delta) {
        SupersedeLast(RemoveAt(s, k), k, id, truncate, delta);
      } else {
        SupersedeLast(s, k + 1, id, truncate, delta);
      }
    }
  }

  lemma {:induction false} ConfirmLast(s: Outbox, xid: Id, msgid: Id)
    ensures Confirm(s, xid, msgid).last == s.last
    ensures !Answered(s.queue, xid) ==> Confirm(s, xid, msgid) == s
  {
  }

  lemma {:induction false} InOrder(s: Outbox)
    requires Inv(s)
    ensures Ascending(s.queue) && Keyed(s.queue)
  {
  }

  lemma {:induction false} NoPost(s: Outbox, q: R.Event)
    requires TakesEdits(s, q) || TakesNew(s, q)
    ensures !S.Posts(q) && !q.Restarted? && !q.KeyConfirmed? && !q.Encrypted?
  {
  }

  /** Something other than a NEWKEYID is received. */
  lemma {:induction false} ReceivedKeeps(t: State, e: Event)
    requires TalkInv(t) && Allowed(t, e) && (e.Hears? || (e.Replies? && t.pending[0].Final?))
    ensures TalkInv(Step(t, e))
  {
    hide Inv, R.Allowed, R.Step, Thinned, Queued, KeysApart, TakesNew, TakesEdits, S.NextAfter, Tracks;
    var s, q := t.session.box, e.q;
    Receivable(t, q);
    S.StepKeeps(t.session, S.Queue(q, Quiet()));
    assert TakesEdits(s, q) || TakesNew(s, q);
    NoPost(s, q);
    ReceivedThins(s, q);
    var after := R.Step(s, q).queue;
    if e.Hears? {
      ThinnedKeys(after, s.queue);
      if t.session.online { TracksThinned(t.pending, s.queue, after); }
    } else {
      FinalKeeps(s, q, t.pending);
    }
  }

  lemma {:induction false} FinalKeeps(s: Outbox, q: R.Event, pending: seq<Answer>)
    requires Inv(s) && R.Allowed(s, q) && KeysApart(s.queue) && Tracks(pending, s.queue)
    requires pending != [] && pending[0].Final?
    requires TakesEdits(s, q) || (TakesNew(s, q) && s.queue[0].rowid == pending[0].rowid)
    ensures Tracks(pending[1..], R.Step(s, q).queue) && KeysApart(R.Step(s, q).queue)
  {
    hide Inv, R.Allowed, R.Step, Thinned, KeysApart, Tracks;
    var after := R.Step(s, q).queue;
    ReceivedThins(s, q);
    if TakesNew(s, q) {
      KeysTail(s.queue);
      FrontAnswered(pending, s.queue);
      ThinnedKeys(after, s.queue[1..]);
      TracksThinned(pending[1..], s.queue[1..], after);
    } else {
      ThinnedKeys(after, s.queue);
      TracksTail(pending, s.queue);
      TracksThinned(pending[1..], s.queue, after);
    }
  }

  /** The front leaves with its last answer. */
  lemma {:induction false} FrontAnswered(pending: seq<Answer>, queue: seq<Item>)
    requires Tracks(pending, queue) && pending != [] && queue != [] && pending[0] == Final(queue[0].rowid)
    ensures Tracks(pending[1..], queue[1..])
  {
    TracksTail(pending, queue);
    var tail := pending[1..];
    forall a | a in tail && a.KeyAnswer? ensures Carries(queue[1..], a.rowid, a.local) {
      var k :| 0 <= k < |queue| && queue[k].rowid == a.rowid && queue[k].key == Some(a.local);
      var j :| 0 <= j < |tail| && tail[j] == a;
      assert Before(pending[0], pending[j + 1]);
      assert k > 0;
      assert queue[1..][k - 1].rowid == a.rowid;
    }
    assert forall k :: 0 <= k < |queue| - 1 ==> queue[1..][k] == queue[k + 1];
  }

  /** A NEWKEYID clears the key that it finds at the front. */
  lemma {:induction false} KeyReplyKeeps(t: State, e: Event)
    requires TalkInv(t) && Allowed(t, e) && e.Replies? && t.pending[0].KeyAnswer?
    ensures TalkInv(Step(t, e))
  {
    hide Persisted, WellIded, R.OnlySealed, Tracks, KeysApart, InTurn;
    var s, q := t.session.box, e.q;
    Receivable(t, q);
    InOrder(s);
    S.KeysMeetCiphertexts(t.session, S.Queue(q, Quiet()));
    S.StepKeeps(t.session, S.Queue(q, Quiet()));
    var l := s.queue[0].key.value;
    var after := Map(s.queue, Rekey(l, q.keyid));
    assert R.Step(s, q).queue == after;
    KeyCleared(s.queue, l, q.keyid);
    forall a | a in t.pending[1..] && a.KeyAnswer? ensures a.local != l {
      OtherKey(t.pending, s.queue, a);
    }
    TracksKey(t.pending, s.queue, after);
  }

  lemma {:induction false} OtherKey(pending: seq<Answer>, queue: seq<Item>, a: Answer)
    requires Tracks(pending, queue) && KeysApart(queue) && Ascending(queue)
    requires pending != [] && pending[0].KeyAnswer? && queue != [] && a in pending[1..] && a.KeyAnswer?
    ensures Some(a.local) != queue[0].key
  {
    var j :| 0 <= j < |pending| - 1 && pending[1..][j] == a;
    assert pending[j + 1] == a && Before(pending[0], pending[j + 1]);
    assert pending[0] in pending;
    var k :| 0 <= k < |queue| && queue[k].rowid == a.rowid && queue[k].key == Some(a.local);
    var i :| 0 <= i < |queue| && queue[i].rowid == pending[0].rowid;
    assert i < k;
  }

  lemma {:induction false} KeyCleared(queue: seq<Item>, l: uint32, keyid: uint32)
    requires queue != [] && queue[0].key == Some(l) && Keyed(queue) && KeysApart(queue)
    ensures var q := Map(queue, Rekey(l, keyid));
            && KeysApart(q)
            && forall k :: 0 <= k < |q| && queue[k].key.Some? && queue[k].key != Some(l) ==> q[k].key == queue[k].key
  {
  }

  // ---------- The client's own steps ----------

  /** A post adds one item and leaves rowids and keys of the others alone. */
  lemma {:induction false} PostAppends(s: Outbox, q: R.Event)
    requires Inv(s) && R.Allowed(s, q) && S.Posts(q)
    ensures var t := R.Step(s, q);
            && t.last == s.last + 1 && |t.queue| == |s.queue| + 1 && t.queue[|s.queue|].rowid == t.last
            && forall k :: 0 <= k < |s.queue| ==> Alike(t.queue[k], s.queue[k]) && t.queue[k].op == s.queue[k].op
  {
    hide Persisted, Keyed, WellIded, R.MayPost;
    match q
    case EditedUnsent(k, content, typ, delta) => EditAppends(s, k, content, typ, delta);
    case _ =>
  }

  lemma {:induction false} EditAppends(s: Outbox, k: nat, content: seq<byte>, typ: byte, delta: uint16)
    requires k < |s.queue|
    ensures var t := EditUnsent(s, k, content, typ, delta);
            && t.last == s.last + 1 && |t.queue| == |s.queue| + 1 && t.queue[|s.queue|].rowid == t.last
            && forall j :: 0 <= j < |s.queue| ==> Alike(t.queue[j], s.queue[j]) && t.queue[j].op == s.queue[j].op
  {
    var q := s.queue[k := s.queue[k].(updated := delta)];
    var m := Map(q, Rewrite(s.queue[k].id, content));
    assert forall j :: 0 <= j < |m| ==> m[j] == Rewrite(s.queue[k].id, content)(q[j]);
    assert EditUnsent(s, k, content, typ, delta).queue[..|m|] == m;
  }

  /** A post while the client is logged in: what it does to the queue. */
  lemma {:induction false} PostShape(t: State, q: R.Event, crypto: S.Crypto)
    requires TalkInv(t) && Allowed(t, Does(S.Queue(q, crypto))) && S.Posts(q) && t.session.online
    ensures var u := Step(t, Does(S.Queue(q, crypto))); var n := |Queue(t)|;
            && u.session.online && u.session.box.last == t.session.box.last + 1
            && |Queue(u)| == n + 1 && Queue(u)[n].rowid == u.session.box.last
            && u.pending == t.pending + AnswersOf(Queue(u)[n])
            && forall k :: 0 <= k < n ==> Alike(Queue(u)[k], Queue(t)[k]) && Queue(u)[k].op == Queue(t)[k].op
  {
    hide Inv, R.Allowed, R.Step, KeysApart, AnswersOf, S.Sane, Tracks;
    var s := t.session.box;
    S.KeysMeetCiphertexts(t.session, S.Queue(q, crypto));
    R.StepKeeps(s, q);
    PostAppends(s, q);
    S.QueueStep(t.session, q);
    S.FlushSeals(R.Step(s, q), t.session.next, crypto);
  }

  lemma {:induction false} PostKeeps(t: State, q: R.Event, crypto: S.Crypto)
    requires TalkInv(t) && Allowed(t, Does(S.Queue(q, crypto))) && S.Posts(q) && t.session.online
    ensures TalkInv(Step(t, Does(S.Queue(q, crypto))))
  {
    hide Inv, R.Allowed, R.Step, Thinned, KeysApart, AnswersOf, S.Sane, Tracks, S.Step;
    S.StepKeeps(t.session, S.Queue(q, crypto));
    PostShape(t, q, crypto);
    var u := Step(t, Does(S.Queue(q, crypto)));
    var n := |Queue(t)|;
    assert Queue(u)[..n] + [Queue(u)[n]] == Queue(u);
    ThinnedSame(Queue(u)[..n], Queue(t));
    TracksThinned(t.pending, Queue(t), Queue(u)[..n]);
    RowsUpToLast(t.session.box);
    TracksAppend(t.pending, Queue(u)[..n], Queue(u)[n]);
    FinalOf(Queue(u)[n]);
  }

  lemma {:induction false} LoginKeeps(t: State, crypto: S.Crypto)
    requires TalkInv(t) && Allowed(t, Does(S.LoggedIn(crypto)))
    ensures TalkInv(Step(t, Does(S.LoggedIn(crypto))))
  {
    hide KeysApart, AnswersOf, S.Sane, Tracks, Keyed, WellIded, AnswersAll, Queued;
    S.StepKeeps(t.session, S.LoggedIn(crypto));
    var s := S.Step(t.session, S.LoggedIn(crypto));
    TracksAll(s.box.queue);
    AllAnswered(s.box.queue);
    RowsUpToLast(s.box);
  }

  lemma {:induction false} RowsUpToLast(s: Outbox)
    requires Inv(s)
    ensures forall r: nat :: Queued(s.queue, r) ==> r <= s.last
    ensures forall k :: 0 <= k < |s.queue| ==> s.queue[k].rowid <= s.last
  {
    hide Keyed, WellIded;
  }

  lemma {:induction false} StepKeeps(t: State, e: Event)
    requires TalkInv(t) && Allowed(t, e)
    ensures TalkInv(Step(t, e))
  {
    match e
    case Hears(_) => ReceivedKeeps(t, e);
    case Misses => TracksTail(t.pending, Queue(t));
    case Replies(_) => if t.pending[0].KeyAnswer? { KeyReplyKeeps(t, e); } else { ReceivedKeeps(t, e); }
    case Does(d) =>
      hide Inv, R.Allowed, R.Step, Tracks, KeysApart, S.Sane;
      S.StepKeeps(t.session, d);
      match d
      case LoggedIn(crypto) => LoginKeeps(t, crypto);
      case Disconnected =>
      case Queue(q, crypto) => if S.Posts(q) && t.session.online { PostKeeps(t, q, crypto); }
  }

  // ---------- Runs ----------

  ghost predicate AllowedRun(t: State, es: seq<Event>)
    requires TalkInv(t)
    decreases |es|
  {
    es != [] ==> Allowed(t, es[0]) && (StepKeeps(t, es[0]); AllowedRun(Step(t, es[0]), es[1..]))
  }

  ghost function Run(t: State, es: seq<Event>): State
    requires TalkInv(t) && AllowedRun(t, es)
    decreases |es|
  {
    if es == [] then t else (StepKeeps(t, es[0]); Run(Step(t, es[0]), es[1..]))
  }

  lemma {:induction false} RunKeeps(t: State, es: seq<Event>)
    requires TalkInv(t) && AllowedRun(t, es)
    ensures TalkInv(Run(t, es))
    decreases |es|
  {
    hide TalkInv, Step, Allowed;
    if es != [] {
      StepKeeps(t, es[0]);
      RunKeeps(Step(t, es[0]), es[1..]);
    }
  }

  /** A NEWKEYID is the next answer to come. */
  ghost predicate KeyIsNext(t: State) { t.session.online && t.pending != [] && t.pending[0].KeyAnswer? }

  ghost predicate CountsAgree(s: Outbox, local: uint32) {
    |R.RowsWhere(s.rows, (r: Row) => r.keyid == Some(local))| == |R.Rowids(s.queue, (i: Item) => i.keyid == local)| > 0
  }

  /** After any run, a NEWKEYID finds the key that it confirms at the front of the queue if and only if the
      front has not been answered yet; then the statement and the loop of `keyConfirm` change the same
      messages, the one at the front among them. */
  lemma {:induction false} NewKeyIdFindsItsKeyIff(t: State, es: seq<Event>)
    requires TalkInv(t) && AllowedRun(t, es) && KeyIsNext(Run(t, es))
    ensures var u := Run(t, es); var local := u.pending[0].local;
            && Queue(u) != []
            && (Queue(u)[0].key == Some(local) <==> Final(Queue(u)[0].rowid) in u.pending)
            && (Queue(u)[0].key == Some(local) ==> CountsAgree(u.session.box, local) && R.OnlySealed(Queue(u), local))
  {
    hide Run, AllowedRun, S.SessionInv, KeysApart, Tracks;
    RunKeeps(t, es);
    var u := Run(t, es);
    SessionOrder(u.session);
    FrontCarriesIff(u.pending, Queue(u));
    if Queue(u)[0].key == Some(u.pending[0].local) { S.CountsAgree(u.session); }
  }

  lemma {:induction false} SessionOrder(s: S.Session)
    requires S.SessionInv(s)
    ensures Inv(s.box) && Ascending(s.box.queue)
  {
  }

  // ---------- Answers that reach what they answer ----------

  /** Some item has been answered and is still queued. */
  ghost predicate LeftOver(pending: seq<Answer>, queue: seq<Item>) {
    exists k :: 0 <= k < |queue| && Final(queue[k].rowid) !in pending
  }

  /** Whatever is left over waits behind an edit of an unconfirmed message. */
  ghost predicate OnlyOrphansStay(t: State) {
    t.session.online && LeftOver(t.pending, Queue(t)) ==> Queue(t)[0].op == MsgUpdX
  }

  /** The answer is one to this item.  An edit is answered with a MSGUPD whatever command it was sent with,
      so that to a MSGUPDX may name the id that the message has been given meanwhile. */
  predicate Fits(i: Item, q: R.Event) {
    match i.op
    case MsgUpdX => q.OwnUpdate? || q == R.EditRejected(i.id)
    case MsgUpd => (q.OwnUpdate? && Superseded(i, q.id, q.truncate, q.delta)) || q == R.EditRejected(i.id)
    case _ => (q.Confirmed? || q.Dropped?) && q.xid == i.id
  }

  /** Answers fit, no other chat takes them, and an edit that is left over at the front is not taken away.  A
      rejected NEWKEY misses its message in any case. */
  ghost predicate Reaches(t: State, e: Event)
    requires TalkInv(t) && Allowed(t, e)
  {
    match e
    case Does(_) => true
    case Misses => t.pending[0].KeyAnswer?
    case Hears(q) => LeftOver(t.pending, Queue(t)) ==> !R.Frees(q, Queue(t)[0].id)
    case Replies(q) =>
      && (LeftOver(t.pending, Queue(t)) ==> !R.Frees(q, Queue(t)[0].id))
      && (t.pending[0].Final? ==>
            forall k :: 0 <= k < |Queue(t)| && Queue(t)[k].rowid == t.pending[0].rowid ==> Fits(Queue(t)[k], q))
  }

  /** Rowids that are queued after a step that answers nothing were awaited, if they were before. */
  lemma {:induction false} LessLeftOver(pending: seq<Answer>, queue: seq<Item>, q: seq<Item>)
    requires !LeftOver(pending, queue) && Thinned(q, queue)
    ensures !LeftOver(pending, q)
  {
    hide Thinned;
    forall k | 0 <= k < |q| ensures Final(q[k].rowid) in pending {
      assert Queued(q, q[k].rowid);
      ThinnedRowids(q, queue, q[k].rowid);
    }
  }

  /** The item that is answered is the front, unless something is left over. */
  lemma {:induction false} AnswersTheFront(pending: seq<Answer>, queue: seq<Item>, k: nat)
    requires Tracks(pending, queue) && Ascending(queue) && pending != [] && pending[0].Final?
    requires !LeftOver(pending, queue) && k < |queue| && queue[k].rowid == pending[0].rowid
    ensures k == 0
  {
    var j :| 0 <= j < |pending| && pending[j] == Final(queue[0].rowid);
    assert j == 0 || Before(pending[0], pending[j]);
  }

  /** An answer that fits the front takes it out of the queue, if it is no edit of an unconfirmed message. */
  lemma {:induction false} FitTakesFront(s: Outbox, q: R.Event)
    requires Inv(s) && R.Allowed(s, q) && s.queue != [] && Fits(s.queue[0], q)
    ensures var u := R.Step(s, q).queue;
            Thinned(u, s.queue[1..]) || (u != [] && s.queue[0].op == MsgUpdX && u[0] == s.queue[0])
  {
    hide Inv, Thinned, R.MayConfirm, Confirm;
    match q
    case OwnUpdate(id, truncate, delta) =>
      R.SupersedeFilters(s, 0, id, truncate, delta);
      assert s.queue[0..] == s.queue && s.queue[..0] == [];
      if Superseded(s.queue[0], id, truncate, delta) {
        RemainingThins(s.queue[1..], id, truncate, delta);
        assert R.Step(s, q).queue == R.Remaining(s.queue[1..], id, truncate, delta);
      }
    case Confirmed(xid, msgid) => ConfirmThins(s, xid, msgid);
    case Dropped(xid) =>
      assert RemoveAt(s, 0).queue == s.queue[1..];
      ThinnedSame(s.queue[1..], s.queue[1..]);
    case EditRejected(id) =>
      assert RemoveAt(s, 0).queue == s.queue[1..];
      ThinnedSame(s.queue[1..], s.queue[1..]);
  }

  /** The answer to an item has come, and nothing was left over before. */
  lemma {:induction false} FinalReaches(s: Outbox, q: R.Event, pending: seq<Answer>)
    requires Inv(s) && R.Allowed(s, q) && (TakesEdits(s, q) || TakesNew(s, q))
    requires Tracks(pending, s.queue) && pending != [] && pending[0].Final? && !LeftOver(pending, s.queue)
    requires forall k :: 0 <= k < |s.queue| && s.queue[k].rowid == pending[0].rowid ==> Fits(s.queue[k], q)
    requires TakesNew(s, q) ==> s.queue[0].rowid == pending[0].rowid
    ensures var u := R.Step(s, q).queue; LeftOver(pending[1..], u) ==> u[0].op == MsgUpdX
  {
    hide Inv, R.Allowed, R.Step, Thinned, Fits, TakesNew, TakesEdits, Tracks;
    InOrder(s);
    var r, u := pending[0].rowid, R.Step(s, q).queue;
    if Queued(s.queue, r) {
      var k :| 0 <= k < |s.queue| && s.queue[k].rowid == r;
      AnswersTheFront(pending, s.queue, k);
      FitTakesFront(s, q);
      if Thinned(u, s.queue[1..]) {
        assert forall j :: 0 <= j < |s.queue| - 1 ==> s.queue[1..][j] == s.queue[j + 1];
        StillAwaited(pending, s.queue[1..]);
        LessLeftOver(pending[1..], s.queue[1..], u);
      }
    } else {
      NotNew(s, q, r);
      ReceivedThins(s, q);
      StillAwaited(pending, s.queue);
      LessLeftOver(pending[1..], s.queue, u);
    }
  }

  lemma {:induction false} NotNew(s: Outbox, q: R.Event, r: nat)
    requires (TakesNew(s, q) ==> s.queue[0].rowid == r) && !Queued(s.queue, r)
    ensures !TakesNew(s, q)
  {
  }

  /** The oldest answer has come, and its item is not queued. */
  lemma {:induction false} StillAwaited(pending: seq<Answer>, queue: seq<Item>)
    requires pending != [] && forall k :: 0 <= k < |queue| ==> Final(queue[k].rowid) in pending
    requires pending[0].Final? ==> forall k :: 0 <= k < |queue| ==> queue[k].rowid != pending[0].rowid
    ensures !LeftOver(pending[1..], queue)
  {
    forall k | 0 <= k < |queue| ensures Final(queue[k].rowid) in pending[1..] {
      InTail(pending, Final(queue[k].rowid));
    }
  }

  lemma {:induction false} ReceivedStep(t: State, e: Event)
    requires TalkInv(t) && Allowed(t, e) && (e.Hears? || (e.Replies? && t.pending[0].Final?))
    ensures var s, u := t.session.box, Step(t, e);
            && Inv(s) && R.Allowed(s, e.q) && (TakesEdits(s, e.q) || TakesNew(s, e.q))
            && (TakesNew(s, e.q) ==> e.Replies? && s.queue[0].rowid == t.pending[0].rowid)
            && u.session.box == R.Step(s, e.q) && u.session.online == t.session.online
            && u.pending == if e.Hears? then t.pending else t.pending[1..]
  {
    hide Inv, R.Allowed, R.Step, KeysApart, Tracks, S.NextAfter;
    var s, q := t.session.box, e.q;
    Receivable(t, q);
    NoPost(s, q);
  }

  lemma {:induction false} OrphanStays(t: State, e: Event)
    requires TalkInv(t) && Allowed(t, e) && Reaches(t, e) && (e.Hears? || (e.Replies? && t.pending[0].Final?))
    requires LeftOver(t.pending, Queue(t)) && Queue(t)[0].op == MsgUpdX
    ensures Queue(Step(t, e)) != [] && Queue(Step(t, e))[0].op == MsgUpdX
  {
    hide Inv, R.Allowed, R.Step, R.Frees, TakesNew, TakesEdits, Fits, Step;
    var s, q := t.session.box, e.q;
    ReceivedStep(t, e);
    R.StuckStep(s, q, s.queue[0].id, s.queue[0].rowid);
  }

  lemma {:induction false} ReceivedReaches(t: State, e: Event)
    requires TalkInv(t) && Allowed(t, e) && Reaches(t, e) && OnlyOrphansStay(t)
    requires e.Hears? || (e.Replies? && t.pending[0].Final?)
    ensures OnlyOrphansStay(Step(t, e))
  {
    hide Inv, R.Allowed, R.Step, R.Frees, TakesNew, TakesEdits, Fits, Thinned, LeftOver, Step, Tracks;
    var s, q := t.session.box, e.q;
    ReceivedStep(t, e);
    if t.session.online {
      if LeftOver(t.pending, s.queue) {
        OrphanStays(t, e);
      } else if e.Hears? {
        ReceivedThins(s, q);
        LessLeftOver(t.pending, s.queue, R.Step(s, q).queue);
      } else {
        FinalReaches(s, q, t.pending);
      }
    }
  }

  /** A key is confirmed or rejected: rowids stay, and so do the answers to messages and edits. */
  lemma {:induction false} KeyAnswered(pending: seq<Answer>, queue: seq<Item>, q: seq<Item>)
    requires pending != [] && pending[0].KeyAnswer? && R.SameIds(queue, q)
    ensures LeftOver(pending[1..], q) <==> LeftOver(pending, queue)
  {
    forall r: nat ensures Final(r) in pending[1..] <==> Final(r) in pending {
      if Final(r) in pending { InTail(pending, Final(r)); }
    }
    if LeftOver(pending, queue) {
      var k :| 0 <= k < |queue| && Final(queue[k].rowid) !in pending;
      assert Final(q[k].rowid) !in pending[1..];
    }
  }

  lemma {:induction false} KeyReaches(t: State, e: Event)
    requires TalkInv(t) && Allowed(t, e) && OnlyOrphansStay(t)
    requires (e.Replies? || e.Misses?) && t.pending[0].KeyAnswer?
    ensures OnlyOrphansStay(Step(t, e))
  {
    hide Inv, KeysApart, Tracks, KeyConfirm, LeftOver;
    var s := t.session.box;
    if e.Replies? {
      Receivable(t, e.q);
      S.KeysMeetCiphertexts(t.session, S.Queue(e.q, Quiet()));
      R.KeyConfirmKeeps(s, e.q.keyid);
      KeyAnswered(t.pending, s.queue, KeyConfirm(s, e.q.keyid).queue);
    } else {
      KeyAnswered(t.pending, s.queue, s.queue);
    }
  }

  lemma {:induction false} PostReaches(t: State, q: R.Event, crypto: S.Crypto)
    requires TalkInv(t) && Allowed(t, Does(S.Queue(q, crypto))) && S.Posts(q) && t.session.online
    requires OnlyOrphansStay(t)
    ensures OnlyOrphansStay(Step(t, Does(S.Queue(q, crypto))))
  {
    hide TalkInv, Allowed, Step, AnswersOf;
    PostShape(t, q, crypto);
    var u := Step(t, Does(S.Queue(q, crypto)));
    var n := |Queue(t)|;
    FinalOf(Queue(u)[n]);
    if LeftOver(u.pending, Queue(u)) {
      var k :| 0 <= k < |Queue(u)| && Final(Queue(u)[k].rowid) !in u.pending;
      assert k < n && Final(Queue(t)[k].rowid) !in t.pending;
    }
  }

  lemma {:induction false} LoginReaches(t: State, crypto: S.Crypto)
    requires TalkInv(t) && Allowed(t, Does(S.LoggedIn(crypto)))
    ensures OnlyOrphansStay(Step(t, Does(S.LoggedIn(crypto))))
  {
    hide KeysApart, Tracks, AnswersAll, S.Sane, Keyed, WellIded;
    S.StepKeeps(t.session, S.LoggedIn(crypto));
    AllAnswered(S.Step(t.session, S.LoggedIn(crypto)).box.queue);
  }

  lemma {:induction false} StepReaches(t: State, e: Event)
    requires TalkInv(t) && Allowed(t, e) && Reaches(t, e) && OnlyOrphansStay(t)
    ensures OnlyOrphansStay(Step(t, e))
  {
    match e
    case Hears(_) => ReceivedReaches(t, e);
    case Misses => KeyReaches(t, e);
    case Replies(_) => if t.pending[0].KeyAnswer? { KeyReaches(t, e); } else { ReceivedReaches(t, e); }
    case Does(d) =>
      hide TalkInv, S.SessionInv, R.Allowed, R.Step, Tracks, KeysApart, S.Sane, LeftOver;
      match d
      case LoggedIn(crypto) => LoginReaches(t, crypto);
      case Disconnected =>
      case Queue(q, crypto) => if S.Posts(q) && t.session.online { PostReaches(t, q, crypto); }
  }

  ghost predicate ReachingRun(t: State, es: seq<Event>)
    requires TalkInv(t) && AllowedRun(t, es)
    decreases |es|
  {
    es != [] ==> Reaches(t, es[0]) && (StepKeeps(t, es[0]); ReachingRun(Step(t, es[0]), es[1..]))
  }

  lemma {:induction false} RunReaches(t: State, es: seq<Event>)
    requires TalkInv(t) && AllowedRun(t, es) && ReachingRun(t, es) && OnlyOrphansStay(t)
    ensures OnlyOrphansStay(Run(t, es))
    decreases |es|
  {
    hide TalkInv, Step, Allowed, Reaches, OnlyOrphansStay;
    if es != [] {
      StepKeeps(t, es[0]);
      StepReaches(t, es[0]);
      RunReaches(Step(t, es[0]), es[1..]);
    }
  }

  /** As long as answers reach what they answer, the one thing that keeps a NEWKEYID from its key is an edit
      whose message was answered with MSGID: the front carries the key if and only if it is no MSGUPDX.
      `OnlyOrphansStay` holds of every client that is not logged in. */
  lemma {:induction false} NewKeyIdMeetsNoOrphanIff(t: State, es: seq<Event>)
    requires TalkInv(t) && AllowedRun(t, es) && ReachingRun(t, es) && OnlyOrphansStay(t) && KeyIsNext(Run(t, es))
    ensures var u := Run(t, es);
            Queue(u) != [] && (Queue(u)[0].key == Some(u.pending[0].local) <==> Queue(u)[0].op != MsgUpdX)
  {
    hide Run, AllowedRun, ReachingRun, S.SessionInv, Tracks;
    RunKeeps(t, es);
    RunReaches(t, es);
    var u := Run(t, es);
    SessionOrder(u.session);
    FrontCarriesIff(u.pending, Queue(u));
  }
}
