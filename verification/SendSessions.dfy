/** When messages are encrypted (src/chatd.cpp:3644-3661, 4182-4198 and 6012-6015).  A flush goes from
    `mNextUnsent` to the end of the queue, and only a logged-in client flushes: after each post, and from
    the start of the queue when the join completes.  Every `msgEncrypt` answers at once here.

    A key is confirmed on the connection that announced it, so the confirmation finds no message that is
    not encrypted, and the two counts of `keyConfirm` agree.  `SendAnswers` adds the answers of the server. */
module SendSessions {
  import opened ChatTypes
  import opened SendQueue
  import R = SendQueueRuns

  /** What `msgEncrypt` returns for a message: its key id, and the key to announce with it. */
  datatype Cipher = Cipher(keyid: uint32, key: Option<uint32>)

  /** The answers of the crypto module, by position in the queue. */
  type Crypto = nat -> Cipher

  ghost predicate Sane(crypto: Crypto) {
    forall k :: crypto(k).key.Some? ==> crypto(k).key.value == crypto(k).keyid
  }

  datatype Session = Session(
    box: Outbox,
    online: bool,
    next: nat)      // mNextUnsent, as a position in the queue

  datatype Event =
    | Queue(e: R.Event, crypto: Crypto)
    | LoggedIn(crypto: Crypto)
    | Disconnected

  ghost predicate AllSealed(queue: seq<Item>, n: nat) {
    forall k :: 0 <= k < |queue| && k < n ==> queue[k].sealed
  }

  /** While the client is logged in, nothing is left to flush. */
  ghost predicate SessionInv(s: Session) {
    Inv(s.box) && (s.online ==> s.next == |s.box.queue| && AllSealed(s.box.queue, s.next))
  }

  // ---------- Flush ----------

  /** `flushOutputQueue` from position `k`. */
  ghost function Flush(s: Outbox, k: nat, crypto: Crypto): Outbox
    requires Inv(s) && Sane(crypto)
    decreases |s.queue| - k
  {
    if k >= |s.queue| then s else
    R.SealKeeps(s, k, crypto(k).keyid, crypto(k).key);
    Flush(Seal(s, k, crypto(k).keyid, crypto(k).key), k + 1, crypto)
  }

  lemma {:induction false} FlushSeals(s: Outbox, k: nat, crypto: Crypto)
    requires Inv(s) && Sane(crypto) && AllSealed(s.queue, k)
    ensures var t := Flush(s, k, crypto);
            && Inv(t) && |t.queue| == |s.queue| && AllSealed(t.queue, |t.queue|) && t.last == s.last
            && (forall j :: 0 <= j < |s.queue| && j < k ==> t.queue[j] == s.queue[j])
            && (forall j :: 0 <= j < |s.queue| ==> t.queue[j].rowid == s.queue[j].rowid)
    decreases |s.queue| - k
  {
    hide Inv;
    if k < |s.queue| {
      R.SealKeeps(s, k, crypto(k).keyid, crypto(k).key);
      FlushSeals(Seal(s, k, crypto(k).keyid, crypto(k).key), k + 1, crypto);
    }
  }

  /** A flush encrypts every item from position `k` on that is not encrypted yet, each as `msgEncrypt` says, and
      leaves the others as they are. */
  lemma {:induction false} FlushEncrypts(s: Outbox, k: nat, crypto: Crypto)
    requires Inv(s) && Sane(crypto)
    ensures var q := Flush(s, k, crypto).queue;
            && |q| == |s.queue| && Flush(s, k, crypto).last == s.last
            && forall j :: 0 <= j < |q| ==>
                 q[j] == if j < k || s.queue[j].sealed then s.queue[j]
                         else s.queue[j].(keyid := crypto(j).keyid, sealed := true, key := crypto(j).key)
    decreases |s.queue| - k
  {
    hide Inv;
    if k < |s.queue| {
      R.SealKeeps(s, k, crypto(k).keyid, crypto(k).key);
      FlushEncrypts(Seal(s, k, crypto(k).keyid, crypto(k).key), k + 1, crypto);
    }
  }

  // ---------- Steps ----------

  predicate Posts(e: R.Event) { e.Submit? || e.EditedUnsent? || e.EditedSent? }

  /** Where `mNextUnsent` stands after an event that posts nothing: before the same item as far as it is
      still queued. */
  function NextAfter(s: Outbox, e: R.Event, next: nat): nat {
    match e
    case Confirmed(xid, _) => if Answered(s.queue, xid) && next > 0 then next - 1 else next
    case Dropped(xid) => if Answered(s.queue, xid) && next > 0 then next - 1 else next
    case EditRejected(id) => if RejectEdit(s, id).Accepted? && next > 0 then next - 1 else next
    case OwnUpdate(id, truncate, delta) =>
      |R.Remaining(if next < |s.queue| then s.queue[..next] else s.queue, id, truncate, delta)|
    case _ => next
  }

  /** As `SendQueueRuns.Allowed`, but messages are encrypted by flushes alone, and a NEWKEYID is taken as it
      comes, provided that it comes on a connection and finds a key at the front. */
  ghost predicate Allowed(s: Session, e: Event)
    requires SessionInv(s)
  {
    match e
    case Queue(e, crypto) =>
      Sane(crypto) && !e.Encrypted?
      && (if e.KeyConfirmed? then s.online && (s.box.queue == [] || s.box.queue[0].key.Some?) else R.Allowed(s.box, e))
    case LoggedIn(crypto) => Sane(crypto)
    case Disconnected => true
  }

  /** The confirmation of a key never meets a message that is not encrypted yet. */
  lemma {:induction false} KeysMeetCiphertexts(s: Session, e: Event)
    requires SessionInv(s) && Allowed(s, e) && e.Queue?
    ensures R.Allowed(s.box, e.e)
  {
  }

  ghost function Step(s: Session, e: Event): Session
    requires SessionInv(s) && Allowed(s, e)
  {
    match e
    case Queue(q, crypto) =>
      KeysMeetCiphertexts(s, e);
      R.StepKeeps(s.box, q);
      var t := R.Step(s.box, q);
      if q.Restarted? then Session(t, false, 0)
      else if !Posts(q) then Session(t, s.online, NextAfter(s.box, q, s.next))
      else if s.online then Session(Flush(t, s.next, crypto), true, |t.queue|)
      else Session(t, false, s.next)
    case LoggedIn(crypto) => Session(Flush(s.box, 0, crypto), true, |s.box.queue|)
    case Disconnected => s.(online := false)
  }

  lemma {:induction false} StepKeeps(s: Session, e: Event)
    requires SessionInv(s) && Allowed(s, e)
    ensures SessionInv(Step(s, e))
  {
    hide Inv, R.Step, R.Allowed, Sane, NextAfter;
    match e
    case LoggedIn(crypto) => FlushSeals(s.box, 0, crypto);
    case Disconnected =>
    case Queue(q, crypto) =>
      KeysMeetCiphertexts(s, e);
      R.StepKeeps(s.box, q);
      if s.online && !q.Restarted? {
        QueueStep(s, q);
        if Posts(q) { FlushSeals(R.Step(s.box, q), s.next, crypto); }
      }
  }

  /** No event unseals an item, and `mNextUnsent` stays at the end of the queue, or at the item posted. */
  lemma {:induction false} QueueStep(s: Session, q: R.Event)
    requires SessionInv(s) && s.online && R.Allowed(s.box, q) && !q.Restarted? && !q.Encrypted?
    ensures var t := R.Step(s.box, q).queue;
            AllSealed(t, s.next) && (!Posts(q) ==> NextAfter(s.box, q, s.next) == |t| && AllSealed(t, |t|))
  {
    hide Persisted, Keyed, WellIded, R.MayPost, R.MayConfirm, R.OnlySealed;
    match q
    case OwnUpdate(id, truncate, delta) =>
      R.SupersedeFilters(s.box, 0, id, truncate, delta);
      assert s.box.queue[0..] == s.box.queue && s.box.queue[..0] == [];
      RemainingSealed(s.box.queue, id, truncate, delta);
    case Confirmed(_, _) =>
      assert s.box.queue != [] ==> forall k :: 0 <= k < |s.box.queue| - 1 ==> s.box.queue[1..][k].sealed;
    case EditedUnsent(k, content, typ, delta) => EditedSealed(s.box, k, content, typ, delta);
    case _ =>
  }

  lemma {:induction false} EditedSealed(s: Outbox, k: nat, content: seq<byte>, typ: byte, delta: uint16)
    requires k < |s.queue| && AllSealed(s.queue, |s.queue|)
    ensures AllSealed(EditUnsent(s, k, content, typ, delta).queue, |s.queue|)
  {
    var q := s.queue[k := s.queue[k].(updated := delta)];
    var m := Map(q, Rewrite(s.queue[k].id, content));
    assert forall j :: 0 <= j < |m| ==> m[j] == Rewrite(s.queue[k].id, content)(q[j]);
    assert EditUnsent(s, k, content, typ, delta).queue[..|m|] == m;
  }

  lemma {:induction false} RemainingSealed(queue: seq<Item>, id: Id, truncate: bool, delta: uint16)
    requires AllSealed(queue, |queue|)
    ensures AllSealed(R.Remaining(queue, id, truncate, delta), |R.Remaining(queue, id, truncate, delta)|)
  {
    if queue != [] {
      RemainingSealed(queue[1..], id, truncate, delta);
    }
  }

  // ---------- Runs ----------

  ghost predicate AllowedRun(s: Session, es: seq<Event>)
    requires SessionInv(s)
    decreases |es|
  {
    es != [] ==> Allowed(s, es[0]) && (StepKeeps(s, es[0]); AllowedRun(Step(s, es[0]), es[1..]))
  }

  ghost function Run(s: Session, es: seq<Event>): Session
    requires SessionInv(s) && AllowedRun(s, es)
    decreases |es|
  {
    if es == [] then s else (StepKeeps(s, es[0]); Run(Step(s, es[0]), es[1..]))
  }

  lemma {:induction false} RunKeeps(s: Session, es: seq<Event>)
    requires SessionInv(s) && AllowedRun(s, es)
    ensures SessionInv(Run(s, es))
    decreases |es|
  {
    hide SessionInv, Step, Allowed;
    if es != [] {
      StepKeeps(s, es[0]);
      RunKeeps(Step(s, es[0]), es[1..]);
    }
  }

  /** Where a key is at the front, the statement and the loop of `keyConfirm` change the same messages, and at
      least the one at the front. */
  lemma {:induction false} CountsAgree(s: Session)
    requires SessionInv(s) && s.online && s.box.queue != [] && s.box.queue[0].key.Some?
    ensures var local := s.box.queue[0].key.value;
            && |R.RowsWhere(s.box.rows, (r: Row) => r.keyid == Some(local))|
               == |R.Rowids(s.box.queue, (i: Item) => i.keyid == local)| > 0
            && R.OnlySealed(s.box.queue, local)
  {
    hide Persisted, WellIded;
    var local := s.box.queue[0].key.value;
    R.KeyCountsAgreeIff(s.box, local);
    assert s.box.queue[0].rowid in R.Rowids(s.box.queue, (i: Item) => i.keyid == local);
  }

  /** After any run, a NEWKEYID that finds a key at the front finds the counts equal. */
  lemma {:induction false} KeyCountsAgree(s: Session, es: seq<Event>)
    requires SessionInv(s) && AllowedRun(s, es)
    requires var t := Run(s, es); t.online && t.box.queue != [] && t.box.queue[0].key.Some?
    ensures var t := Run(s, es);
            var local := t.box.queue[0].key.value;
            && |R.RowsWhere(t.box.rows, (r: Row) => r.keyid == Some(local))|
               == |R.Rowids(t.box.queue, (i: Item) => i.keyid == local)| > 0
            && R.OnlySealed(t.box.queue, local)
  {
    hide Run, AllowedRun, SessionInv;
    RunKeeps(s, es);
    CountsAgree(Run(s, es));
  }
}
