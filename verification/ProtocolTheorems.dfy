/** The guarantees of the replication protocol, for every run from a fresh installation. */
module ProtocolTheorems {
  import opened ChatTypes
  import opened Protocol
  import opened ProtocolInvariant
  import opened ProtocolRuns
  import opened ProtocolClaims

  lemma {:induction false} StartInv()
    ensures Inv(START) && Claims(START)
  {
    assert Collect(AnswerOf, START.down) == [] && Collect(CountOf, START.up) == [];
  }

  lemma {:induction false} Reachable(es: seq<Event>)
    ensures Inv(Run(START, es)) && Claims(Run(START, es))
  {
    hide Inv, Claims;
    StartInv();
    RunClaims(START, es);
  }

  /** Log slice: what the client stores is a contiguous run of the server log, in log order and
      without duplicates. */
  lemma {:induction false} HistoryIsLogSlice(es: seq<Event>)
    ensures var s := Run(START, es);
            && s.low + |s.client.history| <= |s.log|
            && s.client.history == Ids(s.log[s.low..s.low + |s.client.history|])
            && forall i, j :: 0 <= i < j < |s.client.history| ==> s.client.history[i] != s.client.history[j]
  {
    hide ChannelInv, HistInv, Run, Claims, QueueInv, LeftInv;
    Reachable(es);
    var s := Run(START, es);
    forall i, j | 0 <= i < j < |s.client.history| ensures s.client.history[i] != s.client.history[j] {
      assert s.client.history[i] == s.log[s.low + i].id && s.client.history[j] == s.log[s.low + j].id;
    }
  }

  ghost predicate OccursOnce(history: seq<Id>, id: Id) {
    exists k :: 0 <= k < |history| && history[k] == id && forall m :: 0 <= m < |history| && history[m] == id ==> m == k
  }

  /** Exactly once.  A msgxid is in the log at most once.  A submitted message is in the queue, or
      it left it, and then the server has written it under the id the client was told.  That id is in
      the stored history exactly once, except for the messages that were cut off, of which it has none. */
  lemma {:induction false} ExactlyOnce(es: seq<Event>, x: Xid)
    requires x in Run(START, es).used
    ensures var s := Run(START, es);
            && (forall i, j ::
                  0 <= i < |s.log| && 0 <= j < |s.log| && s.log[i].origin == Own(x) == s.log[j].origin ==> i == j)
            && (x in s.client.sending <==> x !in s.client.left)
            && (x in s.client.left ==>
                  && HasXid(s.log, x) && s.log[IndexOfXid(s.log, x)].id == s.client.left[x]
                  && (x !in s.cut ==> OccursOnce(s.client.history, s.client.left[x]))
                  && (x in s.cut ==> s.client.left[x] !in s.client.history))
  {
    hide ChannelInv, HistInv, Claims, Run;
    Reachable(es);
    var s := Run(START, es);
    if x in s.client.left {
      var id := s.client.left[x];
      assert Written(s.log, High(s), x, id);
      var j :| 0 <= j < High(s) && j < |s.log| && s.log[j] == Entry(id, Own(x));
      assert IndexOfXid(s.log, x) == j;
      CutIsBelow(s, x, j);
      if j >= s.low {
        OnceInSlice(s, j);
      } else {
        forall k | 0 <= k < |s.client.history| ensures s.client.history[k] != id {
          assert s.client.history[k] == s.log[s.low + k].id;
        }
      }
    }
  }

  /** A message that left the queue was cut off exactly when it is older than the stored history. */
  lemma {:induction false} CutIsBelow(s: System, x: Xid, j: nat)
    requires Inv(s) && Claims(s) && x in s.client.left && j < |s.log| && s.log[j].origin == Own(x)
    ensures x in s.cut <==> j < s.low
  {
    hide Slice, QueueInv, LeftInv, Delivers, Kinds, Answers, Sends, OwnBelow, Arriving, FinalLow;
    assert s.client.history != [];
    CursorBounds(s);
    OwnBelowIs(s.log, s.used, s.low, x, j);
    OwnBelowIs(s.log, s.used, FinalLow(s), x, j);
    if s.cursor.None? {
      OfflineLow(s);
    } else if !s.client.fetchingOld {
      if s.client.online.LoggedIn? {
        NoBacklog(s.down, s.client.fetches, Kinds(s.up), s.log, s.low, s.cursor.value);
      }
      LevelLow(s);
    } else {
      OwnBelowShrinks(s.log, FinalLow(s), s.low);
    }
  }

  lemma {:induction false} LevelLow(s: System)
    requires s.cursor == Some(s.low) && HistCounts(s.up) == []
    ensures FinalLow(s) == s.low
  {
  }

  lemma {:induction false} OwnBelowIs(log: seq<Entry>, used: set<Xid>, n: nat, x: Xid, j: nat)
    requires LogInv(log, used) && j < |log| && log[j].origin == Own(x)
    ensures x in OwnBelow(log, n) <==> j < n
  {
  }

  lemma {:induction false} OnceInSlice(s: System, j: nat)
    requires LogInv(s.log, s.used) && Slice(s.client.history, s.log, s.low) && s.low <= j < High(s)
    ensures OccursOnce(s.client.history, s.log[j].id)
  {
    var h := s.client.history;
    assert h[j - s.low] == s.log[j].id;
    forall m | 0 <= m < |h| && h[m] == s.log[j].id ensures m == j - s.low {
      assert h[m] == s.log[s.low + m].id;
    }
  }

  /** Unless the client claims the whole history too early, every message that leaves the queue is
      stored exactly once, the first message of a new chat included. */
  lemma {:induction false} UnsuspectedExactlyOnce(es: seq<Event>, x: Xid)
    requires var s := Run(START, es); x in s.client.left && !s.suspect
    ensures OccursOnce(Run(START, es).client.history, Run(START, es).client.left[x])
  {
    hide ChannelInv, HistInv, Run, OccursOnce, OwnBelow, FinalLow;
    Reachable(es);
    var s := Run(START, es);
    NoOwnBelow(s.log);
    ExactlyOnce(es, x);
  }

  lemma {:induction false} NoOwnBelow(log: seq<Entry>)
    ensures OwnBelow(log, 0) == {}
  {
  }

  /** A JOIN cuts messages off exactly when the client already claims the whole history and the log holds
      an own message below the batch of 32 that the JOIN brings. */
  lemma {:induction false} JoinCutsIff(es: seq<Event>, newId: Id, attachments: seq<Id>)
    requires var s := Run(START, es); s.up != [] && s.up[0].Join? && s.cursor.None?
    ensures var s := Run(START, es); var t := Step(s, Serve(newId, attachments));
            && (t.cut != {} <==>
                  s.client.haveAll && exists i :: 0 <= i < |s.log| - INITIAL_FETCH && s.log[i].origin.Own?)
            && (t.suspect <==> s.client.haveAll && |s.log| > INITIAL_FETCH)
  {
    hide HistInv, Run, Routed, Delivers, Retreats, Kinds, Answers, Sends, OwnBelow, FinalLow;
    Reachable(es);
    var s := Run(START, es);
    var n := |s.log| - HistReplySize(INITIAL_FETCH, |s.log|);
    if !s.client.haveAll { OwnBelowAll(s.log, n); }
    OwnBelowIff(s.log, n);
    if !s.client.haveAll { OwnBelowIff(s.log, |s.log|); }
  }

  /** A connection that is lost leaves own messages cut off exactly when the client claims the whole history
      and one of them is older than what it has received; the claim is suspect exactly when anything is. */
  lemma {:induction false} DisconnectCutsIff(es: seq<Event>)
    requires Run(START, es).client.history != []
    ensures var s := Run(START, es); var t := Step(s, Disconnect);
            && (t.cut != {} <==> s.client.haveAll && exists i :: 0 <= i < s.low && i < |s.log| && s.log[i].origin.Own?)
            && (s.client.haveAll ==> (t.suspect <==> s.low > 0))
  {
    hide Run, Inv, HistInv, ChannelInv, JoinInv, OwnBelow, FinalLow, Arriving;
    Reachable(es);
    var s := Run(START, es);
    var t := Step(s, Disconnect);
    DisconnectKeepsLow(s);
    DisconnectClaims(s);
    OwnBelowIff(s.log, s.low);
  }

  lemma {:induction false} DisconnectKeepsLow(s: System)
    requires Inv(s)
    ensures var t := Step(s, Disconnect);
            && FinalLow(t) == t.low == s.low <= |s.log| && t.log == s.log
            && t.client.haveAll == s.client.haveAll && t.client.history == s.client.history
  {
    hide Inv, FinalLow, Arriving, OwnBelow;
    CursorBounds(s);
    OfflineLow(Step(s, Disconnect));
  }

  lemma {:induction false} OwnBelowIff(log: seq<Entry>, n: nat)
    requires n <= |log|
    ensures OwnBelow(log, n) != {} <==> exists i :: 0 <= i < n && log[i].origin.Own?
  {
    if i :| 0 <= i < n && log[i].origin.Own? { assert log[i].origin.xid in OwnBelow(log, n); }
  }

  /** Nothing is left unsettled when no request or reply is in flight and the client is logged in:
      every submitted message has left the queue, and the stored history reaches the end of the log. */
  lemma {:induction false} QuiescentIsComplete(es: seq<Event>)
    requires var s := Run(START, es); s.client.online.LoggedIn? && s.up == [] && s.down == []
    ensures var s := Run(START, es);
            s.client.sending == [] && s.low + |s.client.history| == |s.log| && s.used == s.client.left.Keys
  {
    hide Run;
    Reachable(es);
    var s := Run(START, es);
    assert Collect(AnswerOf, s.down) == [] && Collect(SendOf, s.up) == [];
    assert s.used == s.client.left.Keys by {
      forall x ensures x in s.used <==> x in s.client.left {
      }
    }
  }

  /** Fetch routing: `isFetchingNodeHistory` sends every OLDMSG to the history it was fetched for,
      and a HISTDONE always finds its fetch at the head of `mFetchRequest`. */
  lemma {:induction false} FetchesAreRouted(es: seq<Event>)
    ensures var s := Run(START, es);
            s.down != [] ==>
              match s.down[0]
              case OldMsg(id, Nodes) =>
                && ReceiveHead(s).client.nodes == s.client.nodes + [id]
                && ReceiveHead(s).client.history == s.client.history
              case OldMsg(id, Messages) =>
                && ReceiveHead(s).client.nodes == s.client.nodes
                && ReceiveHead(s).client.history == [id] + s.client.history
              case HistDone => s.client.fetches != []
              case _ => true
  {
    hide Run, LogInv, Slice, QueueInv, LeftInv, HistInv, Claims;
    Reachable(es);
    var s := Run(START, es);
    if s.down != [] {
      WireTail(s);
    }
  }

  /** A client that claims the whole history has it if and only if it is not suspect, and no part of it is
      still on its way: no HIST of zero or of more than 256 messages was cut short, and no JOIN of a client
      that already claimed it all met a log of more than 32 messages or lost its connection in between. */
  lemma {:induction false} AllHistoryIsTrue(es: seq<Event>)
    requires var s := Run(START, es); s.client.haveAll && s.client.history != []
    ensures var s := Run(START, es);
            && |s.client.history| <= |s.log|
            && (s.client.history == Ids(s.log[..|s.client.history|]) <==> !s.suspect && !Arriving(s))
  {
    hide Run, QueueInv, LeftInv, HistInv, ChannelInv, JoinInv, CutInv, FinalLow, Arriving;
    Reachable(es);
    var s := Run(START, es);
    CursorBounds(s);
    WholeIffLow(s.client.history, s.log, s.low, s.used);
  }

  lemma {:induction false} WholeIffLow(history: seq<Id>, log: seq<Entry>, low: nat, used: set<Xid>)
    requires LogInv(log, used) && Slice(history, log, low) && history != []
    ensures history == Ids(log[..|history|]) <==> low == 0
  {
    assert history[0] == log[low].id;
    if history == Ids(log[..|history|]) { assert history[0] == log[0].id; }
  }
}
