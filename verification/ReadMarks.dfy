/** The last-seen and last-received pointers and the status notifications they cause
    (`onLastSeen`, `onLastReceived`, `setMessageSeen`; src/chatd.cpp:3936-4175). */
module ReadMarks {
  import opened ChatTypes
  import opened HistorySpec
  import opened Updates

  /** The index of a message, or unset: `mIdToIndexMap.find` on the loaded window and
      `getIdxOfMsgidFromHistory` on the table. */
  ghost function IdxOf(m: map<int, Message>, id: Id): int {
    if i: int :| i in m && m[i].id == id then i else IDX_INVALID
  }

  /** The window and the table end at the newest message.  Holds at every moment, even while a message
      that was just added waits to be decrypted. */
  ghost predicate Bounded(h: Hist) {
    IsInterval(h.ram, h.low, h.high) && h.high < IDX_INVALID && forall i :: i in h.rows ==> i <= h.high
  }

  ghost function Locate(h: Hist, id: Id): int {
    if HasId(h.ram, id) then IdxOf(h.ram, id) else IdxOf(h.rows, id)
  }

  lemma {:induction false} IdxOfUnique(m: map<int, Message>, i: int)
    requires DistinctIds(m) && i in m
    ensures IdxOf(m, m[i].id) == i
  {
  }

  /** The loaded messages from `lo` to `hi` that are own (`mine`) or a peer's, in ascending order: the
      calls of `onMessageStatusChange` that a moving pointer makes. */
  function Notices(ram: map<int, Message>, me: Id, mine: bool, lo: int, hi: int): seq<int>
    decreases hi - lo
  {
    if hi < lo then [] else
    Notices(ram, me, mine, lo, hi - 1) + (if hi in ram && (ram[hi].userid == me) == mine then [hi] else [])
  }

  /** The list is strictly ascending and names exactly the loaded messages in question. */
  lemma {:induction false} NoticesAreExact(ram: map<int, Message>, me: Id, mine: bool, lo: int, hi: int)
    ensures var r := Notices(ram, me, mine, lo, hi);
            && (forall j, k :: 0 <= j < k < |r| ==> r[j] < r[k])
            && (forall i :: i in r <==> lo <= i <= hi && i in ram && (ram[i].userid == me) == mine)
    decreases hi - lo
  {
    if hi >= lo {
      NoticesAreExact(ram, me, mine, lo, hi - 1);
      var p := Notices(ram, me, mine, lo, hi - 1);
      assert forall k :: 0 <= k < |p| ==> p[k] in p;
    }
  }

  /** The first index to notify when a pointer leaves `was`: messages below the window are skipped,
      and an unset pointer starts at the window. */
  function NotifyFrom(h: Hist, was: int): int {
    if was == IDX_INVALID then h.low else Max(was + 1, h.low)
  }

  /** SEEN names message `id`: the new marks, and the messages reported as seen. */
  ghost function OnSeen(h: Hist, k: Marks, me: Id, id: Id): (Marks, seq<int>) {
    var idx := Locate(h, id);
    if idx == IDX_INVALID then (k.(seenId := id), [])
    else if k.seenIdx != IDX_INVALID && idx <= k.seenIdx then (k, [])
    else (k.(seenId := id, seenIdx := idx), Notices(h.ram, me, false, NotifyFrom(h, k.seenIdx), idx))
  }

  /** RECEIVED names message `id`.  The persisted id follows the server even when the index does not. */
  ghost function OnReceived(h: Hist, k: Marks, me: Id, id: Id): (Marks, seq<int>) {
    var idx := Locate(h, id);
    var k' := k.(recvId := id);
    if idx == IDX_INVALID || (k.recvIdx != IDX_INVALID && idx <= k.recvIdx) then (k', [])
    else (k'.(recvIdx := idx),
          if HasId(h.ram, id) then Notices(h.ram, me, true, NotifyFrom(h, k.recvIdx), idx) else [])
  }

  /** The application marks the loaded message at `idx` as seen, and the timer of `setMessageSeen` fires. */
  ghost function OnMark(h: Hist, k: Marks, me: Id, idx: int): (Marks, seq<int>)
    requires idx in h.ram
  {
    if k.seenIdx != IDX_INVALID && idx <= k.seenIdx then (k, [])
    else (k.(seenId := h.ram[idx].id, seenIdx := idx),
          Notices(h.ram, me, false, NotifyFrom(h, k.seenIdx), Min(idx, h.high)))
  }

  // ---------- Who is told ----------

  /** Message `id` is at `idx`, in RAM or in the table alone. */
  ghost predicate IsAt(h: Hist, id: Id, idx: int) {
    || (idx in h.ram && h.ram[idx].id == id)
    || (idx in h.rows && h.rows[idx].id == id && !HasId(h.ram, id))
  }

  ghost predicate Beyond(i: int, pointer: int) { pointer == IDX_INVALID || i > pointer }

  lemma {:induction false} LocatedAt(h: Hist, id: Id, idx: int)
    requires DistinctIds(h.ram) && DistinctIds(h.rows) && IsAt(h, id, idx)
    ensures Locate(h, id) == idx
  {
    if idx in h.ram && h.ram[idx].id == id { IdxOfUnique(h.ram, idx); } else { IdxOfUnique(h.rows, idx); }
  }

  lemma {:induction false} NoticesFrom(h: Hist, me: Id, mine: bool, was: int, idx: int)
    requires Bounded(h)
    ensures var n := Notices(h.ram, me, mine, NotifyFrom(h, was), idx);
            && Ascends(n)
            && forall i :: i in n <==> i in h.ram && (h.ram[i].userid == me) == mine && i <= idx && Beyond(i, was)
  {
    NoticesAreExact(h.ram, me, mine, NotifyFrom(h, was), idx);
  }

  /** A SEEN of a known message beyond the pointer moves it there, and reports once and in order the loaded
      messages of others that the pointer passes, up to that message.  A SEEN of a message that the pointer
      covers changes nothing, and that of an unknown message the id alone. */
  lemma {:induction false} SeenReports(h: Hist, k: Marks, me: Id, id: Id, idx: int)
    requires Bounded(h) && DistinctIds(h.ram) && DistinctIds(h.rows)
    requires IsAt(h, id, idx) || (idx == IDX_INVALID && !HasId(h.ram, id) && !HasId(h.rows, id))
    ensures var (t, n) := OnSeen(h, k, me, id);
            && t.recvIdx == k.recvIdx && t.recvId == k.recvId && Ascends(n)
            && (idx == IDX_INVALID ==> n == [] && t.seenIdx == k.seenIdx && t.seenId == id)
            && (idx != IDX_INVALID && !Beyond(idx, k.seenIdx) ==> n == [] && t == k)
            && (idx != IDX_INVALID && Beyond(idx, k.seenIdx) ==>
                  && t.seenIdx == idx && t.seenId == id
                  && forall i :: i in n <==> i in h.ram && h.ram[i].userid != me && i <= idx && Beyond(i, k.seenIdx))
  {
    hide Notices, NotifyFrom;
    if IsAt(h, id, idx) { LocatedAt(h, id, idx); }
    NoticesFrom(h, me, false, k.seenIdx, idx);
  }

  /** A RECEIVED takes any id.  That of a known message beyond the pointer moves it there, and if the message is
      loaded, the loaded own messages that the pointer passes are reported as delivered. */
  lemma {:induction false} ReceivedReports(h: Hist, k: Marks, me: Id, id: Id, idx: int)
    requires Bounded(h) && DistinctIds(h.ram) && DistinctIds(h.rows)
    requires IsAt(h, id, idx) || (idx == IDX_INVALID && !HasId(h.ram, id) && !HasId(h.rows, id))
    ensures var (t, n) := OnReceived(h, k, me, id);
            && t.seenIdx == k.seenIdx && t.seenId == k.seenId && t.recvId == id && Ascends(n)
            && (idx == IDX_INVALID || !Beyond(idx, k.recvIdx) ==> n == [] && t.recvIdx == k.recvIdx)
            && (idx != IDX_INVALID && Beyond(idx, k.recvIdx) ==>
                  && t.recvIdx == idx
                  && forall i :: i in n <==>
                       HasId(h.ram, id) && i in h.ram && h.ram[i].userid == me && i <= idx && Beyond(i, k.recvIdx))
  {
    hide Notices, NotifyFrom;
    if IsAt(h, id, idx) { LocatedAt(h, id, idx); }
    NoticesFrom(h, me, true, k.recvIdx, idx);
  }

  /** Marking a loaded message beyond the pointer moves it there, and reports as a SEEN does. */
  lemma {:induction false} MarkReports(h: Hist, k: Marks, me: Id, idx: int)
    requires Bounded(h) && idx in h.ram
    ensures var (t, n) := OnMark(h, k, me, idx);
            && t.recvIdx == k.recvIdx && t.recvId == k.recvId && Ascends(n)
            && (!Beyond(idx, k.seenIdx) ==> n == [] && t == k)
            && (Beyond(idx, k.seenIdx) ==>
                  && t.seenIdx == idx && t.seenId == h.ram[idx].id
                  && forall i :: i in n <==> i in h.ram && h.ram[i].userid != me && i <= idx && Beyond(i, k.seenIdx))
  {
    hide Notices, NotifyFrom;
    NoticesFrom(h, me, false, k.seenIdx, Min(idx, h.high));
  }

  // ---------- Runs between resets ----------

  /** An event, with the history at that moment; arrivals appear as a SEEN or RECEIVED for their own id
      (`handleLastReceivedSeen`) in the history that they produced. */
  datatype Event =
    | Seen(h: Hist, id: Id)
    | Received(h: Hist, id: Id)
    | Marked(h: Hist, idx: int)

  datatype State = State(marks: Marks, seen: seq<int>, received: seq<int>)

  ghost predicate Possible(e: Event) {
    Bounded(e.h) && (e.Marked? ==> e.idx in e.h.ram)
  }

  ghost function Step(s: State, me: Id, e: Event): State
    requires Possible(e)
  {
    match e
    case Seen(h, id) => var (k, n) := OnSeen(h, s.marks, me, id); State(k, s.seen + n, s.received)
    case Received(h, id) => var (k, n) := OnReceived(h, s.marks, me, id); State(k, s.seen, s.received + n)
    case Marked(h, idx) => var (k, n) := OnMark(h, s.marks, me, idx); State(k, s.seen + n, s.received)
  }

  ghost predicate Ascends(s: seq<int>) {
    forall j, k :: 0 <= j < k < |s| ==> s[j] < s[k]
  }

  /** Notifications so far are strictly ascending and do not pass the pointer. */
  ghost predicate Announced(notices: seq<int>, pointer: int) {
    && Ascends(notices)
    && (notices != [] ==> pointer != IDX_INVALID && notices[|notices| - 1] <= pointer)
  }

  /** An unset pointer may be set; a set one never moves back. */
  predicate Advances(before: int, now: int) {
    before == IDX_INVALID || (now != IDX_INVALID && before <= now)
  }

  lemma {:induction false} AscendsConcat(a: seq<int>, b: seq<int>)
    requires Ascends(a) && Ascends(b) && (a != [] && b != [] ==> a[|a| - 1] < b[0])
    ensures Ascends(a + b)
  {
    var all := a + b;
    forall j, k | 0 <= j < k < |all| ensures all[j] < all[k] {
      if k < |a| {
        assert a[j] < a[k];
      } else if j >= |a| {
        assert b[j - |a|] < b[k - |a|];
      } else {
        assert a[j] <= a[|a| - 1] && b[0] <= b[k - |a|];
      }
    }
  }

  lemma {:induction false} NoticesInRange(ram: map<int, Message>, me: Id, mine: bool, from: int, upto: int)
    ensures var n := Notices(ram, me, mine, from, upto);
            Ascends(n) && (n != [] ==> from <= n[0] && n[|n| - 1] <= upto)
  {
    NoticesAreExact(ram, me, mine, from, upto);
    var n := Notices(ram, me, mine, from, upto);
    if n != [] { assert n[0] in n && n[|n| - 1] in n; }
  }

  lemma {:induction false} AnnounceMore(notices: seq<int>, was: int, from: int, upto: int, ram: map<int,
          Message>, me: Id, mine: bool)
    requires Announced(notices, was) && (was != IDX_INVALID ==> was < from) && upto < IDX_INVALID
    ensures Announced(notices + Notices(ram, me, mine, from, upto),
                      if was == IDX_INVALID || was <= upto then upto else was)
  {
    hide Ascends, Notices;
    var n := Notices(ram, me, mine, from, upto);
    NoticesInRange(ram, me, mine, from, upto);
    AscendsConcat(notices, n);
    if n == [] { assert notices + n == notices; }
  }

  lemma {:induction false} LocatedBelow(h: Hist, id: Id)
    requires Bounded(h)
    ensures Locate(h, id) == IDX_INVALID || Locate(h, id) <= h.high
    ensures h.high < IDX_INVALID
  {
  }

  /** One pointer moves, or not. */
  ghost predicate Moves(notices: seq<int>, was: int, more: seq<int>, now: int) {
    Announced(notices + more, now) && Advances(was, now)
  }

  lemma {:induction false} StaysPut(notices: seq<int>, was: int)
    requires Announced(notices, was)
    ensures Moves(notices, was, [], was)
  {
    assert notices + [] == notices;
  }

  lemma {:induction false} SeenMoves(h: Hist, k: Marks, me: Id, id: Id, notices: seq<int>)
    requires Bounded(h) && Announced(notices, k.seenIdx)
    ensures var (k', n) := OnSeen(h, k, me, id);
            Moves(notices, k.seenIdx, n, k'.seenIdx) && k'.recvIdx == k.recvIdx
  {
    hide Bounded, Announced, Locate;
    var idx := Locate(h, id);
    LocatedBelow(h, id);
    StaysPut(notices, k.seenIdx);
    if idx != IDX_INVALID && (k.seenIdx == IDX_INVALID || idx > k.seenIdx) {
      AnnounceMore(notices, k.seenIdx, NotifyFrom(h, k.seenIdx), idx, h.ram, me, false);
    }
  }

  lemma {:induction false} ReceivedMoves(h: Hist, k: Marks, me: Id, id: Id, notices: seq<int>)
    requires Bounded(h) && Announced(notices, k.recvIdx)
    ensures var (k', n) := OnReceived(h, k, me, id);
            Moves(notices, k.recvIdx, n, k'.recvIdx) && k'.seenIdx == k.seenIdx
  {
    hide Bounded, Announced, Locate, HasId;
    var idx := Locate(h, id);
    LocatedBelow(h, id);
    StaysPut(notices, k.recvIdx);
    if idx != IDX_INVALID && (k.recvIdx == IDX_INVALID || idx > k.recvIdx) {
      AnnounceMore(notices, k.recvIdx, NotifyFrom(h, k.recvIdx), idx, h.ram, me, true);
      Relax(notices, k.recvIdx, idx);
    }
  }

  lemma {:induction false} Relax(notices: seq<int>, was: int, now: int)
    requires Announced(notices, was) && now != IDX_INVALID && (was == IDX_INVALID || was <= now)
    ensures Moves(notices, was, [], now)
  {
    assert notices + [] == notices;
  }

  lemma {:induction false} MarkMoves(h: Hist, k: Marks, me: Id, idx: int, notices: seq<int>)
    requires Bounded(h) && Announced(notices, k.seenIdx) && idx in h.ram
    ensures var (k', n) := OnMark(h, k, me, idx);
            Moves(notices, k.seenIdx, n, k'.seenIdx) && k'.recvIdx == k.recvIdx
  {
    hide Bounded, Announced;
    LoadedBelow(h, idx);
    StaysPut(notices, k.seenIdx);
    if k.seenIdx == IDX_INVALID || idx > k.seenIdx {
      AnnounceMore(notices, k.seenIdx, NotifyFrom(h, k.seenIdx), idx, h.ram, me, false);
    }
  }

  lemma {:induction false} StepAdvances(s: State, me: Id, e: Event)
    requires Possible(e) && Announced(s.seen, s.marks.seenIdx) && Announced(s.received, s.marks.recvIdx)
    ensures var t := Step(s, me, e);
            && Announced(t.seen, t.marks.seenIdx) && Announced(t.received, t.marks.recvIdx)
            && Advances(s.marks.seenIdx, t.marks.seenIdx) && Advances(s.marks.recvIdx, t.marks.recvIdx)
            && s.seen <= t.seen && s.received <= t.received
  {
    hide Bounded, Announced, OnSeen, OnReceived, OnMark;
    match e
    case Seen(h, id) => SeenMoves(h, s.marks, me, id, s.seen);
    case Received(h, id) => ReceivedMoves(h, s.marks, me, id, s.received);
    case Marked(h, idx) => MarkMoves(h, s.marks, me, idx, s.seen);
  }

  lemma {:induction false} LoadedBelow(h: Hist, idx: int)
    requires Bounded(h) && idx in h.ram
    ensures h.low <= idx <= h.high < IDX_INVALID
  {
  }

  ghost function Run(s: State, me: Id, es: seq<Event>): State
    requires forall e :: e in es ==> Possible(e)
    decreases |es|
  {
    if es == [] then s else Run(Step(s, me, es[0]), me, es[1..])
  }

  /** Pointers only advance: over every run between resets the two indices never move back, and no
      index is reported as seen, or as delivered, more than once. */
  lemma {:induction false} PointersOnlyAdvance(s: State, me: Id, es: seq<Event>)
    requires forall e :: e in es ==> Possible(e)
    requires Announced(s.seen, s.marks.seenIdx) && Announced(s.received, s.marks.recvIdx)
    ensures var t := Run(s, me, es);
            && Announced(t.seen, t.marks.seenIdx) && Announced(t.received, t.marks.recvIdx)
            && Advances(s.marks.seenIdx, t.marks.seenIdx) && Advances(s.marks.recvIdx, t.marks.recvIdx)
            && s.seen <= t.seen && s.received <= t.received
    decreases |es|
  {
    hide Step, Announced, Possible;
    if es != [] {
      StepAdvances(s, me, es[0]);
      PointersOnlyAdvance(Step(s, me, es[0]), me, es[1..]);
    }
  }

  // ---------- Across a restart ----------

  /** A restart finds the pointer where a SEEN left it: for an unknown message, if and only if the pointer is
      unset; for a message that the pointer covers, which changes nothing, if and only if it would have before;
      for any other message if and only if the message is stored, and not only loaded.  The id of an unknown
      message is persisted over that of a pointer, and so is that of a message that waits for its keys: a SEEN
      of an older message does not repair that, and one of a newer stored message does. */
  lemma {:induction false} SeenSurvivesRestartIff(h: Hist, k: Marks, me: Id, id: Id)
    requires Inv(h)
    ensures var k' := OnSeen(h, k, me, id).0;
            (IdxOf(h.rows, k'.seenId) == k'.seenIdx)
            <==> (if !HasId(h.ram, id) && !HasId(h.rows, id) then k.seenIdx == IDX_INVALID
                  else if k.seenIdx != IDX_INVALID && Locate(h, id) <= k.seenIdx then
                    IdxOf(h.rows, k.seenId) == k.seenIdx
                  else HasId(h.rows, id))
  {
    hide Inv;
    RowIndices(h);
    if HasId(h.rows, id) {
      var i :| i in h.rows && h.rows[i].id == id;
      LocatesRow(h, i);
    }
  }

  /** The index of an id that no message has is unset, and that of any other is not. */
  lemma {:induction false} RowIndices(h: Hist)
    requires Inv(h)
    ensures forall id: Id :: HasId(h.rows, id) <==> IdxOf(h.rows, id) != IDX_INVALID
    ensures forall id: Id :: HasId(h.ram, id) <==> IdxOf(h.ram, id) != IDX_INVALID
  {
    hide Agree, UniqueIds;
    assert forall i :: i in h.rows ==> i != IDX_INVALID;
    assert forall i :: i in h.ram ==> i != IDX_INVALID;
  }

  lemma {:induction false} LocatesRow(h: Hist, i: int)
    requires Inv(h) && i in h.rows
    ensures Locate(h, h.rows[i].id) == i && IdxOf(h.rows, h.rows[i].id) == i && i < IDX_INVALID
  {
    IdxOfUnique(h.rows, i);
    if HasId(h.ram, h.rows[i].id) {
      var j :| j in h.ram && h.ram[j].id == h.rows[i].id;
      assert i == j;
      IdxOfUnique(h.ram, j);
    }
  }

  /** After a RECEIVED a restart finds the pointer where it was left if and only if the message is stored and
      not older than the pointer, or unknown while the pointer is unset: every id is persisted, also those
      that the index ignores. */
  lemma {:induction false} ReceivedSurvivesRestartIff(h: Hist, k: Marks, me: Id, id: Id)
    requires Inv(h)
    ensures var k' := OnReceived(h, k, me, id).0;
            (IdxOf(h.rows, k'.recvId) == k'.recvIdx)
            <==> if HasId(h.rows, id) then !(k.recvIdx != IDX_INVALID && IdxOf(h.rows, id) < k.recvIdx)
                 else !HasId(h.ram, id) && k.recvIdx == IDX_INVALID
  {
    hide Inv;
    RowIndices(h);
    if HasId(h.rows, id) {
      var i :| i in h.rows && h.rows[i].id == id;
      LocatesRow(h, i);
    }
  }
}
