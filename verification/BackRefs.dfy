/** Back-references: how a new message names earlier ones, and how a received message is checked
    against the names it carries (`createMsgBackRefs`, `verifyMsgOrder`; src/chatd.cpp:3545-3642 and
    5595-5598, 5717-5738). */
module BackRefs {
  import opened ChatTypes

  /** A message as the choice of back-references sees it. */
  datatype Target = Target(refid: nat, management: bool)

  const BANDS := 7

  /** The bands of backward offsets: [0,1), [1,2), [2,4), up to [32,64). */
  function BandStart(b: nat): nat { if b == 0 then 0 else BandEnd(b - 1) }

  function BandEnd(b: nat): nat { if b == 0 then 1 else 2 * BandEnd(b - 1) }

  predicate InBand(o: int, b: nat) { BandStart(b) <= o < BandEnd(b) }

  /** The message `o` places back: first the queue up to and including the message itself, then the
      history buffer.  Offset 0 is the message itself, not its predecessor. */
  function TargetAt(queue: seq<Target>, buffer: seq<Target>, o: nat): Target
    requires o < |queue| + |buffer|
  {
    if o < |queue| then queue[|queue| - 1 - o] else buffer[|buffer| - 1 - (o - |queue|)]
  }

  /** Offsets count back, one message at a time, from the end of the queue, and behind its beginning from the
      newest message of the history on. */
  lemma {:induction false} OffsetsCountBack(queue: seq<Target>, buffer: seq<Target>, o: nat)
    requires o < |queue| + |buffer|
    ensures TargetAt(queue, buffer, o) == (buffer + queue)[|buffer| + |queue| - 1 - o]
    ensures o == 0 && queue != [] ==> TargetAt(queue, buffer, o) == queue[|queue| - 1]
  {
  }

  /** There are seven bands, of 1, 1, 2, 4, 8, 16 and 32 offsets. */
  lemma {:induction false} BandsDouble(b: nat)
    requires b < 7
    ensures BANDS == 7
    ensures BandStart(b) == [0, 1, 2, 4, 8, 16, 32][b] && BandEnd(b) == [1, 2, 4, 8, 16, 32, 64][b]
    decreases b
  {
    if b > 0 { BandsDouble(b - 1); }
  }

  lemma {:induction false} BandsAscend(a: nat, b: nat)
    requires a < b
    ensures BandEnd(a) <= BandStart(b) < BandEnd(b)
    decreases b
  {
    if a < b - 1 { BandsAscend(a, b - 1); }
    BandIsOpen(b - 1);
  }

  lemma {:induction false} BandIsOpen(b: nat)
    ensures 0 <= BandStart(b) < BandEnd(b)
    decreases b
  {
    if b > 0 { BandIsOpen(b - 1); }
  }

  /** Bands are disjoint. */
  lemma {:induction false} BandIsUnique(o: int, a: nat, b: nat)
    requires InBand(o, a) && InBand(o, b)
    ensures a == b
  {
    if a < b { BandsAscend(a, b); }
    if b < a { BandsAscend(b, a); }
  }

  /** Band `b` holds a message that may be referenced. */
  ghost predicate Eligible(queue: seq<Target>, buffer: seq<Target>, maxEnd: int, o: int) {
    0 <= o < maxEnd && o < |queue| + |buffer| && !TargetAt(queue, buffer, o).management
  }

  ghost predicate BandHasTarget(queue: seq<Target>, buffer: seq<Target>, maxEnd: int, b: nat) {
    exists o :: InBand(o, b) && Eligible(queue, buffer, maxEnd, o)
  }

  ghost predicate Chosen(offsets: seq<nat>, b: nat) {
    exists k :: 0 <= k < |offsets| && InBand(offsets[k], b)
  }

  /** The offsets chosen from the first `bands` bands: eligible messages, strictly further and further
      back, no two in one band, and one from every band that has any. */
  ghost predicate WellChosen(queue: seq<Target>, buffer: seq<Target>, maxEnd: int, offsets: seq<nat>, bands: nat) {
    && |offsets| <= bands
    && (forall k :: 0 <= k < |offsets| ==> offsets[k] < BandStart(bands) && Eligible(queue, buffer, maxEnd, offsets[k]))
    && (forall j, k :: 0 <= j < k < |offsets| ==> offsets[j] < offsets[k])
    && (forall j, k, b: nat :: 0 <= j < k < |offsets| && InBand(offsets[j], b) ==> !InBand(offsets[k], b))
    && (forall b: nat :: b < bands ==> (Chosen(offsets, b) <==> BandHasTarget(queue, buffer, maxEnd, b)))
  }

  /** The bands that are left out begin beyond the last message that may be named. */
  lemma {:induction false} NoTargetBeyond(queue: seq<Target>, buffer: seq<Target>, maxEnd: int,
          offsets: seq<nat>, bands: nat)
    requires bands <= BANDS && WellChosen(queue, buffer, maxEnd, offsets, bands) && BandStart(bands) >= maxEnd
    ensures WellChosen(queue, buffer, maxEnd, offsets, BANDS)
  {
    hide Eligible;
    if bands < BANDS { BandsAscend(bands, BANDS); BandIsOpen(bands); }
    forall b: nat | bands <= b < BANDS ensures !Chosen(offsets, b) && !BandHasTarget(queue, buffer, maxEnd, b) {
      if bands < b { BandsAscend(bands, b); BandIsOpen(bands); }
      forall o | InBand(o, b) ensures !Eligible(queue, buffer, maxEnd, o) {
        OutOfReach(queue, buffer, maxEnd, o);
      }
    }
  }

  lemma {:induction false} OutOfReach(queue: seq<Target>, buffer: seq<Target>, maxEnd: int, o: int)
    requires o >= maxEnd
    ensures !Eligible(queue, buffer, maxEnd, o)
  {
  }

  /** A band adds its choice, or nothing when it has no eligible message. */
  lemma {:induction false} OneBand(queue: seq<Target>, buffer: seq<Target>, maxEnd: int, offsets: seq<nat>,
          b: nat, more: seq<nat>)
    requires WellChosen(queue, buffer, maxEnd, offsets, b)
    requires |more| <= 1
    requires forall k :: 0 <= k < |more| ==> InBand(more[k], b) && Eligible(queue, buffer, maxEnd, more[k])
    requires more == [] ==> !BandHasTarget(queue, buffer, maxEnd, b)
    ensures WellChosen(queue, buffer, maxEnd, offsets + more, b + 1)
  {
    hide Eligible;
    var all := offsets + more;
    BandIsOpen(b);
    assert BandStart(b + 1) == BandEnd(b);
    forall a: nat | a < b + 1 ensures Chosen(all, a) <==> BandHasTarget(queue, buffer, maxEnd, a) {
      if a < b {
        BandsAscend(a, b);
        ChosenBefore(offsets, more, a, b);
      } else {
        if more != [] {
          assert InBand(all[|offsets|], b);
        } else {
          assert forall k :: 0 <= k < |all| ==> all[k] < BandStart(b);
        }
      }
    }
    forall j, k, c: nat | 0 <= j < k < |all| && InBand(all[j], c) ensures !InBand(all[k], c) {
      if k == |offsets| && InBand(all[k], c) { BandIsUnique(all[k], b, c); }
    }
  }

  lemma {:induction false} ChosenBefore(offsets: seq<nat>, more: seq<nat>, a: nat, b: nat)
    requires BandEnd(a) <= BandStart(b) && forall k :: 0 <= k < |more| ==> InBand(more[k], b)
    ensures Chosen(offsets + more, a) <==> Chosen(offsets, a)
  {
    var all := offsets + more;
    if Chosen(offsets, a) {
      var k :| 0 <= k < |offsets| && InBand(offsets[k], a);
      assert InBand(all[k], a);
    }
    if Chosen(all, a) {
      var k :| 0 <= k < |all| && InBand(all[k], a);
      assert k < |offsets|;
    }
  }

  function Offsets(lo: nat, hi: nat): (r: set<nat>)
    requires lo <= hi
    ensures (forall o :: o in r <==> lo <= o < hi) && |r| == hi - lo
    decreases hi - lo
  {
    if lo == hi then {} else Offsets(lo, hi - 1) + {hi - 1}
  }

  /** The random draws of one band: the first eligible message drawn, or none once all have been tried.
      Draws that repeat are skipped in the original, so a draw is any offset not tried before. */
  method Draw(queue: seq<Target>, buffer: seq<Target>, rangeStart: nat, rangeEnd: nat) returns (picked: seq<nat>)
    requires rangeStart <= rangeEnd <= |queue| + |buffer|
    ensures |picked| <= 1
    ensures picked != [] ==> rangeStart <= picked[0] < rangeEnd && !TargetAt(queue, buffer, picked[0]).management
    ensures picked == [] ==> forall o: nat :: rangeStart <= o < rangeEnd ==> TargetAt(queue, buffer, o).management
  {
    var offsets := Offsets(rangeStart, rangeEnd);
    var span := rangeEnd - rangeStart;
    var tried: set<nat> := {};
    picked := [];
    while picked == [] && |tried| < span
      invariant tried <= offsets && |picked| <= 1
      invariant picked != [] ==> rangeStart <= picked[0] < rangeEnd && !TargetAt(queue, buffer, picked[0]).management
      invariant picked == [] ==> forall o :: o in tried ==> TargetAt(queue, buffer, o).management
      decreases offsets - tried
    {
      assert offsets - tried == {} ==> tried == offsets;
      var idx :| idx in offsets - tried;
      tried := tried + {idx};
      if !TargetAt(queue, buffer, idx).management { picked := [idx]; }
    }
    if picked == [] && tried != offsets { SubsetIsSmaller(tried, offsets); }
  }

  /** `createMsgBackRefs` for the last message of `queue`, with the history buffer `buffer`: at most one
      reference from each band of preceding messages, all of them within reach. */
  method CreateMsgBackRefs(queue: seq<Target>, buffer: seq<Target>) returns (backRefs: seq<nat>, offsets: seq<nat>)
    requires queue != []
    ensures |backRefs| == |offsets| <= BANDS
    ensures WellChosen(queue, buffer, |buffer| - |queue|, offsets, BANDS)
    ensures forall k :: 0 <= k < |offsets| ==>
              offsets[k] < |queue| + |buffer| && backRefs[k] == TargetAt(queue, buffer, offsets[k]).refid
  {
    hide Eligible, WellChosen;
    backRefs, offsets := [], [];
    var maxEnd := |buffer| - |queue|;
    NoneChosen(queue, buffer, maxEnd);
    if maxEnd <= 0 {
      NoTargetBeyond(queue, buffer, maxEnd, offsets, 0);
      return;
    }
    var rangeStart := 0;
    var i := 0;
    while i < BANDS
      invariant 0 <= i <= BANDS && rangeStart == BandStart(i) < maxEnd
      invariant WellChosen(queue, buffer, maxEnd, offsets, i) && |backRefs| == |offsets| <= i
      invariant forall k :: 0 <= k < |offsets| ==>
                  offsets[k] < |queue| + |buffer| && backRefs[k] == TargetAt(queue, buffer, offsets[k]).refid
    {
      BandIsOpen(i);
      var rangeEnd := BandEnd(i);
      if rangeEnd > maxEnd { rangeEnd := maxEnd; }
      var picked := Draw(queue, buffer, rangeStart, rangeEnd);
      DrawnIsEligible(queue, buffer, maxEnd, i, rangeEnd, picked);
      OneBand(queue, buffer, maxEnd, offsets, i, picked);
      if picked != [] { backRefs := backRefs + [TargetAt(queue, buffer, picked[0]).refid]; }
      offsets := offsets + picked;
      if rangeEnd == maxEnd {
        NoTargetBeyond(queue, buffer, maxEnd, offsets, i + 1);
        return;
      }
      rangeStart := rangeEnd;
      i := i + 1;
    }
  }

  lemma {:induction false} NoneChosen(queue: seq<Target>, buffer: seq<Target>, maxEnd: int)
    ensures WellChosen(queue, buffer, maxEnd, [], 0)
  {
  }

  lemma {:induction false} DrawnIsEligible(queue: seq<Target>, buffer: seq<Target>, maxEnd: int, b: nat,
          rangeEnd: nat, picked: seq<nat>)
    requires maxEnd == |buffer| - |queue| && rangeEnd == (if BandEnd(b) > maxEnd then maxEnd else BandEnd(b))
    requires |picked| <= 1
    requires picked != [] ==> BandStart(b) <= picked[0] < rangeEnd && !TargetAt(queue, buffer, picked[0]).management
    requires picked == [] ==> forall o: nat :: BandStart(b) <= o < rangeEnd ==> TargetAt(queue, buffer, o).management
    ensures forall k :: 0 <= k < |picked| ==> InBand(picked[k], b) && Eligible(queue, buffer, maxEnd, picked[k])
    ensures picked == [] ==> !BandHasTarget(queue, buffer, maxEnd, b)
  {
  }

  // ---------- Verification ----------

  /** A reference to a message that is already known at or above the index of the message carrying it. */
  predicate Disorder(known: map<nat, int>, idx: int, refid: nat) {
    refid != 0 && refid in known && known[refid] >= idx
  }

  /** `verifyMsgOrder`. */
  method VerifyMsgOrder(backRefs: seq<nat>, known: map<nat, int>, idx: int) returns (failed: bool)
    ensures failed <==> exists k :: 0 <= k < |backRefs| && Disorder(known, idx, backRefs[k])
  {
    var k := 0;
    while k < |backRefs|
      invariant 0 <= k <= |backRefs| && forall j :: 0 <= j < k ==> !Disorder(known, idx, backRefs[j])
    {
      var refid := backRefs[k];
      if refid != 0 && refid in known {
        var targetIdx := known[refid];
        if targetIdx >= idx { return true; }
      }
      k := k + 1;
    }
    return false;
  }

  /** A message in the log of the server, as the check sees it. */
  datatype Sent = Sent(refid: nat, backRefs: seq<nat>)

  ghost predicate DistinctRefs(log: seq<Sent>) {
    forall p, q :: 0 <= p < |log| && 0 <= q < |log| && log[p].refid == log[q].refid != 0 ==> p == q
  }

  /** Messages name themselves and older messages only, as `createMsgBackRefs` does. */
  ghost predicate HonestlyOrdered(log: seq<Sent>) {
    forall p, k, q ::
      (0 <= p < |log| && 0 <= k < |log[p].backRefs| && 0 <= q < |log| && log[q].refid == log[p].backRefs[k] != 0)
      ==> q <= p
  }

  /** What a client knows of the log: the window from `lo` up to `hi`, where the message at position `p`
      has index `p + shift`, and `mRefidToIdxMap`. */
  datatype Client = Client(lo: nat, hi: nat, known: map<nat, int>)

  ghost predicate Carried(log: seq<Sent>, lo: int, hi: int, refid: nat)
    requires 0 <= lo && hi <= |log|
  {
    refid != 0 && exists p :: lo <= p < hi && log[p].refid == refid
  }

  /** Some of the references names a message of the window. */
  ghost predicate RefersInto(refs: seq<nat>, log: seq<Sent>, lo: int, hi: int)
    requires 0 <= lo && hi <= |log|
  {
    exists k :: 0 <= k < |refs| && Carried(log, lo, hi, refs[k])
  }

  ghost predicate Knows(log: seq<Sent>, shift: int, c: Client) {
    && c.lo <= c.hi <= |log|
    && (forall r :: r in c.known ==> Carried(log, c.lo, c.hi, r))
    && (forall p :: c.lo <= p < c.hi && log[p].refid != 0 ==>
          log[p].refid in c.known && c.known[log[p].refid] == p + shift)
  }

  /** `mRefidToIdxMap.emplace`, which leaves an entry that exists as it is. */
  function Emplace(known: map<nat, int>, refid: nat, idx: int): map<nat, int> {
    if refid == 0 || refid in known then known else known[refid := idx]
  }

  /** The first message with a reference id keeps it; a message without one is not registered. */
  lemma {:induction false} EmplaceKeepsFirst(known: map<nat, int>, refid: nat, idx: int, r: nat)
    ensures var now := Emplace(known, refid, idx);
            && (r in now <==> r in known || (r == refid && r != 0))
            && (r in known ==> now[r] == known[r]) && (r in now && r !in known ==> now[r] == idx)
  {
  }

  ghost predicate Reports(log: seq<Sent>, shift: int, c: Client, p: nat)
    requires p < |log|
  {
    exists k :: 0 <= k < |log[p].backRefs| && Disorder(c.known, p + shift, log[p].backRefs[k])
  }

  function Append(log: seq<Sent>, shift: int, c: Client): Client
    requires c.hi < |log|
  {
    Client(c.lo, c.hi + 1, Emplace(c.known, log[c.hi].refid, c.hi + shift))
  }

  function Prepend(log: seq<Sent>, shift: int, c: Client): Client
    requires 0 < c.lo <= |log|
  {
    Client(c.lo - 1, c.hi, Emplace(c.known, log[c.lo - 1].refid, c.lo - 1 + shift))
  }

  lemma {:induction false} AppendKnows(log: seq<Sent>, shift: int, c: Client)
    requires DistinctRefs(log) && Knows(log, shift, c) && c.hi < |log|
    ensures Knows(log, shift, Append(log, shift, c))
  {
    var g := Append(log, shift, c);
    forall r | r in g.known ensures Carried(log, g.lo, g.hi, r) {
      if r in c.known { assert Carried(log, c.lo, c.hi, r); }
    }
  }

  lemma {:induction false} PrependKnows(log: seq<Sent>, shift: int, c: Client)
    requires DistinctRefs(log) && Knows(log, shift, c) && 0 < c.lo
    ensures Knows(log, shift, Prepend(log, shift, c))
  {
    var g := Prepend(log, shift, c);
    forall r | r in g.known ensures Carried(log, g.lo, g.hi, r) {
      if r in c.known { assert Carried(log, c.lo, c.hi, r); }
    }
  }

  /** A new message that is decrypted in its turn is never reported, whatever it refers to: everything known
      is older. */
  lemma {:induction false} AppendNeverReports(log: seq<Sent>, shift: int, c: Client)
    requires Knows(log, shift, c) && c.hi < |log|
    ensures !Reports(log, shift, c, c.hi)
  {
  }

  /** An old message is reported exactly when it refers to a newer one that is loaded already. */
  lemma {:induction false} PrependReportsIff(log: seq<Sent>, shift: int, c: Client)
    requires Knows(log, shift, c) && 0 < c.lo
    ensures Reports(log, shift, c, c.lo - 1)
            <==> RefersInto(log[c.lo - 1].backRefs, log, c.lo, c.hi)
  {
    var p := c.lo - 1;
    forall k | 0 <= k < |log[p].backRefs|
      ensures Disorder(c.known, p + shift, log[p].backRefs[k]) <==> Carried(log, c.lo, c.hi, log[p].backRefs[k])
    {
    }
  }

  /** Loading steps: true appends the next newer message, false prepends the next older one. */
  ghost predicate Possible(log: seq<Sent>, c: Client, forward: bool) {
    c.lo <= c.hi <= |log| && if forward then c.hi < |log| else 0 < c.lo
  }

  ghost function Step(log: seq<Sent>, shift: int, c: Client, forward: bool): Client
    requires Possible(log, c, forward)
  {
    if forward then Append(log, shift, c) else Prepend(log, shift, c)
  }

  ghost predicate Silent(log: seq<Sent>, shift: int, c: Client, steps: seq<bool>)
    requires c.lo <= c.hi <= |log|
    decreases |steps|
  {
    steps != [] && Possible(log, c, steps[0]) ==>
      && !Reports(log, shift, c, if steps[0] then c.hi else c.lo - 1)
      && Silent(log, shift, Step(log, shift, c, steps[0]), steps[1..])
  }

  /** In an honestly ordered log no mix of forward appends and backward loads ever fails the check. */
  lemma {:induction false} HonestLogNeverFails(log: seq<Sent>, shift: int, c: Client, steps: seq<bool>)
    requires DistinctRefs(log) && HonestlyOrdered(log) && Knows(log, shift, c)
    ensures Silent(log, shift, c, steps)
    decreases |steps|
  {
    hide DistinctRefs, Knows, Reports, HonestlyOrdered;
    if steps != [] && Possible(log, c, steps[0]) {
      if steps[0] {
        AppendKnows(log, shift, c);
        AppendNeverReports(log, shift, c);
      } else {
        PrependKnows(log, shift, c);
        HonestPrepend(log, shift, c);
      }
      HonestLogNeverFails(log, shift, Step(log, shift, c, steps[0]), steps[1..]);
    }
  }

  lemma {:induction false} HonestPrepend(log: seq<Sent>, shift: int, c: Client)
    requires HonestlyOrdered(log) && Knows(log, shift, c) && 0 < c.lo
    ensures !Reports(log, shift, c, c.lo - 1)
  {
    PrependReportsIff(log, shift, c);
  }

  // ---------- Out of turn ----------

  /** The messages at these positions are in `mRefidToIdxMap`, which need not be a window: an own message
      that is confirmed while a newer one waits for its keys is registered before that one. */
  ghost predicate Registered(log: seq<Sent>, shift: int, known: map<nat, int>, positions: set<nat>) {
    && (forall p :: p in positions ==> p < |log|)
    && (forall p :: p in positions && log[p].refid != 0 ==> log[p].refid in known && known[log[p].refid] == p + shift)
    && (forall r :: r in known ==> r != 0 && exists p :: p in positions && log[p].refid == r)
  }

  ghost predicate ReportsWith(log: seq<Sent>, shift: int, known: map<nat, int>, p: nat)
    requires p < |log|
  {
    exists k :: 0 <= k < |log[p].backRefs| && Disorder(known, p + shift, log[p].backRefs[k])
  }

  ghost predicate NamesNewer(log: seq<Sent>, positions: set<nat>, p: nat, refid: nat)
    requires forall q :: q in positions ==> q < |log|
  {
    refid != 0 && exists q :: q in positions && q > p && log[q].refid == refid
  }

  /** In whatever order messages are decrypted and confirmed, one is reported exactly when it refers to a newer
      one that is registered before it. */
  lemma {:induction false} OutOfTurnReportsIff(log: seq<Sent>, shift: int, known: map<nat, int>, positions: set<nat>,
          p: nat)
    requires Registered(log, shift, known, positions) && p < |log| && p !in positions
    ensures ReportsWith(log, shift, known, p)
            <==> exists k :: 0 <= k < |log[p].backRefs| && NamesNewer(log, positions, p, log[p].backRefs[k])
  {
    forall k | 0 <= k < |log[p].backRefs|
      ensures Disorder(known, p + shift, log[p].backRefs[k]) <==> NamesNewer(log, positions, p, log[p].backRefs[k])
    {
    }
  }

  ghost predicate SilentIn(log: seq<Sent>, shift: int, known: map<nat, int>, order: seq<nat>)
    requires forall k :: 0 <= k < |order| ==> order[k] < |log|
    decreases |order|
  {
    order != [] ==>
      && !ReportsWith(log, shift, known, order[0])
      && SilentIn(log, shift, Emplace(known, log[order[0]].refid, order[0] + shift), order[1..])
  }

  /** An honestly ordered log never fails the check, in whatever order its messages are registered. */
  lemma {:induction false} AnyOrderIsSilent(log: seq<Sent>, shift: int, known: map<nat, int>, positions: set<nat>,
          order: seq<nat>)
    requires DistinctRefs(log) && HonestlyOrdered(log) && Registered(log, shift, known, positions)
    requires forall k :: 0 <= k < |order| ==> order[k] < |log| && order[k] !in positions
    requires forall j, k :: 0 <= j < k < |order| ==> order[j] != order[k]
    ensures SilentIn(log, shift, known, order)
    decreases |order|
  {
    hide DistinctRefs, HonestlyOrdered, Registered, ReportsWith;
    if order != [] {
      var p := order[0];
      HonestOutOfTurn(log, shift, known, positions, p);
      Registers(log, shift, known, positions, p);
      AnyOrderIsSilent(log, shift, Emplace(known, log[p].refid, p + shift), positions + {p}, order[1..]);
    }
  }

  lemma {:induction false} HonestOutOfTurn(log: seq<Sent>, shift: int, known: map<nat, int>, positions: set<nat>,
          p: nat)
    requires HonestlyOrdered(log) && Registered(log, shift, known, positions) && p < |log| && p !in positions
    ensures !ReportsWith(log, shift, known, p)
  {
    OutOfTurnReportsIff(log, shift, known, positions, p);
  }

  lemma {:induction false} Registers(log: seq<Sent>, shift: int, known: map<nat, int>, positions: set<nat>, p: nat)
    requires DistinctRefs(log) && Registered(log, shift, known, positions) && p < |log| && p !in positions
    ensures Registered(log, shift, Emplace(known, log[p].refid, p + shift), positions + {p})
  {
    var now := Emplace(known, log[p].refid, p + shift);
    forall r | r in now ensures r != 0 && exists q :: q in positions + {p} && log[q].refid == r {
      if r in known {
        var q :| q in positions && log[q].refid == r;
        assert q in positions + {p};
      } else {
        assert p in positions + {p};
      }
    }
  }
}
