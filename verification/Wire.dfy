/** The binary protocol: little-endian fields, the layout of each opcode, and the loop that takes a
    received frame apart (src/chatd.cpp:2085-2760, src/buffer.h:60-98 and 285-340). */
module Wire {
  import opened ChatTypes

  // ---------- Numbers ----------

  function LE(n: nat, width: nat): (r: seq<byte>)
    ensures |r| == width
  {
    if width == 0 then [] else [n % 256] + LE(n / 256, width - 1)
  }

  function FromLE(s: seq<byte>): nat {
    if s == [] then 0 else s[0] + 256 * FromLE(s[1..])
  }

  function Limit(width: nat): nat { if width == 0 then 1 else 256 * Limit(width - 1) }

  lemma {:induction false} NumberRoundTrip(n: nat, width: nat)
    requires n < Limit(width)
    ensures FromLE(LE(n, width)) == n
    decreases width
  {
    if width > 0 {
      NumberRoundTrip(n / 256, width - 1);
      assert LE(n, width)[1..] == LE(n / 256, width - 1);
    }
  }

  /** A number written with more bytes than it needs ends in zeros. */
  lemma {:induction false} WideNumber(n: nat, width: nat, wide: nat)
    requires n < Limit(width) && width <= wide
    ensures LE(n, wide) == LE(n, width) + Zeros(wide - width)
    decreases width
  {
    if width == 0 {
      ZeroBytes(wide);
    } else {
      WideNumber(n / 256, width - 1, wide - 1);
    }
  }

  function Zeros(n: nat): (r: seq<byte>)
    ensures |r| == n
  {
    if n == 0 then [] else [0] + Zeros(n - 1)
  }

  lemma {:induction false} ZeroBytes(width: nat)
    ensures LE(0, width) == Zeros(width)
  {
    if width > 0 { ZeroBytes(width - 1); }
  }

  // ---------- Opcodes ----------

  const OP_KEEPALIVE: byte := 0
  const OP_NEWMSG: byte := 3
  const OP_NEWKEY: byte := 17

  /** How `execCommand` reads a command: `fixed` bytes after the opcode, of which the last `len` bytes
      count a payload in units of `unit` bytes.  The payload is read within bounds (`checked`), or
      skipped without looking. */
  datatype Layout = Layout(fixed: nat, len: nat, unit: nat, checked: bool)

  function LayoutOf(op: byte): (r: Option<Layout>)
    ensures r.Some? ==> r.value.len <= r.value.fixed
  {
    if op == 0 || op == 32 then Some(Layout(0, 0, 0, true))                              // KEEPALIVE, ECHO
    else if op == 12 || op == 1 then Some(Layout(17, 0, 0, true))                        // BROADCAST, JOIN
    else if 2 <= op <= 4 then Some(Layout(38, 4, 1, true))                               // OLDMSG, NEWMSG, MSGUPD
    else if op == 5 || op == 6 || op == 48 then Some(Layout(16, 0, 0, true))             // SEEN, RECEIVED, REACTIONSN
    else if op == 7 || op == 28 || op == 29 then Some(Layout(20, 0, 0, true))            // RETENTION, INCALL, ENDCALL
    else if op == 10 || op == 21 || op == 18 then Some(Layout(16, 0, 0, true))           // NEWMSGID, MSGID, NEWKEYID
    else if op == 11 then Some(Layout(18, 0, 0, true))                                   // REJECT
    else if op == 13 || op == 38 || op == 24 then Some(Layout(8, 0, 0, true))            // HISTDONE, SYNC, CLIENTID
    else if op == 17 then Some(Layout(16, 4, 1, true))                                   // NEWKEY
    else if op == 31 || 25 <= op <= 27 then Some(Layout(22, 2, 1, false))                // CALLDATA, RTMSG_*
    else if op == 33 || op == 34 then Some(Layout(25, 1, 1, true))                       // ADDREACTION, DELREACTION
    else if op == 42 || op == 46 then Some(Layout(12, 0, 0, true))                       // CALLTIME, NUMBYHANDLE
    else if op == 49 || op == 50 then Some(Layout(20, 0, 0, true))                       // (NEW)MSGIDTIMESTAMP
    else if op == 51 || op == 52 then Some(Layout(17, 1, 8, true))                       // JOINEDCALL, LEFTCALL
    else if op == 53 then Some(Layout(25, 0, 0, true))                                   // CALLSTATE
    else if op == 54 then Some(Layout(16, 0, 0, true))                                   // CALLEND
    else if op == 55 then Some(Layout(17, 0, 0, true))                                   // DELCALLREASON
    else None
  }

  /** One command taken from a buffer. */
  datatype Frame = Frame(op: byte, fixed: seq<byte>, payload: seq<byte>)

  datatype End = Done | Overshot | RangeError | Unknown

  function PayloadSize(l: Layout, fixed: seq<byte>): nat
    requires l.len <= l.fixed == |fixed|
  {
    FromLE(fixed[l.fixed - l.len..]) * l.unit
  }

  /** A command that fills its layout. */
  predicate WellFormed(f: Frame) {
    var l := LayoutOf(f.op);
    l.Some? && |f.fixed| == l.value.fixed && |f.payload| == PayloadSize(l.value, f.fixed)
  }

  function Bytes(f: Frame): seq<byte> { [f.op] + f.fixed + f.payload }

  function Concat(fs: seq<Frame>): seq<byte> {
    if fs == [] then [] else Bytes(fs[0]) + Concat(fs[1..])
  }

  /** One turn of the loop at `pos`: the command found there, and where the next one starts. */
  datatype Turn = Turn(frame: Frame, next: nat) | Stop(why: End)

  function TurnAt(buf: seq<byte>, pos: nat): (t: Turn)
    requires pos < |buf|
    ensures if t.Turn? then t.next > pos else t.why in {RangeError, Unknown}
  {
    var l := LayoutOf(buf[pos]);
    if l.None? then Stop(Unknown)
    else if pos + 1 + l.value.fixed > |buf| then Stop(RangeError)
    else
      var body := pos + 1 + l.value.fixed;
      var fixed := buf[pos + 1..body];
      var size := PayloadSize(l.value, fixed);
      if body + size <= |buf| then Turn(Frame(buf[pos], fixed, buf[body..body + size]), body + size)
      else if l.value.checked then Stop(RangeError)
      else Turn(Frame(buf[pos], fixed, buf[body..]), body + size)
  }

  // ---------- Received keys ----------

  /** An entry of a NEWKEY: userid.8, keyid.4, keylen.2, key.keylen. */
  datatype ReceivedKey = ReceivedKey(userid: nat, keyid: nat, key: seq<byte>)

  /** `onNewKeys` from `pos` on: the keys handed to the crypto module, and whether a read overran the
      payload.  An entry that would start 14 bytes or less before the end is not looked at. */
  function ScanKeys(keys: seq<byte>, pos: nat): (seq<ReceivedKey>, bool)
    decreases |keys| - pos
  {
    if pos + 14 >= |keys| then ([], false) else
    var next := pos + 14 + FromLE(keys[pos + 12..pos + 14]);
    if next > |keys| then ([], true) else
    var k := ReceivedKey(FromLE(keys[pos..pos + 8]), FromLE(keys[pos + 8..pos + 12]), keys[pos + 14..next]);
    var (ks, overrun) := ScanKeys(keys, next);
    ([k] + ks, overrun)
  }

  /** The handler of a command throws a `BufferRangeError`: a NEWKEY for a known chat with an entry that
      overruns the payload.  An unknown chat is another exception, which the loop survives. */
  predicate Throws(f: Frame, chats: set<Id>) {
    f.op == OP_NEWKEY && |f.fixed| >= 8 && FromLE(f.fixed[..8]) in chats && ScanKeys(f.payload, 0).1
  }

  predicate KeyFits(k: ReceivedKey) {
    k.userid < Limit(8) && k.keyid < Limit(4) && |k.key| < Limit(2)
  }

  function KeyBytes(k: ReceivedKey): (r: seq<byte>)
    ensures |r| == 14 + |k.key|
  {
    LE(k.userid, 8) + LE(k.keyid, 4) + LE(|k.key|, 2) + k.key
  }

  function ConcatKeys(ks: seq<ReceivedKey>): seq<byte> {
    if ks == [] then [] else KeyBytes(ks[0]) + ConcatKeys(ks[1..])
  }

  lemma {:induction false} KeyFound(keys: seq<byte>, pos: nat, k: ReceivedKey)
    requires KeyFits(k) && pos + 14 + |k.key| <= |keys| && keys[pos..pos + 14 + |k.key|] == KeyBytes(k)
    ensures FromLE(keys[pos..pos + 8]) == k.userid && FromLE(keys[pos + 8..pos + 12]) == k.keyid
    ensures FromLE(keys[pos + 12..pos + 14]) == |k.key| && keys[pos + 14..pos + 14 + |k.key|] == k.key
  {
    hide LE, FromLE, Limit;
    var b, n := KeyBytes(k), 14 + |k.key|;
    SubSlice(keys, pos, pos + n, 0, 8);
    SubSlice(keys, pos, pos + n, 8, 12);
    SubSlice(keys, pos, pos + n, 12, 14);
    SubSlice(keys, pos, pos + n, 14, n);
    assert b[0..8] == LE(k.userid, 8) && b[8..12] == LE(k.keyid, 4) && b[12..14] == LE(|k.key|, 2) && b[14..n] == k.key;
    NumberRoundTrip(k.userid, 8);
    NumberRoundTrip(k.keyid, 4);
    NumberRoundTrip(|k.key|, 2);
  }

  /** Well-formed entries never overrun, and are handed on as they were written, but for an empty key at
      the very end, which is not looked at. */
  lemma {:induction false} KeysRoundTrip(before: seq<byte>, ks: seq<ReceivedKey>)
    requires forall k :: 0 <= k < |ks| ==> KeyFits(ks[k])
    ensures var (found, overrun) := ScanKeys(before + ConcatKeys(ks), |before|);
            && !overrun
            && found == (if ks != [] && ks[|ks| - 1].key == [] then ks[..|ks| - 1] else ks)
    decreases |ks|
  {
    hide KeyFits, LE, FromLE, KeyBytes;
    var keys := before + ConcatKeys(ks);
    if ks == [] {
      assert keys == before;
    } else {
      var b := KeyBytes(ks[0]);
      assert keys[|before|..|before| + |b|] == b;
      KeyFound(keys, |before|, ks[0]);
      assert (before + b) + ConcatKeys(ks[1..]) == keys;
      KeysRoundTrip(before + b, ks[1..]);
      if |ks| == 1 {
        assert ks[1..] == [] && ConcatKeys(ks[1..]) == [];
      } else {
        assert |ConcatKeys(ks[1..])| > 0;
        assert [ks[0]] + ks[1..] == ks && [ks[0]] + ks[1..][..|ks| - 2] == ks[..|ks| - 1];
      }
    }
  }

  // ---------- The loop ----------

  /** The commands of a buffer from `pos` on, and how the loop ends. */
  function Parse(buf: seq<byte>, pos: nat, chats: set<Id>): (seq<Frame>, End)
    decreases |buf| - pos
  {
    if pos >= |buf| then ([], if pos == |buf| then Done else Overshot)
    else match TurnAt(buf, pos)
      case Stop(why) => ([], why)
      case Turn(f, next) =>
        if Throws(f, chats) then ([f], RangeError) else
        var (fs, end) := Parse(buf, next, chats);
        ([f] + fs, end)
  }

  lemma {:induction false} TurnFinds(buf: seq<byte>, pos: nat, f: Frame)
    requires WellFormed(f) && pos + |Bytes(f)| <= |buf| && buf[pos..pos + |Bytes(f)|] == Bytes(f)
    ensures TurnAt(buf, pos) == Turn(f, pos + |Bytes(f)|)
  {
    hide LayoutOf, FromLE;
    var b, n := Bytes(f), LayoutOf(f.op).value.fixed;
    SubSlice(buf, pos, pos + |b|, 0, 1);
    assert buf[pos] == buf[pos..pos + 1][0] == b[..1][0] == f.op;
    SubSlice(buf, pos, pos + |b|, 1, 1 + n);
    assert b[1..1 + n] == f.fixed;
    SubSlice(buf, pos, pos + |b|, 1 + n, |b|);
    assert b[1 + n..] == f.payload;
  }

  lemma {:induction false} SubSlice(s: seq<byte>, i: nat, j: nat, a: nat, b: nat)
    requires a <= b <= j - i && j <= |s|
    ensures s[i..j][a..b] == s[i + a..i + b]
  {
    forall k | 0 <= k < b - a ensures s[i..j][a..b][k] == s[i + a..i + b][k] {
    }
  }

  /** The commands up to the first one whose handler overruns its payload, that one included. */
  function UpToThrow(fs: seq<Frame>, chats: set<Id>): (seq<Frame>, End) {
    if fs == [] then ([], Done)
    else if Throws(fs[0], chats) then ([fs[0]], RangeError)
    else ([fs[0]] + UpToThrow(fs[1..], chats).0, UpToThrow(fs[1..], chats).1)
  }

  ghost predicate NoThrow(fs: seq<Frame>, n: nat, chats: set<Id>) {
    forall k :: 0 <= k < |fs| && k < n ==> !Throws(fs[k], chats)
  }

  lemma {:induction false} UpToThrowIff(fs: seq<Frame>, chats: set<Id>)
    ensures UpToThrow(fs, chats).1 == Done <==> NoThrow(fs, |fs|, chats)
    ensures UpToThrow(fs, chats).0 == fs <==> NoThrow(fs, if fs == [] then 0 else |fs| - 1, chats)
    ensures UpToThrow(fs, chats).0 <= fs && UpToThrow(fs, chats).1 in {Done, RangeError}
  {
    hide Throws;
    if fs != [] {
      UpToThrowIff(fs[1..], chats);
      assert [fs[0]] + fs[1..] == fs;
      assert forall k :: 0 < k < |fs| ==> fs[k] == fs[1..][k - 1];
      assert |fs| == 1 ==> fs[1..] == [] && fs == [fs[0]];
      if !Throws(fs[0], chats) {
        NoThrowTail(fs, |fs|, chats);
        if |fs| > 1 { NoThrowTail(fs, |fs| - 1, chats); }
        assert UpToThrow(fs, chats).0[1..] == UpToThrow(fs[1..], chats).0;
      }
    }
  }

  lemma {:induction false} NoThrowTail(fs: seq<Frame>, n: nat, chats: set<Id>)
    requires fs != [] && n > 0 && !Throws(fs[0], chats)
    ensures NoThrow(fs, n, chats) <==> NoThrow(fs[1..], n - 1, chats)
  {
    hide Throws;
    assert forall k :: 0 < k < |fs| ==> fs[k] == fs[1..][k - 1];
  }

  /** Commands written one after the other are read up to the first NEWKEY that overruns its payload. */
  lemma {:induction false} FramesRead(before: seq<byte>, fs: seq<Frame>, chats: set<Id>)
    requires forall k :: 0 <= k < |fs| ==> WellFormed(fs[k])
    ensures Parse(before + Concat(fs), |before|, chats) == UpToThrow(fs, chats)
    decreases |fs|
  {
    hide WellFormed, TurnAt, Throws;
    var buf := before + Concat(fs);
    if fs != [] {
      var b := Bytes(fs[0]);
      assert buf[|before|..|before| + |b|] == b;
      TurnFinds(buf, |before|, fs[0]);
      assert (before + b) + Concat(fs[1..]) == buf;
      FramesRead(before + b, fs[1..], chats);
    } else {
      assert buf == before;
    }
  }

  /** Commands written one after the other, of any opcode, are all read back as they were written if and
      only if no NEWKEY before the last one overruns its payload, and to the end of the frame if and
      only if none does. */
  lemma {:induction false} FramesRoundTripIff(before: seq<byte>, fs: seq<Frame>, chats: set<Id>)
    requires forall k :: 0 <= k < |fs| ==> WellFormed(fs[k])
    ensures var (found, end) := Parse(before + Concat(fs), |before|, chats);
            && found <= fs && (end == Done || end == RangeError)
            && (found == fs <==> NoThrow(fs, if fs == [] then 0 else |fs| - 1, chats))
            && (end == Done <==> NoThrow(fs, |fs|, chats))
  {
    hide WellFormed, Throws, Parse, NoThrow;
    FramesRead(before, fs, chats);
    UpToThrowIff(fs, chats);
  }

  /** A NEWKEY for chat 1 whose one entry announces two bytes of key and carries one. */
  const OVERRUN := Frame(OP_NEWKEY, [1, 0, 0, 0, 0, 0, 0, 0, 9, 0, 0, 0, 15, 0, 0, 0],
                         [5, 0, 0, 0, 0, 0, 0, 0, 9, 0, 0, 0, 2, 0, 7])

  /** It makes the loop drop the KEEPALIVE behind it, unless the chat is unknown. */
  lemma {:induction false} OverrunDropsTheRest(before: seq<byte>, chats: set<Id>)
    ensures var alive := Frame(OP_KEEPALIVE, [], []);
            Parse(before + Concat([OVERRUN, alive]), |before|, chats)
            == if 1 in chats then ([OVERRUN], RangeError) else ([OVERRUN, alive], Done)
  {
    hide Parse, Throws, WellFormed, Bytes;
    var alive := Frame(OP_KEEPALIVE, [], []);
    var fs := [OVERRUN, alive];
    OverrunFits();
    OverrunThrows(chats);
    KeepaliveFits(chats);
    FramesRead(before, fs, chats);
    assert fs[1..] == [alive] && [alive][1..] == [];
    assert UpToThrow([], chats) == ([], Done);
    assert [alive] + [] == [alive] && [OVERRUN] + [alive] == fs;
    assert UpToThrow([alive], chats) == ([alive], Done);
    assert fs[0] == OVERRUN;
  }

  lemma {:induction false} OverrunFits()
    ensures WellFormed(OVERRUN)
  {
    hide FromLE;
    SmallNumbers();
    assert OVERRUN.fixed[12..] == [15, 0, 0, 0];
  }

  lemma {:induction false} OverrunThrows(chats: set<Id>)
    ensures Throws(OVERRUN, chats) <==> 1 in chats
  {
    hide FromLE;
    SmallNumbers();
    assert OVERRUN.fixed[..8] == [1, 0, 0, 0, 0, 0, 0, 0];
    assert OVERRUN.payload[0 + 12..0 + 14] == [2, 0];
  }

  lemma {:induction false} KeepaliveFits(chats: set<Id>)
    ensures WellFormed(Frame(OP_KEEPALIVE, [], [])) && !Throws(Frame(OP_KEEPALIVE, [], []), chats)
  {
  }

  lemma {:induction false} SmallNumbers()
    ensures FromLE([15, 0, 0, 0]) == 15 && FromLE([1, 0, 0, 0, 0, 0, 0, 0]) == 1 && FromLE([2, 0]) == 2
  {
    NumberRoundTrip(15, 4);
    NumberRoundTrip(1, 8);
    NumberRoundTrip(2, 2);
    assert LE(15, 4) == [15, 0, 0, 0];
    ZeroBytes(7);
    assert LE(1, 8) == [1] + LE(0, 7) == [1, 0, 0, 0, 0, 0, 0, 0];
    assert LE(2, 2) == [2, 0];
  }

  /** And a buffer that is read to its end is exactly the commands that were found in it. */
  lemma {:induction false} ParseIsFaithful(buf: seq<byte>, pos: nat, chats: set<Id>)
    requires pos <= |buf| && Parse(buf, pos, chats).1 == Done
    ensures Concat(Parse(buf, pos, chats).0) == buf[pos..]
    ensures forall k :: 0 <= k < |Parse(buf, pos, chats).0| ==>
              WellFormed(Parse(buf, pos, chats).0[k]) && !Throws(Parse(buf, pos, chats).0[k], chats)
    decreases |buf| - pos
  {
    hide TurnAt, WellFormed, Bytes, Throws;
    if pos < |buf| {
      var t := TurnAt(buf, pos);
      assert t.Turn?;
      if t.next <= |buf| {
        TurnIsFaithful(buf, pos);
        ParseIsFaithful(buf, t.next, chats);
        assert buf[pos..] == buf[pos..t.next] + buf[t.next..];
      }
    }
  }

  lemma {:induction false} TurnIsFaithful(buf: seq<byte>, pos: nat)
    requires pos < |buf| && TurnAt(buf, pos).Turn? && TurnAt(buf, pos).next <= |buf|
    ensures var t := TurnAt(buf, pos); Bytes(t.frame) == buf[pos..t.next] && WellFormed(t.frame)
  {
    hide LayoutOf, FromLE;
    var t := TurnAt(buf, pos);
    var n := LayoutOf(buf[pos]).value.fixed;
    assert buf[pos..t.next] == [buf[pos]] + buf[pos + 1..pos + 1 + n] + buf[pos + 1 + n..t.next];
  }

  /** `onNewKeys`. */
  method OnNewKeys(keys: seq<byte>) returns (found: seq<ReceivedKey>, overrun: bool)
    ensures (found, overrun) == ScanKeys(keys, 0)
  {
    hide FromLE;
    found := [];
    var pos := 0;
    assert found + ScanKeys(keys, 0).0 == ScanKeys(keys, 0).0;
    while pos + 14 < |keys|
      invariant pos <= |keys| && ScanKeys(keys, 0) == (found + ScanKeys(keys, pos).0, ScanKeys(keys, pos).1)
      decreases |keys| - pos
    {
      var userid := FromLE(keys[pos..pos + 8]);
      var keyid := FromLE(keys[pos + 8..pos + 12]);
      var keylen := FromLE(keys[pos + 12..pos + 14]);
      var next := pos + 14 + keylen;
      if next > |keys| {
        assert found + [] == found;
        return found, true;
      }
      var k := ReceivedKey(userid, keyid, keys[pos + 14..next]);
      assert found + ([k] + ScanKeys(keys, next).0) == (found + [k]) + ScanKeys(keys, next).0;
      found := found + [k];
      pos := next;
    }
    assert found + [] == found;
    overrun := false;
  }

  /** `execCommand`, with the chats that the client knows.  A handler runs after its command has been read,
      and what it throws does not stop the loop, except for a `BufferRangeError`. */
  method ExecCommand(buf: seq<byte>, chats: set<Id>) returns (frames: seq<Frame>, end: End)
    ensures (frames, end) == Parse(buf, 0, chats)
  {
    hide TurnAt, ScanKeys;
    frames := [];
    var pos := 0;
    assert frames + Parse(buf, 0, chats).0 == Parse(buf, 0, chats).0;
    while pos < |buf|
      invariant Parse(buf, 0, chats) == (frames + Parse(buf, pos, chats).0, Parse(buf, pos, chats).1)
      decreases |buf| - pos
    {
      var turn := ReadCommand(buf, pos);
      if turn.Stop? {
        assert frames + [] == frames;
        return frames, turn.why;
      }
      var f := turn.frame;
      if f.op == OP_NEWKEY && |f.fixed| >= 8 && FromLE(f.fixed[..8]) in chats {
        var keys, overrun := OnNewKeys(f.payload);
        if overrun { return frames + [f], RangeError; }
      }
      assert frames + ([f] + Parse(buf, turn.next, chats).0) == (frames + [f]) + Parse(buf, turn.next, chats).0;
      frames := frames + [f];
      pos := turn.next;
    }
    end := if pos == |buf| then Done else Overshot;
    assert frames + [] == frames;
  }

  /** The reads of one `case`. */
  method ReadCommand(buf: seq<byte>, start: nat) returns (turn: Turn)
    requires start < |buf|
    ensures turn == TurnAt(buf, start)
  {
    hide LayoutOf, FromLE;
    var pos := start;
    var opcode := buf[pos];
    pos := pos + 1;
    var layout := LayoutOf(opcode);
    if layout.None? { return Stop(Unknown); }
    var l := layout.value;
    if pos + l.fixed > |buf| { return Stop(RangeError); }
    var fixed := buf[pos..pos + l.fixed];
    pos := pos + l.fixed;
    var size := FromLE(fixed[l.fixed - l.len..]) * l.unit;
    if pos + size > |buf| {
      if l.checked { return Stop(RangeError); }
      return Turn(Frame(opcode, fixed, buf[pos..]), pos + size);
    }
    return Turn(Frame(opcode, fixed, buf[pos..pos + size]), pos + size);
  }

  // ---------- Buffers ----------

  /** `Buffer::write`, and `writePtr` followed by a copy, at an offset up to the end of the data: bytes
      beyond the written ones stay. */
  function Write(data: seq<byte>, offset: nat, bytes: seq<byte>): (r: seq<byte>)
    requires offset <= |data|
  {
    data[..offset] + bytes + if offset + |bytes| <= |data| then data[offset + |bytes|..] else []
  }

  class Buffer {
    var data: seq<byte>

    constructor (opcode: byte)
      ensures data == [opcode]
    {
      data := [opcode];
    }

    method WriteAt(offset: nat, bytes: seq<byte>)
      requires offset <= |data|
      modifies this
      ensures data == Write(old(data), offset, bytes)
    {
      var reqdSize := offset + |bytes|;
      if reqdSize <= |data| {
        data := data[..offset] + bytes + data[reqdSize..];
      } else {
        data := data[..offset] + bytes;
      }
    }

    method Append(bytes: seq<byte>)
      modifies this
      ensures data == old(data) + bytes
    {
      WriteAt(|data|, bytes);
    }

    method SetDataSize(size: nat)
      requires size <= |data|
      modifies this
      ensures data == old(data)[..size]
    {
      data := data[..size];
    }
  }
}
