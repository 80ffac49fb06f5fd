/** The commands that carry messages and keys (`MsgCommand`, `KeyCommand`; src/chatdMsg.h:1509-1632). */
module Commands {
  import opened ChatTypes
  import opened Wire

  // ---------- Messages ----------

  datatype Msg = Msg(
    op: byte, chatid: nat, userid: nat, msgid: nat, ts: uint32, updated: uint16, keyid: uint32, payload: seq<byte>)

  predicate Fits(m: Msg) {
    m.chatid < Limit(8) && m.userid < Limit(8) && m.msgid < Limit(8) && |m.payload| < Limit(4)
  }

  function Fields(m: Msg): (r: seq<byte>)
    ensures |r| == 34
  {
    LE(m.chatid, 8) + LE(m.userid, 8) + LE(m.msgid, 8) + LE(m.ts, 4) + LE(m.updated, 2) + LE(m.keyid, 4)
  }

  function FrameOf(m: Msg): Frame {
    Frame(m.op, Fields(m) + LE(|m.payload|, 4), m.payload)
  }

  /** What `execCommand` reads from the fixed part, at its offsets. */
  function MsgOf(f: Frame): Msg
    requires |f.fixed| == 38
  {
    Msg(f.op, FromLE(f.fixed[0..8]), FromLE(f.fixed[8..16]), FromLE(f.fixed[16..24]),
        FromLE(f.fixed[24..28]) % 0x1_0000_0000, FromLE(f.fixed[28..30]) % 0x1_0000,
        FromLE(f.fixed[30..34]) % 0x1_0000_0000, f.payload)
  }

  lemma {:induction false} Widths()
    ensures Limit(2) == 0x1_0000 && Limit(4) == 0x1_0000_0000
  {
    assert Limit(2) == 256 * 256;
    assert Limit(4) == 256 * (256 * Limit(2));
  }

  lemma {:induction false} FieldsBack(m: Msg)
    requires Fits(m)
    ensures MsgOf(FrameOf(m)) == m
  {
    hide LE, FromLE, Limit;
    Widths();
    var f := FrameOf(m).fixed;
    assert f[0..8] == LE(m.chatid, 8) && f[8..16] == LE(m.userid, 8) && f[16..24] == LE(m.msgid, 8);
    assert f[24..28] == LE(m.ts, 4) && f[28..30] == LE(m.updated, 2) && f[30..34] == LE(m.keyid, 4);
    NumberRoundTrip(m.chatid, 8);
    NumberRoundTrip(m.userid, 8);
    NumberRoundTrip(m.msgid, 8);
    NumberRoundTrip(m.ts, 4);
    NumberRoundTrip(m.updated, 2);
    NumberRoundTrip(m.keyid, 4);
  }

  lemma {:induction false} FrameIsWellFormed(m: Msg)
    requires Fits(m) && 2 <= m.op <= 4
    ensures WellFormed(FrameOf(m))
  {
    hide LE, FromLE, Limit;
    assert FrameOf(m).fixed[34..] == LE(|m.payload|, 4);
    NumberRoundTrip(|m.payload|, 4);
  }

  /** `setMsg`: the length goes to offset 35 as a `size_t`, eight bytes of which four belong to the
      payload, which is copied over them. */
  function SetMsg(data: seq<byte>, payload: seq<byte>): seq<byte>
    requires 35 <= |data|
  {
    Write(Write(data, 35, LE(|payload|, 8)), 39, payload)
  }

  /** A command as its constructor leaves it. */
  function Blank(m: Msg): (r: seq<byte>)
    ensures |r| == 39
  {
    [m.op] + Fields(m) + LE(0, 4)
  }

  /** Once its payload is set, the command is the frame of the message, except that a payload shorter
      than four bytes is followed by the upper half of its length. */
  lemma {:induction false} SetMsgWrites(m: Msg)
    requires Fits(m)
    ensures SetMsg(Blank(m), m.payload) == Bytes(FrameOf(m)) + Zeros(if |m.payload| < 4 then 4 - |m.payload| else 0)
  {
    hide LE, Limit, Fits, Fields, Zeros;
    var n := |m.payload|;
    Limits(m);
    WideNumber(n, 4, 8);
    var head := [m.op] + Fields(m);
    assert Blank(m)[..35] == head;
    var w := Write(Blank(m), 35, LE(n, 8));
    assert w == head + LE(n, 4) + Zeros(4);
    assert w[..39] == head + LE(n, 4);
    if n < 4 {
      assert w[39 + n..] == Zeros(4)[n..];
      ZerosFrom(4, n);
    } else {
      ZerosFrom(4, 4);
    }
  }

  lemma {:induction false} Limits(m: Msg)
    requires Fits(m)
    ensures |m.payload| < Limit(4)
  {
  }

  lemma {:induction false} ZerosFrom(n: nat, k: nat)
    requires k <= n
    ensures Zeros(n)[k..] == Zeros(n - k)
    decreases k
  {
    if k > 0 {
      ZerosFrom(n - 1, k - 1);
      assert Zeros(n)[k..] == Zeros(n)[1..][k - 1..];
    }
  }

  function Repeat(f: Frame, n: nat): seq<Frame> {
    if n == 0 then [] else [f] + Repeat(f, n - 1)
  }

  const KEEPALIVE := Frame(OP_KEEPALIVE, [], [])

  lemma {:induction false} ZerosAreKeepalives(n: nat)
    ensures Concat(Repeat(KEEPALIVE, n)) == Zeros(n) && |Repeat(KEEPALIVE, n)| == n
    ensures forall k :: 0 <= k < |Repeat(KEEPALIVE, n)| ==>
              WellFormed(Repeat(KEEPALIVE, n)[k]) && Repeat(KEEPALIVE, n)[k].op == OP_KEEPALIVE
  {
    if n > 0 { ZerosAreKeepalives(n - 1); }
  }

  lemma {:induction false} OpOf(m: Msg)
    ensures FrameOf(m).op == m.op
  {
  }

  /** Without a NEWKEY every command of a frame is read. */
  lemma {:induction false} AllRead(fs: seq<Frame>, chats: set<Id>)
    requires forall k :: 0 <= k < |fs| ==> WellFormed(fs[k]) && fs[k].op != OP_NEWKEY
    ensures Parse(Concat(fs), 0, chats) == (fs, Done)
  {
    hide WellFormed, Parse, ScanKeys;
    assert [] + Concat(fs) == Concat(fs);
    FramesRoundTripIff([], fs, chats);
  }

  /** The command is read back as exactly that message if and only if its payload has at least four
      bytes.  After a shorter one, each missing byte is read as a KEEPALIVE. */
  lemma {:induction false} SetMsgFramesIff(m: Msg, chats: set<Id>)
    requires Fits(m) && 2 <= m.op <= 4
    ensures Parse(SetMsg(Blank(m), m.payload), 0, chats)
            == ([FrameOf(m)] + Repeat(KEEPALIVE, if |m.payload| < 4 then 4 - |m.payload| else 0), Done)
    ensures Parse(SetMsg(Blank(m), m.payload), 0, chats) == ([FrameOf(m)], Done) <==> |m.payload| >= 4
  {
    hide LE, Limit, WellFormed, SetMsg, FrameOf, Zeros, Blank, Repeat, Parse, ScanKeys;
    var k := if |m.payload| < 4 then 4 - |m.payload| else 0;
    var rest := Repeat(KEEPALIVE, k);
    SetMsgWrites(m);
    FrameIsWellFormed(m);
    ZerosAreKeepalives(k);
    var fs := [FrameOf(m)] + rest;
    assert fs[1..] == rest;
    var buf := SetMsg(Blank(m), m.payload);
    assert [] + Concat(fs) == buf;
    OpOf(m);
    AllRead(fs, chats);
    assert Parse(buf, 0, chats) == (fs, Done);
    assert k == 0 ==> fs == [FrameOf(m)];
  }

  function FramesOf(ms: seq<Msg>): (r: seq<Frame>)
    ensures |r| == |ms| && forall k :: 0 <= k < |ms| ==> r[k] == FrameOf(ms[k])
  {
    seq(|ms|, k requires 0 <= k < |ms| => FrameOf(ms[k]))
  }

  /** The bytes of the commands, one after the other. */
  function Sent(ms: seq<Msg>): seq<byte> {
    if ms == [] then [] else SetMsg(Blank(ms[0]), ms[0].payload) + Sent(ms[1..])
  }

  /** Any number of commands with payloads of at least four bytes, sent in one frame, is read back to the
      same messages, field by field. */
  lemma {:induction false} MessagesRoundTrip(ms: seq<Msg>, chats: set<Id>)
    requires forall k :: 0 <= k < |ms| ==> Fits(ms[k]) && 2 <= ms[k].op <= 4 && |ms[k].payload| >= 4
    ensures var (fs, end) := Parse(Sent(ms), 0, chats);
            && end == Done && |fs| == |ms|
            && forall k :: 0 <= k < |ms| ==> |fs[k].fixed| == 38 && MsgOf(fs[k]) == ms[k]
  {
    hide LE, Limit, WellFormed, FrameOf, MsgOf, Parse, Fits, ScanKeys;
    SentIsConcat(ms);
    var fs := FramesOf(ms);
    forall k | 0 <= k < |fs| ensures WellFormed(fs[k]) && |fs[k].fixed| == 38 && MsgOf(fs[k]) == ms[k] {
      FrameIsWellFormed(ms[k]);
      FixedSize(ms[k]);
      FieldsBack(ms[k]);
    }
    assert [] + Concat(fs) == Sent(ms);
    forall k | 0 <= k < |fs| ensures fs[k].op != OP_NEWKEY {
      OpOf(ms[k]);
    }
    AllRead(fs, chats);
  }

  lemma {:induction false} FixedSize(m: Msg)
    ensures |FrameOf(m).fixed| == 38
  {
  }

  lemma {:induction false} SentIsConcat(ms: seq<Msg>)
    requires forall k :: 0 <= k < |ms| ==> Fits(ms[k]) && |ms[k].payload| >= 4
    ensures Sent(ms) == Concat(FramesOf(ms))
    decreases |ms|
  {
    hide LE, Limit, FrameOf, SetMsg, Blank, Fits, Bytes;
    if ms != [] {
      SetMsgWrites(ms[0]);
      SentIsConcat(ms[1..]);
      assert FramesOf(ms)[1..] == FramesOf(ms[1..]);
      assert Zeros(0) == [];
    }
  }

  /** A key id that is confirmed after the command was made replaces the old one, and nothing else. */
  lemma {:induction false} NewKeyId(m: Msg, keyid: uint32)
    ensures 35 <= |Bytes(FrameOf(m))|
            && Write(Bytes(FrameOf(m)), 31, LE(keyid, 4)) == Bytes(FrameOf(m.(keyid := keyid)))
  {
    hide LE;
    var d, e := Bytes(FrameOf(m)), Bytes(FrameOf(m.(keyid := keyid)));
    var head := [m.op] + LE(m.chatid, 8) + LE(m.userid, 8) + LE(m.msgid, 8) + LE(m.ts, 4) + LE(m.updated, 2);
    var tail := LE(|m.payload|, 4) + m.payload;
    assert d == head + LE(m.keyid, 4) + tail;
    assert e == head + LE(keyid, 4) + tail;
  }

  class MsgCommand {
    const buf: Buffer

    constructor (m: Msg)
      ensures fresh(buf) && buf.data == Blank(m)
    {
      hide LE;
      buf := new Buffer(m.op);
      new;
      buf.WriteAt(1, LE(m.chatid, 8));
      buf.WriteAt(9, LE(m.userid, 8));
      buf.WriteAt(17, LE(m.msgid, 8));
      buf.WriteAt(25, LE(m.ts, 4));
      buf.WriteAt(29, LE(m.updated, 2));
      buf.WriteAt(31, LE(m.keyid, 4));
      buf.WriteAt(35, LE(0, 4));
    }

    method SetPayload(payload: seq<byte>)
      requires 35 <= |buf.data|
      modifies buf
      ensures buf.data == SetMsg(old(buf.data), payload)
    {
      buf.WriteAt(35, LE(|payload|, 8));
      buf.WriteAt(39, payload);
    }

    method SetKeyId(keyid: uint32)
      requires 31 <= |buf.data|
      modifies buf
      ensures buf.data == Write(old(buf.data), 31, LE(keyid, 4))
    {
      buf.WriteAt(31, LE(keyid, 4));
    }
  }

  // ---------- Keys ----------

  datatype Entry = Entry(userid: nat, key: seq<byte>)

  function EntryBytes(e: Entry): (r: seq<byte>)
    ensures |r| == 10 + |e.key|
  {
    LE(e.userid, 8) + LE(|e.key|, 2) + e.key
  }

  /** The bytes of the entries from position `i` on. */
  function BlobsFrom(keys: seq<Entry>, i: nat): seq<byte>
    decreases |keys| - i
  {
    if i >= |keys| then [] else EntryBytes(keys[i]) + BlobsFrom(keys, i + 1)
  }

  function Blobs(keys: seq<Entry>): seq<byte> { BlobsFrom(keys, 0) }

  /** A NEWKEY command: opcode, chat, key id, length of the entries, entries. */
  function KeyImage(chatid: nat, keyid: uint32, blobs: seq<byte>): seq<byte> {
    [OP_NEWKEY] + LE(chatid, 8) + LE(keyid, 4) + LE(|blobs|, 4) + blobs
  }

  datatype Found = Key(bytes: seq<byte>) | NoEntry | TooShort

  /** What `getKeyByUserId` finds in the entries from position `i`: sixteen bytes from the start of the
      first key for that user, whatever the length of that key. */
  function Lookup(keys: seq<Entry>, i: nat, userid: nat): Found
    decreases |keys| - i
  {
    if i >= |keys| then NoEntry
    else if keys[i].userid == userid then
      var rest := keys[i].key + BlobsFrom(keys, i + 1);
      if rest == [] then NoEntry else if |rest| < 16 then TooShort else Key(rest[..16])
    else Lookup(keys, i + 1, userid)
  }

  lemma {:induction false} BlobsAppend(keys: seq<Entry>, e: Entry, i: nat)
    requires i <= |keys|
    ensures BlobsFrom(keys + [e], i) == BlobsFrom(keys, i) + EntryBytes(e)
    decreases |keys| - i
  {
    hide EntryBytes;
    if i < |keys| { BlobsAppend(keys, e, i + 1); }
  }

  ghost predicate DistinctUsers(keys: seq<Entry>) {
    forall i, j :: 0 <= i < j < |keys| ==> keys[i].userid != keys[j].userid
  }

  /** Among distinct users, every one gets the key that was added for it, exactly when that key has
      sixteen bytes. */
  lemma {:induction false} EveryKeyIsFoundIff(keys: seq<Entry>, k: nat, from: nat)
    requires DistinctUsers(keys) && from <= k < |keys|
    ensures Lookup(keys, from, keys[k].userid) == Key(keys[k].key) <==> |keys[k].key| == 16
    decreases k - from
  {
    if from < k { EveryKeyIsFoundIff(keys, k, from + 1); }
  }

  /** And a user without an entry gets none. */
  lemma {:induction false} NoOtherKeyIsFound(keys: seq<Entry>, userid: nat, from: nat)
    requires forall i :: 0 <= i < |keys| ==> keys[i].userid != userid
    ensures Lookup(keys, from, userid) == NoEntry
    decreases |keys| - from
  {
    if from < |keys| { NoOtherKeyIsFound(keys, userid, from + 1); }
  }

  lemma {:induction false} OneMoreKey(chatid: nat, keyid: uint32, keys: seq<Entry>, e: Entry)
    ensures var n := |Blobs(keys)| + 10 + |e.key|;
            && |Blobs(keys + [e])| == n && 17 <= |KeyImage(chatid, keyid, Blobs(keys))|
            && Write(KeyImage(chatid, keyid, Blobs(keys)), 13, LE(n, 4)) + EntryBytes(e)
            == KeyImage(chatid, keyid, Blobs(keys + [e]))
  {
    hide LE, EntryBytes;
    BlobsAppend(keys, e, 0);
    var head := [OP_NEWKEY] + LE(chatid, 8) + LE(keyid, 4);
    var d := KeyImage(chatid, keyid, Blobs(keys));
    assert d == head + LE(|Blobs(keys)|, 4) + Blobs(keys);
    assert d[..13] == head && d[17..] == Blobs(keys);
  }

  /** `setKeyBlobs` writes its length with eight bytes as well, but cuts the command to size afterwards:
      the result is right for entries of any length. */
  lemma {:induction false} SetKeyBlobsWrites(chatid: nat, keyid: uint32, blobs: seq<byte>)
    requires |blobs| < Limit(4)
    ensures var d := KeyImage(chatid, keyid, []);
            && 13 <= |d| && 17 <= |Write(d, 13, LE(|blobs|, 8))|
            && var w := Write(Write(d, 13, LE(|blobs|, 8)), 17, blobs);
            17 + |blobs| <= |w| && w[..17 + |blobs|] == KeyImage(chatid, keyid, blobs)
  {
    hide LE, Limit;
    WideNumber(|blobs|, 4, 8);
    var head := [OP_NEWKEY] + LE(chatid, 8) + LE(keyid, 4);
    var d := KeyImage(chatid, keyid, []);
    assert d[..13] == head;
    var w := Write(d, 13, LE(|blobs|, 8));
    assert w == head + LE(|blobs|, 4) + Zeros(4);
  }

  class KeyCommand {
    const buf: Buffer
    const chatid: nat
    const localKeyid: uint32
    ghost var keys: seq<Entry>

    ghost predicate Valid() reads this, buf {
      buf.data == KeyImage(chatid, localKeyid, Blobs(keys)) && |Blobs(keys)| < Limit(4)
      && forall k :: 0 <= k < |keys| ==> keys[k].userid < Limit(8) && |keys[k].key| < Limit(2)
    }

    constructor (chatid: nat, localKeyid: uint32)
      ensures Valid() && fresh(buf) && keys == [] && this.chatid == chatid && this.localKeyid == localKeyid
    {
      hide LE;
      this.chatid := chatid;
      this.localKeyid := localKeyid;
      buf := new Buffer(OP_NEWKEY);
      keys := [];
      new;
      buf.Append(LE(chatid, 8));
      buf.Append(LE(localKeyid, 4));
      buf.Append(LE(0, 4));
    }

    /** `addKey`. */
    method AddKey(userid: nat, key: seq<byte>)
      requires Valid() && userid < Limit(8) && 0 < |key| < Limit(2) && |Blobs(keys)| + 10 + |key| < Limit(4)
      modifies this`keys, buf
      ensures Valid() && keys == old(keys) + [Entry(userid, key)]
    {
      hide LE, FromLE, Limit, Blobs, EntryBytes, KeyImage;
      ghost var e := Entry(userid, key);
      OneMoreKey(chatid, localKeyid, keys, e);
      SizeField(chatid, localKeyid, Blobs(keys));
      var size := FromLE(buf.data[13..17]) + 10 + |key|;
      buf.WriteAt(13, LE(size, 4));
      buf.Append(LE(userid, 8) + LE(|key|, 2) + key);
      EntryIs(e);
      keys := keys + [e];
    }

    /** `setKeyBlobs` of a command that has no keys yet. */
    method SetKeyBlobs(blobs: seq<byte>)
      requires buf.data == KeyImage(chatid, localKeyid, []) && |blobs| < Limit(4)
      modifies buf
      ensures buf.data == KeyImage(chatid, localKeyid, blobs)
    {
      hide LE, Limit, KeyImage;
      SetKeyBlobsWrites(chatid, localKeyid, blobs);
      buf.WriteAt(13, LE(|blobs|, 8));
      buf.WriteAt(17, blobs);
      buf.SetDataSize(17 + |blobs|);
    }

    /** `getKeyByUserId`. */
    method GetKeyByUserId(userid: nat) returns (r: Found)
      requires Valid()
      ensures r == Lookup(keys, 0, userid)
    {
      hide LE, FromLE, Limit, Blobs, EntryBytes, KeyImage;
      SizeField(chatid, localKeyid, Blobs(keys));
      var pos, end := 17, |buf.data|;
      ghost var i := 0;
      FromStart(keys);
      while pos < end
        invariant 0 <= i <= |keys| && 17 <= pos <= end == |buf.data| && buf.data[pos..] == BlobsFrom(keys, i)
        invariant Lookup(keys, i, userid) == Lookup(keys, 0, userid)
        decreases end - pos
      {
        ghost var rest := buf.data[pos..];
        EntryStart(keys, i, rest);
        var receiver := FromLE(buf.data[pos..pos + 8]);
        var keylen := FromLE(buf.data[pos + 8..pos + 10]);
        assert buf.data[pos..pos + 8] == rest[..8] && buf.data[pos + 8..pos + 10] == rest[8..10];
        pos := pos + 10;
        assert buf.data[pos..] == rest[10..];
        if receiver == userid {
          if pos >= end { return NoEntry; }
          if end - pos < 16 { return TooShort; }
          assert buf.data[pos..pos + 16] == buf.data[pos..][..16];
          return Key(buf.data[pos..pos + 16]);
        }
        pos := pos + keylen;
        assert buf.data[pos..] == rest[10..][keylen..];
        i := i + 1;
      }
      assert buf.data[pos..] == [];
      EntrySize(keys, i);
      return NoEntry;
    }
  }

  lemma {:induction false} FromStart(keys: seq<Entry>)
    ensures Blobs(keys) == BlobsFrom(keys, 0)
  {
  }

  lemma {:induction false} EntryIs(e: Entry)
    ensures EntryBytes(e) == LE(e.userid, 8) + LE(|e.key|, 2) + e.key
  {
  }

  lemma {:induction false} EntrySize(keys: seq<Entry>, i: nat)
    ensures i < |keys| ==> |BlobsFrom(keys, i)| >= 10
  {
  }

  lemma {:induction false} SizeField(chatid: nat, keyid: uint32, blobs: seq<byte>)
    requires |blobs| < Limit(4)
    ensures var d := KeyImage(chatid, keyid, blobs); 17 <= |d| && FromLE(d[13..17]) == |blobs| && d[17..] == blobs
  {
    hide LE, FromLE, Limit;
    var d := KeyImage(chatid, keyid, blobs);
    assert d[13..17] == LE(|blobs|, 4);
    NumberRoundTrip(|blobs|, 4);
  }

  /** The header of the entry that `rest` starts with, and what follows its key. */
  lemma {:induction false} EntryStart(keys: seq<Entry>, i: nat, rest: seq<byte>)
    requires i < |keys| ==> keys[i].userid < Limit(8) && |keys[i].key| < Limit(2)
    requires rest == BlobsFrom(keys, i) && rest != []
    ensures i < |keys| && |rest| >= 10 + |keys[i].key|
    ensures FromLE(rest[..8]) == keys[i].userid && FromLE(rest[8..10]) == |keys[i].key|
    ensures rest[10..] == keys[i].key + BlobsFrom(keys, i + 1) && rest[10..][|keys[i].key|..] == BlobsFrom(keys, i + 1)
  {
    hide LE, FromLE, Limit;
    assert i < |keys|;
    var e := keys[i];
    assert rest == LE(e.userid, 8) + LE(|e.key|, 2) + e.key + BlobsFrom(keys, i + 1);
    assert rest[..8] == LE(e.userid, 8) && rest[8..10] == LE(|e.key|, 2);
    NumberRoundTrip(e.userid, 8);
    NumberRoundTrip(|e.key|, 2);
  }
}
