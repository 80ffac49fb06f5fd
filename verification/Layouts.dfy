/** Where the fields of commands are: the widths that `execCommand` reads one after the other (`READ_CHATID`,
    `READ_ID`, `READ_32`, `READ_16` and `READ_8`; src/chatd.cpp:2085-2096 and 2128-2713), and the offsets that
    are written (src/chatdMsg.h:1509-1632). */
module Layouts {
  import opened ChatTypes
  import opened Wire
  import opened Commands

  function Sum(widths: seq<nat>): nat {
    if widths == [] then 0 else widths[0] + Sum(widths[1..])
  }

  /** The fields that are read of a received command. */
  function Reads(op: byte): Option<seq<nat>> {
    match op
    case 0 => Some([])                         // KEEPALIVE
    case 1 => Some([8, 8, 1])                  // JOIN: chat, user, privilege
    case 2 => Some([8, 8, 8, 4, 2, 4, 4])      // OLDMSG: chat, user, message, time, delta, key, length
    case 3 => Some([8, 8, 8, 4, 2, 4, 4])      // NEWMSG
    case 4 => Some([8, 8, 8, 4, 2, 4, 4])      // MSGUPD
    case 5 => Some([8, 8])                     // SEEN: chat, message
    case 6 => Some([8, 8])                     // RECEIVED
    case 7 => Some([8, 8, 4])                  // RETENTION: chat, user, period
    case 10 => Some([8, 8])                    // NEWMSGID: temporary id, id
    case 11 => Some([8, 8, 1, 1])              // REJECT: chat, id, opcode, reason
    case 12 => Some([8, 8, 1])                 // BROADCAST: chat, user, kind
    case 13 => Some([8])                       // HISTDONE: chat
    case 17 => Some([8, 4, 4])                 // NEWKEY: chat, key, length
    case 18 => Some([8, 4, 4])                 // NEWKEYID: chat, local key, key
    case 21 => Some([8, 8])                    // MSGID: temporary id, id
    case 24 => Some([4, 4])                    // CLIENTID: client, unused
    case 25 => Some([8, 8, 4, 2])              // RTMSG_BROADCAST: chat, user, client, length
    case 26 => Some([8, 8, 4, 2])              // RTMSG_USER
    case 27 => Some([8, 8, 4, 2])              // RTMSG_ENDPOINT
    case 28 => Some([8, 8, 4])                 // INCALL: chat, user, client
    case 29 => Some([8, 8, 4])                 // ENDCALL
    case 31 => Some([8, 8, 4, 2])              // CALLDATA: chat, user, client, length
    case 32 => Some([])                        // ECHO
    case 33 => Some([8, 8, 8, 1])              // ADDREACTION: chat, user, message, length
    case 34 => Some([8, 8, 8, 1])              // DELREACTION
    case 38 => Some([8])                       // SYNC: chat
    case 42 => Some([8, 4])                    // CALLTIME: chat, duration
    case 46 => Some([8, 4])                    // NUMBYHANDLE: chat, count
    case 48 => Some([8, 8])                    // REACTIONSN: chat, sequence number
    case 49 => Some([8, 8, 4])                 // MSGIDTIMESTAMP: temporary id, id, time
    case 50 => Some([8, 8, 4])                 // NEWMSGIDTIMESTAMP
    case 51 => Some([8, 8, 1])                 // JOINEDCALL: chat, call, number of users
    case 52 => Some([8, 8, 1])                 // LEFTCALL
    case 53 => Some([8, 8, 8, 1])              // CALLSTATE: chat, user, call, ringing
    case 54 => Some([8, 8])                    // CALLEND: chat, call
    case 55 => Some([8, 8, 1])                 // DELCALLREASON: chat, call, reason
    case _ => None
  }

  /** The commands with a payload; its length is the last of the fields. */
  predicate HasPayload(op: byte) { op in {2, 3, 4, 17, 25, 26, 27, 31, 33, 34, 51, 52} }

  /** The loop knows exactly these opcodes.  It takes the fields of a command and no more, counts the payload by
      the last field, in users of eight bytes for the lists of a call, and skips that of call data and of the
      RTMSG commands without a look at the end of the buffer. */
  lemma {:induction false} LayoutsAre(op: byte)
    ensures LayoutOf(op).Some? <==> Reads(op).Some?
    ensures Reads(op).Some? ==>
              var l, widths := LayoutOf(op).value, Reads(op).value;
              && l.fixed == Sum(widths) && (HasPayload(op) ==> widths != [] && l.len == widths[|widths| - 1])
              && (!HasPayload(op) ==> l.len == 0 && l.unit == 0)
              && (HasPayload(op) ==> l.unit == if op == 51 || op == 52 then 8 else 1)
              && (l.checked <==> op !in {25, 26, 27, 31})
  {
    SumsAre();
  }

  lemma {:induction false} SumsAre()
    ensures Sum([]) == 0 && Sum([8]) == 8 && Sum([8, 8]) == 16 && Sum([4, 4]) == 8 && Sum([8, 4]) == 12
    ensures Sum([8, 8, 1]) == 17 && Sum([8, 8, 4]) == 20 && Sum([8, 4, 4]) == 16
    ensures Sum([8, 8, 1, 1]) == 18 && Sum([8, 8, 4, 2]) == 22 && Sum([8, 8, 8, 1]) == 25
    ensures Sum([8, 8, 8, 4, 2, 4, 4]) == 38
  {
    assert [8, 8, 8, 4, 2, 4, 4][1..] == [8, 8, 4, 2, 4, 4] && [8, 8, 4, 2, 4, 4][1..] == [8, 4, 2, 4, 4];
    assert [8, 4, 2, 4, 4][1..] == [4, 2, 4, 4] && [4, 2, 4, 4][1..] == [2, 4, 4] && [2, 4, 4][1..] == [4, 4];
  }

  // ---------- Numbers ----------

  lemma {:induction false} LimitsAre()
    ensures Limit(0) == 1 && Limit(1) == 0x100 && Limit(2) == 0x1_0000 && Limit(3) == 0x100_0000
    ensures Limit(4) == 0x1_0000_0000 && Limit(8) == 0x1_0000_0000_0000_0000
  {
    assert Limit(8) == 256 * Limit(7) == 256 * 256 * Limit(6) == 256 * 256 * 256 * Limit(5);
  }

  /** Numbers are written with the lowest byte first: byte `i` is the digit of weight 256 to the power `i`. */
  lemma {:induction false} LowestFirst(n: nat, width: nat, i: nat)
    requires i < width
    ensures Limit(i) > 0 && LE(n, width)[i] == n / Limit(i) % 256
    decreases width
  {
    if i > 0 {
      LowestFirst(n / 256, width - 1, i - 1);
      DivideTwice(n, Limit(i - 1));
    }
  }

  lemma {:induction false} DivideTwice(n: nat, d: nat)
    requires d > 0
    ensures n / 256 / d == n / (256 * d)
  {
    var q, r := n / 256 / d, n / 256 % d;
    assert n / 256 == d * q + r;
    Regroup(d, q, r);
    QuotientIs(n, 256 * d, q, 256 * r + n % 256);
  }

  lemma {:induction false} Regroup(d: nat, q: nat, r: nat)
    ensures 256 * (d * q + r) == (256 * d) * q + 256 * r
  {
  }

  lemma {:induction false} QuotientIs(n: nat, d: nat, q: nat, r: nat)
    requires n == d * q + r && r < d
    ensures n / d == q
  {
    var p := n / d;
    assert n == d * p + n % d;
    if p > q {
      AtLeast(d, p, q);
    } else if p < q {
      AtLeast(d, q, p);
    }
  }

  lemma {:induction false} AtLeast(d: nat, p: int, q: int)
    requires p > q
    ensures d * p >= d * q + d
  {
    var k := p - q - 1;
    assert d * p == d * q + d + d * k;
  }

  // ---------- Written commands ----------

  /** A message command: opcode, chat, user, message, time, edit delta, key, length, text. */
  lemma {:induction false} MessageOffsets(m: Msg)
    ensures var b := Bytes(FrameOf(m));
            && |b| == 39 + |m.payload| && b[0] == m.op
            && b[1..9] == LE(m.chatid, 8) && b[9..17] == LE(m.userid, 8) && b[17..25] == LE(m.msgid, 8)
            && b[25..29] == LE(m.ts, 4) && b[29..31] == LE(m.updated, 2) && b[31..35] == LE(m.keyid, 4)
            && b[35..39] == LE(|m.payload|, 4) && b[39..] == m.payload
  {
    hide LE;
  }

  /** A key command: opcode, chat, key, length of the entries, entries. */
  lemma {:induction false} KeyOffsets(chatid: nat, keyid: uint32, blobs: seq<byte>)
    ensures var b := KeyImage(chatid, keyid, blobs);
            && |b| == 17 + |blobs| && b[0] == 17 && b[1..9] == LE(chatid, 8) && b[9..13] == LE(keyid, 4)
            && b[13..17] == LE(|blobs|, 4) && b[17..] == blobs
  {
    hide LE;
  }

  /** An entry of a sent key command: user, length of the key, key. */
  lemma {:induction false} EntryOffsets(e: Entry)
    ensures var b := EntryBytes(e); b[..8] == LE(e.userid, 8) && b[8..10] == LE(|e.key|, 2) && b[10..] == e.key
  {
    hide LE;
  }

  /** An entry of a received one: user, key id, length of the key, key. */
  lemma {:induction false} ReceivedOffsets(k: ReceivedKey)
    ensures var b := KeyBytes(k);
            && b[..8] == LE(k.userid, 8) && b[8..12] == LE(k.keyid, 4)
            && b[12..14] == LE(|k.key|, 2) && b[14..] == k.key
  {
    hide LE;
  }
}
