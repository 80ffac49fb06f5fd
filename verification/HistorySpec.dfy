/** The history of one chatroom as a value: the window loaded in RAM, the `history` table, and the
    points at which decryption is halted (src/chatd.h:770-990, src/chatdDb.h:63-87). */
module HistorySpec {
  import opened ChatTypes

  datatype Hist = Hist(
    ram: map<int, Message>,    // index -> message, for low <= index <= high
    low: int,                  // lownum()
    high: int,                 // highnum()
    rows: map<int, Message>,   // the history table
    haltedNew: int,            // mDecryptNewHaltedAt
    haltedOld: int,            // mDecryptOldHaltedAt
    oldest: int,               // mOldestIdxInDb
    oldestKnown: Id,           // mOldestKnownMsgId
    hasMore: bool)             // mHasMoreHistoryInDb
  {
    function DecryptedLow(): int { if haltedOld == IDX_INVALID then low else haltedOld + 1 }
    function DecryptedHigh(): int { if haltedNew == IDX_INVALID then high else haltedNew - 1 }
  }

  // ---------- The invariant ----------

  ghost predicate IsInterval(m: map<int, Message>, lo: int, hi: int) {
    forall i :: i in m <==> lo <= i <= hi
  }

  ghost predicate Window(h: Hist) {
    && IsInterval(h.ram, h.low, h.high) && h.low <= h.high + 1 && h.high < IDX_INVALID
    && (h.haltedNew == IDX_INVALID || h.low <= h.haltedNew <= h.high)
    && (h.haltedOld == IDX_INVALID || h.low <= h.haltedOld <= h.high)
    && h.DecryptedLow() <= h.DecryptedHigh() + 1
  }

  /** The table is one interval that ends at the newest decrypted message, and starts at the oldest
      decrypted one once nothing in it is left to load. */
  ghost predicate Table(h: Hist) {
    if h.oldest == IDX_INVALID then
      h.rows == map[] && h.DecryptedLow() == h.DecryptedHigh() + 1 && !h.hasMore
    else
      && IsInterval(h.rows, h.oldest, h.DecryptedHigh())
      && h.oldest <= h.DecryptedLow() && h.oldest <= h.DecryptedHigh()
      && (!h.hasMore ==> h.oldest == h.DecryptedLow())
      && (h.hasMore ==> h.haltedOld == IDX_INVALID && h.oldestKnown == h.rows[h.oldest].id)
  }

  /** What is decrypted is in RAM and in the table alike; what is not is in RAM only. */
  ghost predicate Agree(h: Hist) {
    && (forall i :: i in h.ram && h.DecryptedLow() <= i <= h.DecryptedHigh() ==> i in h.rows && h.rows[i] == h.ram[i])
    && (forall i :: i in h.ram && !(h.DecryptedLow() <= i <= h.DecryptedHigh()) ==> h.ram[i].enc == Pending)
    && (forall i :: i in h.rows ==> h.rows[i].enc != Pending)
  }

  ghost predicate DistinctIds(m: map<int, Message>) {
    && (forall i :: i in m ==> m[i].id != NULL_ID)
    && (forall i, j :: i in m && j in m && m[i].id == m[j].id ==> i == j)
  }

  ghost predicate UniqueIds(h: Hist) {
    && DistinctIds(h.ram) && DistinctIds(h.rows)
    && forall i, j :: i in h.ram && j in h.rows && h.ram[i].id == h.rows[j].id ==> i == j
  }

  ghost predicate Inv(h: Hist) {
    Window(h) && Table(h) && Agree(h) && UniqueIds(h)
  }

  ghost predicate HasId(m: map<int, Message>, id: Id) {
    exists i :: i in m && m[i].id == id
  }

  ghost predicate FreshId(h: Hist, id: Id) {
    id != NULL_ID && !HasId(h.ram, id) && !HasId(h.rows, id)
  }

  /** The messages above an index. */
  function Above(m: map<int, Message>, idx: int): map<int, Message> {
    map i | i in m && i > idx :: m[i]
  }

  // ---------- Crypto ----------

  /** `ICrypto::msgDecrypt` at one moment: the plain message, or None when keys are missing. */
  type Crypto = Message -> Option<Message>

  /** Decryption keeps the id.  The author may change: a management message takes the sender it names. */
  ghost predicate Honest(crypto: Crypto) {
    forall m: Message :: crypto(m).Some? ==>
      crypto(m).value.id == m.id && crypto(m).value.enc == NotEncrypted
  }

  /** Messages whose text starts with a zero byte carry their type in the second byte. */
  function Classified(m: Message): Message {
    if m.data != [] && m.typ == MSG_NORMAL && m.data[0] == 0 && |m.data| >= 2
    then m.(typ := (m.data[1] + MSG_OFFSET) % 256) else m
  }

  // ---------- Steps ----------

  function PushForward(h: Hist, m: Message): Hist {
    h.(high := h.high + 1, ram := h.ram[h.high + 1 := m])
  }

  function PushBack(h: Hist, m: Message): Hist {
    h.(low := h.low - 1, ram := h.ram[h.low - 1 := m])
  }

  /** `addMsgToHistory`: the table rejects a second row with the same index or msgid. */
  function Insert(rows: map<int, Message>, i: int, m: Message): map<int, Message> {
    if i in rows || (exists j :: j in rows && rows[j].id == m.id) then rows else rows[i := m]
  }

  function Store(h: Hist, i: int, m: Message): Hist {
    h.(ram := h.ram[i := m], rows := Insert(h.rows, i, m),
       oldest := if h.oldest == IDX_INVALID || i < h.oldest then i else h.oldest)
  }

  /** `handleTruncate` on the history: everything older than `idx` goes; the truncate message itself stays.
      A table that does not have that message yet is left as it is. */
  function Truncate(h: Hist, idx: int): Hist
    requires idx in h.ram
  {
    h.(ram := Above(h.ram, idx - 1), low := if h.low < idx then idx else h.low,
       rows := if idx in h.rows then Above(h.rows, idx - 1) else h.rows, oldest := idx, oldestKnown := h.ram[idx].id,
       hasMore := false)
  }

  predicate IsTruncate(m: Message) { Classified(m).typ == MSG_TRUNCATE }

  /** `msgIncomingAfterDecrypt` for a message from the server: a new truncate clears what is older. */
  function Record(h: Hist, isNew: bool, i: int, m: Message): Hist {
    var g := Store(h, i, Classified(m));
    if isNew && IsTruncate(m) then Truncate(g, i) else g
  }

  /** `msgIncomingAfterAdd`: the resulting history, and whether the message was settled at once. */
  function AfterAdd(h: Hist, isNew: bool, i: int, crypto: Crypto): (Hist, bool)
    requires i in h.ram
  {
    var m := h.ram[i];
    if m.enc == NotEncrypted then (Record(h, isNew, i, m), true)
    else if m.enc != Pending && m.enc != NoType then (h, true)
    else if (if isNew then h.haltedNew else h.haltedOld) != IDX_INVALID then (h, false)
    else if crypto(m).Some? then (Record(h, isNew, i, crypto(m).value), true)
    else (if isNew then h.(haltedNew := i) else h.(haltedOld := i), false)
  }

  /** `msgIncoming` of a NEWMSG that is not in the buffer yet. */
  function AddNew(h: Hist, m: Message, crypto: Crypto): Hist {
    var p := PushForward(h, m).(oldestKnown := if h.oldestKnown == NULL_ID then m.id else h.oldestKnown);
    AfterAdd(p, true, p.high, crypto).0
  }

  /** `msgIncoming` of an OLDMSG. */
  function AddOld(h: Hist, m: Message, crypto: Crypto): Hist {
    var p := PushBack(h, m).(oldestKnown := m.id);
    AfterAdd(p, false, p.low, crypto).0
  }

  /** The loop that decrypts what queued up behind a delayed new message. */
  function ResumeNew(h: Hist, i: int, crypto: Crypto): Hist
    decreases h.high - i
  {
    if i > h.high || i !in h.ram then h else
    var (g, settled) := AfterAdd(h, true, i, crypto);
    if settled && g.high == h.high then ResumeNew(g, i + 1, crypto) else g
  }

  function ResumeOld(h: Hist, i: int, crypto: Crypto): Hist
    decreases i - h.low
  {
    if i < h.low || i !in h.ram then h else
    var (g, settled) := AfterAdd(h, false, i, crypto);
    if settled && g.low == h.low then ResumeOld(g, i - 1, crypto) else g
  }

  /** The delayed decryption of the message at `haltedNew` ends with `done`. */
  function FinishNew(h: Hist, done: Message, crypto: Crypto): Hist {
    ResumeNew(Record(h, true, h.haltedNew, done).(haltedNew := IDX_INVALID), h.haltedNew + 1, crypto)
  }

  function FinishOld(h: Hist, done: Message, crypto: Crypto): Hist {
    ResumeOld(Record(h, false, h.haltedOld, done).(haltedOld := IDX_INVALID), h.haltedOld - 1, crypto)
  }

  /** The history part of `msgConfirm`: own message `m` goes to the buffer and straight to the table. */
  function Confirm(h: Hist, m: Message): Hist {
    PushForward(h, m).(rows := Insert(h.rows, h.high + 1, m),
                       oldest := if h.oldest == IDX_INVALID then h.high + 1 else h.oldest)
  }

  /** `hasMoreHistoryInDb` as `login` evaluates it, after reading the oldest row of the table. */
  function HasMoreAtLogin(h: Hist): bool
    requires h.oldest == IDX_INVALID || h.oldest in h.rows
  {
    if h.oldest == IDX_INVALID then false
    else if h.low !in h.ram then true
    else h.ram[h.low].id != h.rows[h.oldest].id
  }
}
