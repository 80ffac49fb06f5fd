/** Types shared by the models of src/chatd.h, src/chatd.cpp, src/chatdMsg.h and src/chatdDb.h. */
module ChatTypes {
  datatype Option<+T> = None | Some(value: T)

  /** A 64-bit handle (`karere::Id`): only compared for equality. */
  type Id = nat
  const NULL_ID: Id := 0

  /** `CHATD_IDX_INVALID`: a value of the same 32-bit type as the indices themselves. */
  const IDX_INVALID := 0x7fffffff

  type byte = x: int | 0 <= x < 0x100
  type uint16 = x: int | 0 <= x < 0x1_0000
  type uint32 = x: int | 0 <= x < 0x1_0000_0000

  const MSG_NORMAL: byte := 0x01
  const MSG_TRUNCATE: byte := 0x03
  const MSG_CALL_END: byte := 0x06
  const MSG_OFFSET := 0x55
  const MSG_ATTACHMENT: byte := 0x65
  const MSG_CONTACT: byte := 0x67
  const MSG_CONTAINS_META: byte := 0x68
  const MSG_VOICE_CLIP: byte := 0x69

  /** `Message::EncryptionStatus`. */
  datatype Encryption = NotEncrypted | Pending | NoKey | BadSignature | Malformed | NoType

  /** A message.  Message objects have a single owner (a `unique_ptr` in a history list, or an item of
      the send queue), so a value stands for the object. */
  datatype Message = Message(
    id: Id,
    userid: Id,
    ts: uint32,
    updated: uint16,
    keyid: uint32,
    typ: byte,
    data: seq<byte>,
    enc: Encryption,
    backRefId: nat)
  {
    predicate IsDeleted() { updated != 0 && data == [] && typ != MSG_TRUNCATE }

    predicate IsUndecryptable() { enc == Malformed || enc == BadSignature }
  }

  function Min(a: int, b: int): int { if a < b then a else b }
  function Max(a: int, b: int): int { if a < b then b else a }

  lemma {:induction false} HasElement(s: set<int>)
    requires s != {}
    ensures exists i :: i in s
  {
    assert forall i :: i in s ==> Some(i).value == i;
  }

  /** Maps on indices are equal when they agree at every index. */
  lemma {:induction false} SameMap(m: map<int, Message>, n: map<int, Message>)
    requires forall i :: i in m <==> i in n
    requires forall i :: i in m ==> m[i] == n[i]
    ensures m == n
  {
    assert forall i :: i in m ==> Some(i).value == i;
    assert forall i :: i in n ==> Some(i).value == i;
  }

  lemma {:induction false} SubsetIsSmaller<T>(a: set<T>, b: set<T>)
    requires a < b
    ensures |a| < |b|
  {
    assert b == a + (b - a);
    assert |b| == |a| + |b - a|;
    assert b - a != {};
  }
}
