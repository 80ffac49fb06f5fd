/** The two-ended message buffer of a chat (src/chatd.h:884-890, 961-972, 1065-1127;
    src/chatd.cpp:5095-5146). */
module HistoryBuffers {
  import opened ChatTypes
  import opened HistorySpec

  /** The id map is the inverse of the buffer. */
  ghost predicate Inverse(loaded: map<int, Message>, ids: map<Id, int>) {
    && (forall i :: i in loaded ==> loaded[i].id in ids && ids[loaded[i].id] == i)
    && (forall id :: id in ids ==> ids[id] in loaded && loaded[ids[id]].id == id)
  }

  ghost function IdsAbove(ids: map<Id, int>, idx: int): map<Id, int> {
    map id | id in ids && ids[id] > idx :: ids[id]
  }

  lemma {:induction false} InverseAbove(m: map<int, Message>, ids: map<Id, int>, idx: int)
    requires Inverse(m, ids)
    ensures Inverse(Above(m, idx), IdsAbove(ids, idx))
  {
  }

  lemma {:induction false} InverseAssign(m: map<int, Message>, ids: map<Id, int>, num: int, x: Message)
    requires Inverse(m, ids) && num in m && m[num].id == x.id
    ensures Inverse(m[num := x], ids)
  {
  }

  lemma {:induction false} AllAbove(m: map<int, Message>, ids: map<Id, int>, idx: int)
    requires Inverse(m, ids) && forall i :: i in m ==> i > idx
    ensures Above(m, idx) == m && IdsAbove(ids, idx) == ids
  {
  }

  lemma {:induction false} StaleIds(m: map<int, Message>, ids: map<Id, int>)
    requires Inverse(m, ids)
    ensures Inverse(map[], ids) <==> m == map[]
  {
    if m != map[] {
      HasElement(m.Keys);
      var i :| i in m.Keys;
      assert m[i].id in ids;
    }
  }

  class HistoryBuffer {
    var forwardStart: int
    var forwardList: seq<Message>    // newest last
    var backwardList: seq<Message>   // oldest last
    var idToIndex: map<Id, int>

    constructor (start: int)
      ensures Loaded() == map[] && idToIndex == map[] && LowNum() == start && HighNum() == start - 1 && Indexed()
    {
      forwardStart, forwardList, backwardList, idToIndex := start, [], [], map[];
    }

    function LowNum(): int reads this { forwardStart - |backwardList| }

    function HighNum(): int reads this { forwardStart + |forwardList| - 1 }

    predicate Empty() reads this { forwardList == [] && backwardList == [] }

    function FindOrNull(num: int): (r: Option<Message>)
      reads this
      ensures r.Some? <==> LowNum() <= num <= HighNum()
    {
      if num < forwardStart then
        var idx := forwardStart - num - 1;
        if idx >= |backwardList| then None else Some(backwardList[idx])
      else
        var idx := num - forwardStart;
        if idx >= |forwardList| then None else Some(forwardList[idx])
    }

    /** `hasNum` agrees with `findOrNull`. */
    predicate HasNum(num: int)
      reads this
      ensures HasNum(num) <==> FindOrNull(num).Some?
    {
      if num < forwardStart then forwardStart - num <= |backwardList| else num < forwardStart + |forwardList|
    }

    function MsgIndexFromId(id: Id): int reads this {
      if id in idToIndex then idToIndex[id] else IDX_INVALID
    }

    function At(num: int): Message
      reads this
      requires HasNum(num)
    {
      FindOrNull(num).value
    }

    /** The buffer as a map from index to message. */
    ghost function Loaded(): (r: map<int, Message>)
      reads this
      ensures IsInterval(r, LowNum(), HighNum())
      ensures forall i :: i in r ==> Some(r[i]) == FindOrNull(i)
    {
      map i | LowNum() <= i <= HighNum() :: FindOrNull(i).value
    }

    ghost predicate Indexed() reads this { Inverse(Loaded(), idToIndex) }

    /** `push_forward` and the entry of the new index. */
    method PushForward(m: Message) returns (idx: int)
      requires Indexed() && m.id !in idToIndex
      modifies this
      ensures Indexed() && idx == HighNum() == old(HighNum()) + 1 && LowNum() == old(LowNum())
      ensures Loaded() == old(Loaded())[idx := m] && idToIndex == old(idToIndex)[m.id := idx]
    {
      ghost var was := Loaded();
      forwardList := forwardList + [m];
      idx := HighNum();
      idToIndex := idToIndex[m.id := idx];
      assert Loaded() == was[idx := m];
    }

    /** `push_back` and the entry of the new index. */
    method PushBack(m: Message) returns (idx: int)
      requires Indexed() && m.id !in idToIndex
      modifies this
      ensures Indexed() && idx == LowNum() == old(LowNum()) - 1 && HighNum() == old(HighNum())
      ensures Loaded() == old(Loaded())[idx := m] && idToIndex == old(idToIndex)[m.id := idx]
    {
      ghost var was := Loaded();
      backwardList := backwardList + [m];
      idx := LowNum();
      idToIndex := idToIndex[m.id := idx];
      assert Loaded() == was[idx := m];
    }

    /** A loaded message object changes in place; its id does not. */
    method Assign(num: int, m: Message)
      requires Indexed() && HasNum(num) && m.id == At(num).id
      modifies this`forwardList, this`backwardList
      ensures Indexed() && Loaded() == old(Loaded())[num := m] && LowNum() == old(LowNum())
              && HighNum() == old(HighNum())
    {
      ghost var was := Loaded();
      if num < forwardStart {
        backwardList := backwardList[forwardStart - num - 1 := m];
      } else {
        forwardList := forwardList[num - forwardStart := m];
      }
      assert Loaded() == was[num := m];
      InverseAssign(was, idToIndex, num, m);
    }

    /** The part of `deleteOlderMessagesIncluding` that erases from the lists; `erased` tells whether the
        original goes on to the id map. */
    method EraseUpTo(idx: int) returns (erased: bool)
      requires idx <= HighNum() || forwardList == []
      modifies this`forwardStart, this`forwardList, this`backwardList
      ensures idx <= old(HighNum()) ==> HighNum() == old(HighNum()) && Loaded() == Above(old(Loaded()), idx)
      ensures idx <= old(HighNum()) ==> LowNum() == if idx < old(LowNum()) then old(LowNum()) else idx + 1
      ensures idx <= old(HighNum()) && !erased ==> forall i :: i in old(Loaded()) ==> i > idx
      ensures idx > old(HighNum()) ==> !erased && Loaded() == map[] && forwardStart == old(forwardStart)
    {
      ghost var was := Loaded();
      if idx >= forwardStart {
        backwardList := [];
        var endOffset := idx - forwardStart + 1;
        if forwardList == [] { return false; }
        forwardList := forwardList[endOffset..];
        forwardStart := forwardStart + endOffset;
      } else {
        var startOffset := forwardStart - idx - 1;
        if startOffset >= |backwardList| {
          assert Loaded() == Above(was, idx);
          return false;
        }
        backwardList := backwardList[..startOffset];
      }
      assert Loaded() == Above(was, idx);
      return true;
    }

    /** `deleteOlderMessagesIncluding`: for an index up to `highnum()` exactly the messages above it
        remain, at their old indices, in the buffer and in the id map.  Called beyond the newest message
        of a buffer whose forward list is empty, it clears the buffer but leaves the id map as it was;
        beyond a non-empty forward list the erase of the original is undefined. */
    method DeleteOlderMessagesIncluding(idx: int)
      requires Indexed() && (idx <= HighNum() || forwardList == [])
      modifies this
      ensures idx <= old(HighNum()) ==>
                && Indexed() && HighNum() == old(HighNum())
                && LowNum() == (if idx < old(LowNum()) then old(LowNum()) else idx + 1)
                && Loaded() == Above(old(Loaded()), idx) && idToIndex == IdsAbove(old(idToIndex), idx)
      ensures idx > old(HighNum()) ==>
                && Loaded() == map[] && idToIndex == old(idToIndex) && forwardStart == old(forwardStart)
                && (Indexed() <==> old(Loaded()) == map[])
    {
      hide Above, IdsAbove, Inverse, Loaded;
      ghost var was, ids := Loaded(), idToIndex;
      var erased := EraseUpTo(idx);
      if erased {
        InverseAbove(was, ids, idx);
        ForgetUpTo(idx);
      } else if idx <= old(HighNum()) {
        AllAbove(was, ids, idx);
      } else {
        StaleIds(was, ids);
      }
    }

    /** Erases the entries of the id map that point at or below `idx`, one at a time. */
    method ForgetUpTo(idx: int)
      modifies this`idToIndex
      ensures idToIndex == IdsAbove(old(idToIndex), idx)
      ensures Loaded() == old(Loaded()) && LowNum() == old(LowNum()) && HighNum() == old(HighNum())
    {
      ghost var was := idToIndex;
      var todo := idToIndex.Keys;
      while todo != {}
        invariant todo <= idToIndex.Keys
        invariant forall id :: id in idToIndex <==> id in was && (id in todo || was[id] > idx)
        invariant forall id :: id in idToIndex ==> idToIndex[id] == was[id]
        decreases todo
      {
        var id :| id in todo;
        todo := todo - {id};
        if idToIndex[id] <= idx {
          idToIndex := idToIndex - {id};
        }
      }
    }

    /** `initChat` and the end of `handleRetentionTime` start the indices anew. */
    method Restart()
      requires Empty() && idToIndex == map[]
      modifies this`forwardStart
      ensures forwardStart == 0 && Loaded() == map[] && LowNum() == 0 && HighNum() == -1 && Indexed()
    {
      forwardStart := 0;
    }
  }
}
