/** The `history` table of one chat with the statements of src/chatdDb.h that read and write it.  A
    statement scans the rows it selects, as the database engine does. */
module HistoryTables {
  import opened ChatTypes
  import opened HistorySpec
  import opened Updates
  import opened Retention
  import opened Unread

  /** `update history set ... where msgid = id`. */
  function UpdateRows(rows: map<int, Message>, id: Id, u: Message): map<int, Message> {
    map i | i in rows :: if rows[i].id == id then RowUpdate(rows[i], u) else rows[i]
  }

  /** `indices` lists rows at or below `idx` from the newest down, without leaving one out. */
  ghost predicate Descending(rows: map<int, Message>, idx: int, indices: seq<int>) {
    && (forall k :: 0 <= k < |indices| ==> indices[k] in rows && indices[k] <= idx)
    && (forall j, k :: 0 <= j < k < |indices| ==> indices[j] > indices[k])
    && (forall i, k :: i in rows && i <= idx && i !in indices && 0 <= k < |indices| ==> i < indices[k])
  }

  class HistoryTable {
    var rows: map<int, Message>
    var lastSeen: Id
    var lastRecv: Id
    var haveAllHistory: bool

    constructor ()
      ensures rows == map[] && lastSeen == NULL_ID && lastRecv == NULL_ID && !haveAllHistory
    {
      rows, lastSeen, lastRecv, haveAllHistory := map[], NULL_ID, NULL_ID, false;
    }

    /** `addMsgToHistory`; the insertion of a second row with an index or msgid fails and is logged. */
    method AddMessage(m: Message, idx: int)
      modifies this`rows
      ensures rows == Insert(old(rows), idx, m)
    {
      if idx !in rows && !(exists j :: j in rows && rows[j].id == m.id) {
        rows := rows[idx := m];
      }
    }

    method UpdateMsgInHistory(id: Id, u: Message)
      modifies this`rows
      ensures rows == UpdateRows(old(rows), id, u)
    {
      rows := UpdateRows(rows, id, u);
    }

    /** `select idx from history where msgid = ?`. */
    method GetIdxOfMsgid(id: Id) returns (idx: int)
      requires DistinctIds(rows) && forall i :: i in rows ==> i < IDX_INVALID
      ensures idx == IDX_INVALID ==> forall i :: i in rows ==> rows[i].id != id
      ensures idx != IDX_INVALID ==> idx in rows && rows[idx].id == id
    {
      var todo := rows.Keys;
      while todo != {}
        invariant forall i :: i in rows && i !in todo ==> rows[i].id != id
        decreases todo
      {
        HasElement(todo);
        var i :| i in todo;
        if rows[i].id == id { return i; }
        todo := todo - {i};
      }
      return IDX_INVALID;
    }

    /** `select min(idx) from history`. */
    method GetOldestIdx() returns (idx: int)
      requires forall i :: i in rows ==> i < IDX_INVALID
      ensures rows == map[] ==> idx == IDX_INVALID
      ensures rows != map[] ==> idx in rows && forall i :: i in rows ==> idx <= i
    {
      idx := IDX_INVALID;
      var todo := rows.Keys;
      while todo != {}
        invariant todo <= rows.Keys
        invariant forall i :: i in rows && i !in todo ==> idx <= i
        invariant idx == IDX_INVALID || idx in rows
        invariant idx == IDX_INVALID ==> todo == rows.Keys
        decreases todo
      {
        HasElement(todo);
        var i :| i in todo;
        todo := todo - {i};
        if i < idx { idx := i; }
      }
    }

    /** `getHistoryInfo`: the range of the table, and the id at its lower end. */
    method GetHistoryInfo() returns (oldestIdx: int, oldestId: Id, newestIdx: int)
      requires forall i :: i in rows ==> i < IDX_INVALID
      ensures rows == map[] ==> oldestIdx == IDX_INVALID && oldestId == NULL_ID && newestIdx == 0
      ensures rows != map[] ==>
                && oldestIdx in rows && newestIdx in rows && oldestId == rows[oldestIdx].id
                && forall i :: i in rows ==> oldestIdx <= i <= newestIdx
    {
      oldestIdx := GetOldestIdx();
      if oldestIdx == IDX_INVALID {
        assert rows == map[];
        return oldestIdx, NULL_ID, 0;
      }
      oldestId := rows[oldestIdx].id;
      var newest := NewestWhere(IDX_INVALID, (_: Message) => true);
      assert oldestIdx in rows;
      newestIdx := newest.value;
    }

    /** The newest row that satisfies a condition at or below an index. */
    method NewestWhere(idx: int, p: Message -> bool) returns (newest: Option<int>)
      ensures newest.None? ==> forall i :: i in rows && i <= idx ==> !p(rows[i])
      ensures newest.Some? ==>
                && newest.value in rows && newest.value <= idx && p(rows[newest.value])
                && forall i :: i in rows && newest.value < i <= idx ==> !p(rows[i])
    {
      newest := None;
      var todo := rows.Keys;
      while todo != {}
        invariant todo <= rows.Keys
        invariant newest.None? ==> forall i :: i in rows && i !in todo && i <= idx ==> !p(rows[i])
        invariant newest.Some? ==>
                    && newest.value in rows && newest.value <= idx && p(rows[newest.value])
                    && forall i :: i in rows && i !in todo && newest.value < i <= idx ==> !p(rows[i])
        decreases todo
      {
        HasElement(todo);
        var i :| i in todo;
        todo := todo - {i};
        if i <= idx && p(rows[i]) && (newest.None? || newest.value < i) { newest := Some(i); }
      }
    }

    /** `loadMessages`: `select ... where idx <= ? order by idx desc limit ?`. */
    method LoadMessages(count: nat, idx: int) returns (messages: seq<Message>, indices: seq<int>)
      ensures |messages| == |indices| <= count && Descending(rows, idx, indices)
      ensures forall k :: 0 <= k < |indices| ==> indices[k] in rows && messages[k] == rows[indices[k]]
      ensures |indices| < count ==> forall i :: i in rows && i <= idx ==> i in indices
    {
      messages, indices := [], [];
      var cursor := idx;
      while |indices| < count
        invariant |messages| == |indices| <= count && Descending(rows, idx, indices) && cursor <= idx
        invariant forall k :: 0 <= k < |indices| ==>
            indices[k] > cursor && indices[k] in rows && messages[k] == rows[indices[k]]
        invariant forall i :: i in rows && cursor < i <= idx ==> i in indices
        decreases count - |indices|
      {
        var next := NewestWhere(cursor, (_: Message) => true);
        if next.None? { return; }
        messages := messages + [rows[next.value]];
        indices := indices + [next.value];
        cursor := next.value - 1;
      }
    }

    /** `truncateHistory`. */
    method TruncateHistory(id: Id)
      requires DistinctIds(rows) && forall i :: i in rows ==> i < IDX_INVALID
      modifies this`rows
      ensures forall idx :: idx in old(rows) && old(rows)[idx].id == id ==> rows == Above(old(rows), idx - 1)
      ensures (forall i :: i in old(rows) ==> old(rows)[i].id != id) ==> rows == old(rows)
    {
      var idx := GetIdxOfMsgid(id);
      if idx != IDX_INVALID {
        rows := Above(rows, idx - 1);
      }
    }

    /** `retentionHistoryTruncate`. */
    method RetentionHistoryTruncate(idx: int)
      modifies this`rows
      ensures rows == if idx == IDX_INVALID then old(rows) else Above(old(rows), idx)
    {
      if idx != IDX_INVALID {
        rows := Above(rows, idx);
      }
    }

    /** `select MAX(ts), MAX(idx) from history where ts <= ?`. */
    method GetIdxByRetentionTime(limit: uint32) returns (idx: int)
      requires forall i :: i in rows ==> i < IDX_INVALID
      ensures IsQueryAnswer(rows, limit, idx)
    {
      var newest := NewestWhere(IDX_INVALID, (m: Message) => m.ts <= limit);
      idx := if newest.None? then IDX_INVALID else newest.value;
    }

    /** `getUnreadMsgCountAfterIdx`: a counting query, and a loop over the ended calls. */
    method GetUnreadMsgCountAfterIdx(me: Id, idx: int) returns (count: int)
      ensures count == QueryCount(rows, me, idx)
    {
      count := CountText(me, idx);
      ghost var texts := count;
      var todo := rows.Keys;
      ghost var done: set<int> := {};
      assert CallsAmong(me, idx, done) == {};
      while todo != {}
        invariant todo !! done && todo + done == rows.Keys
        invariant count == texts + |CallsAmong(me, idx, done)|
        decreases todo
      {
        HasElement(todo);
        var i :| i in todo;
        ghost var was := CallsAmong(me, idx, done);
        todo := todo - {i};
        done := done + {i};
        if After(i, idx) && InCallQuery(rows[i], me) {
          count := count + 1;
          assert CallsAmong(me, idx, done) == was + {i};
        } else {
          assert CallsAmong(me, idx, done) == was;
        }
      }
      assert CallsAmong(me, idx, done) == CallSet(rows, me, idx);
    }

    ghost function CallsAmong(me: Id, idx: int, done: set<int>): set<int>
      reads this
    {
      set i | i in done && i in rows && After(i, idx) && InCallQuery(rows[i], me)
    }

    ghost function TextsAmong(me: Id, idx: int, done: set<int>): set<int>
      reads this
    {
      set i | i in done && i in rows && After(i, idx) && InTextQuery(rows[i], me)
    }

    method CountText(me: Id, idx: int) returns (count: int)
      ensures count == |TextSet(rows, me, idx)|
    {
      count := 0;
      var todo := rows.Keys;
      ghost var done: set<int> := {};
      assert TextsAmong(me, idx, done) == {};
      while todo != {}
        invariant todo !! done && todo + done == rows.Keys
        invariant count == |TextsAmong(me, idx, done)|
        decreases todo
      {
        HasElement(todo);
        var i :| i in todo;
        ghost var was := TextsAmong(me, idx, done);
        todo := todo - {i};
        done := done + {i};
        if After(i, idx) && InTextQuery(rows[i], me) {
          count := count + 1;
          assert TextsAmong(me, idx, done) == was + {i};
        } else {
          assert TextsAmong(me, idx, done) == was;
        }
      }
      assert TextsAmong(me, idx, done) == TextSet(rows, me, idx);
    }
  }
}
