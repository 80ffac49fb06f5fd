/** The reactions to a message, in RAM and in the `chat_reactions` table (src/chatdMsg.h:1045-1078 and
    1333-1437, src/chatdDb.h:625-658). */
module Reactions {
  import opened ChatTypes

  datatype Reaction = Reaction(text: string, users: seq<Id>)

  type Pair = (string, Id)

  ghost predicate Distinct<T>(s: seq<T>) {
    forall i, j :: 0 <= i < j < |s| ==> s[i] != s[j]
  }

  /** Reactions differ, each has users, and no user is listed twice. */
  ghost predicate Valid(rs: seq<Reaction>) {
    && (forall i, j :: 0 <= i < j < |rs| ==> rs[i].text != rs[j].text)
    && forall i :: 0 <= i < |rs| ==> rs[i].users != [] && Distinct(rs[i].users)
  }

  /** Who reacted how. */
  ghost predicate Reacted(rs: seq<Reaction>, p: Pair) {
    exists i :: 0 <= i < |rs| && rs[i].text == p.0 && p.1 in rs[i].users
  }

  /** The list stands for a set of pairs. */
  ghost predicate Stands(rs: seq<Reaction>, pairs: set<Pair>) {
    Valid(rs) && forall p :: p in pairs <==> Reacted(rs, p)
  }

  // ---------- Adding and deleting ----------

  /** The position of a reaction, or -1. */
  function IndexOf(rs: seq<Reaction>, text: string): (i: int)
    ensures i == -1 ==> forall k :: 0 <= k < |rs| ==> rs[k].text != text
    ensures i != -1 ==> 0 <= i < |rs| && rs[i].text == text && forall k :: 0 <= k < i ==> rs[k].text != text
  {
    if rs == [] then -1
    else
      var i := IndexOf(rs[..|rs| - 1], text);
      if i != -1 then i else if rs[|rs| - 1].text == text then |rs| - 1 else -1
  }

  function UserIndex(users: seq<Id>, u: Id): (i: int)
    ensures i == -1 <==> u !in users
    ensures i != -1 ==> 0 <= i < |users| && users[i] == u
  {
    if users == [] then -1
    else
      var i := UserIndex(users[..|users| - 1], u);
      if i != -1 then i else if users[|users| - 1] == u then |users| - 1 else -1
  }

  function Add(rs: seq<Reaction>, text: string, u: Id): seq<Reaction> {
    var i := IndexOf(rs, text);
    if i == -1 then rs + [Reaction(text, [u])]
    else if u in rs[i].users then rs
    else rs[i := Reaction(text, rs[i].users + [u])]
  }

  function Del(rs: seq<Reaction>, text: string, u: Id): seq<Reaction> {
    var i := IndexOf(rs, text);
    if i == -1 then rs else
    var k := UserIndex(rs[i].users, u);
    if k == -1 then rs else
    var users := rs[i].users[..k] + rs[i].users[k + 1..];
    if users == [] then rs[..i] + rs[i + 1..] else rs[i := Reaction(text, users)]
  }

  lemma {:induction false} AddIsUnion(rs: seq<Reaction>, pairs: set<Pair>, text: string, u: Id)
    requires Stands(rs, pairs)
    ensures Stands(Add(rs, text, u), pairs + {(text, u)})
  {
    var g, i := Add(rs, text, u), IndexOf(rs, text);
    if i == -1 {
      assert g[..|rs|] == rs && g[|rs|] == Reaction(text, [u]);
    }
    forall p ensures Reacted(g, p) <==> Reacted(rs, p) || p == (text, u) {
      AddReacts(rs, text, u, p);
    }
  }

  lemma {:induction false} AddReacts(rs: seq<Reaction>, text: string, u: Id, p: Pair)
    ensures Reacted(Add(rs, text, u), p) <==> Reacted(rs, p) || p == (text, u)
  {
    var g, i := Add(rs, text, u), IndexOf(rs, text);
    if Reacted(rs, p) {
      var k :| 0 <= k < |rs| && rs[k].text == p.0 && p.1 in rs[k].users;
      assert g[k].text == p.0 && p.1 in g[k].users;
    }
    if p == (text, u) {
      var k := if i == -1 then |rs| else i;
      assert g[k].text == text && u in g[k].users;
    }
  }

  /** What is deleted leaves the others in their order. */
  lemma {:induction false} DelKeepsOrder(rs: seq<Reaction>, text: string, u: Id)
    ensures var i := IndexOf(rs, text);
            if i == -1 || u !in rs[i].users then Del(rs, text, u) == rs
            else
              var k := UserIndex(rs[i].users, u);
              Del(rs, text, u) == if |rs[i].users| == 1 then rs[..i] + rs[i + 1..]
                                  else rs[i := Reaction(text, rs[i].users[..k] + rs[i].users[k + 1..])]
  {
  }

  lemma {:induction false} DelIsDifference(rs: seq<Reaction>, pairs: set<Pair>, text: string, u: Id)
    requires Stands(rs, pairs)
    ensures Stands(Del(rs, text, u), pairs - {(text, u)})
  {
    DelKeepsValid(rs, text, u);
    forall p ensures Reacted(Del(rs, text, u), p) <==> Reacted(rs, p) && p != (text, u) {
      DelReacts(rs, text, u, p);
    }
  }

  lemma {:induction false} Without(users: seq<Id>, k: nat)
    requires k < |users| && Distinct(users)
    ensures var w := users[..k] + users[k + 1..];
            Distinct(w) && forall u :: u in w <==> u in users && u != users[k]
  {
    var w := users[..k] + users[k + 1..];
    forall u | u in users && u != users[k] ensures u in w {
      var j :| 0 <= j < |users| && users[j] == u;
      assert w[if j < k then j else j - 1] == u;
    }
  }

  lemma {:induction false} DelKeepsValid(rs: seq<Reaction>, text: string, u: Id)
    requires Valid(rs)
    ensures Valid(Del(rs, text, u))
  {
    hide Distinct, Del, IndexOf, UserIndex;
    DelKeepsOrder(rs, text, u);
    var i := IndexOf(rs, text);
    if i != -1 && u in rs[i].users {
      var k := UserIndex(rs[i].users, u);
      Without(rs[i].users, k);
      if |rs[i].users| == 1 {
        assert forall j :: 0 <= j < |rs| - 1 ==> Del(rs, text, u)[j] == rs[if j < i then j else j + 1];
      }
    }
  }

  lemma {:induction false} DelReacts(rs: seq<Reaction>, text: string, u: Id, p: Pair)
    requires Valid(rs)
    ensures Reacted(Del(rs, text, u), p) <==> Reacted(rs, p) && p != (text, u)
  {
    hide Distinct, Del, IndexOf, UserIndex;
    DelKeepsOrder(rs, text, u);
    var i := IndexOf(rs, text);
    if i != -1 && u in rs[i].users {
      var k := UserIndex(rs[i].users, u);
      Without(rs[i].users, k);
      if |rs[i].users| == 1 {
        DropReacts(rs, i, p);
      } else {
        KeepReacts(rs, i, Reaction(text, rs[i].users[..k] + rs[i].users[k + 1..]), p);
      }
    } else {
      NotReacted(rs, text, u);
    }
  }

  lemma {:induction false} NotReacted(rs: seq<Reaction>, text: string, u: Id)
    requires Valid(rs) && (IndexOf(rs, text) == -1 || u !in rs[IndexOf(rs, text)].users)
    ensures !Reacted(rs, (text, u))
  {
    hide Distinct;
  }

  /** A reaction that no user is left for is erased. */
  lemma {:induction false} DropReacts(rs: seq<Reaction>, i: nat, p: Pair)
    requires i < |rs| && forall j :: 0 <= j < |rs| && rs[j].text == rs[i].text ==> j == i
    ensures Reacted(rs[..i] + rs[i + 1..], p) <==> Reacted(rs, p) && p.0 != rs[i].text
  {
    var g := rs[..i] + rs[i + 1..];
    if Reacted(rs, p) && p.0 != rs[i].text {
      var j :| 0 <= j < |rs| && rs[j].text == p.0 && p.1 in rs[j].users;
      assert g[if j < i then j else j - 1] == rs[j];
    }
    if Reacted(g, p) {
      var j :| 0 <= j < |g| && g[j].text == p.0 && p.1 in g[j].users;
      assert rs[if j < i then j else j + 1] == g[j];
    }
  }

  lemma {:induction false} KeepReacts(rs: seq<Reaction>, i: nat, r: Reaction, p: Pair)
    requires i < |rs| && r.text == rs[i].text && forall j :: 0 <= j < |rs| && rs[j].text == rs[i].text ==> j == i
    ensures Reacted(rs[i := r], p) <==> if p.0 == r.text then p.1 in r.users else Reacted(rs, p)
  {
    var g := rs[i := r];
    assert g[i] == r;
    if Reacted(rs, p) && p.0 != r.text {
      var j :| 0 <= j < |rs| && rs[j].text == p.0 && p.1 in rs[j].users;
      assert g[j] == rs[j];
    }
  }

  // ---------- Counting ----------

  function Count(rs: seq<Reaction>, text: string): nat {
    var i := IndexOf(rs, text);
    if i == -1 then 0 else |rs[i].users|
  }

  ghost function UsersOf(pairs: set<Pair>, text: string): set<Id> {
    set p | p in pairs && p.0 == text :: p.1
  }

  /** The count shown for a reaction is the number of users in the set. */
  lemma {:induction false} CountIsCardinality(rs: seq<Reaction>, pairs: set<Pair>, text: string)
    requires Stands(rs, pairs)
    ensures Count(rs, text) == |UsersOf(pairs, text)|
  {
    var i := IndexOf(rs, text);
    var users := if i == -1 then [] else rs[i].users;
    forall u ensures u in UsersOf(pairs, text) <==> u in users {
      if u in users { assert Reacted(rs, (text, u)); }
      if u in UsersOf(pairs, text) {
        assert Reacted(rs, (text, u));
        var k :| 0 <= k < |rs| && rs[k].text == text && u in rs[k].users;
        assert k == i;
      }
    }
    DistinctCount(users, UsersOf(pairs, text));
  }

  lemma {:induction false} DistinctCount(users: seq<Id>, s: set<Id>)
    requires Distinct(users) && forall u :: u in s <==> u in users
    ensures |s| == |users|
    decreases |users|
  {
    if users == [] {
      assert s == {};
    } else {
      var n := |users| - 1;
      var last := users[n];
      forall u ensures u in s - {last} <==> u in users[..n] {
        if u in users && u != last {
          var j :| 0 <= j < |users| && users[j] == u;
          assert users[..n][j] == u;
        }
      }
      DistinctCount(users[..n], s - {last});
    }
  }

  // ---------- RAM and table over runs ----------

  datatype Event = Added(text: string, u: Id) | Deleted(text: string, u: Id)

  /** The table, in rowid order: `insert or replace` moves a pair that exists to the end. */
  function Rows(rows: seq<Pair>, e: Event): seq<Pair> {
    match e
    case Added(text, u) => Except(rows, (text, u)) + [(text, u)]
    case Deleted(text, u) => Except(rows, (text, u))
  }

  function Except(rows: seq<Pair>, p: Pair): (r: seq<Pair>)
    ensures forall q :: q in r <==> q in rows && q != p
  {
    if rows == [] then []
    else (if rows[0] == p then [] else [rows[0]]) + Except(rows[1..], p)
  }

  function Step(rs: seq<Reaction>, e: Event): seq<Reaction> {
    match e
    case Added(text, u) => Add(rs, text, u)
    case Deleted(text, u) => Del(rs, text, u)
  }

  function Run(rs: seq<Reaction>, es: seq<Event>): seq<Reaction>
    decreases |es|
  {
    if es == [] then rs else Run(Step(rs, es[0]), es[1..])
  }

  function RunRows(rows: seq<Pair>, es: seq<Event>): seq<Pair>
    decreases |es|
  {
    if es == [] then rows else RunRows(Rows(rows, es[0]), es[1..])
  }

  /** Reading the table adds its pairs one by one, as `getHistoryFromDb` does. */
  function Reload(rows: seq<Pair>): seq<Reaction> {
    if rows == [] then [] else Add(Reload(rows[..|rows| - 1]), rows[|rows| - 1].0, rows[|rows| - 1].1)
  }

  ghost function Contents(rows: seq<Pair>): set<Pair> { set p | p in rows }

  lemma {:induction false} StepAgrees(rs: seq<Reaction>, rows: seq<Pair>, e: Event)
    requires Stands(rs, Contents(rows))
    ensures Stands(Step(rs, e), Contents(Rows(rows, e)))
  {
    var p := (e.text, e.u);
    if e.Added? {
      AddIsUnion(rs, Contents(rows), e.text, e.u);
      assert Contents(Rows(rows, e)) == Contents(rows) + {p};
    } else {
      DelIsDifference(rs, Contents(rows), e.text, e.u);
      assert Contents(Rows(rows, e)) == Contents(rows) - {p};
    }
  }

  lemma {:induction false} ReloadStands(rows: seq<Pair>)
    ensures Stands(Reload(rows), Contents(rows))
    decreases |rows|
  {
    hide Add, Valid;
    if rows != [] {
      var n := |rows| - 1;
      ReloadStands(rows[..n]);
      AddIsUnion(Reload(rows[..n]), Contents(rows[..n]), rows[n].0, rows[n].1);
      assert rows == rows[..n] + [rows[n]];
      assert Contents(rows) == Contents(rows[..n]) + {(rows[n].0, rows[n].1)};
    } else {
      assert Valid([]) by { NoReactions(); }
    }
  }

  lemma {:induction false} NoReactions()
    ensures Valid([])
  {
  }

  /** Over every run of additions and deletions the list in RAM stands for exactly the pairs in the
      table, and so does the list that a reload builds from it: the two differ in order only. */
  lemma {:induction false} RunsAgree(rs: seq<Reaction>, rows: seq<Pair>, es: seq<Event>)
    requires Stands(rs, Contents(rows))
    ensures Stands(Run(rs, es), Contents(RunRows(rows, es)))
    ensures Stands(Reload(RunRows(rows, es)), Contents(RunRows(rows, es)))
    decreases |es|
  {
    hide Stands, Step, Rows;
    ReloadStands(RunRows(rows, es));
    if es != [] {
      StepAgrees(rs, rows, es[0]);
      RunsAgree(Step(rs, es[0]), Rows(rows, es[0]), es[1..]);
    }
  }

  // ---------- The vector of a message ----------

  /** A reaction that is new goes to the end of the list, and a new user to the end of its reaction; the others
      stay where they are. */
  lemma {:induction false} AddKeepsOrder(rs: seq<Reaction>, text: string, u: Id)
    ensures var g := Add(rs, text, u);
            && ((forall k :: 0 <= k < |rs| ==> rs[k].text != text) ==> g == rs + [Reaction(text, [u])])
            && forall i :: 0 <= i < |rs| && rs[i].text == text && (forall k :: 0 <= k < i ==> rs[k].text != text) ==>
                 g == if u in rs[i].users then rs else rs[i := Reaction(text, rs[i].users + [u])]
  {
  }

  class ReactionList {
    var reactions: seq<Reaction>

    constructor ()
      ensures reactions == []
    {
      reactions := [];
    }

    /** `getReactionIndex`. */
    method GetReactionIndex(text: string) returns (index: int)
      ensures index == IndexOf(reactions, text)
    {
      var i := 0;
      while i < |reactions|
        invariant 0 <= i <= |reactions| && forall k :: 0 <= k < i ==> reactions[k].text != text
      {
        if reactions[i].text == text { return i; }
        i := i + 1;
      }
      return -1;
    }

    /** `userIndex`, for a list without repeats. */
    method UserIndexIn(users: seq<Id>, u: Id) returns (index: int)
      requires Distinct(users)
      ensures index == UserIndex(users, u)
    {
      var i := 0;
      while i < |users|
        invariant 0 <= i <= |users| && forall k :: 0 <= k < i ==> users[k] != u
      {
        if users[i] == u { return i; }
        i := i + 1;
      }
      return -1;
    }

    method AddReaction(text: string, u: Id)
      requires Valid(reactions)
      modifies this
      ensures reactions == Add(old(reactions), text, u)
    {
      var index := GetReactionIndex(text);
      if index < 0 {
        reactions := reactions + [Reaction(text, [])];
        index := |reactions| - 1;
      }
      var userIndex := UserIndexIn(reactions[index].users, u);
      if userIndex < 0 {
        reactions := reactions[index := Reaction(text, reactions[index].users + [u])];
        if index == |old(reactions)| {
          assert reactions[index].users == [u];
          assert reactions == old(reactions) + [Reaction(text, [u])];
        }
      }
    }

    method DelReaction(text: string, u: Id)
      requires Valid(reactions)
      modifies this
      ensures reactions == Del(old(reactions), text, u)
    {
      var index := GetReactionIndex(text);
      if index < 0 { return; }
      var users := reactions[index].users;
      var userIndex := UserIndexIn(users, u);
      if userIndex < 0 { return; }
      users := users[..userIndex] + users[userIndex + 1..];
      if users == [] {
        reactions := reactions[..index] + reactions[index + 1..];
      } else {
        reactions := reactions[index := Reaction(text, users)];
      }
    }
  }
}
