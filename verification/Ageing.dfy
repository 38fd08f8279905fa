/** The ageing monitor: each sweep asks every table for its expired entries and sends one
    notification per table for those it did not notify in the sweep before. */
module Ageing {
  import opened Common

  type Handle = nat

  datatype Notification = Notification(bufferId: nat, tableId: int, entries: seq<Handle>)

  datatype TableData = TableData(id: int, prev: set<Handle>)

  /** What the tables answer when a sweep asks for their expired entries. */
  type Expired = map<int, seq<Handle>>

  // ----- the reference

  /** The entries of one table that are notified, in the order the table lists them. */
  function Notified(expired: seq<Handle>, prev: set<Handle>): (r: seq<Handle>)
    ensures forall h :: h in r <==> h in expired && h !in prev
    ensures |r| <= |expired|
  {
    if expired == [] then []
    else
      var front, last := expired[..|expired| - 1], expired[|expired| - 1];
      assert expired == front + [last];
      Notified(front, prev) + if last in prev then [] else [last]
  }

  function Elements(s: seq<Handle>): (r: set<Handle>)
    ensures forall h :: h in r <==> h in s
  {
    set h | h in s
  }

  /** What a table puts into the scratch vector. */
  function Answer(expired: Expired, id: int): (r: seq<Handle>)
    ensures id in expired ==> r == expired[id]
    ensures id !in expired ==> r == []
  {
    if id in expired then expired[id] else []
  }

  /** The tables after a sweep: each remembers what was just notified for it. */
  function SweptTables(tables: seq<TableData>, expired: Expired): (r: seq<TableData>)
    ensures |r| == |tables|
  {
    seq(|tables|, i requires 0 <= i < |tables| =>
      TableData(tables[i].id, Elements(Notified(Answer(expired, tables[i].id), tables[i].prev))))
  }

  /** The tables after a reset: nothing is remembered. */
  function Forgotten(tables: seq<TableData>): (r: seq<TableData>)
    ensures |r| == |tables|
    ensures forall i :: 0 <= i < |r| ==> r[i].id == tables[i].id && r[i].prev == {}
  {
    seq(|tables|, i requires 0 <= i < |tables| => TableData(tables[i].id, {}))
  }

  /** One message per table with something to notify, numbered on from next. */
  function Messages(tables: seq<TableData>, expired: Expired, next: nat): (r: seq<Notification>)
    ensures forall i :: 0 <= i < |r| ==> r[i].bufferId == next + i && r[i].entries != []
  {
    if tables == [] then []
    else
      var n := |tables| - 1;
      var before := Messages(tables[..n], expired, next);
      var hs := Notified(Answer(expired, tables[n].id), tables[n].prev);
      if hs == [] then before else before + [Notification(next + |before|, tables[n].id, hs)]
  }

  lemma NotifiedStep(expired: seq<Handle>, prev: set<Handle>)
    ensures Notified([], prev) == [] && expired[..0] == []
    ensures forall k :: 0 <= k < |expired| ==>
      Notified(expired[..k + 1], prev) == Notified(expired[..k], prev) + if expired[k] in prev then [] else [expired[k]]
  {
    forall k | 0 <= k < |expired|
      ensures Notified(expired[..k + 1], prev) == Notified(expired[..k], prev) + if expired[k] in prev then [] else [expired[k]]
    {
      assert expired[..k + 1][..k] == expired[..k];
    }
  }

  // ----- the code

  ghost predicate ById(ts: seq<TableData>) {
    forall i, j :: 0 <= i < j < |ts| ==> ts[i].id < ts[j].id
  }

  lemma InsertedById(ts: seq<TableData>, i: nat, t: TableData)
    requires i <= |ts| && ById(ts)
    requires forall j :: 0 <= j < i ==> ts[j].id < t.id
    requires i < |ts| ==> t.id < ts[i].id
    ensures ById(InsertAt(ts, i, t))
    ensures forall u :: u in InsertAt(ts, i, t) <==> u in ts || u == t
    ensures forall u :: u in ts ==> u.id != t.id
  {
    InsertAtMembers(ts, i, t);
    assert forall j :: i <= j < |ts| ==> t.id < ts[j].id;
  }

  class AgeingMonitor {
    var tables: seq<TableData>       // in order of table id
    var entries: seq<Handle>
    var entriesTmp: seq<Handle>
    var bufferId: nat

    /** The scratch vectors are empty between tables, so nothing leaks from one to the next. */
    ghost predicate Valid()
      reads this
    {
      && entries == [] && entriesTmp == []
      && ById(tables)
    }

    constructor ()
      ensures Valid() && tables == [] && bufferId == 0
    {
      tables, entries, entriesTmp, bufferId := [], [], [], 0;
    }

    /** std::map::insert: a table already known keeps what is remembered for it. */
    method AddTable(id: int)
      requires Valid()
      modifies this`tables
      ensures Valid()
      ensures forall t :: t in tables <==>
        t in old(tables) || (t == TableData(id, {}) && forall u :: u in old(tables) ==> u.id != id)
    {
      var i := 0;
      while i < |tables| && tables[i].id < id
        invariant 0 <= i <= |tables|
        invariant forall j :: 0 <= j < i ==> tables[j].id < id
      {
        i := i + 1;
      }
      if i < |tables| && tables[i].id == id {
        assert tables[i] in tables;
        return;
      }
      hide ById;
      InsertedById(tables, i, TableData(id, {}));
      tables := InsertAt(tables, i, TableData(id, {}));
    }

    method ResetState()
      requires Valid()
      modifies this
      ensures Valid() && bufferId == 0 && tables == Forgotten(old(tables))
    {
      entries, entriesTmp, bufferId := [], [], 0;
      tables := Forgotten(tables);
    }

    /** One sweep over all tables; msgs are the notifications sent, in order. */
    method DoSweep(expired: Expired) returns (msgs: seq<Notification>)
      requires Valid()
      modifies this
      ensures Valid()
      ensures tables == SweptTables(old(tables), expired)
      ensures msgs == Messages(old(tables), expired, old(bufferId))
      ensures bufferId == old(bufferId) + |msgs|
    {
      hide Messages, Notified, Elements, Answer;
      msgs := [];
      ghost var was := tables;
      NoMessages(was, expired, bufferId);
      for i := 0 to |tables|
        invariant |tables| == |was| && entries == [] && entriesTmp == []
        invariant forall j :: 0 <= j < |was| ==>
          tables[j] == if j < i then SweptTables(was, expired)[j] else was[j]
        invariant msgs == Messages(was[..i], expired, old(bufferId))
        invariant bufferId == old(bufferId) + |msgs|
      {
        var data := tables[i];
        MessagesStep(was, expired, old(bufferId), i);
        var sent := SweepTable(data, Answer(expired, data.id));
        tables := tables[i := TableData(data.id, Elements(sent))];
        if sent != [] {
          msgs := msgs + [Notification(bufferId, data.id, sent)];
          bufferId := bufferId + 1;
        }
      }
      assert was[..|was|] == was;
    }

    /** The body of the loop for one table: returns the entries to notify, which are also the
        ones to remember. */
    method SweepTable(data: TableData, answer: seq<Handle>) returns (sent: seq<Handle>)
      requires entries == [] && entriesTmp == []
      modifies this`entries, this`entriesTmp
      ensures sent == Notified(answer, data.prev)
      ensures entries == [] && entriesTmp == []
    {
      hide Notified;
      NotifiedStep(answer, data.prev);
      entriesTmp := entriesTmp + answer;
      if |entriesTmp| == 0 { return []; }
      for k := 0 to |entriesTmp|
        invariant entriesTmp == answer
        invariant entries == Notified(answer[..k], data.prev)
      {
        if entriesTmp[k] !in data.prev {
          entries := entries + [entriesTmp[k]];
        }
      }
      assert answer[..|answer|] == answer;
      entriesTmp := [];
      sent := entries;
      entries := [];
    }
  }

  lemma NoMessages(tables: seq<TableData>, expired: Expired, next: nat)
    ensures Messages(tables[..0], expired, next) == []
  {
  }

  lemma MessagesStep(tables: seq<TableData>, expired: Expired, next: nat, i: nat)
    requires i < |tables|
    ensures
      var before := Messages(tables[..i], expired, next);
      var hs := Notified(Answer(expired, tables[i].id), tables[i].prev);
      Messages(tables[..i + 1], expired, next)
        == if hs == [] then before else before + [Notification(next + |before|, tables[i].id, hs)]
  {
    hide Notified, Answer;
    assert tables[..i + 1][..i] == tables[..i];
  }

  // ----- what the messages of one sweep say

  /** Some message lists h for table id. */
  ghost predicate Lists(msgs: seq<Notification>, id: int, h: Handle) {
    exists k :: 0 <= k < |msgs| && msgs[k].tableId == id && h in msgs[k].entries
  }

  lemma ListsSnoc(msgs: seq<Notification>, m: Notification, id: int, h: Handle)
    ensures Lists(msgs + [m], id, h) <==> Lists(msgs, id, h) || (m.tableId == id && h in m.entries)
  {
    var longer := msgs + [m];
    assert longer[|msgs|] == m;
    if Lists(msgs, id, h) {
      var k :| 0 <= k < |msgs| && msgs[k].tableId == id && h in msgs[k].entries;
      assert longer[k] == msgs[k];
    }
  }

  /** A table with something to notify gets its messages, and no other handle is listed. */
  lemma {:induction false} MessagesList(tables: seq<TableData>, expired: Expired, next: nat, id: int, h: Handle)
    requires ById(tables)
    ensures Lists(Messages(tables, expired, next), id, h) <==>
            exists i :: 0 <= i < |tables| && tables[i].id == id && id in expired && h in expired[id] && h !in tables[i].prev
    decreases |tables|
  {
    hide Answer, Lists, Notified;
    if tables == [] {
      ListsNothing(id, h);
    } else {
      var n := |tables| - 1;
      var before := Messages(tables[..n], expired, next);
      var hs := Notified(Answer(expired, tables[n].id), tables[n].prev);
      MessagesList(tables[..n], expired, next, id, h);
      if hs != [] { ListsSnoc(before, Notification(next + |before|, tables[n].id, hs), id, h); }
      assert forall i :: 0 <= i < n ==> tables[..n][i] == tables[i];
    }
  }

  lemma ListsNothing(id: int, h: Handle)
    ensures !Lists([], id, h)
  {
  }

  ghost predicate IsKnown(tables: seq<TableData>, id: int) {
    exists i :: 0 <= i < |tables| && tables[i].id == id
  }

  lemma KnownSnoc(front: seq<TableData>, t: TableData, id: int)
    ensures IsKnown(front + [t], id) <==> IsKnown(front, id) || id == t.id
  {
    assert (front + [t])[|front|] == t;
    if i :| 0 <= i < |front| && front[i].id == id { assert (front + [t])[i] == front[i]; }
  }

  lemma KnownIsBelow(front: seq<TableData>, t: TableData, id: int)
    requires ById(front + [t]) && IsKnown(front, id)
    ensures id < t.id
  {
    var i :| 0 <= i < |front| && front[i].id == id;
    assert (front + [t])[i] == front[i] && (front + [t])[|front|] == t;
  }

  /** At most one message per table, in the order of the tables, and none for any other. */
  lemma {:induction false} MessagesInOrder(tables: seq<TableData>, expired: Expired, next: nat)
    requires ById(tables)
    ensures forall m :: m in Messages(tables, expired, next) ==> IsKnown(tables, m.tableId)
    ensures
      var msgs := Messages(tables, expired, next);
      forall k, l :: 0 <= k < l < |msgs| ==> msgs[k].tableId < msgs[l].tableId
    decreases |tables|
  {
    if tables != [] {
      var n := |tables| - 1;
      var front, t := tables[..n], tables[n];
      assert tables == front + [t];
      MessagesInOrder(front, expired, next);
      hide Answer, Notified, IsKnown, ById;
      forall m | m in Messages(front, expired, next) ensures IsKnown(tables, m.tableId) && m.tableId < t.id {
        KnownSnoc(front, t, m.tableId);
        KnownIsBelow(front, t, m.tableId);
      }
      KnownSnoc(front, t, t.id);
      MessagesOne(tables, expired, next);
      hide Messages;
      var before, msgs := Messages(front, expired, next), Messages(tables, expired, next);
      forall k, l | 0 <= k < l < |msgs| ensures msgs[k].tableId < msgs[l].tableId {
        assert msgs[k] == before[k] && before[k] in before;
      }
      forall m | m in msgs ensures IsKnown(tables, m.tableId) {
        assert m in before || m.tableId == t.id;
      }
    }
  }

  lemma MessagesOne(tables: seq<TableData>, expired: Expired, next: nat)
    requires tables != []
    ensures
      var n := |tables| - 1;
      var before, msgs := Messages(tables[..n], expired, next), Messages(tables, expired, next);
      msgs == before || (|msgs| == |before| + 1 && msgs[..|before|] == before &&
                         msgs == before + [msgs[|before|]] && msgs[|before|].tableId == tables[n].id)
  {
  }

  /** The number of entries that are not remembered. */
  function CountNew(s: seq<Handle>, prev: set<Handle>): (r: nat)
    ensures r <= |s|
  {
    if s == [] then 0 else CountNew(s[..|s| - 1], prev) + if s[|s| - 1] in prev then 0 else 1
  }

  /** r lists the entries of s that are not remembered, all of them, in the order of s: entry i
      comes after exactly those new ones that come before it. */
  ghost predicate ListsInOrder(r: seq<Handle>, s: seq<Handle>, prev: set<Handle>) {
    |r| == CountNew(s, prev) &&
    forall i :: 0 <= i < |s| && s[i] !in prev ==> CountNew(s[..i], prev) < |r| && r[CountNew(s[..i], prev)] == s[i]
  }

  lemma {:induction false} NotifiedInOrder(s: seq<Handle>, prev: set<Handle>)
    ensures ListsInOrder(Notified(s, prev), s, prev)
  {
    hide ListsInOrder, CountNew;
    if s == [] {
      NothingInOrder(prev);
    } else {
      var front, last := s[..|s| - 1], s[|s| - 1];
      assert s == front + [last];
      NotifiedInOrder(front, prev);
      InOrderSnoc(Notified(front, prev), front, last, prev);
    }
  }

  lemma NothingInOrder(prev: set<Handle>)
    ensures ListsInOrder([], [], prev)
  {
  }

  lemma CountNewSnoc(front: seq<Handle>, last: Handle, prev: set<Handle>)
    ensures CountNew(front + [last], prev) == CountNew(front, prev) + if last in prev then 0 else 1
  {
    assert (front + [last])[..|front|] == front;
  }

  lemma InOrderSnoc(r: seq<Handle>, front: seq<Handle>, last: Handle, prev: set<Handle>)
    requires ListsInOrder(r, front, prev)
    ensures ListsInOrder(r + if last in prev then [] else [last], front + [last], prev)
  {
    hide CountNew;
    var s, q := front + [last], r + if last in prev then [] else [last];
    CountNewSnoc(front, last, prev);
    forall i | 0 <= i < |s| && s[i] !in prev
      ensures CountNew(s[..i], prev) < |q| && q[CountNew(s[..i], prev)] == s[i]
    {
      if i < |front| {
        assert s[..i] == front[..i] && s[i] == front[i];
      } else {
        assert s[..i] == front;
      }
    }
  }

  /** m is what one table is notified of. */
  ghost predicate IsNoticeOf(m: Notification, t: TableData, expired: Expired) {
    m.tableId == t.id && t.id in expired && ListsInOrder(m.entries, expired[t.id], t.prev)
  }

  /** Every message lists exactly the new entries of a known table, in the table's order. */
  lemma {:induction false} MessagesAreNotices(tables: seq<TableData>, expired: Expired, next: nat, m: Notification)
    requires m in Messages(tables, expired, next)
    ensures exists i :: 0 <= i < |tables| && IsNoticeOf(m, tables[i], expired)
    decreases |tables|
  {
    hide ListsInOrder;
    var n := |tables| - 1;
    var before := Messages(tables[..n], expired, next);
    if m in before {
      MessagesAreNotices(tables[..n], expired, next, m);
      var i :| 0 <= i < n && IsNoticeOf(m, tables[..n][i], expired);
      assert IsNoticeOf(m, tables[i], expired);
    } else {
      var t := tables[n];
      NotifiedInOrder(Answer(expired, t.id), t.prev);
      assert m == Notification(next + |before|, t.id, Notified(Answer(expired, t.id), t.prev));
      assert IsNoticeOf(m, tables[n], expired);
    }
  }

  // ----- whole runs of sweeps

  /** The messages of each of a sequence of sweeps. */
  function Sweeps(tables: seq<TableData>, answers: seq<Expired>, next: nat): (r: seq<seq<Notification>>)
    ensures |r| == |answers|
    decreases |answers|
  {
    if answers == [] then []
    else
      var msgs := Messages(tables, answers[0], next);
      [msgs] + Sweeps(SweptTables(tables, answers[0]), answers[1..], next + |msgs|)
  }

  function Joined(sent: seq<seq<Notification>>): seq<Notification> {
    if sent == [] then [] else sent[0] + Joined(sent[1..])
  }

  /** Over the run a handle is notified for a table at sweep n if and only if it is expired at n
      and was not notified at n - 1; before the run counts what the table remembers. */
  ghost predicate NotifiesFresh(tables: seq<TableData>, answers: seq<Expired>, sent: seq<seq<Notification>>)
    requires |sent| == |answers|
  {
    forall i, n, h :: 0 <= i < |tables| && 0 <= n < |answers| ==> FreshAt(tables[i], answers, sent, n, h)
  }

  ghost predicate FreshAt(t: TableData, answers: seq<Expired>, sent: seq<seq<Notification>>, n: nat, h: Handle)
    requires n < |answers| == |sent|
  {
    Lists(sent[n], t.id, h) <==>
      t.id in answers[n] && h in answers[n][t.id] && if n == 0 then h !in t.prev else !Lists(sent[n - 1], t.id, h)
  }

  lemma {:induction false} SweepsAt(tables: seq<TableData>, answers: seq<Expired>, next: nat, i: nat, n: nat, h: Handle)
    requires ById(tables) && i < |tables| && n < |answers|
    ensures FreshAt(tables[i], answers, Sweeps(tables, answers, next), n, h)
    decreases n
  {
    hide Messages, Notified, Answer, Lists;
    var id, msgs, swept := tables[i].id, Messages(tables, answers[0], next), SweptTables(tables, answers[0]);
    MessagesList(tables, answers[0], next, id, h);
    if n > 0 {
      SweepsAt(swept, answers[1..], next + |msgs|, i, n - 1, h);
    }
  }

  lemma SweepsNotifyFresh(tables: seq<TableData>, answers: seq<Expired>, next: nat)
    requires ById(tables)
    ensures NotifiesFresh(tables, answers, Sweeps(tables, answers, next))
  {
    hide FreshAt, Messages, SweptTables, Sweeps;
    forall i, n, h | 0 <= i < |tables| && 0 <= n < |answers|
      ensures FreshAt(tables[i], answers, Sweeps(tables, answers, next), n, h)
    {
      SweepsAt(tables, answers, next, i, n, h);
    }
  }

  /** Buffer ids are consecutive over the whole run, across sweeps and tables. */
  lemma {:induction false} SweepsNumbered(tables: seq<TableData>, answers: seq<Expired>, next: nat)
    ensures forall k :: 0 <= k < |Joined(Sweeps(tables, answers, next))| ==>
      Joined(Sweeps(tables, answers, next))[k].bufferId == next + k
    decreases |answers|
  {
    hide Messages;
    if answers != [] {
      var msgs := Messages(tables, answers[0], next);
      SweepsNumbered(SweptTables(tables, answers[0]), answers[1..], next + |msgs|);
      assert Sweeps(tables, answers, next)[1..] ==
             Sweeps(SweptTables(tables, answers[0]), answers[1..], next + |msgs|);
    }
  }

  /** A run of the sweep loop. */
  method RunSweeps(monitor: AgeingMonitor, answers: seq<Expired>) returns (sent: seq<seq<Notification>>)
    requires monitor.Valid()
    modifies monitor
    ensures monitor.Valid() && |sent| == |answers|
    ensures sent == Sweeps(old(monitor.tables), answers, old(monitor.bufferId))
    ensures NotifiesFresh(old(monitor.tables), answers, sent)
    ensures forall k :: 0 <= k < |Joined(sent)| ==> Joined(sent)[k].bufferId == old(monitor.bufferId) + k
  {
    hide Messages, SweptTables, NotifiesFresh, Joined, ById;
    ghost var was, first := monitor.tables, monitor.bufferId;
    SweepsNotifyFresh(was, answers, first);
    SweepsNumbered(was, answers, first);
    sent := [];
    assert answers[0..] == answers;
    for n := 0 to |answers|
      invariant monitor.Valid() && |sent| == n
      invariant Sweeps(was, answers, first) == sent + Sweeps(monitor.tables, answers[n..], monitor.bufferId)
    {
      assert answers[n..][0] == answers[n] && answers[n..][1..] == answers[n + 1..];
      var msgs := monitor.DoSweep(answers[n]);
      sent := sent + [msgs];
    }
  }

  /** An entry that expires at sweep a and stays expired is notified at a, a+2, a+4, ...:
      every second sweep, not once. */
  lemma {:induction false} StaysExpired(tables: seq<TableData>, answers: seq<Expired>, sent: seq<seq<Notification>>,
                                        i: nat, a: nat, n: nat, h: Handle)
    requires |sent| == |answers| && NotifiesFresh(tables, answers, sent)
    requires i < |tables| && a <= n < |answers|
    requires if a == 0 then h !in tables[i].prev
             else !(tables[i].id in answers[a - 1] && h in answers[a - 1][tables[i].id])
    requires forall k :: a <= k <= n ==> tables[i].id in answers[k] && h in answers[k][tables[i].id]
    ensures Lists(sent[n], tables[i].id, h) <==> (n - a) % 2 == 0
    decreases n
  {
    hide Lists;
    assert FreshAt(tables[i], answers, sent, n, h);
    if n > a {
      StaysExpired(tables, answers, sent, i, a, n - 1, h);
    } else if n > 0 {
      assert FreshAt(tables[i], answers, sent, n - 1, h);
    }
  }
}
