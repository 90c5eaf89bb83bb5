/** The supervisor's Team block: how many instances are overdue or unassigned, and which, from two
    queries of their own joins that LIMIT without ordering. A row of a join is identified by the rows it
    was joined from, so the rows of a query are a set of such combinations. */
module TeamAttention {
  import opened Prelude
  import opened Lexicographic

  type Id = nat

  datatype State = State(overdue: bool, closed: bool)
  datatype Task = Task(
    project: Id, state: Id, ritual: bool, deleted: bool, detached: bool, scheduled: Option<int>, deadline: Option<int>)
  datatype Assignee = Assignee(task: Id, employee: Id, working: bool, at: int)  // working: role = 'assignee'
  datatype Membership = Membership(project: Id, employee: Id, supervises: bool)  // owner or admin

  datatype Tables = Tables(
    tasks: map<Id, Task>, states: map<Id, State>, archived: map<Id, bool>,
    assignees: map<Id, Assignee>, memberships: map<Id, Membership>)

  datatype Leg = Overdue | Unassigned

  ghost predicate Supervises(db: Tables, caller: Id, project: Id) {
    exists m :: m in db.memberships && db.memberships[m] == Membership(project, caller, true)
  }

  function WorkersOn(db: Tables, t: Id): set<Id> {
    set a | a in db.assignees && db.assignees[a].task == t && db.assignees[a].working
  }

  predicate OwnWork(db: Tables, caller: Id, t: Id) {
    exists a :: a in WorkersOn(db, t) && db.assignees[a].employee == caller
  }

  /** The part of WHERE both legs share: an open instance of a live project the caller supervises, and
      not the caller's own. */
  ghost predicate InScope(db: Tables, caller: Id, t: Id, p: Id, s: Id)
    requires t in db.tasks && p in db.archived && s in db.states
  {
    && db.tasks[t].ritual && !db.tasks[t].deleted && !db.tasks[t].detached
    && !db.states[s].closed && !db.archived[p]
    && Supervises(db, caller, db.tasks[t].project) && !OwnWork(db, caller, t)
  }

  /** FROM task JOIN project JOIN project_state, with the leg's WHERE. */
  ghost predicate Selected(db: Tables, caller: Id, today: int, leg: Leg, t: Id, p: Id, s: Id) {
    && t in db.tasks && p in db.archived && s in db.states
    && p == db.tasks[t].project && s == db.tasks[t].state
    && InScope(db, caller, t, p, s)
    && match leg
       case Overdue => db.states[s].overdue
       case Unassigned =>
         !db.states[s].overdue && db.tasks[t].scheduled == Some(today) && WorkersOn(db, t) == {}
  }

  // ----- The counts -----

  datatype Counted = Counted(task: Id, project: Id, state: Id)

  /** The rows a leg of CountTeamAttention counts, before its cap. */
  ghost function CountedRows(db: Tables, caller: Id, today: int, leg: Leg): set<Counted> {
    set t, p, s | t in db.tasks && p in db.archived && s in db.states && Selected(db, caller, today, leg, t, p, s)
      :: Counted(t, p, s)
  }

  /** project JOIN project_membership. */
  ghost function SupervisedRows(db: Tables, caller: Id): set<(Id, Id)> {
    set p, m | p in db.archived && m in db.memberships && !db.archived[p]
               && db.memberships[m] == Membership(p, caller, true)
      :: (p, m)
  }

  datatype Counts = Counts(overdue: nat, unassigned: nat, projects: nat)

  const COUNT_CAP := 100

  /** CountTeamAttention. */
  ghost function Count(db: Tables, caller: Id, today: int): Counts {
    Counts(Min(COUNT_CAP, |CountedRows(db, caller, today, Overdue)|),
           Min(COUNT_CAP, |CountedRows(db, caller, today, Unassigned)|),
           |SupervisedRows(db, caller)|)
  }

  // ----- The items -----

  /** How the overdue leg joins a task's workers: every one of them, or by a lateral subquery the first. */
  datatype Join = Plain | FirstWorker

  function WorkerKey(db: Tables, a: Id): Key
    requires a in db.assignees
  {
    [db.assignees[a].at, a]
  }

  /** ORDER BY assigned_at, id LIMIT 1. */
  predicate IsFirstWorker(db: Tables, t: Id, a: Id) {
    a in WorkersOn(db, t) && forall b :: b in WorkersOn(db, t) && b != a ==> Less(WorkerKey(db, a), WorkerKey(db, b))
  }

  /** LEFT JOIN: what a task is joined with, NULL when there is nothing to join. */
  predicate Joins(db: Tables, join: Join, t: Id, worker: Option<Id>) {
    match worker
    case None => WorkersOn(db, t) == {}
    case Some(a) => a in WorkersOn(db, t) && (join.FirstWorker? ==> IsFirstWorker(db, t, a))
  }

  datatype Row = Row(leg: Leg, task: Id, project: Id, state: Id, worker: Option<Id>)

  function Workers(db: Tables): set<Option<Id>> {
    {None} + set a | a in db.assignees :: Some(a)
  }

  /** The rows of a leg of ListTeamAttentionItems, before its LIMIT. */
  ghost function LegRows(db: Tables, caller: Id, today: int, join: Join, leg: Leg): set<Row> {
    match leg
    case Overdue =>
      set t, p, s, w | t in db.tasks && p in db.archived && s in db.states && w in Workers(db)
                       && Selected(db, caller, today, leg, t, p, s) && Joins(db, join, t, w)
        :: Row(leg, t, p, s, w)
    case Unassigned =>
      set t, p, s | t in db.tasks && p in db.archived && s in db.states && Selected(db, caller, today, leg, t, p, s)
        :: Row(leg, t, p, s, None)
  }

  /** A LIMIT without ORDER BY may keep any rows, as many as there are up to the limit. */
  ghost predicate LegalCut(all: set<Row>, limit: nat, kept: set<Row>) {
    kept <= all && |kept| == Min(limit, |all|)
  }

  /** (attention_rank, sort_date NULLS LAST, task_id). */
  function SortKey(db: Tables, r: Row): Key
    requires r.task in db.tasks
  {
    var date := if r.leg.Overdue? then db.tasks[r.task].deadline else db.tasks[r.task].scheduled;
    [if r.leg.Overdue? then 0 else 1, if date.None? then 1 else 0, if date.None? then 0 else date.value, r.task]
  }

  ghost predicate InOrder(db: Tables, items: seq<Row>) {
    && (forall i :: 0 <= i < |items| ==> items[i].task in db.tasks)
    && forall i, j :: 0 <= i < j < |items| ==> !Less(SortKey(db, items[j]), SortKey(db, items[i]))
  }

  function Limit(requested: int): (limit: nat)
    ensures 1 <= limit <= 20
    ensures 1 <= requested <= 20 ==> limit == requested
    ensures requested <= 0 ==> limit == 5
    ensures requested > 20 ==> limit == 20
  {
    if requested <= 0 then 5 else if requested > 20 then 20 else requested
  }

  /** `items` is a result ListTeamAttentionItems may return: the rows one cut of each leg keeps, every one
      as often as it was kept, in order. */
  ghost predicate Items(db: Tables, caller: Id, today: int, join: Join, limit: nat, late: set<Row>, idle: set<Row>,
      items: seq<Row>) {
    && LegalCut(LegRows(db, caller, today, join, Overdue), limit, late)
    && LegalCut(LegRows(db, caller, today, join, Unassigned), limit, idle)
    && multiset(items) == multiset(late) + multiset(idle) && InOrder(db, items)
  }

  // ----- What the queries select -----

  /** Both legs read as FROM, JOIN and WHERE over rows: an open instance, in its state, of a live project in
      which the caller is owner or admin, and on which the caller does not work. One leg has those whose state
      is overdue, the other those of today that are not, and on which nobody works. */
  lemma SelectedIsTheJoin(db: Tables, caller: Id, today: int, leg: Leg, c: Counted)
    ensures c in CountedRows(db, caller, today, leg) <==> exists t, s, m ::
      && (c.task, t) in db.tasks.Items && (c.project, false) in db.archived.Items && (c.state, s) in db.states.Items
      && (m, Membership(c.project, caller, true)) in db.memberships.Items
      && (t.project, t.state, t.ritual, t.deleted, t.detached) == (c.project, c.state, true, false, false)
      && !s.closed && s.overdue == leg.Overdue?
      && (leg.Unassigned? ==> t.scheduled == Some(today))
      && forall a :: a in db.assignees && db.assignees[a].task == c.task && db.assignees[a].working ==>
           leg.Overdue? && db.assignees[a].employee != caller
  {
    var T, p, S := c.task, c.project, c.state;
    if c in CountedRows(db, caller, today, leg) {
      var m :| m in db.memberships && db.memberships[m] == Membership(db.tasks[T].project, caller, true);
      assert (T, db.tasks[T]) in db.tasks.Items && (S, db.states[S]) in db.states.Items;
      assert (p, false) in db.archived.Items && (m, Membership(p, caller, true)) in db.memberships.Items;
      forall a | a in db.assignees && db.assignees[a].task == T && db.assignees[a].working
        ensures leg.Overdue? && db.assignees[a].employee != caller
      {
        assert a in WorkersOn(db, T);
      }
    }
    if exists t, s, m ::
      && (T, t) in db.tasks.Items && (p, false) in db.archived.Items && (S, s) in db.states.Items
      && (m, Membership(p, caller, true)) in db.memberships.Items
      && (t.project, t.state, t.ritual, t.deleted, t.detached) == (p, S, true, false, false)
      && !s.closed && s.overdue == leg.Overdue?
      && (leg.Unassigned? ==> t.scheduled == Some(today))
      && forall a :: a in db.assignees && db.assignees[a].task == T && db.assignees[a].working ==>
           leg.Overdue? && db.assignees[a].employee != caller {
      var m :| (m, Membership(p, caller, true)) in db.memberships.Items;
      assert m in db.memberships && db.memberships[m] == Membership(p, caller, true);
      assert Supervises(db, caller, p);
      assert leg.Unassigned? ==> WorkersOn(db, T) == {};
      assert Selected(db, caller, today, leg, T, p, S);
    }
  }

  /** With one membership for each project and employee, the third count is the number of live projects the
      caller supervises. */
  lemma ProjectsAreCountedOnce(db: Tables, caller: Id, today: int)
    requires forall m, n ::
      m in db.memberships && n in db.memberships && SameSeat(db.memberships[m], db.memberships[n]) ==> m == n
    ensures Count(db, caller, today).projects == |LiveProjects(db, caller)|
  {
    var rows, projects := SupervisedRows(db, caller), LiveProjects(db, caller);
    assert forall p :: p in projects <==> exists m :: (p, m) in rows;
    assert forall x, y :: x in rows && y in rows && x.0 == y.0 ==> x == y;
    ProjectionSize(rows, projects);
  }

  predicate SameSeat(a: Membership, b: Membership) {
    a.project == b.project && a.employee == b.employee
  }

  ghost function LiveProjects(db: Tables, caller: Id): set<Id> {
    set p | p in db.archived && (p, false) in db.archived.Items && Membership(p, caller, true) in db.memberships.Values
  }

  lemma {:induction false} ProjectionSize(rows: set<(Id, Id)>, firsts: set<Id>)
    requires forall p :: p in firsts <==> exists m :: (p, m) in rows
    requires forall x, y :: x in rows && y in rows && x.0 == y.0 ==> x == y
    ensures |rows| == |firsts|
    decreases |rows|
  {
    if x :| x in rows {
      assert (x.0, x.1) in rows;
      forall p
        ensures p in firsts - {x.0} <==> exists m :: (p, m) in rows - {x}
      {
        if m :| (p, m) in rows - {x} {
          assert (p, m) in rows && (p, m).0 == p;
        }
        if p in firsts - {x.0} {
          var m :| (p, m) in rows;
          assert (p, m) in rows - {x};
        }
      }
      ProjectionSize(rows - {x}, firsts - {x.0});
    } else {
      assert rows == {} && forall p :: p !in firsts;
    }
  }

  /** The date a row is sorted by: its deadline if it is late, else the day it is scheduled for. */
  function DateOf(db: Tables, r: Row): Option<int>
    requires r.task in db.tasks
  {
    match r.leg
    case Overdue => db.tasks[r.task].deadline
    case Unassigned => db.tasks[r.task].scheduled
  }

  /** Within a leg the earlier date comes first, no date last, and then the lower task id. */
  lemma WithinALegByDate(db: Tables, items: seq<Row>, i: nat, j: nat)
    requires InOrder(db, items) && i < j < |items| && items[i].leg == items[j].leg
    ensures var (a, b) := (DateOf(db, items[i]), DateOf(db, items[j]));
      || (a.Some? && b.None?) || (a.Some? && b.Some? && a.value < b.value)
      || (a == b && items[i].task <= items[j].task)
  {
    LessOfFour(SortKey(db, items[j]), SortKey(db, items[i]));
  }

  lemma LessOfFour(a: Key, b: Key)
    requires |a| == |b| == 4 && a[0] == b[0]
    ensures Less(a, b) <==>
      a[1] < b[1] || (a[1] == b[1] && (a[2] < b[2] || (a[2] == b[2] && a[3] < b[3])))
  {
    var (a1, b1) := (a[1..], b[1..]);
    var (a2, b2) := (a1[1..], b1[1..]);
    assert a2[1..] == [a[3]] && b2[1..] == [b[3]];
    assert Less([a[3]], [b[3]]) <==> a[3] < b[3] by {
      assert [a[3]][1..] == [] && [b[3]][1..] == [];
    }
    assert Less(a2, b2) <==> a[2] < b[2] || (a[2] == b[2] && Less(a2[1..], b2[1..]));
    assert Less(a1, b1) <==> a[1] < b[1] || (a[1] == b[1] && Less(a2, b2));
  }

  // ----- One row for each task -----

  lemma FirstWorkerIsUnique(db: Tables, t: Id, a: Id, b: Id)
    requires IsFirstWorker(db, t, a) && IsFirstWorker(db, t, b)
    ensures a == b
  {
    if a != b {
      LessIsTransitive(WorkerKey(db, a), WorkerKey(db, b), WorkerKey(db, a));
      LessIsIrreflexive(WorkerKey(db, a));
    }
  }

  lemma FirstWorkerExists(db: Tables, t: Id)
    requires WorkersOn(db, t) != {}
    ensures exists a :: IsFirstWorker(db, t, a)
  {
    var keys: set<Key> := set a | a in WorkersOn(db, t) :: WorkerKey(db, a);
    var some :| some in WorkersOn(db, t);
    assert WorkerKey(db, some) in keys;
    LeastExists(keys);
    var m :| IsLeast(keys, m);
    var a :| a in WorkersOn(db, t) && WorkerKey(db, a) == m;
    forall b | b in WorkersOn(db, t) && b != a
      ensures Less(WorkerKey(db, a), WorkerKey(db, b))
    {
      assert WorkerKey(db, b)[1] != WorkerKey(db, a)[1];
      assert WorkerKey(db, b) in keys;
    }
    assert IsFirstWorker(db, t, a);
  }

  ghost predicate OneRowEach(rows: set<Row>) {
    forall r, q :: r in rows && q in rows && r.task == q.task ==> r == q
  }

  function CountedOf(r: Row): Counted {
    Counted(r.task, r.project, r.state)
  }

  /** The rows of a leg come from the rows its count counts. */
  ghost predicate RowsFrom(counted: set<Counted>, rows: set<Row>) {
    && (forall r :: r in rows ==> CountedOf(r) in counted)
    && forall c :: c in counted ==> exists r :: r in rows && CountedOf(r) == c
  }

  /** The two queries, each with its own joins, select the same tasks. */
  lemma LegsComeFromTheirCounts(db: Tables, caller: Id, today: int, join: Join, leg: Leg)
    ensures RowsFrom(CountedRows(db, caller, today, leg), LegRows(db, caller, today, join, leg))
  {
    var counted := CountedRows(db, caller, today, leg);
    var rows := LegRows(db, caller, today, join, leg);
    forall c | c in counted
      ensures exists r :: r in rows && CountedOf(r) == c
    {
      var w: Option<Id> := None;
      if leg == Overdue && WorkersOn(db, c.task) != {} {
        FirstWorkerExists(db, c.task);
        var a :| IsFirstWorker(db, c.task, a);
        w := Some(a);
      }
      assert w in Workers(db);
      assert Row(leg, c.task, c.project, c.state, w) in rows;
    }
  }

  lemma LateralJoinKeepsOneRow(db: Tables, caller: Id, today: int, leg: Leg)
    ensures OneRowEach(LegRows(db, caller, today, FirstWorker, leg))
  {
    var rows := LegRows(db, caller, today, FirstWorker, leg);
    forall r, q | r in rows && q in rows && r.task == q.task
      ensures r == q
    {
      if r.worker.Some? && q.worker.Some? {
        FirstWorkerIsUnique(db, r.task, r.worker.value, q.worker.value);
      }
    }
  }

  /** With one row each, there are as many rows as the count says. */
  lemma {:induction false} OneRowEachCounts(counted: set<Counted>, rows: set<Row>)
    requires RowsFrom(counted, rows) && OneRowEach(rows)
    requires forall c, d :: c in counted && d in counted && c.task == d.task ==> c == d
    ensures |rows| == |counted|
    decreases |counted|
  {
    if counted == {} {
      assert rows == {};
    } else {
      var c :| c in counted;
      var r :| r in rows && CountedOf(r) == c;
      forall d | d in counted - {c}
        ensures exists q :: q in rows - {r} && CountedOf(q) == d
      {
        var q :| q in rows && CountedOf(q) == d;
        assert q in rows - {r};
      }
      OneRowEachCounts(counted - {c}, rows - {r});
    }
  }

  /** Each leg of the items has exactly as many rows as the other query counts, one for each task. */
  lemma LegsMatchTheirCounts(db: Tables, caller: Id, today: int, leg: Leg)
    ensures OneRowEach(LegRows(db, caller, today, FirstWorker, leg))
    ensures |LegRows(db, caller, today, FirstWorker, leg)| == |CountedRows(db, caller, today, leg)|
  {
    LateralJoinKeepsOneRow(db, caller, today, leg);
    LegsComeFromTheirCounts(db, caller, today, FirstWorker, leg);
    OneRowEachCounts(CountedRows(db, caller, today, leg), LegRows(db, caller, today, FirstWorker, leg));
  }

  /** Some overdue instance of the leg has two workers. */
  ghost predicate SharedWork(db: Tables, caller: Id, today: int) {
    exists c, a, b :: c in CountedRows(db, caller, today, Overdue) && a in WorkersOn(db, c.task)
                      && b in WorkersOn(db, c.task) && a != b
  }

  lemma LateralRowsAreJoinRows(db: Tables, caller: Id, today: int)
    ensures LegRows(db, caller, today, FirstWorker, Overdue) <= LegRows(db, caller, today, Plain, Overdue)
  {
  }

  lemma PlainJoinRepeats(db: Tables, caller: Id, today: int)
    requires SharedWork(db, caller, today)
    ensures !OneRowEach(LegRows(db, caller, today, Plain, Overdue))
  {
    var c, a, b :| c in CountedRows(db, caller, today, Overdue) && a in WorkersOn(db, c.task)
      && b in WorkersOn(db, c.task) && a != b;
    assert Some(a) in Workers(db) && Some(b) in Workers(db);
    assert Row(Overdue, c.task, c.project, c.state, Some(a)) in LegRows(db, caller, today, Plain, Overdue);
    assert Row(Overdue, c.task, c.project, c.state, Some(b)) in LegRows(db, caller, today, Plain, Overdue);
  }

  lemma AloneIsFirst(db: Tables, caller: Id, today: int)
    requires !SharedWork(db, caller, today)
    ensures LegRows(db, caller, today, Plain, Overdue) == LegRows(db, caller, today, FirstWorker, Overdue)
  {
    var all := LegRows(db, caller, today, Plain, Overdue);
    forall r | r in all
      ensures r in LegRows(db, caller, today, FirstWorker, Overdue)
    {
      assert CountedOf(r) in CountedRows(db, caller, today, Overdue);
      if r.worker.Some? {
        assert forall b :: b in WorkersOn(db, CountedOf(r).task) ==> b == r.worker.value;
        assert IsFirstWorker(db, r.task, r.worker.value);
      }
    }
    LateralRowsAreJoinRows(db, caller, today);
  }

  /** What the lateral subquery is for: joining the workers outright would list a task once for each of
      them, and the list would have more rows than the count says, exactly when some overdue instance of
      the caller's team has two workers. */
  lemma PlainJoinAgreesIffNothingIsShared(db: Tables, caller: Id, today: int)
    ensures OneRowEach(LegRows(db, caller, today, Plain, Overdue)) <==> !SharedWork(db, caller, today)
    ensures |LegRows(db, caller, today, Plain, Overdue)| == |CountedRows(db, caller, today, Overdue)|
            <==> !SharedWork(db, caller, today)
  {
    var joined := LegRows(db, caller, today, Plain, Overdue);
    var first := LegRows(db, caller, today, FirstWorker, Overdue);
    LegsMatchTheirCounts(db, caller, today, Overdue);
    if SharedWork(db, caller, today) {
      PlainJoinRepeats(db, caller, today);
      LateralRowsAreJoinRows(db, caller, today);
      assert joined != first;
      SubsetSize(first, joined);
    } else {
      AloneIsFirst(db, caller, today);
    }
  }

  // ----- The answer -----

  lemma LegsShareNoTask(db: Tables, caller: Id, today: int, r: Row, q: Row)
    requires r in LegRows(db, caller, today, FirstWorker, Overdue)
    requires q in LegRows(db, caller, today, FirstWorker, Unassigned)
    ensures r.task != q.task && r.leg == Overdue && q.leg == Unassigned
  {
  }

  lemma TwiceCountsTwo(items: seq<Row>, i: nat, j: nat)
    requires i < j < |items|
    ensures items[i] == items[j] ==> multiset(items)[items[j]] >= 2
  {
    assert items == items[..j] + [items[j]] + items[j + 1..];
    assert items[i] in items[..j];
  }

  /** A sequence that lists a set lists nothing twice. */
  lemma ListsOnce(items: seq<Row>, kept: set<Row>, i: nat, j: nat)
    requires multiset(items) == multiset(kept) && i < j < |items|
    ensures items[i] != items[j]
  {
    TwiceCountsTwo(items, i, j);
    assert multiset(kept)[items[j]] <= 1;
  }

  /** Listing two sets with nothing in common. */
  lemma ListsBoth(items: seq<Row>, a: set<Row>, b: set<Row>)
    requires multiset(items) == multiset(a) + multiset(b) && a !! b
    ensures multiset(items) == multiset(a + b) && |items| == |a| + |b|
    ensures forall r :: r in items <==> r in a || r in b
  {
    assert multiset(a + b) == multiset(a) + multiset(b);
    assert |items| == |multiset(items)|;
    forall r
      ensures r in items <==> r in a || r in b
    {
      assert r in items <==> r in multiset(items);
    }
  }

  lemma RowsKnowTheirLeg(db: Tables, caller: Id, today: int, join: Join, leg: Leg)
    ensures forall r :: r in LegRows(db, caller, today, join, leg) ==> r.leg == leg
  {
  }

  ghost predicate NoTaskTwice(items: seq<Row>) {
    forall i, j :: 0 <= i < j < |items| ==> items[i].task != items[j].task
  }

  lemma KeptLegs(db: Tables, caller: Id, today: int, limit: nat, late: set<Row>, idle: set<Row>, items: seq<Row>)
    requires Items(db, caller, today, FirstWorker, limit, late, idle, items)
    ensures late !! idle && multiset(items) == multiset(late + idle) && |items| == |late| + |idle|
    ensures forall r :: r in items <==> r in late || r in idle
  {
    RowsKnowTheirLeg(db, caller, today, FirstWorker, Overdue);
    RowsKnowTheirLeg(db, caller, today, FirstWorker, Unassigned);
    ListsBoth(items, late, idle);
  }

  lemma AnswerListsNoTaskTwice(db: Tables, caller: Id, today: int, limit: nat, late: set<Row>, idle: set<Row>,
      items: seq<Row>)
    requires Items(db, caller, today, FirstWorker, limit, late, idle, items)
    ensures NoTaskTwice(items)
  {
    KeptLegs(db, caller, today, limit, late, idle, items);
    LateralJoinKeepsOneRow(db, caller, today, Overdue);
    LateralJoinKeepsOneRow(db, caller, today, Unassigned);
    forall i, j | 0 <= i < j < |items|
      ensures items[i].task != items[j].task
    {
      ListsOnce(items, late + idle, i, j);
      assert items[i] in items && items[j] in items;
      if items[i] in late && items[j] in idle {
        LegsShareNoTask(db, caller, today, items[i], items[j]);
      } else if items[i] in idle && items[j] in late {
        LegsShareNoTask(db, caller, today, items[j], items[i]);
      }
    }
  }

  lemma LegOfAnswer(db: Tables, caller: Id, today: int, leg: Leg, limit: nat, kept: set<Row>, count: nat)
    requires LegalCut(LegRows(db, caller, today, FirstWorker, leg), limit, kept)
    requires limit <= 20 && count == Min(COUNT_CAP, |CountedRows(db, caller, today, leg)|)
    ensures |kept| == Min(limit, count)
    ensures |kept| < limit ==> kept == LegRows(db, caller, today, FirstWorker, leg) && count == |kept|
  {
    LegsMatchTheirCounts(db, caller, today, leg);
    SubsetSize(kept, LegRows(db, caller, today, FirstWorker, leg));
  }

  /** For every choice of rows the database may make under LIMIT: each task is listed at most once, and
      each leg shows exactly as many rows as its own count announces, up to the limit. So a leg that shows
      fewer than the limit is complete and its count exact. */
  lemma RowsMatchCounts(db: Tables, caller: Id, today: int, requested: int, late: set<Row>, idle: set<Row>,
      items: seq<Row>)
    requires Items(db, caller, today, FirstWorker, Limit(requested), late, idle, items)
    ensures NoTaskTwice(items)
    ensures var c := Count(db, caller, today);
      && |late| == Min(Limit(requested), c.overdue) && |idle| == Min(Limit(requested), c.unassigned)
      && |items| == |late| + |idle|
      && (|late| < Limit(requested) ==>
            late == LegRows(db, caller, today, FirstWorker, Overdue) && c.overdue == |late|)
      && (|idle| < Limit(requested) ==>
            idle == LegRows(db, caller, today, FirstWorker, Unassigned) && c.unassigned == |idle|)
  {
    var c := Count(db, caller, today);
    AnswerListsNoTaskTwice(db, caller, today, Limit(requested), late, idle, items);
    KeptLegs(db, caller, today, Limit(requested), late, idle, items);
    LegOfAnswer(db, caller, today, Overdue, Limit(requested), late, c.overdue);
    LegOfAnswer(db, caller, today, Unassigned, Limit(requested), idle, c.unassigned);
  }

  /** An item names a worker exactly when its instance has one, and then the earliest. */
  lemma NamesTheFirstWorker(db: Tables, caller: Id, today: int, limit: nat, late: set<Row>, idle: set<Row>,
      items: seq<Row>, i: nat)
    requires Items(db, caller, today, FirstWorker, limit, late, idle, items) && i < |items|
    ensures items[i].worker.None? <==> WorkersOn(db, items[i].task) == {}
    ensures items[i].worker.Some? ==> IsFirstWorker(db, items[i].task, items[i].worker.value)
    ensures !OwnWork(db, caller, items[i].task)
  {
    KeptLegs(db, caller, today, limit, late, idle, items);
    assert items[i] in items;
  }

  lemma {:induction false} SomeCut(all: set<Row>, limit: nat) returns (kept: set<Row>)
    ensures LegalCut(all, limit, kept)
    decreases |all|
  {
    if |all| <= limit {
      kept := all;
    } else {
      var r :| r in all;
      kept := SomeCut(all - {r}, limit);
    }
  }

  lemma {:induction false} SomeOrder(db: Tables, rows: set<Row>) returns (items: seq<Row>)
    requires forall r :: r in rows ==> r.task in db.tasks
    ensures multiset(items) == multiset(rows) && InOrder(db, items)
    decreases |rows|
  {
    if rows == {} {
      return [];
    }
    var keys: set<Key> := set r | r in rows :: SortKey(db, r);
    var some :| some in rows;
    assert SortKey(db, some) in keys;
    LeastExists(keys);
    var least :| IsLeast(keys, least);
    var first :| first in rows && SortKey(db, first) == least;
    var rest := SomeOrder(db, rows - {first});
    items := [first] + rest;
    forall j | 0 <= j < |rest|
      ensures rest[j] in rows && !Less(SortKey(db, rest[j]), SortKey(db, first))
    {
      assert rest[j] in multiset(rest);
      assert SortKey(db, rest[j]) in keys;
      LessIsIrreflexive(SortKey(db, first));
      if SortKey(db, rest[j]) != SortKey(db, first) && Less(SortKey(db, rest[j]), SortKey(db, first)) {
        LessIsTransitive(SortKey(db, first), SortKey(db, rest[j]), SortKey(db, first));
      }
    }
    assert multiset(rows) == multiset(rows - {first}) + multiset{first};
  }

  /** There is an answer to every request, so what is said of all of them is never said of none. */
  lemma SomeAnswer(db: Tables, caller: Id, today: int, limit: nat) returns (late: set<Row>, idle: set<Row>,
      items: seq<Row>)
    ensures Items(db, caller, today, FirstWorker, limit, late, idle, items)
  {
    late := SomeCut(LegRows(db, caller, today, FirstWorker, Overdue), limit);
    idle := SomeCut(LegRows(db, caller, today, FirstWorker, Unassigned), limit);
    RowsKnowTheirLeg(db, caller, today, FirstWorker, Overdue);
    RowsKnowTheirLeg(db, caller, today, FirstWorker, Unassigned);
    items := SomeOrder(db, late + idle);
    MultisetOfBoth(late, idle);
  }

  lemma MultisetOfBoth(a: set<Row>, b: set<Row>)
    requires a !! b
    ensures multiset(a + b) == multiset(a) + multiset(b)
  {
  }

  /** In the output everything overdue precedes everything unassigned. */
  lemma OverdueComesFirst(db: Tables, caller: Id, today: int, join: Join, limit: nat, late: set<Row>, idle: set<Row>,
      items: seq<Row>, i: nat, j: nat)
    requires Items(db, caller, today, join, limit, late, idle, items)
    requires i < |items| && j < |items| && items[i].leg == Overdue && items[j].leg == Unassigned
    ensures i < j
  {
    assert SortKey(db, items[i])[0] == 0 && SortKey(db, items[j])[0] == 1;
    assert Less(SortKey(db, items[i]), SortKey(db, items[j]));
  }

  lemma SelectedIsSupervised(db: Tables, caller: Id, today: int, leg: Leg, c: Counted)
    requires c in CountedRows(db, caller, today, leg)
    ensures SupervisedRows(db, caller) != {}
  {
    var m :| m in db.memberships && db.memberships[m] == Membership(c.project, caller, true);
    assert (c.project, m) in SupervisedRows(db, caller);
  }

  /** A caller who supervises no live project has nothing in either leg, whatever the rest of the tables
      say, so leaving out the second query there changes no answer. */
  lemma NoProjectsNoAttention(db: Tables, caller: Id, today: int, limit: nat, late: set<Row>, idle: set<Row>,
      items: seq<Row>)
    requires Count(db, caller, today).projects == 0
    requires Items(db, caller, today, FirstWorker, limit, late, idle, items)
    ensures Count(db, caller, today) == Counts(0, 0, 0) && items == []
  {
    forall leg | leg in {Overdue, Unassigned}
      ensures CountedRows(db, caller, today, leg) == {}
    {
      if c :| c in CountedRows(db, caller, today, leg) {
        SelectedIsSupervised(db, caller, today, leg, c);
      }
    }
    LegsMatchTheirCounts(db, caller, today, Overdue);
    LegsMatchTheirCounts(db, caller, today, Unassigned);
    KeptLegs(db, caller, today, limit, late, idle, items);
  }
}
