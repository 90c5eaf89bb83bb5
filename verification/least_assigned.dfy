/** The least-assigned allocator: whom the two GetLeastAssigned queries pick, and what picking them
    over and over does to the distribution of ritual work. */
module LeastAssigned {
  import opened Prelude
  import opened Lexicographic

  type Id = nat

  datatype Role = Assignee | Reviewer | Approver

  /** unique_task_assignee: one row per task, employee and role. */
  datatype Seat = Seat(task: Id, employee: Id, role: Role)

  datatype Member = Member(dept: Id, active: bool)

  /** task_assignee rows with assigned_at, the tasks that are ritual instances, and
      department_member joined with employee.is_active. */
  datatype Tables = Tables(seats: map<Seat, int>, rituals: set<Id>, members: map<Id, Member>)

  /** The grouped subquery, before COUNT(*): the recent ritual rows of one employee. */
  function RecentSeats(db: Tables, since: int, e: Id): set<Seat> {
    set s | s in db.seats && s.employee == e && s.task in db.rituals && db.seats[s] >= since
  }

  /** COALESCE(recent.cnt, 0). */
  function Load(db: Tables, since: int, e: Id): nat {
    |RecentSeats(db, since, e)|
  }

  /** ORDER BY COALESCE(recent.cnt, 0) ASC, employee_id ASC. */
  function Rank(db: Tables, since: int, e: Id): Key {
    [Load(db, since, e), e]
  }

  /** GetLeastAssignedEmployeeAmongCandidates: the candidates arrive as an array, which may repeat. */
  ghost function PickAmong(db: Tables, since: int, candidates: seq<Id>): Option<Id> {
    var ranks := set e | e in candidates :: Rank(db, since, e);
    if ranks == {} then None else Some(Holder(Least(ranks)))
  }

  function Holder(rank: Key): Id {
    if |rank| == 2 && rank[1] >= 0 then rank[1] else 0
  }

  /** GetLeastAssignedDepartmentEmployee joins the membership rows itself. */
  ghost function PickInDepartment(db: Tables, since: int, dept: Id): Option<Id> {
    var ranks := set e | e in db.members && db.members[e].dept == dept && db.members[e].active :: Rank(db, since, e);
    if ranks == {} then None else Some(Holder(Least(ranks)))
  }

  /** ListActiveDepartmentMembers. */
  ghost function ActiveMembers(db: Tables, dept: Id): seq<Id> {
    var ids := Sort(set e | e in db.members && db.members[e].dept == dept && db.members[e].active :: [e]);
    seq(|ids|, i requires 0 <= i < |ids| => if |ids[i]| == 1 && ids[i][0] >= 0 then ids[i][0] else 0)
  }

  // ----- What a pick is -----

  /** The pick has the fewest recent assignments among the candidates, and the lowest id of those. */
  lemma PickIsFewestThenLowest(db: Tables, since: int, candidates: seq<Id>)
    ensures PickAmong(db, since, candidates).None? <==> candidates == []
    ensures candidates != [] ==>
      var p := PickAmong(db, since, candidates).value;
      p in candidates && forall e :: e in candidates ==>
        Load(db, since, p) < Load(db, since, e) || (Load(db, since, p) == Load(db, since, e) && p <= e)
  {
    var ranks := set e | e in candidates :: Rank(db, since, e);
    if candidates != [] {
      assert Rank(db, since, candidates[0]) in ranks;
      var least := Least(ranks);
      var p :| p in candidates && least == Rank(db, since, p);
      assert Holder(least) == p;
      forall e | e in candidates
        ensures Load(db, since, p) < Load(db, since, e) || (Load(db, since, p) == Load(db, since, e) && p <= e)
      {
        assert Rank(db, since, e) in ranks;
        RankOrder(db, since, p, e);
      }
    }
  }

  lemma RankOrder(db: Tables, since: int, p: Id, e: Id)
    requires Rank(db, since, p) == Rank(db, since, e) || Less(Rank(db, since, p), Rank(db, since, e))
    ensures Load(db, since, p) < Load(db, since, e) || (Load(db, since, p) == Load(db, since, e) && p <= e)
  {
    assert Rank(db, since, p)[1..] == [p] && Rank(db, since, e)[1..] == [e];
  }

  /** What counts: each seat of the employee, in whatever role, that was taken within the period on a ritual
      instance, once. */
  lemma SeatsCount(db: Tables, since: int, s: Seat, at: int, e: Id)
    requires s !in db.seats
    ensures Load(db.(seats := db.seats[s := at]), since, e)
         == Load(db, since, e) + if s.employee == e && s.task in db.rituals && at >= since then 1 else 0
    ensures db.seats == map[] ==> Load(db, since, e) == 0
  {
    var before, after := RecentSeats(db, since, e), RecentSeats(db.(seats := db.seats[s := at]), since, e);
    assert after == if s.employee == e && s.task in db.rituals && at >= since then before + {s} else before;
  }

  /** So seats from before the period, and seats on other tasks, change neither query's pick. */
  lemma OldAndOtherSeatsDoNotMatter(db: Tables, since: int, s: Seat, at: int, candidates: seq<Id>, dept: Id)
    requires s !in db.seats && (at < since || s.task !in db.rituals)
    ensures PickAmong(db.(seats := db.seats[s := at]), since, candidates) == PickAmong(db, since, candidates)
    ensures PickInDepartment(db.(seats := db.seats[s := at]), since, dept) == PickInDepartment(db, since, dept)
  {
    var more := db.(seats := db.seats[s := at]);
    forall e
      ensures Rank(more, since, e) == Rank(db, since, e)
    {
      SeatsCount(db, since, s, at, e);
    }
    assert (set e | e in candidates :: Rank(more, since, e)) == (set e | e in candidates :: Rank(db, since, e));
    assert (set e | e in db.members && db.members[e].dept == dept && db.members[e].active :: Rank(more, since, e))
        == (set e | e in db.members && db.members[e].dept == dept && db.members[e].active :: Rank(db, since, e));
  }

  /** Neither the order of the candidate array nor repeats in it matter. */
  lemma PickIgnoresOrder(db: Tables, since: int, a: seq<Id>, b: seq<Id>)
    requires forall e :: e in a <==> e in b
    ensures PickAmong(db, since, a) == PickAmong(db, since, b)
  {
    assert (set e | e in a :: Rank(db, since, e)) == (set e | e in b :: Rank(db, since, e));
  }

  lemma ActiveMembersAreTheRows(db: Tables, dept: Id, e: Id)
    ensures e in ActiveMembers(db, dept) <==> e in db.members && db.members[e].dept == dept && db.members[e].active
  {
    var rows := set e | e in db.members && db.members[e].dept == dept && db.members[e].active :: [e];
    var ids := Sort(rows);
    forall i | 0 <= i < |ids|
      ensures |ids[i]| == 1 && ids[i][0] >= 0
    {
      assert ids[i] in Elements(ids);
    }
    if e in ActiveMembers(db, dept) {
      var i :| 0 <= i < |ids| && ActiveMembers(db, dept)[i] == e;
      assert ids[i] in Elements(ids);
    }
    if e in db.members && db.members[e].dept == dept && db.members[e].active {
      assert [e] in Elements(ids);
      var i :| 0 <= i < |ids| && ids[i] == [e];
      assert ActiveMembers(db, dept)[i] == e;
    }
  }

  /** The two queries agree: the department query is the candidate query on the department's active
      members. Switching a pool between the strategies does not change what "fewest" means. */
  lemma TheTwoQueriesAgree(db: Tables, since: int, dept: Id)
    ensures PickInDepartment(db, since, dept) == PickAmong(db, since, ActiveMembers(db, dept))
  {
    forall e
      ensures e in ActiveMembers(db, dept) <==> e in db.members && db.members[e].dept == dept && db.members[e].active
    {
      ActiveMembersAreTheRows(db, dept, e);
    }
    assert (set e | e in db.members && db.members[e].dept == dept && db.members[e].active :: Rank(db, since, e))
        == (set e | e in ActiveMembers(db, dept) :: Rank(db, since, e));
  }

  // ----- Assigning the pick -----

  /** doAssignTask: an employee who already holds the role on the task is left alone. */
  function Assign(db: Tables, task: Id, e: Id, at: int): Tables {
    var s := Seat(task, e, Assignee);
    if s in db.seats then db else db.(seats := db.seats[s := at])
  }

  /** Assigning somebody again does not move the date from which the assignment counts. */
  lemma AssigningAgainChangesNothing(db: Tables, task: Id, e: Id, first: int, at: int)
    requires Seat(task, e, Assignee) !in db.seats
    ensures Assign(Assign(db, task, e, first), task, e, at) == db.(seats := db.seats[Seat(task, e, Assignee) := first])
  {
  }

  /** A new instance, and its pool's pick put on it. */
  ghost function AssignPick(db: Tables, since: int, candidates: seq<Id>, task: Id, at: int): Tables {
    var made := db.(rituals := db.rituals + {task});
    match PickAmong(made, since, candidates)
    case None => made
    case Some(e) => Assign(made, task, e, at)
  }

  /** A task id nothing refers to yet. */
  ghost predicate FreshTask(db: Tables, task: Id) {
    task !in db.rituals && forall s :: s in db.seats ==> s.task != task
  }

  lemma NewInstanceCountsForNobody(db: Tables, since: int, task: Id, e: Id)
    requires FreshTask(db, task)
    ensures Load(db.(rituals := db.rituals + {task}), since, e) == Load(db, since, e)
  {
    assert RecentSeats(db.(rituals := db.rituals + {task}), since, e) == RecentSeats(db, since, e);
  }

  /** A recent assignment to a ritual instance raises the load of the assigned employee, by one, and
      nobody else's. */
  lemma AssignmentCountsOnce(db: Tables, since: int, task: Id, p: Id, at: int, e: Id)
    requires task in db.rituals && Seat(task, p, Assignee) !in db.seats && at >= since
    ensures Load(Assign(db, task, p, at), since, e) == Load(db, since, e) + if e == p then 1 else 0
  {
    var s := Seat(task, p, Assignee);
    var before, after := RecentSeats(db, since, e), RecentSeats(Assign(db, task, p, at), since, e);
    assert after == if e == p then before + {s} else before;
  }

  // ----- The distribution on its own: a load for each candidate -----

  type Loads = map<Id, nat>

  function LoadsOf(db: Tables, since: int, candidates: seq<Id>): Loads {
    map e | e in candidates :: Load(db, since, e)
  }

  predicate IsPick(c: Loads, p: Id) {
    p in c && forall e :: e in c ==> c[p] < c[e] || (c[p] == c[e] && p <= e)
  }

  /** A run of n picks, each charged to the picked candidate. */
  ghost predicate PickRun(c: Loads, picks: seq<Id>, end: Loads)
    decreases |picks|
  {
    if picks == [] then end == c
    else IsPick(c, picks[0]) && PickRun(c[picks[0] := c[picks[0]] + 1], picks[1..], end)
  }

  /** No two candidates are more than s assignments apart. */
  ghost predicate Within(c: Loads, s: nat) {
    forall a, b :: a in c && b in c ==> c[a] <= c[b] + s
  }

  /** Picking narrows the spread or leaves it, and never opens one wider than a single assignment. */
  lemma {:induction false} SpreadNeverGrows(c: Loads, picks: seq<Id>, end: Loads, s: nat)
    requires Within(c, s) && PickRun(c, picks, end)
    ensures Within(end, Max(s, 1))
    decreases |picks|
  {
    if picks != [] {
      var p := picks[0];
      var d := c[p := c[p] + 1];
      assert Within(d, Max(s, 1));
      SpreadNeverGrows(d, picks[1..], end, Max(s, 1));
    }
  }

  /** The most loaded candidate has `top`. */
  ghost predicate TopIs(c: Loads, top: nat) {
    (exists e :: e in c && c[e] == top) && forall e :: e in c ==> c[e] <= top
  }

  /** How many assignments it takes to bring candidate e up to one below the top. */
  function Shortfall(c: Loads, top: nat, e: Id): nat
    requires e in c
  {
    if c[e] + 1 < top then top - 1 - c[e] else 0
  }

  ghost function Deficit(c: Loads, top: nat, among: set<Id>): nat
    requires among <= c.Keys
    decreases |among|
  {
    if among == {} then 0 else
      var e := AnyOf(among);
      Shortfall(c, top, e) + Deficit(c, top, among - {e})
  }

  ghost function AnyOf(s: set<Id>): (e: Id)
    requires s != {}
    ensures e in s
  {
    var e :| e in s;
    e
  }

  lemma {:induction false} DeficitSplit(c: Loads, top: nat, among: set<Id>, e: Id)
    requires among <= c.Keys && e in among
    ensures Deficit(c, top, among) == Shortfall(c, top, e) + Deficit(c, top, among - {e})
    decreases |among|
  {
    var x := AnyOf(among);
    if x != e {
      DeficitSplit(c, top, among - {x}, e);
      DeficitSplit(c, top, among - {e}, x);
      assert among - {x} - {e} == among - {e} - {x};
    }
  }

  lemma {:induction false} DeficitElsewhere(c: Loads, d: Loads, top: nat, among: set<Id>)
    requires among <= c.Keys && among <= d.Keys && forall e :: e in among ==> c[e] == d[e]
    ensures Deficit(c, top, among) == Deficit(d, top, among)
    decreases |among|
  {
    if among != {} {
      DeficitElsewhere(c, d, top, among - {AnyOf(among)});
    }
  }

  lemma {:induction false} DeficitZero(c: Loads, top: nat, among: set<Id>)
    requires among <= c.Keys
    ensures Deficit(c, top, among) == 0 <==> forall e :: e in among ==> c[e] + 1 >= top
    decreases |among|
  {
    if among != {} {
      DeficitZero(c, top, among - {AnyOf(among)});
    }
  }

  lemma LevelIffNoDeficit(c: Loads, top: nat)
    requires TopIs(c, top)
    ensures Within(c, 1) <==> Deficit(c, top, c.Keys) == 0
  {
    DeficitZero(c, top, c.Keys);
    var m :| m in c && c[m] == top;
  }

  /** While anyone is short, the pick is someone short: the top stays and the deficit falls by one. */
  lemma PickFillsDeficit(c: Loads, top: nat, p: Id)
    requires TopIs(c, top) && IsPick(c, p) && Deficit(c, top, c.Keys) > 0
    ensures TopIs(c[p := c[p] + 1], top)
    ensures Deficit(c[p := c[p] + 1], top, c.Keys) == Deficit(c, top, c.Keys) - 1
  {
    var d := c[p := c[p] + 1];
    DeficitZero(c, top, c.Keys);
    assert c[p] + 1 < top;
    DeficitSplit(c, top, c.Keys, p);
    DeficitSplit(d, top, c.Keys, p);
    DeficitElsewhere(c, d, top, c.Keys - {p});
    var m :| m in c && c[m] == top;
    assert d[m] == top;
  }

  /** The exact time to fairness: after n picks the loads are within one of each other if and only if
      n has reached the total shortfall of the starting distribution. */
  lemma {:induction false} LevelExactlyWhenDeficitIsFilled(c: Loads, picks: seq<Id>, end: Loads, top: nat)
    requires TopIs(c, top) && PickRun(c, picks, end)
    ensures Within(end, 1) <==> |picks| >= Deficit(c, top, c.Keys)
    decreases |picks|
  {
    LevelIffNoDeficit(c, top);
    if Deficit(c, top, c.Keys) == 0 {
      SpreadNeverGrows(c, picks, end, 1);
    } else if picks != [] {
      var p := picks[0];
      var d := c[p := c[p] + 1];
      PickFillsDeficit(c, top, p);
      assert d.Keys == c.Keys;
      LevelExactlyWhenDeficitIsFilled(d, picks[1..], end, top);
    }
  }

  // ----- The tables follow the distribution -----

  /** Instances made one after the other, each given to the query's pick. */
  datatype Instance = Instance(task: Id, at: int)

  ghost function Generate(db: Tables, since: int, candidates: seq<Id>, made: seq<Instance>): Tables
    decreases |made|
  {
    if made == [] then db
    else Generate(AssignPick(db, since, candidates, made[0].task, made[0].at), since, candidates, made[1..])
  }

  /** Each instance is new to the tables it is added to, and assigned within the window. */
  ghost predicate FreshInstances(db: Tables, since: int, made: seq<Instance>) {
    && (forall i :: 0 <= i < |made| ==> FreshTask(db, made[i].task) && made[i].at >= since)
    && (forall i, j :: 0 <= i < j < |made| ==> made[i].task != made[j].task)
  }

  lemma AssignPickIsAPick(db: Tables, since: int, candidates: seq<Id>, task: Id, at: int) returns (p: Id)
    requires candidates != [] && FreshTask(db, task) && at >= since
    ensures IsPick(LoadsOf(db, since, candidates), p)
    ensures LoadsOf(AssignPick(db, since, candidates, task, at), since, candidates)
         == LoadsOf(db, since, candidates)[p := Load(db, since, p) + 1]
    ensures AssignPick(db, since, candidates, task, at) == Assign(db.(rituals := db.rituals + {task}), task, p, at)
  {
    var made := db.(rituals := db.rituals + {task});
    PickIsFewestThenLowest(made, since, candidates);
    p := PickAmong(made, since, candidates).value;
    forall e
      ensures Load(made, since, e) == Load(db, since, e)
      ensures Load(Assign(made, task, p, at), since, e) == Load(made, since, e) + if e == p then 1 else 0
    {
      NewInstanceCountsForNobody(db, since, task, e);
      AssignmentCountsOnce(made, since, task, p, at, e);
    }
  }

  lemma FreshAfterPick(db: Tables, since: int, candidates: seq<Id>, made: seq<Instance>, p: Id)
    requires made != [] && FreshInstances(db, since, made)
    ensures FreshInstances(Assign(db.(rituals := db.rituals + {made[0].task}), made[0].task, p, made[0].at),
            since, made[1..])
  {
    forall i | 0 <= i < |made[1..]|
      ensures FreshTask(Assign(db.(rituals := db.rituals + {made[0].task}), made[0].task, p, made[0].at),
              made[1..][i].task)
    {
      assert FreshTask(db, made[i + 1].task) && made[0].task != made[i + 1].task;
    }
  }

  /** Generating instances is a run of picks on the loads of the candidates. */
  lemma {:induction false} GenerationIsAPickRun(db: Tables, since: int, candidates: seq<Id>, made: seq<Instance>)
    returns (picks: seq<Id>)
    requires candidates != [] && FreshInstances(db, since, made)
    ensures |picks| == |made|
    ensures PickRun(LoadsOf(db, since, candidates), picks,
            LoadsOf(Generate(db, since, candidates, made), since, candidates))
    decreases |made|
  {
    if made == [] {
      picks := [];
    } else {
      assert FreshTask(db, made[0].task);
      var p := AssignPickIsAPick(db, since, candidates, made[0].task, made[0].at);
      FreshAfterPick(db, since, candidates, made, p);
      var next := AssignPick(db, since, candidates, made[0].task, made[0].at);
      var rest := GenerationIsAPickRun(next, since, candidates, made[1..]);
      picks := [p] + rest;
      assert picks[1..] == rest;
    }
  }

  /** Fairness of the table: with a fixed candidate list and window, giving every new instance to the
      query's pick keeps the spread within max(initial, 1), and brings it to at most 1 exactly when
      enough instances have been generated. */
  lemma GenerationIsFair(db: Tables, since: int, candidates: seq<Id>, made: seq<Instance>, s: nat, top: nat)
    requires candidates != [] && FreshInstances(db, since, made)
    requires Within(LoadsOf(db, since, candidates), s) && TopIs(LoadsOf(db, since, candidates), top)
    ensures var after := LoadsOf(Generate(db, since, candidates, made), since, candidates);
      && Within(after, Max(s, 1))
      && (Within(after, 1) <==> |made| >= Deficit(LoadsOf(db, since, candidates), top,
         LoadsOf(db, since, candidates).Keys))
  {
    var picks := GenerationIsAPickRun(db, since, candidates, made);
    var c, end := LoadsOf(db, since, candidates), LoadsOf(Generate(db, since, candidates, made), since, candidates);
    SpreadNeverGrows(c, picks, end, s);
    LevelExactlyWhenDeficitIsFilled(c, picks, end, top);
  }
}
