/** Ritual instances becoming overdue and missed: what state an instance belongs in, one pass of the
    sweep, and any number of overlapping passes. */
module Reconciliation {
  import opened Prelude
  import opened Lexicographic
  import opened CompareAndSet
  import KeysetPaging

  datatype Category =
    | Todo | InProgress | Done | Cancelled | Scheduled | Submitted | Verified | Overdue | Missed | Skipped

  /** A project_state row. */
  datatype ProjectState = ProjectState(id: Id, category: Category)

  /** The columns of a ritual instance that decide its state, and its definition's grace window. */
  datatype Instance = Instance(ritual: bool, detached: bool, deadline: Option<int>,
    scheduledDay: Option<int>, grace: int)

  /** taskEvidenceSnapshot: latest submission per requirement, counted. An instance whose definition is gone
      has an empty snapshot, in which nothing counts as approved. */
  datatype Evidence =
    | NoDefinition
    | Evidence(required: nat, requiredSubmitted: nat, requiredApproved: nat, requiredRejected: nat, submitted: nat)

  predicate AllRequiredApproved(e: Evidence) {
    e.Evidence? && (e.required == 0 || e.requiredApproved == e.required)
  }

  predicate AwaitsReviewer(e: Evidence) {
    e.Evidence? && e.required > 0 && e.requiredSubmitted == e.required && e.requiredRejected == 0
  }

  predicate AnySubmitted(e: Evidence) {
    e.Evidence? && e.submitted > 0
  }

  predicate After(now: int, instant: Option<int>) {
    instant.Some? && now > instant.value
  }

  /** The deadline and the whole, known, grace window have passed. */
  predicate GraceElapsed(i: Instance, grace: int, now: int) {
    i.deadline.Some? && grace > 0 && now > i.deadline.value + grace
  }

  /** determineRitualTaskStateCategory. */
  function Target(i: Instance, e: Evidence, grace: int, now: int, today: int): Category {
    if AllRequiredApproved(e) then Verified
    else if AwaitsReviewer(e) then Submitted
    else if i.deadline.Some? && grace > 0 && now > i.deadline.value + grace then Missed
    else if i.deadline.Some? && now > i.deadline.value then Overdue
    else if AnySubmitted(e) then InProgress
    else if i.scheduledDay.Some? && i.scheduledDay.value > today then Scheduled
    else Todo
  }

  predicate Terminal(c: Category) {
    c.Verified? || c.Missed? || c.Skipped?
  }

  function FindById(states: seq<ProjectState>, id: Id): Option<ProjectState> {
    if states == [] then None else if states[0].id == id then Some(states[0]) else FindById(states[1..], id)
  }

  function FindByCategory(states: seq<ProjectState>, c: Category): (found: Option<ProjectState>)
    ensures found.Some? ==> found.value in states && found.value.category == c
  {
    if states == [] then None else if states[0].category == c then Some(states[0]) else FindByCategory(states[1..], c)
  }

  /** reconcileRitualTaskStateForTask up to its write: the state to move to, if any. */
  function Decision(states: seq<ProjectState>, i: Instance, e: Evidence, grace: int, now: int, today: int,
      from: Id): Option<Id> {
    if !i.ritual || i.detached then None else
      match FindById(states, from)
      case None => None
      case Some(current) =>
        if Terminal(current.category) || Target(i, e, grace, now, today) == current.category then None else
          match FindByCategory(states, Target(i, e, grace, now, today))
          case None => None
          case Some(s) => Some(s.id)
  }

  // ----- The precedence -----

  /** Lateness is decided by the clock alone, under two exceptions: everything approved, or everything in
      and awaiting the reviewer. Partial progress does not hide it, no deadline means never late, and
      missed is late beyond a grace window that is known. Without a definition there is no exception. */
  lemma LatenessRule(i: Instance, e: Evidence, grace: int, now: int, today: int)
    ensures Target(i, e, grace, now, today) in {Overdue, Missed}
       <==> After(now, i.deadline) && !AllRequiredApproved(e) && !AwaitsReviewer(e)
    ensures Target(i, e, grace, now, today).Missed? <==>
      !AllRequiredApproved(e) && !AwaitsReviewer(e) && GraceElapsed(i, grace, now)
    ensures e.NoDefinition? ==> Target(i, e, grace, now, today) !in {Verified, Submitted, InProgress}
  {
  }

  /** The evidence alone decides whether the instance is finished, or the reviewer's. */
  lemma EvidenceRule(i: Instance, e: Evidence, grace: int, now: int, today: int)
    ensures Target(i, e, grace, now, today).Verified? <==> AllRequiredApproved(e)
    ensures Target(i, e, grace, now, today).Submitted? <==> AwaitsReviewer(e) && !AllRequiredApproved(e)
  {
  }

  /** An instance that is neither late, nor finished, nor the reviewer's: in progress as soon as anything has
      been submitted, else scheduled until its day comes, else to do. */
  lemma WorkRule(i: Instance, e: Evidence, grace: int, now: int, today: int)
    ensures var open := !AllRequiredApproved(e) && !AwaitsReviewer(e) && !After(now, i.deadline)
                        && !GraceElapsed(i, grace, now);
      && (Target(i, e, grace, now, today).InProgress? <==> open && AnySubmitted(e))
      && (Target(i, e, grace, now, today).Scheduled? <==>
            open && !AnySubmitted(e) && i.scheduledDay.Some? && i.scheduledDay.value > today)
      && (Target(i, e, grace, now, today).Todo? <==>
            open && !AnySubmitted(e) && (i.scheduledDay.Some? ==> i.scheduledDay.value <= today))
  {
  }

  /** No path takes an instance out of the sweeps' sight before its time: as long as its evidence is neither
      approved nor the reviewer's and its grace window has not passed, reconciling leaves it where every sweep
      after its deadline lists it. */
  lemma UnfinishedStaysListed(states: seq<ProjectState>, i: Instance, e: Evidence, grace: int, now: int, today: int,
      from: Id, later: int)
    requires DistinctIds(states) && i.ritual && !i.detached && Late(CategoryOf(states, from))
    requires !AllRequiredApproved(e) && !AwaitsReviewer(e) && !GraceElapsed(i, grace, now)
    ensures var left := Settle(states, i, e, grace, now, today, from);
      Candidate(RowOf(states, i, left), later) <==> After(later, i.deadline)
  {
    var d := Decision(states, i, e, grace, now, today, from);
    if d.Some? {
      FindByIdFinds(states, FindByCategory(states, Target(i, e, grace, now, today)).value);
    }
  }

  /** As time passes and evidence stays, lateness only gets worse. */
  lemma LatenessGrows(i: Instance, e: Evidence, grace: int, now: int, later: int, today: int, day: int)
    requires now <= later
    ensures Target(i, e, grace, now, today).Missed? ==> Target(i, e, grace, later, day).Missed?
    ensures Target(i, e, grace, now, today).Overdue? ==> Target(i, e, grace, later, day) in {Overdue, Missed}
  {
  }

  /** Which instances reconciliation moves at all, and to where: a ritual instance that is still one, in a state
      that automatic paths may leave, to the project's state for what the rules say, if it is another one. */
  lemma DecisionIff(states: seq<ProjectState>, i: Instance, e: Evidence, grace: int, now: int, today: int, from: Id)
    requires DistinctIds(states)
    ensures Decision(states, i, e, grace, now, today, from).Some? <==>
      && i.ritual && !i.detached && FindById(states, from).Some?
      && CategoryOf(states, from) !in {Verified, Missed, Skipped, Target(i, e, grace, now, today)}
      && exists s :: s in states && s.category == Target(i, e, grace, now, today)
    ensures Decision(states, i, e, grace, now, today, from).Some? ==>
      CategoryOf(states, Decision(states, i, e, grace, now, today, from).value) == Target(i, e, grace, now, today)
  {
    var c := Target(i, e, grace, now, today);
    FindByCategoryFinds(states, c);
    if FindByCategory(states, c).Some? {
      FindByIdFinds(states, FindByCategory(states, c).value);
    }
  }

  lemma {:induction false} FindByCategoryFinds(states: seq<ProjectState>, c: Category)
    ensures FindByCategory(states, c).Some? <==> exists s :: s in states && s.category == c
  {
    if states != [] {
      FindByCategoryFinds(states[1..], c);
      if s :| s in states && s.category == c {
        assert s == states[0] || s in states[1..];
      }
    }
  }

  ghost predicate DistinctIds(states: seq<ProjectState>) {
    forall a, b :: 0 <= a < b < |states| ==> states[a].id != states[b].id
  }

  lemma {:induction false} FindByIdFinds(states: seq<ProjectState>, s: ProjectState)
    requires DistinctIds(states) && s in states
    ensures FindById(states, s.id) == Some(s)
  {
    if states[0] != s {
      assert s in states[1..];
      var k :| 0 <= k < |states| && states[k] == s;
      assert states[0].id != states[k].id;
      FindByIdFinds(states[1..], s);
    }
  }

  /** Reconciling again at the same moment finds nothing to do: a repeated pass is silent. */
  lemma RepeatedPassIsSilent(states: seq<ProjectState>, i: Instance, e: Evidence, grace: int, now: int,
      today: int, from: Id)
    requires DistinctIds(states) && Decision(states, i, e, grace, now, today, from).Some?
    ensures Decision(states, i, e, grace, now, today, Decision(states, i, e, grace, now, today, from).value) == None
  {
    FindByIdFinds(states, FindByCategory(states, Target(i, e, grace, now, today)).value);
  }

  // ----- One pass -----

  /** What one pass is given for each instance: the row as listed, what the pass then loads, and whether
      some statement about it fails, which is logged and costs only this instance. */
  datatype Listed = Listed(id: Id, read: Id, instance: Instance, evidence: Evidence, grace: int, fails: bool)

  datatype Counts = Counts(examined: nat, markedOverdue: nat, markedMissed: nat)

  /** The move a pass makes on one listed row, given the state the row has by then. */
  function MoveOf(states: seq<ProjectState>, x: Listed, now: int, today: int, current: map<Id, Id>): Option<Id> {
    if !x.fails && x.id in current && current[x.id] == x.read
    then Decision(states, x.instance, x.evidence, x.grace, now, today, x.read) else None
  }

  ghost predicate Moved(states: seq<ProjectState>, rows: seq<Listed>, now: int, today: int,
      before: map<Id, Id>, id: Id) {
    exists k :: 0 <= k < |rows| && rows[k].id == id && MoveOf(states, rows[k], now, today, before).Some?
  }

  /** How many of the rows a pass moves to a given category. */
  function Moves(states: seq<ProjectState>, rows: seq<Listed>, now: int, today: int,
      before: map<Id, Id>, c: Category): nat {
    if rows == [] then 0 else
      Moves(states, rows[..|rows| - 1], now, today, before, c)
      + if MovesTo(states, rows[|rows| - 1], now, today, before, c) then 1 else 0
  }

  predicate MovesTo(states: seq<ProjectState>, x: Listed, now: int, today: int, s: map<Id, Id>, c: Category) {
    MoveOf(states, x, now, today, s).Some? && Target(x.instance, x.evidence, x.grace, now, today) == c
  }

  /** collaboration.task.state_id, for tasks that are not deleted. */
  class TaskStates {
    var current: map<Id, Id>

    constructor (rows: map<Id, Id>)
      ensures current == rows
    {
      current := rows;
    }

    method UpdateRitualTaskStateIfUnchanged(id: Id, state: Id, expected: Id) returns (returned: bool)
      modifies this
      ensures returned <==> id in old(current) && old(current)[id] == expected
      ensures current == if returned then old(current)[id := state] else old(current)
    {
      returned := id in current && current[id] == expected;
      if returned {
        current := current[id := state];
      }
    }

    /** ReconcileOverdueRitualInstances on its own: every listed row that does not fail, and that nobody has
        moved since it was listed, ends where it belongs; nothing else is touched; and the counts are how many
        rows were listed and how many have become overdue and missed. */
    method Pass(states: seq<ProjectState>, rows: seq<Listed>, now: int, today: int) returns (counts: Counts)
      requires forall a, b :: 0 <= a < b < |rows| ==> rows[a].id != rows[b].id
      modifies this
      ensures current.Keys == old(current).Keys
      ensures forall k :: 0 <= k < |rows| && rows[k].id in old(current) ==> var x := rows[k];
        && x.id in current
        && current[x.id] == if x.fails || old(current)[x.id] != x.read then old(current)[x.id]
                            else Settle(states, x.instance, x.evidence, x.grace, now, today, x.read)
      ensures forall id :: id in current && (forall k :: 0 <= k < |rows| ==> rows[k].id != id) ==>
        current[id] == old(current)[id]
      ensures DistinctIds(states) ==>
        counts == Counts(|rows|, |Entered(states, rows, old(current), current, Overdue)|,
                         |Entered(states, rows, old(current), current, Missed)|)
    {
      ghost var before := current;
      counts := Counts(0, 0, 0);
      var n := 0;
      while n < |rows|
        invariant 0 <= n <= |rows|
        invariant forall k :: 0 <= k < n && MoveOf(states, rows[k], now, today, before).Some? ==>
          rows[k].id in current && current[rows[k].id] == MoveOf(states, rows[k], now, today, before).value
        invariant forall id: Id :: !Moved(states, rows[..n], now, today, before, id) ==>
          Lookup(current, id) == Lookup(before, id)
        invariant counts == Counts(n, Moves(states, rows[..n], now, today, before, Overdue),
                                   Moves(states, rows[..n], now, today, before, Missed))
      {
        var x := rows[n];
        assert rows[..n + 1][..n] == rows[..n];
        assert Lookup(current, x.id) == Lookup(before, x.id);
        counts := counts.(examined := counts.examined + 1);
        var decision := Decision(states, x.instance, x.evidence, x.grace, now, today, x.read);
        if !x.fails && decision.Some? {
          var changed := UpdateRitualTaskStateIfUnchanged(x.id, decision.value, x.read);
          if changed {
            match Target(x.instance, x.evidence, x.grace, now, today) {
              case Overdue => counts := counts.(markedOverdue := counts.markedOverdue + 1);
              case Missed => counts := counts.(markedMissed := counts.markedMissed + 1);
              case _ =>
            }
          }
        }
        n := n + 1;
      }
      assert rows[..n] == rows;
      PassSettles(states, rows, now, today, before, current);
    }
  }

  /** The listed rows that changed their state, to one of the given category. */
  ghost function Entered(states: seq<ProjectState>, rows: seq<Listed>, s: map<Id, Id>, t: map<Id, Id>,
      c: Category): set<nat> {
    set k: nat | k < |rows| && rows[k].id in s && rows[k].id in t && s[rows[k].id] != t[rows[k].id]
                 && CategoryOf(states, t[rows[k].id]) == c
  }

  /** What the loop of a pass has done. */
  ghost predicate PassDone(states: seq<ProjectState>, rows: seq<Listed>, now: int, today: int, s: map<Id, Id>,
      t: map<Id, Id>) {
    && (forall k :: 0 <= k < |rows| && MoveOf(states, rows[k], now, today, s).Some? ==>
          rows[k].id in t && t[rows[k].id] == MoveOf(states, rows[k], now, today, s).value)
    && forall id: Id :: !Moved(states, rows, now, today, s, id) ==> Lookup(t, id) == Lookup(s, id)
  }

  ghost function MovedTo(states: seq<ProjectState>, rows: seq<Listed>, now: int, today: int, s: map<Id, Id>,
      c: Category): set<nat> {
    set k: nat | k < |rows| && MovesTo(states, rows[k], now, today, s, c)
  }

  lemma MovedToStep(states: seq<ProjectState>, rows: seq<Listed>, now: int, today: int, s: map<Id, Id>, c: Category)
    requires rows != []
    ensures var n := |rows| - 1;
      && n !in MovedTo(states, rows[..n], now, today, s, c)
      && MovedTo(states, rows, now, today, s, c) == MovedTo(states, rows[..n], now, today, s, c)
           + if MovesTo(states, rows[n], now, today, s, c) then {n} else {}
  {
    var n := |rows| - 1;
    forall k: nat | k < n
      ensures rows[..n][k] == rows[k]
    {
    }
  }

  lemma {:induction false} MovesCount(states: seq<ProjectState>, rows: seq<Listed>, now: int, today: int,
      s: map<Id, Id>, c: Category)
    ensures Moves(states, rows, now, today, s, c) == |MovedTo(states, rows, now, today, s, c)|
    decreases |rows|
  {
    if rows == [] {
      assert MovedTo(states, rows, now, today, s, c) == {};
    } else {
      var n := |rows| - 1;
      MovesCount(states, rows[..n], now, today, s, c);
      MovedToStep(states, rows, now, today, s, c);
    }
  }

  lemma RowAfterPass(states: seq<ProjectState>, rows: seq<Listed>, now: int, today: int, s: map<Id, Id>,
      t: map<Id, Id>, k: nat)
    requires forall a, b :: 0 <= a < b < |rows| ==> rows[a].id != rows[b].id
    requires PassDone(states, rows, now, today, s, t) && k < |rows|
    ensures var x := rows[k];
      && (x.id in s ==> x.id in t)
      && (MoveOf(states, x, now, today, s).None? ==> Lookup(t, x.id) == Lookup(s, x.id))
      && (x.id in s ==>
            t[x.id] == if x.fails || s[x.id] != x.read then s[x.id]
                       else Settle(states, x.instance, x.evidence, x.grace, now, today, x.read))
  {
    var x := rows[k];
    if MoveOf(states, x, now, today, s).None? {
      assert !Moved(states, rows, now, today, s, x.id);
    }
  }

  lemma PassSettles(states: seq<ProjectState>, rows: seq<Listed>, now: int, today: int, s: map<Id, Id>,
      t: map<Id, Id>)
    requires forall a, b :: 0 <= a < b < |rows| ==> rows[a].id != rows[b].id
    requires PassDone(states, rows, now, today, s, t)
    ensures t.Keys == s.Keys
    ensures forall k :: 0 <= k < |rows| && rows[k].id in s ==> var x := rows[k];
      && x.id in t
      && t[x.id] == if x.fails || s[x.id] != x.read then s[x.id]
                    else Settle(states, x.instance, x.evidence, x.grace, now, today, x.read)
    ensures forall id :: id in t && (forall k :: 0 <= k < |rows| ==> rows[k].id != id) ==> t[id] == s[id]
    ensures DistinctIds(states) ==> forall c ::
      Moves(states, rows, now, today, s, c) == |Entered(states, rows, s, t, c)|
  {
    forall k: nat | k < |rows|
      ensures var x := rows[k];
        && (x.id in s ==> x.id in t)
        && (MoveOf(states, x, now, today, s).None? ==> Lookup(t, x.id) == Lookup(s, x.id))
        && (x.id in s ==>
              t[x.id] == if x.fails || s[x.id] != x.read then s[x.id]
                         else Settle(states, x.instance, x.evidence, x.grace, now, today, x.read))
    {
      RowAfterPass(states, rows, now, today, s, t, k);
    }
    forall id: Id
      ensures id in t <==> id in s
      ensures (forall k :: 0 <= k < |rows| ==> rows[k].id != id) ==> Lookup(t, id) == Lookup(s, id)
    {
      if Moved(states, rows, now, today, s, id) {
        var k: nat :| k < |rows| && rows[k].id == id && MoveOf(states, rows[k], now, today, s).Some?;
      }
    }
    if DistinctIds(states) {
      forall c
        ensures Moves(states, rows, now, today, s, c) == |Entered(states, rows, s, t, c)|
      {
        EnteredAreMoved(states, rows, now, today, s, t, c);
        MovesCount(states, rows, now, today, s, c);
      }
    }
  }

  lemma EnteredAreMoved(states: seq<ProjectState>, rows: seq<Listed>, now: int, today: int, s: map<Id, Id>,
      t: map<Id, Id>, c: Category)
    requires DistinctIds(states) && forall a, b :: 0 <= a < b < |rows| ==> rows[a].id != rows[b].id
    requires PassDone(states, rows, now, today, s, t)
    ensures Entered(states, rows, s, t, c) == MovedTo(states, rows, now, today, s, c)
  {
    forall k: nat | k < |rows|
      ensures k in Entered(states, rows, s, t, c) <==> k in MovedTo(states, rows, now, today, s, c)
    {
      var x := rows[k];
      RowAfterPass(states, rows, now, today, s, t, k);
      if MoveOf(states, x, now, today, s).Some? {
        DecisionIff(states, x.instance, x.evidence, x.grace, now, today, x.read);
        DecisionMoves(states, x.instance, x.evidence, x.grace, now, today, x.read);
      }
    }
  }

  // ----- Overlapping passes -----

  predicate Late(c: Category) {
    c.Scheduled? || c.Todo? || c.InProgress? || c.Overdue?
  }

  /** What the project and its instances are while the sweeps run: states, rows, evidence. */
  datatype Setting = Setting(states: seq<ProjectState>, instances: map<Id, Instance>, evidence: map<Id, Evidence>)

  function CategoryOf(states: seq<ProjectState>, id: Id): Category {
    var s := FindById(states, id);
    if s.Some? then s.value.category else Done
  }

  /** A sweep that reads a row late at its own `now`, and may have failed to load the grace window. */
  predicate SweepDecides(x: Setting, c: Id, from: Id, to: Id, now: int, today: int, loaded: bool) {
    && c in x.instances && c in x.evidence
    && After(now, x.instances[c].deadline)
    && Late(CategoryOf(x.states, from))
    && Decision(x.states, x.instances[c], x.evidence[c], if loaded then x.instances[c].grace else 0,
                now, today, from) == Some(to)
  }

  ghost function SweepRule(x: Setting): (Id, Id, Id) -> bool {
    (c: Id, from: Id, to: Id) => exists now, today, loaded :: SweepDecides(x, c, from, to, now, today, loaded)
  }

  /** Not late yet, overdue, past changing. */
  function Severity(states: seq<ProjectState>): Id -> nat {
    (id: Id) => match CategoryOf(states, id)
      case Overdue => 1
      case Missed => 2 case Verified => 2 case Submitted => 2
      case _ => 0
  }

  lemma DecisionLandsOnTarget(x: Setting, c: Id, from: Id, to: Id, now: int, today: int, loaded: bool)
    requires DistinctIds(x.states) && SweepDecides(x, c, from, to, now, today, loaded)
    ensures var g := if loaded then x.instances[c].grace else 0;
      CategoryOf(x.states, to) == Target(x.instances[c], x.evidence[c], g, now, today) != CategoryOf(x.states, from)
  {
    var g := if loaded then x.instances[c].grace else 0;
    FindByIdFinds(x.states, FindByCategory(x.states, Target(x.instances[c], x.evidence[c], g, now, today)).value);
  }

  lemma SweepMoveIsUpward(x: Setting, c: Id, from: Id, to: Id)
    requires DistinctIds(x.states) && SweepRule(x)(c, from, to)
    ensures CategoryOf(x.states, to) in {Overdue, Missed, Verified, Submitted}
    ensures Severity(x.states)(from) < Severity(x.states)(to)
  {
    var now, today, loaded :| SweepDecides(x, c, from, to, now, today, loaded);
    DecisionLandsOnTarget(x, c, from, to, now, today, loaded);
  }

  lemma SweepClimbs(x: Setting, c: Id)
    requires DistinctIds(x.states)
    ensures Climbs(SweepRule(x), Severity(x.states), c)
  {
    forall a, b | SweepRule(x)(c, a, b)
      ensures Severity(x.states)(a) < Severity(x.states)(b)
    {
      SweepMoveIsUpward(x, c, a, b);
    }
  }

  /** Any number of overlapping sweeps, each with its own clock, over a project nobody else edits: an
      instance is written at most twice, and if twice, first to overdue and then to a state it stays in. */
  lemma AtMostOverdueThenFinal(x: Setting, cells: map<Id, Id>, steps: seq<Step<Id>>, c: Id, j: nat, k: nat)
    requires DistinctIds(x.states)
    requires var log := Run(SweepRule(x), Start(cells), steps).log;
      OnlyPasses(log, c) && j < k < |log| && log[j].cell == c && log[k].cell == c
    ensures var log := Run(SweepRule(x), Start(cells), steps).log;
      && log[j].to.Some? && log[k].to.Some?
      && CategoryOf(x.states, log[j].to.value) == Overdue
      && CategoryOf(x.states, log[k].to.value) in {Missed, Verified, Submitted}
      && (forall m :: k < m < |log| ==> log[m].cell != c)
  {
    SweepClimbs(x, c);
    var log := Run(SweepRule(x), Start(cells), steps).log;
    EveryRunIsFaithful(SweepRule(x), cells, steps);
    WritesAscend(SweepRule(x), Severity(x.states), cells, steps, c, j, k);
    assert Ruled(SweepRule(x), log[j]) && Ruled(SweepRule(x), log[k]);
    SweepMoveIsUpward(x, c, log[j].from.value, log[j].to.value);
    SweepMoveIsUpward(x, c, log[k].from.value, log[k].to.value);
    forall m | k < m < |log|
      ensures log[m].cell != c
    {
      if log[m].cell == c {
        WritesAscend(SweepRule(x), Severity(x.states), cells, steps, c, k, m);
        assert false;
      }
    }
  }

  const BACKFILL_HORIZON := 7 * 24 * 3600

  /** notifyRitualLatenessTransition: which of a pass's own writes it tells the assignees about. */
  predicate Notifies(x: Setting, w: Write<Id>, now: int) {
    && w.author.Some? && w.to.Some? && w.cell in x.instances
    && CategoryOf(x.states, w.to.value) in {Overdue, Missed}
    && (x.instances[w.cell].deadline.Some? ==> now - x.instances[w.cell].deadline.value <= BACKFILL_HORIZON)
  }

  /** A late instance is announced by whoever made it overdue or missed, unless its deadline is more than a week
      past; what a person set is not announced. */
  lemma AnnouncedWithinAWeek(x: Setting, w: Write<Id>, now: int)
    requires w.cell in x.instances && w.to.Some?
    ensures Notifies(x, w, now) <==>
      && w.author.Some? && CategoryOf(x.states, w.to.value) in {Overdue, Missed}
      && !After(now - 604800, x.instances[w.cell].deadline)
  {
  }

  /** Exactly one pass announces a change: two announcements in a run, whichever passes made them, are of
      different writes; and of one instance, absent other edits, they are of overdue and then missed. */
  lemma AnnouncedOnceEach(x: Setting, cells: map<Id, Id>, steps: seq<Step<Id>>, a: nat, b: nat, nowA: int, nowB: int)
    requires DistinctIds(x.states)
    requires var w := Run(SweepRule(x), Start(cells), steps);
      && a < b < |w.told| && w.told[a] < |w.log| && w.told[b] < |w.log|
      && Notifies(x, w.log[w.told[a]], nowA) && Notifies(x, w.log[w.told[b]], nowB)
      && w.log[w.told[a]].cell == w.log[w.told[b]].cell && OnlyPasses(w.log, w.log[w.told[a]].cell)
    ensures var w := Run(SweepRule(x), Start(cells), steps);
      {CategoryOf(x.states, w.log[w.told[a]].to.value),
       CategoryOf(x.states, w.log[w.told[b]].to.value)} == {Overdue, Missed}
  {
    var w := Run(SweepRule(x), Start(cells), steps);
    EveryRunIsHonest(SweepRule(x), cells, steps);
    var j, k := Min(w.told[a], w.told[b]), Max(w.told[a], w.told[b]);
    AtMostOverdueThenFinal(x, cells, steps, w.log[w.told[a]].cell, j, k);
  }

  // ----- The evidence path against the sweep -----

  /** A terminal state is final for every path that goes through reconciliation, whatever evidence there
      is by then. */
  lemma TerminalIsFinal(states: seq<ProjectState>, i: Instance, e: Evidence, grace: int, now: int, today: int, from: Id)
    requires CategoryOf(states, from) in {Verified, Missed, Skipped}
    ensures Decision(states, i, e, grace, now, today, from) == None
    ensures Terminal(CategoryOf(states, from))
  {
  }

  /** What one undisturbed reconciliation leaves. */
  function Settle(states: seq<ProjectState>, i: Instance, e: Evidence, grace: int, now: int, today: int, from: Id): Id {
    var d := Decision(states, i, e, grace, now, today, from);
    if d.Some? then d.value else from
  }

  /** A project with a verified and a missed state, and a ritual instance of it. */
  predicate Seeded(states: seq<ProjectState>, i: Instance) {
    FindByCategory(states, Verified).Some? && FindByCategory(states, Missed).Some? && i.ritual && !i.detached
  }

  /** The row may still be moved: its state is one of the project's, and not terminal. */
  predicate Open(states: seq<ProjectState>, from: Id) {
    FindById(states, from).Some? && !Terminal(CategoryOf(states, from))
  }

  /** Alone, reconciling an open instance whose evidence has just been approved verifies it. */
  lemma ApprovalAloneVerifies(states: seq<ProjectState>, i: Instance, e: Evidence, grace: int, now: int, today: int,
      from: Id)
    requires DistinctIds(states) && Seeded(states, i) && Open(states, from) && AllRequiredApproved(e)
    ensures Decision(states, i, e, grace, now, today, from) == Some(FindByCategory(states, Verified).value.id)
    ensures CategoryOf(states, Settle(states, i, e, grace, now, today, from)) == Verified
  {
    FindByIdFinds(states, FindByCategory(states, Verified).value);
  }

  /** What a sweep reads off a row before the last approval, and whether that makes it write missed. */
  predicate SweepMisses(i: Instance, before: Evidence, grace: int, now: int) {
    !AwaitsReviewer(before) && GraceElapsed(i, grace, now)
  }

  /** Before the approval, a sweep's move is terminal exactly when it writes missed. */
  lemma SweepMoveIsFinalIff(states: seq<ProjectState>, i: Instance, before: Evidence, grace: int, now: int, today: int,
      from: Id)
    requires DistinctIds(states) && Seeded(states, i) && Open(states, from) && !AllRequiredApproved(before)
    ensures var to := Settle(states, i, before, grace, now, today, from);
      && (Terminal(CategoryOf(states, to)) <==> SweepMisses(i, before, grace, now))
      && (SweepMisses(i, before, grace, now) ==> CategoryOf(states, to) == Missed)
      && (!SweepMisses(i, before, grace, now) ==> Open(states, to))
  {
    var d := Decision(states, i, before, grace, now, today, from);
    if d.Some? {
      FindByIdFinds(states, FindByCategory(states, Target(i, before, grace, now, today)).value);
    }
  }

  /** The sweep and the approval have read one state of the instance, in which the sweep listed it as late;
      the sweep saw the evidence before the approval and decided to move it, the approval sees everything
      approved. */
  ghost predicate Overlap(states: seq<ProjectState>, i: Instance, before: Evidence, after: Evidence,
    grace: int, now: int, today: int, from: Id)
  {
    && DistinctIds(states) && Seeded(states, i) && Candidate(RowOf(states, i, from), now)
    && !AllRequiredApproved(before) && AllRequiredApproved(after)
    && Decision(states, i, before, grace, now, today, from).Some?
  }

  lemma LateIsOpen(states: seq<ProjectState>, from: Id)
    ensures Late(CategoryOf(states, from)) ==> Open(states, from)
  {
  }

  /** The instance's row, as the candidate predicate of the sweeps sees it. */
  function RowOf(states: seq<ProjectState>, i: Instance, state: Id): Row {
    Row(0, i.ritual, false, i.detached, i.deadline, CategoryOf(states, state))
  }

  /** A later sweep: its clock, the grace window it loads, and whether it gets as far as the instance, that
      is, the row is within its limit if it is listed, and no statement about it fails. */
  datatype Visit = Visit(now: int, today: int, grace: int, reaches: bool)

  predicate Takes(states: seq<ProjectState>, i: Instance, state: Id, v: Visit) {
    v.reaches && Candidate(RowOf(states, i, state), v.now)
  }

  /** The state after any number of later sweeps, the evidence staying as it is. */
  function Swept(states: seq<ProjectState>, i: Instance, e: Evidence, state: Id, visits: seq<Visit>): Id
    decreases |visits|
  {
    if visits == [] then state else
      var (sofar, v) := (Swept(states, i, e, state, visits[..|visits| - 1]), visits[|visits| - 1]);
      if Takes(states, i, sofar, v) then Settle(states, i, e, v.grace, v.now, v.today, sofar) else sofar
  }

  /** Where the sweeps do not look, they change nothing. */
  lemma {:induction false} NotListedStays(states: seq<ProjectState>, i: Instance, e: Evidence, state: Id,
      visits: seq<Visit>)
    requires !Late(CategoryOf(states, state))
    ensures Swept(states, i, e, state, visits) == state
    decreases |visits|
  {
    if visits != [] {
      NotListedStays(states, i, e, state, visits[..|visits| - 1]);
    }
  }

  predicate Reached(i: Instance, visits: seq<Visit>) {
    exists k :: 0 <= k < |visits| && visits[k].reaches && After(visits[k].now, i.deadline)
  }

  /** A late instance with everything approved is verified by the first sweep that gets to it. */
  lemma {:induction false} LateIsVerifiedWhenReached(states: seq<ProjectState>, i: Instance, e: Evidence, state: Id,
      visits: seq<Visit>)
    requires DistinctIds(states) && Seeded(states, i) && Late(CategoryOf(states, state)) && AllRequiredApproved(e)
    ensures var end := Swept(states, i, e, state, visits);
      if Reached(i, visits) then CategoryOf(states, end) == Verified else end == state
    decreases |visits|
  {
    if visits != [] {
      var front, v := visits[..|visits| - 1], visits[|visits| - 1];
      LateIsVerifiedWhenReached(states, i, e, state, front);
      LateIsOpen(states, state);
      ApprovalAloneVerifies(states, i, e, v.grace, v.now, v.today, state);
      ReachedOneMore(i, visits);
    }
  }

  lemma ReachedOneMore(i: Instance, visits: seq<Visit>)
    requires visits != []
    ensures var v := visits[|visits| - 1];
      Reached(i, visits) <==> Reached(i, visits[..|visits| - 1]) || (v.reaches && After(v.now, i.deadline))
  {
    var front := visits[..|visits| - 1];
    if Reached(i, front) {
      var k :| 0 <= k < |front| && front[k].reaches && After(front[k].now, i.deadline);
      assert visits[k] == front[k];
    }
    if Reached(i, visits) {
      var k :| 0 <= k < |visits| && visits[k].reaches && After(visits[k].now, i.deadline);
      assert k < |front| ==> front[k] == visits[k];
    }
  }

  /** Where a sweep leaves a late instance that is not approved: for the reviewer, given up, or overdue. */
  lemma SweepLeaves(states: seq<ProjectState>, i: Instance, before: Evidence, grace: int, now: int, today: int,
      from: Id)
    requires DistinctIds(states) && Candidate(RowOf(states, i, from), now) && !AllRequiredApproved(before)
    requires Decision(states, i, before, grace, now, today, from).Some?
    ensures CategoryOf(states, Settle(states, i, before, grace, now, today, from))
         == if AwaitsReviewer(before) then Submitted else if GraceElapsed(i, grace, now) then Missed else Overdue
  {
    FindByIdFinds(states, FindByCategory(states, Target(i, before, grace, now, today)).value);
  }

  /** Both paths write through one function, yet where an instance ends up can depend on which writes first.
      In every project, for every instance, evidence, grace window and clock, over every interleaving of the
      two and with any number of sweeps later: if the approval attempts first, the instance is verified. If
      the sweep does, it is verified later if and only if the sweep found neither everything awaiting the
      reviewer nor the grace window past, and a later sweep gets to it. Otherwise everything is approved
      and the instance stays submitted, where no sweep looks, or missed. */
  lemma OverlapLosesTheVerificationIff(states: seq<ProjectState>, i: Instance, before: Evidence, after: Evidence,
    grace: int, now: int, today: int, from: Id, rule: (Id, Id, Id) -> bool, w: World<Id>, task: Id,
    sweep: Id, approval: Id, steps: seq<Step<Id>>, visits: seq<Visit>)
    requires Overlap(states, i, before, after, grace, now, today, from) && sweep != approval
    requires Racing(w, {sweep, approval}, task, from, Targets(states, i, before, after, grace, now, today, from, sweep))
    requires Undisturbed(rule, w, {sweep, approval}, task, steps) && First({sweep, approval}, steps).Some?
    ensures var v, first := Run(rule, w, steps), First({sweep, approval}, steps);
      && task in v.cells
      && var end := CategoryOf(states, Swept(states, i, after, v.cells[task], visits));
      && (first == Some(approval) ==> end == Verified)
      && (first == Some(sweep) ==>
        && (end == Verified <==> !AwaitsReviewer(before) && !GraceElapsed(i, grace, now) && Reached(i, visits))
        && (AwaitsReviewer(before) ==> end == Submitted)
        && (SweepMisses(i, before, grace, now) ==> end == Missed))
  {
    var target := Targets(states, i, before, after, grace, now, today, from, sweep);
    LateIsOpen(states, from);
    TargetsAreMoves(states, i, before, after, grace, now, today, from, sweep);
    FirstToAttemptHasIt(rule, w, {sweep, approval}, task, from, target, steps);
    if First({sweep, approval}, steps) == Some(approval) {
      ApprovalAloneVerifies(states, i, after, grace, now, today, from);
      NotListedStays(states, i, after, target(approval), visits);
    } else {
      SweepLeaves(states, i, before, grace, now, today, from);
      if Late(CategoryOf(states, target(sweep))) {
        LateIsVerifiedWhenReached(states, i, after, target(sweep), visits);
      } else {
        NotListedStays(states, i, after, target(sweep), visits);
      }
    }
  }

  /** Only the evidence path could still help, and only a submitted instance: whatever new evidence is sent,
      once all of it is approved the decision verifies the instance, if and only if the sweep did not give
      it up. */
  lemma NewEvidenceHelpsIff(states: seq<ProjectState>, i: Instance, before: Evidence, grace: int, now: int, today: int,
      from: Id, e: Evidence, laterGrace: int, later: int, laterDay: int)
    requires DistinctIds(states) && Seeded(states, i) && Open(states, from)
    requires !AllRequiredApproved(before) && AllRequiredApproved(e)
    ensures var left := Settle(states, i, before, grace, now, today, from);
      CategoryOf(states, Settle(states, i, e, laterGrace, later, laterDay, left)) == Verified
      <==> !SweepMisses(i, before, grace, now)
  {
    var left := Settle(states, i, before, grace, now, today, from);
    SweepMoveIsFinalIff(states, i, before, grace, now, today, from);
    if SweepMisses(i, before, grace, now) {
      TerminalIsFinal(states, i, e, laterGrace, later, laterDay, left);
    } else {
      ApprovalAloneVerifies(states, i, e, laterGrace, later, laterDay, left);
    }
  }

  /** What each of the two decided. */
  function Targets(states: seq<ProjectState>, i: Instance, before: Evidence, after: Evidence,
    grace: int, now: int, today: int, from: Id, sweep: Id): Id -> Id
  {
    (p: Id) => Settle(states, i, if p == sweep then before else after, grace, now, today, from)
  }

  lemma TargetsAreMoves(states: seq<ProjectState>, i: Instance, before: Evidence, after: Evidence,
    grace: int, now: int, today: int, from: Id, sweep: Id)
    requires Overlap(states, i, before, after, grace, now, today, from)
    ensures forall p :: Targets(states, i, before, after, grace, now, today, from, sweep)(p) != from
  {
    LateIsOpen(states, from);
    DecisionMoves(states, i, before, grace, now, today, from);
    ApprovalAloneVerifies(states, i, after, grace, now, today, from);
    DecisionMoves(states, i, after, grace, now, today, from);
  }

  lemma DecisionMoves(states: seq<ProjectState>, i: Instance, e: Evidence, grace: int, now: int, today: int, from: Id)
    requires DistinctIds(states) && Decision(states, i, e, grace, now, today, from).Some?
    ensures Settle(states, i, e, grace, now, today, from) != from
  {
    FindByIdFinds(states, FindByCategory(states, Target(i, e, grace, now, today)).value);
  }

  /** When the sweep found nothing to move, its guard for missed was off, and the approval is alone. */
  lemma IdleSweepLosesNothing(states: seq<ProjectState>, i: Instance, before: Evidence, after: Evidence,
    grace: int, now: int, today: int, from: Id)
    requires DistinctIds(states) && Seeded(states, i) && Open(states, from)
    requires !AllRequiredApproved(before) && AllRequiredApproved(after)
    requires Decision(states, i, before, grace, now, today, from).None?
    ensures !SweepMisses(i, before, grace, now)
    ensures CategoryOf(states, Settle(states, i, after, grace, now, today, from)) == Verified
  {
    ApprovalAloneVerifies(states, i, after, grace, now, today, from);
  }

  const FOUR_STATES :=
    [ProjectState(1, Overdue), ProjectState(2, Missed), ProjectState(3, Verified), ProjectState(4, Submitted)]

  /** Both can happen, to an overdue instance with one requirement: a sweep just past its grace window, and
      a sweep that finds the one submission waiting in an instance still marked overdue. */
  lemma LostVerificationExample()
    ensures var i, after := Instance(true, false, Some(0), None, 10), Evidence(1, 1, 1, 0, 1);
      && Overlap(FOUR_STATES, i, Evidence(1, 0, 0, 0, 0), after, 10, 11, 0, 1)
      && SweepMisses(i, Evidence(1, 0, 0, 0, 0), 10, 11)
      && Overlap(FOUR_STATES, i, Evidence(1, 1, 0, 0, 1), after, 10, 5, 0, 1)
      && AwaitsReviewer(Evidence(1, 1, 0, 0, 1))
  {
    var s := FOUR_STATES;
    assert s[1..][0] == s[1] && s[1..][1..][0] == s[2] && s[1..][1..][1..][0] == s[3];
    FindByIdFinds(s, s[0]);
    assert FindByCategory(s, Missed) == Some(s[1]) && FindByCategory(s, Verified) == Some(s[2]);
    assert FindByCategory(s, Submitted) == Some(s[3]);
  }

  // ----- Decisions that do not see each other -----

  /** One reconciliation: the evidence its transaction sees, its clock, and the grace window it loads. */
  datatype Look = Look(evidence: Evidence, grace: int, now: int, today: int)

  /** The state after reconciliations in this order, by whichever paths. */
  function Reconciled(states: seq<ProjectState>, i: Instance, from: Id, looks: seq<Look>): Id
    decreases |looks|
  {
    if looks == [] then from else
      var x := looks[|looks| - 1];
      Settle(states, i, x.evidence, x.grace, x.now, x.today, Reconciled(states, i, from, looks[..|looks| - 1]))
  }

  predicate GivesUp(i: Instance, x: Look) {
    !AllRequiredApproved(x.evidence) && SweepMisses(i, x.evidence, x.grace, x.now)
  }

  predicate NobodyGivesUp(i: Instance, looks: seq<Look>) {
    forall j :: 0 <= j < |looks| ==> !GivesUp(i, looks[j])
  }

  /** Some reconciliation saw everything approved, before any that gave the instance up. */
  predicate SeenApproved(i: Instance, looks: seq<Look>) {
    exists k :: 0 <= k < |looks| && AllRequiredApproved(looks[k].evidence) && NobodyGivesUp(i, looks[..k])
  }

  lemma SeenOneMore(i: Instance, looks: seq<Look>)
    requires looks != []
    ensures var (front, x) := (looks[..|looks| - 1], looks[|looks| - 1]);
      && (SeenApproved(i, looks) <==>
            SeenApproved(i, front) || (AllRequiredApproved(x.evidence) && NobodyGivesUp(i, front)))
      && (NobodyGivesUp(i, looks) <==> NobodyGivesUp(i, front) && !GivesUp(i, x))
  {
    var n := |looks| - 1;
    var front := looks[..n];
    if SeenApproved(i, looks) {
      var k :| 0 <= k < |looks| && AllRequiredApproved(looks[k].evidence) && NobodyGivesUp(i, looks[..k]);
      assert k < n ==> front[k] == looks[k] && front[..k] == looks[..k];
    }
    if SeenApproved(i, front) {
      var k :| 0 <= k < |front| && AllRequiredApproved(front[k].evidence) && NobodyGivesUp(i, front[..k]);
      assert front[k] == looks[k] && front[..k] == looks[..k];
    }
    if NobodyGivesUp(i, looks) {
      assert forall j :: 0 <= j < n ==> front[j] == looks[j];
    }
    if NobodyGivesUp(i, front) && !GivesUp(i, looks[n]) {
      assert forall j :: 0 <= j < |looks| ==> looks[j] == if j < n then front[j] else looks[n];
    }
  }

  /** However many reconciliations there are and whatever each of them sees, the instance ends verified if
      and only if one of them saw everything approved before any gave it up. That everything is approved in
      the end is not enough: two reviewers who approve the last two submissions at once each see the other's
      undecided, and the instance stays where it was. */
  lemma {:induction false} VerifiedIffSeenApproved(states: seq<ProjectState>, i: Instance, from: Id, looks: seq<Look>)
    requires DistinctIds(states) && Seeded(states, i) && Open(states, from)
    ensures var end := Reconciled(states, i, from, looks);
      && (CategoryOf(states, end) == Verified <==> SeenApproved(i, looks))
      && (!SeenApproved(i, looks) ==>
            if NobodyGivesUp(i, looks) then Open(states, end) else CategoryOf(states, end) == Missed)
    decreases |looks|
  {
    if looks != [] {
      var front, x := looks[..|looks| - 1], looks[|looks| - 1];
      var sofar := Reconciled(states, i, from, front);
      VerifiedIffSeenApproved(states, i, from, front);
      SeenOneMore(i, looks);
      if Terminal(CategoryOf(states, sofar)) {
        TerminalIsFinal(states, i, x.evidence, x.grace, x.now, x.today, sofar);
      } else if AllRequiredApproved(x.evidence) {
        ApprovalAloneVerifies(states, i, x.evidence, x.grace, x.now, x.today, sofar);
      } else {
        SweepMoveIsFinalIff(states, i, x.evidence, x.grace, x.now, x.today, sofar);
      }
    }
  }

  /** Two approvals at once, of two requirements: both are recorded, the instance stays submitted, and no
      sweep will look at it. */
  lemma TwoApprovalsAtOnce(i: Instance, a: Look, b: Look, e: Evidence, visits: seq<Visit>)
    requires i.ritual && !i.detached
    requires a.evidence == b.evidence == Evidence(2, 2, 1, 0, 2) && e == Evidence(2, 2, 2, 0, 2)
    ensures AllRequiredApproved(e)
    ensures var left := Reconciled(FOUR_STATES, i, 4, [a, b]);
      CategoryOf(FOUR_STATES, Swept(FOUR_STATES, i, e, left, visits)) == Submitted
  {
    var s := FOUR_STATES;
    assert s[1..][1..][1..][0] == s[3];
    FindByIdFinds(s, s[3]);
    assert [a, b][..1] == [a] && [a][..0] == [];
    assert Reconciled(s, i, 4, [a]) == 4;
    NotListedStays(s, i, e, 4, visits);
  }

  // ----- Discovery -----

  /** A task row as the candidate predicate sees it, with the category of its state. */
  datatype Row = Row(org: Id, ritual: bool, deleted: bool, detached: bool, deadline: Option<int>, category: Category)

  predicate Candidate(r: Row, now: int) {
    r.ritual && !r.deleted && !r.detached && r.deadline.Some? && r.deadline.value < now && Late(r.category)
  }

  /** The categories the sweeps list are those reconciliation may leave an unfinished instance in. */
  lemma LateIff(c: Category)
    ensures Late(c) <==>
      && c !in {Verified, Missed, Skipped, Submitted}
      && exists i, e, grace, now, today :: Target(i, e, grace, now, today) == c
  {
    var started, waiting := Evidence(1, 0, 0, 0, 1), Instance(true, false, None, Some(1), 0);
    assert Target(waiting, NoDefinition, 0, 0, 0) == Scheduled;
    assert Target(waiting, NoDefinition, 0, 0, 1) == Todo;
    assert Target(waiting, started, 0, 0, 0) == InProgress;
    assert Target(Instance(true, false, Some(0), None, 0), started, 0, 1, 0) == Overdue;
  }

  /** The sweeps' threshold is the rules' threshold: a row is listed exactly if it is an instance that counts,
      in such a state, and one on which nothing has been handed in would be overdue by now. */
  lemma CandidateIff(r: Row, now: int)
    ensures Candidate(r, now) <==>
      && !r.deleted && r.ritual && !r.detached && Late(r.category)
      && Target(Instance(r.ritual, r.detached, r.deadline, None, 0), Evidence(1, 0, 0, 0, 0), 0, now, 0) == Overdue
  {
  }

  /** ListOrganizationIDsWithReconcilableRitualInstances. */
  function Discovered(rows: map<Id, Row>, now: int): set<Id> {
    set t | t in rows && Candidate(rows[t], now) :: rows[t].org
  }

  /** ORDER BY completion_deadline ASC, id ASC. */
  function DeadlineKey(rows: map<Id, Row>, t: Id): Key
    requires t in rows
  {
    [if rows[t].deadline.Some? then rows[t].deadline.value else 0, t]
  }

  ghost function CandidateKeys(rows: map<Id, Row>, org: Id, now: int): set<Key> {
    set t | t in rows && rows[t].org == org && Candidate(rows[t], now) :: DeadlineKey(rows, t)
  }

  /** ListRitualInstancesForReconciliation. */
  ghost function ListedKeys(rows: map<Id, Row>, org: Id, now: int, limit: nat): seq<Key> {
    KeysetPaging.Page(CandidateKeys(rows, org, now), None, limit)
  }

  /** Both queries use one predicate: an organization is discovered exactly when its own list, under any
      limit of at least 1, is not empty; and the list is the oldest candidates in order, all of them or
      as many as the limit. */
  lemma DiscoveredIffListed(rows: map<Id, Row>, org: Id, now: int, limit: nat)
    requires limit >= 1
    ensures org in Discovered(rows, now) <==> ListedKeys(rows, org, now, limit) != []
    ensures var page := ListedKeys(rows, org, now, limit);
      && Sorted(page) && Elements(page) <= CandidateKeys(rows, org, now)
      && |page| == Min(limit, |CandidateKeys(rows, org, now)|)
      && (forall done, left :: done in page && left in CandidateKeys(rows, org, now) && left !in page ==>
          Less(done, left))
  {
    var keys := CandidateKeys(rows, org, now);
    var page := ListedKeys(rows, org, now, limit);
    KeysetPaging.PageContents(keys, None, limit);
    if org in Discovered(rows, now) {
      var t :| t in rows && Candidate(rows[t], now) && rows[t].org == org;
      assert DeadlineKey(rows, t) in keys;
    }
    if page != [] {
      assert page[0] in keys;
    }
    forall done, left | done in page && left in keys && left !in page
      ensures Less(done, left)
    {
      var n :| 0 <= n < |page| && page[n] == done;
      if n < |page| - 1 { LessIsTransitive(done, KeysetPaging.Last(page), left); }
    }
  }

  /** What a limit leaves for the next pass is less overdue than what it takes, or as much with a higher id. */
  lemma OldestDeadlinesFirst(rows: map<Id, Row>, org: Id, now: int, limit: nat, a: Id, b: Id)
    requires limit >= 1 && a in rows && b in rows && rows[a].deadline.Some?
    requires DeadlineKey(rows, a) in ListedKeys(rows, org, now, limit)
    requires rows[b].org == org && Candidate(rows[b], now)
    requires DeadlineKey(rows, b) !in ListedKeys(rows, org, now, limit)
    ensures rows[a].deadline.value < rows[b].deadline.value
      || (rows[a].deadline == rows[b].deadline && a < b)
  {
    DiscoveredIffListed(rows, org, now, limit);
    assert DeadlineKey(rows, b) in CandidateKeys(rows, org, now);
    var x, y := DeadlineKey(rows, a), DeadlineKey(rows, b);
    assert Less(x, y) && x[1..] == [a] && y[1..] == [b];
    assert Less([a], [b]) ==> a < b by {
      assert [a][1..] == [] && [b][1..] == [];
    }
  }
}
