/** Ritual definitions and their dated instances: generation sweeps, archiving, and changing the
    schedule, which removes what nobody touched and sets free what somebody did. */
module RitualSchedule {
  import opened Prelude
  import Recurrence

  type Id = nat
  type Date = int

  /** The columns of a task row that these queries read; `pending` and `initial` describe its state,
      `evidence` the existence of a submission, `channel` a channel_id. */
  datatype Task = Task(
    def: Option<Id>, date: Date, ritual: bool, deleted: bool, detached: bool,
    pending: bool, initial: bool, comments: nat, evidence: bool, channel: bool)

  type Tasks = map<Id, Task>

  predicate Live(t: Task, def: Id) {
    t.def == Some(def) && t.ritual && !t.deleted
  }

  /** idx_task_ritual_instance_unique: at most one live instance per definition and date. */
  ghost predicate OneLive(ts: Tasks) {
    forall a, b, def ::
      a in ts && b in ts && Live(ts[a], def) && Live(ts[b], def) && ts[a].date == ts[b].date ==> a == b
  }

  function LiveDates(ts: Tasks, def: Id): set<Date> {
    set i | i in ts && Live(ts[i], def) :: ts[i].date
  }

  // ----- Generation -----

  /** The row CreateTask inserts for a ritual instance; channel and document are created lazily. */
  function NewInstance(def: Id, date: Date, pending: bool): Task {
    Task(Some(def), date, true, false, false, pending, true, 0, false, false)
  }

  /** A generated instance is live, on the initial state, and blank: nothing has been said, handed in or
      opened. */
  lemma NewInstanceIsBlank(def: Id, date: Date, pending: bool)
    ensures var t := NewInstance(def, date, pending);
      && Live(t, def) && t.date == date && t.pending == pending && !t.detached
      && t.initial && t.comments == 0 && !t.evidence && !t.channel
  {
  }

  /** What is no ritual instance, or deleted, or another definition's, is no live instance of this one. */
  lemma NotLiveIff(t: Task, def: Id)
    ensures !Live(t, def) <==> !t.ritual || t.deleted || t.def.None? || t.def.value != def
  {
  }

  /** The table, the next unused id, and how many instances a sweep has made. */
  datatype Sweep = Sweep(tasks: Tasks, next: Id, created: nat)

  ghost predicate Fresh(s: Sweep) {
    forall i :: i in s.tasks ==> i < s.next
  }

  /** One definition's share of a sweep: the due dates computed for it, the dates at which some statement
      fails and is skipped with a warning, and whether the project's initial state is a pending one. */
  datatype Plan = Plan(def: Id, dates: seq<Date>, failing: set<Date>, pending: bool)

  /** CheckRitualInstanceExists, then CreateTask. */
  function GenerateOne(s: Sweep, p: Plan, date: Date): Sweep {
    if date in p.failing || date in LiveDates(s.tasks, p.def) then s
    else Sweep(s.tasks[s.next := NewInstance(p.def, date, p.pending)], s.next + 1, s.created + 1)
  }

  function GenerateDates(s: Sweep, p: Plan, dates: seq<Date>): Sweep
    decreases |dates|
  {
    if dates == [] then s else GenerateOne(GenerateDates(s, p, dates[..|dates| - 1]), p, dates[|dates| - 1])
  }

  function GenerateAll(s: Sweep, plans: seq<Plan>): Sweep
    decreases |plans|
  {
    if plans == [] then s else
      var before, p := GenerateAll(s, plans[..|plans| - 1]), plans[|plans| - 1];
      GenerateDates(before, p, p.dates)
  }

  function Wanted(p: Plan, dates: seq<Date>): set<Date> {
    (set d | d in dates) - p.failing
  }

  /** Everything that was there is as it was. */
  ghost predicate Extends(before: Tasks, after: Tasks) {
    forall i :: i in before ==> i in after && after[i] == before[i]
  }

  /** A row that is new is an instance of the definition, at a wanted date that had none. */
  ghost predicate AddsOnlyMissing(before: Tasks, after: Tasks, p: Plan, wanted: set<Date>) {
    forall i :: i in after && i !in before ==> FillsAGap(before, after[i], p, wanted)
  }

  predicate FillsAGap(before: Tasks, t: Task, p: Plan, wanted: set<Date>) {
    t == NewInstance(p.def, t.date, p.pending) && t.date in wanted && t.date !in LiveDates(before, p.def)
  }

  lemma InsertLiveDates(ts: Tasks, id: Id, x: Task, def: Id)
    requires id !in ts
    ensures LiveDates(ts[id := x], def) == LiveDates(ts, def) + (if Live(x, def) then {x.date} else {})
  {
    var u := ts[id := x];
    forall d
      ensures d in LiveDates(u, def) <==> d in LiveDates(ts, def) || (Live(x, def) && d == x.date)
    {
      if d in LiveDates(ts, def) {
        var i :| i in ts && Live(ts[i], def) && ts[i].date == d;
        assert u[i] == ts[i];
      }
      if Live(x, def) && d == x.date { assert Live(u[id], def); }
    }
  }

  lemma InsertKeepsOneLive(ts: Tasks, id: Id, x: Task, def: Id)
    requires OneLive(ts) && id !in ts && x.def == Some(def) && x.date !in LiveDates(ts, def)
    ensures OneLive(ts[id := x])
  {
    var u := ts[id := x];
    assert forall i :: i in ts && Live(ts[i], def) ==> ts[i].date in LiveDates(ts, def);
    forall a, b, e | a in u && b in u && Live(u[a], e) && Live(u[b], e) && u[a].date == u[b].date
      ensures a == b
    {
    }
  }

  lemma OneDateKeepsSound(s: Sweep, p: Plan, date: Date)
    requires OneLive(s.tasks) && Fresh(s)
    ensures OneLive(GenerateOne(s, p, date).tasks) && Fresh(GenerateOne(s, p, date))
    ensures Extends(s.tasks, GenerateOne(s, p, date).tasks)
  {
    if date !in p.failing && date !in LiveDates(s.tasks, p.def) {
      InsertKeepsOneLive(s.tasks, s.next, NewInstance(p.def, date, p.pending), p.def);
    }
  }

  lemma OneDateLiveDates(s: Sweep, p: Plan, date: Date, def: Id)
    requires Fresh(s)
    ensures LiveDates(GenerateOne(s, p, date).tasks, def)
         == LiveDates(s.tasks, def) + (if def == p.def then {date} - p.failing else {})
  {
    if date !in p.failing && date !in LiveDates(s.tasks, p.def) {
      InsertLiveDates(s.tasks, s.next, NewInstance(p.def, date, p.pending), def);
    }
  }

  lemma {:induction false} GenerationKeepsSound(s: Sweep, p: Plan, dates: seq<Date>)
    requires OneLive(s.tasks) && Fresh(s)
    ensures var r := GenerateDates(s, p, dates); OneLive(r.tasks) && Fresh(r) && Extends(s.tasks, r.tasks)
    decreases |dates|
  {
    if dates != [] {
      GenerationKeepsSound(s, p, dates[..|dates| - 1]);
      OneDateKeepsSound(GenerateDates(s, p, dates[..|dates| - 1]), p, dates[|dates| - 1]);
    }
  }

  lemma WantedGrows(p: Plan, dates: seq<Date>)
    requires dates != []
    ensures Wanted(p, dates) == Wanted(p, dates[..|dates| - 1]) + ({dates[|dates| - 1]} - p.failing)
  {
    assert dates == dates[..|dates| - 1] + [dates[|dates| - 1]];
  }

  /** Generation fills the gaps: afterwards the definition is live on the dates it was live on and on every
      due date that did not fail, and other definitions are live where they were. */
  lemma {:induction false} GenerationFillsTheGaps(s: Sweep, p: Plan, dates: seq<Date>, def: Id)
    requires OneLive(s.tasks) && Fresh(s)
    ensures LiveDates(GenerateDates(s, p, dates).tasks, def)
         == LiveDates(s.tasks, def) + (if def == p.def then Wanted(p, dates) else {})
    decreases |dates|
  {
    if dates == [] {
      assert Wanted(p, dates) == {};
    } else {
      var front := dates[..|dates| - 1];
      GenerationFillsTheGaps(s, p, front, def);
      GenerationKeepsSound(s, p, front);
      OneDateLiveDates(GenerateDates(s, p, front), p, dates[|dates| - 1], def);
      WantedGrows(p, dates);
    }
  }

  /** ... creating one instance for each gap, and nothing else. */
  lemma {:induction false} GenerationCountsTheGaps(s: Sweep, p: Plan, dates: seq<Date>)
    requires OneLive(s.tasks) && Fresh(s)
    ensures GenerateDates(s, p, dates).created == s.created + |Wanted(p, dates) - LiveDates(s.tasks, p.def)|
    decreases |dates|
  {
    if dates == [] {
      assert Wanted(p, dates) - LiveDates(s.tasks, p.def) == {};
    } else {
      var front, date := dates[..|dates| - 1], dates[|dates| - 1];
      GenerationCountsTheGaps(s, p, front);
      GenerationFillsTheGaps(s, p, front, p.def);
      WantedGrows(p, dates);
      GapsGrow(Wanted(p, front), LiveDates(s.tasks, p.def), date, p.failing);
    }
  }

  lemma GapsGrow(wanted: set<Date>, live: set<Date>, date: Date, failing: set<Date>)
    ensures |wanted + ({date} - failing) - live| ==
      |wanted - live| + (if date in failing || date in live + wanted then 0 else 1)
  {
    if date in failing || date in live + wanted {
      assert wanted + ({date} - failing) - live == wanted - live;
    } else {
      assert wanted + ({date} - failing) - live == wanted - live + {date};
    }
  }

  lemma {:induction false} GenerationAddsOnlyMissing(s: Sweep, p: Plan, dates: seq<Date>)
    requires OneLive(s.tasks) && Fresh(s)
    ensures AddsOnlyMissing(s.tasks, GenerateDates(s, p, dates).tasks, p, Wanted(p, dates))
    decreases |dates|
  {
    if dates != [] {
      var front, date := dates[..|dates| - 1], dates[|dates| - 1];
      GenerationAddsOnlyMissing(s, p, front);
      GenerationKeepsSound(s, p, front);
      GenerationFillsTheGaps(s, p, front, p.def);
      WantedGrows(p, dates);
      var m, r := GenerateDates(s, p, front).tasks, GenerateDates(s, p, dates).tasks;
      forall i | i in r && i !in s.tasks
        ensures FillsAGap(s.tasks, r[i], p, Wanted(p, dates))
      {
        if i in m { assert FillsAGap(s.tasks, m[i], p, Wanted(p, front)); }
      }
    }
  }

  ghost predicate DistinctDefs(plans: seq<Plan>) {
    forall a, b :: 0 <= a < b < |plans| ==> plans[a].def != plans[b].def
  }

  function Total(f: Plan -> nat, plans: seq<Plan>): nat
    decreases |plans|
  {
    if plans == [] then 0 else Total(f, plans[..|plans| - 1]) + f(plans[|plans| - 1])
  }

  function Gaps(ts: Tasks, p: Plan): nat {
    |Wanted(p, p.dates) - LiveDates(ts, p.def)|
  }

  /** How many instances the plans of a sweep lack. */
  function Missing(ts: Tasks, plans: seq<Plan>): nat {
    Total((p: Plan) => Gaps(ts, p), plans)
  }

  /** The dates one sweep makes live for a definition. */
  function Planned(plans: seq<Plan>, def: Id): set<Date>
    decreases |plans|
  {
    if plans == [] then {} else
      Planned(plans[..|plans| - 1], def)
      + if plans[|plans| - 1].def == def then Wanted(plans[|plans| - 1], plans[|plans| - 1].dates) else {}
  }

  lemma {:induction false} NotPlanned(plans: seq<Plan>, def: Id)
    requires forall k :: 0 <= k < |plans| ==> plans[k].def != def
    ensures Planned(plans, def) == {}
  {
    if plans != [] {
      NotPlanned(plans[..|plans| - 1], def);
    }
  }

  lemma {:induction false} SweepKeepsSound(s: Sweep, plans: seq<Plan>)
    requires OneLive(s.tasks) && Fresh(s)
    ensures var r := GenerateAll(s, plans); OneLive(r.tasks) && Fresh(r) && Extends(s.tasks, r.tasks)
    decreases |plans|
  {
    if plans != [] {
      var front, p := plans[..|plans| - 1], plans[|plans| - 1];
      SweepKeepsSound(s, front);
      GenerationKeepsSound(GenerateAll(s, front), p, p.dates);
    }
  }

  /** A whole sweep makes every definition live on what was planned for it. */
  lemma {:induction false} SweepFillsTheGaps(s: Sweep, plans: seq<Plan>, def: Id)
    requires OneLive(s.tasks) && Fresh(s)
    ensures LiveDates(GenerateAll(s, plans).tasks, def) == LiveDates(s.tasks, def) + Planned(plans, def)
    decreases |plans|
  {
    if plans != [] {
      var front, p := plans[..|plans| - 1], plans[|plans| - 1];
      SweepFillsTheGaps(s, front, def);
      SweepKeepsSound(s, front);
      GenerationFillsTheGaps(GenerateAll(s, front), p, p.dates, def);
    }
  }

  lemma {:induction false} SweepCountsTheGaps(s: Sweep, plans: seq<Plan>)
    requires OneLive(s.tasks) && Fresh(s) && DistinctDefs(plans)
    ensures GenerateAll(s, plans).created == s.created + Missing(s.tasks, plans)
    decreases |plans|
  {
    if plans != [] {
      var front, p := plans[..|plans| - 1], plans[|plans| - 1];
      SweepCountsTheGaps(s, front);
      SweepKeepsSound(s, front);
      SweepFillsTheGaps(s, front, p.def);
      NotPlanned(front, p.def);
      GenerationCountsTheGaps(GenerateAll(s, front), p, p.dates);
    }
  }

  // ----- Deleting and detaching -----

  function SoftDelete(ts: Tasks, ids: set<Id>): Tasks {
    map i | i in ts :: if i in ids then ts[i].(deleted := true) else ts[i]
  }

  function Detach(ts: Tasks, ids: set<Id>): Tasks {
    map i | i in ts :: if i in ids then ts[i].(def := None, ritual := false, detached := true) else ts[i]
  }

  /** ListFutureRitualInstancesForClassification. */
  function Future(ts: Tasks, def: Id, cutoff: Date): set<Id> {
    set i | i in ts && Live(ts[i], def) && ts[i].date > cutoff
  }

  /** isUntouched: the one definition of "nobody did anything with it". */
  predicate Untouched(t: Task) {
    t.initial && t.comments == 0 && !t.evidence && !t.channel
  }

  /** Untouched is: still as it was generated. So what a sweep made and nobody worked on is what a schedule
      change may remove. */
  lemma UntouchedMeansAsGenerated(t: Task, def: Id)
    requires Live(t, def) && !t.detached
    ensures Untouched(t) <==> t == NewInstance(def, t.date, t.pending)
  {
  }

  function Removable(ts: Tasks, def: Id, cutoff: Date): set<Id> {
    set i | i in Future(ts, def, cutoff) && Untouched(ts[i])
  }

  /** Steps 1 and 2 of ChangeRitualDefinitionSchedule. */
  function ClearFuture(ts: Tasks, def: Id, cutoff: Date): Tasks {
    Detach(SoftDelete(ts, Removable(ts, def, cutoff)), Future(ts, def, cutoff) - Removable(ts, def, cutoff))
  }

  /** Clearing leaves the definition no live instance after the cutoff; it deletes only what nobody
      touched, and what somebody touched lives on as a standard task with everything else it had; what is
      on or before the cutoff, of another definition, or already gone, is the same as before. */
  lemma ClearingTheFuture(ts: Tasks, def: Id, cutoff: Date)
    ensures var after := ClearFuture(ts, def, cutoff);
      && after.Keys == ts.Keys
      && (forall d :: d in LiveDates(after, def) ==> d <= cutoff)
      && (forall i :: i in ts && !(Live(ts[i], def) && ts[i].date > cutoff) ==> after[i] == ts[i])
      && (forall i :: i in ts && after[i].deleted && !ts[i].deleted ==> Untouched(ts[i]) && ts[i].date > cutoff)
      && (forall i :: i in ts && Live(ts[i], def) && ts[i].date > cutoff && !Untouched(ts[i]) ==>
            after[i] == ts[i].(def := None, ritual := false, detached := true) && !after[i].deleted)
    ensures OneLive(ts) ==> OneLive(ClearFuture(ts, def, cutoff))
  {
    var after := ClearFuture(ts, def, cutoff);
    assert forall i, e :: i in ts && Live(after[i], e) ==> after[i] == ts[i];
  }

  // ----- Sweeps, archives, restorations, schedule changes and people's edits, in any order -----

  /** A ritual_definition row: its recurrence rule, as the JSON text of its fields, and is_archived. */
  datatype Definition = Definition(rule: string, archived: bool)

  datatype Workspace = Workspace(sweep: Sweep, defs: map<Id, Definition>)

  const EMPTY := Workspace(Sweep(map[], 0, 0), map[])

  ghost predicate Sound(w: Workspace) {
    OneLive(w.sweep.tasks) && Fresh(w.sweep)
  }

  predicate IsActive(defs: map<Id, Definition>, def: Id) {
    def in defs && !defs[def].archived
  }

  /** ListActiveRitualDefinitionsForGeneration: a sweep has plans for definitions that are not archived. */
  function Active(plans: seq<Plan>, defs: map<Id, Definition>): seq<Plan>
    decreases |plans|
  {
    if plans == [] then [] else
      var (front, p) := (Active(plans[..|plans| - 1], defs), plans[|plans| - 1]);
      if IsActive(defs, p.def) then front + [p] else front
  }

  /** Creating a definition, restoring it and changing its schedule generate at once; editing it does not,
      even if the edit replaces the rule. Archiving goes through even if its clean-up of pending instances
      fails. */
  datatype Action =
    | Create(def: Id, rule: string, plans: seq<Plan>)
    | Edit(def: Id, rule: string)
    | Generate(plans: seq<Plan>)
    | Archive(def: Id, cleaned: bool)
    | Restore(def: Id, plans: seq<Plan>)
    | ChangeSchedule(def: Id, rule: string, today: Date, plans: seq<Plan>)
    | Work(task: Id, pending: bool, initial: bool, comments: nat, evidence: bool, channel: bool)
    | Remove(task: Id)

  /** The guard of ChangeRitualDefinitionSchedule: the definition is found, and the rule is another one. */
  predicate RuleChanges(w: Workspace, def: Id, rule: string) {
    def in w.defs && w.defs[def].rule != rule
  }

  /** What is refused, or has nothing to do, changes nothing. */
  predicate Applies(w: Workspace, a: Action) {
    match a
    case Create(def, _, _) => def !in w.defs
    case Edit(def, _) => def in w.defs
    case Archive(def, _) => def in w.defs
    case Restore(def, _) => def in w.defs
    case ChangeSchedule(def, rule, _, _) => RuleChanges(w, def, rule)
    case _ => true
  }

  /** SoftDeletePendingRitualInstances. */
  function Pending(ts: Tasks, def: Id): set<Id> {
    set i | i in ts && Live(ts[i], def) && ts[i].pending
  }

  function Edited(ts: Tasks, a: Action): Tasks
    requires a.Work?
  {
    if a.task !in ts then ts
    else ts[a.task := ts[a.task].(pending := a.pending, initial := a.initial, comments := a.comments,
                                  evidence := a.evidence, channel := a.channel)]
  }

  /** What an action does to the tasks before it generates, if it does. */
  function Prepared(ts: Tasks, a: Action): Tasks {
    match a
    case Archive(def, cleaned) => if cleaned then SoftDelete(ts, Pending(ts, def)) else ts
    case ChangeSchedule(def, _, today, _) => ClearFuture(ts, def, today)
    case Work(_, _, _, _, _, _) => Edited(ts, a)
    case Remove(t) => SoftDelete(ts, {t})
    case _ => ts
  }

  function DefsAfter(defs: map<Id, Definition>, a: Action): map<Id, Definition> {
    match a
    case Create(def, rule, _) => defs[def := Definition(rule, false)]
    case Edit(def, rule) => if def in defs then defs[def := defs[def].(rule := rule)] else defs
    case Archive(def, _) => if def in defs then defs[def := defs[def].(archived := true)] else defs
    case Restore(def, _) => if def in defs then defs[def := defs[def].(archived := false)] else defs
    case ChangeSchedule(def, rule, _, _) => if def in defs then defs[def := defs[def].(rule := rule)] else defs
    case _ => defs
  }

  function Plans(a: Action): seq<Plan> {
    match a
    case Create(_, _, plans) => plans
    case Generate(plans) => plans
    case Restore(_, plans) => plans
    case ChangeSchedule(_, _, _, plans) => plans
    case _ => []
  }

  function Act(w: Workspace, a: Action): Workspace {
    if !Applies(w, a) then w else
      var defs := DefsAfter(w.defs, a);
      Workspace(GenerateAll(w.sweep.(tasks := Prepared(w.sweep.tasks, a)), Active(Plans(a), defs)), defs)
  }

  /** A sweep on its own: the instances planned for the active definitions, and nothing for the others. */
  lemma GeneratingFillsActive(w: Workspace, plans: seq<Plan>, def: Id)
    requires Sound(w)
    ensures var after := Act(w, Generate(plans));
      && after.defs == w.defs
      && LiveDates(after.sweep.tasks, def)
         == LiveDates(w.sweep.tasks, def) + if IsActive(w.defs, def) then Planned(plans, def) else {}
  {
    DatesAfterAct(w, Generate(plans), def);
  }

  /** People's work changes one task and nothing of what it is an instance of; removing marks one deleted. */
  lemma PeopleChangeOneTask(w: Workspace, t: Id, i: Id, pending: bool, initial: bool, comments: nat, evidence: bool,
      channel: bool)
    requires i in w.sweep.tasks
    ensures var (before, after) := (w.sweep.tasks[i], Act(w, Work(t, pending, initial, comments, evidence, channel)));
      && after.defs == w.defs && after.sweep.tasks.Keys == w.sweep.tasks.Keys
      && after.sweep.tasks[i] == if i != t then before else
           Task(before.def, before.date, before.ritual, before.deleted, before.detached, pending, initial, comments,
                evidence, channel)
    ensures var (before, after) := (w.sweep.tasks[i], Act(w, Remove(t)));
      && after.defs == w.defs && after.sweep.tasks.Keys == w.sweep.tasks.Keys
      && after.sweep.tasks[i] == if i == t then before.(deleted := true) else before
  {
  }

  /** What each action does to the definitions, and to no other. */
  lemma DefinitionsAfter(w: Workspace, def: Id, rule: string, plans: seq<Plan>, today: Date, cleaned: bool)
    ensures def !in w.defs ==> Act(w, Create(def, rule, plans)).defs == w.defs[def := Definition(rule, false)]
    ensures def in w.defs ==> var was := w.defs[def];
      && Act(w, Create(def, rule, plans)) == w
      && Act(w, Edit(def, rule)).defs == w.defs[def := Definition(rule, was.archived)]
      && Act(w, Archive(def, cleaned)).defs == w.defs[def := Definition(was.rule, true)]
      && Act(w, Restore(def, plans)).defs == w.defs[def := Definition(was.rule, false)]
      && Act(w, ChangeSchedule(def, rule, today, plans)).defs == w.defs[def := Definition(rule, was.archived)]
    ensures def !in w.defs ==>
      && Act(w, Edit(def, rule)) == w && Act(w, Archive(def, cleaned)) == w && Act(w, Restore(def, plans)) == w
      && Act(w, ChangeSchedule(def, rule, today, plans)) == w
  {
  }

  function Perform(w: Workspace, actions: seq<Action>): Workspace
    decreases |actions|
  {
    if actions == [] then w else Act(Perform(w, actions[..|actions| - 1]), actions[|actions| - 1])
  }

  lemma SoftDeleteKeepsOneLive(ts: Tasks, ids: set<Id>)
    requires OneLive(ts)
    ensures OneLive(SoftDelete(ts, ids))
  {
    assert forall i, e :: i in ts && Live(SoftDelete(ts, ids)[i], e) ==> SoftDelete(ts, ids)[i] == ts[i];
  }

  lemma EditingKeepsLive(ts: Tasks, a: Action)
    requires a.Work?
    ensures OneLive(ts) ==> OneLive(Edited(ts, a))
    ensures forall def :: LiveDates(Edited(ts, a), def) == LiveDates(ts, def)
  {
    var u := Edited(ts, a);
    assert forall i, e :: i in u ==> i in ts && (Live(u[i], e) <==> Live(ts[i], e)) && u[i].date == ts[i].date;
    forall def, d
      ensures d in LiveDates(u, def) <==> d in LiveDates(ts, def)
    {
      if d in LiveDates(ts, def) {
        var i :| i in ts && Live(ts[i], def) && ts[i].date == d;
        assert Live(u[i], def);
      }
    }
  }

  lemma PreparingKeepsSound(ts: Tasks, a: Action)
    requires OneLive(ts)
    ensures OneLive(Prepared(ts, a)) && Prepared(ts, a).Keys == ts.Keys
  {
    match a {
      case ChangeSchedule(def, _, today, _) => ClearingTheFuture(ts, def, today);
      case Archive(def, _) => SoftDeleteKeepsOneLive(ts, Pending(ts, def));
      case Remove(t) => SoftDeleteKeepsOneLive(ts, {t});
      case Work(_, _, _, _, _, _) => EditingKeepsLive(ts, a);
      case _ =>
    }
  }

  lemma ActKeepsSound(w: Workspace, a: Action)
    requires Sound(w)
    ensures Sound(Act(w, a)) && OneLive(Prepared(w.sweep.tasks, a))
    ensures Fresh(w.sweep.(tasks := Prepared(w.sweep.tasks, a)))
  {
    PreparingKeepsSound(w.sweep.tasks, a);
    SweepKeepsSound(w.sweep.(tasks := Prepared(w.sweep.tasks, a)), Active(Plans(a), DefsAfter(w.defs, a)));
  }

  lemma {:induction false} RunsKeepSound(w: Workspace, actions: seq<Action>)
    requires Sound(w)
    ensures Sound(Perform(w, actions))
    decreases |actions|
  {
    if actions != [] {
      RunsKeepSound(w, actions[..|actions| - 1]);
      ActKeepsSound(Perform(w, actions[..|actions| - 1]), actions[|actions| - 1]);
    }
  }

  /** However sweeps, archives, restorations, schedule changes and people's work are interleaved, no
      definition ever has two live instances on one date, and the check before each insert means the
      unique index never has to refuse one. */
  lemma AtMostOneLiveInstance(actions: seq<Action>)
    ensures Sound(Perform(EMPTY, actions))
  {
    RunsKeepSound(EMPTY, actions);
  }

  lemma PlannedAppend(plans: seq<Plan>, p: Plan, def: Id)
    ensures Planned(plans + [p], def) == Planned(plans, def) + if p.def == def then Wanted(p, p.dates) else {}
  {
    assert (plans + [p])[..|plans|] == plans;
  }

  lemma {:induction false} PlannedIfActive(plans: seq<Plan>, defs: map<Id, Definition>, def: Id)
    ensures Planned(Active(plans, defs), def) == if IsActive(defs, def) then Planned(plans, def) else {}
    decreases |plans|
  {
    if plans != [] {
      var front, p := plans[..|plans| - 1], plans[|plans| - 1];
      PlannedIfActive(front, defs, def);
      if IsActive(defs, p.def) {
        PlannedAppend(Active(front, defs), p, def);
      }
    }
  }

  /** What an action makes of the dates of a definition: preparing them, and then all that is planned for
      it, if it is active. */
  lemma DatesAfterAct(w: Workspace, a: Action, def: Id)
    requires Sound(w) && Applies(w, a)
    ensures LiveDates(Act(w, a).sweep.tasks, def)
         == LiveDates(Prepared(w.sweep.tasks, a), def)
            + if IsActive(DefsAfter(w.defs, a), def) then Planned(Plans(a), def) else {}
  {
    var defs := DefsAfter(w.defs, a);
    ActKeepsSound(w, a);
    SweepFillsTheGaps(w.sweep.(tasks := Prepared(w.sweep.tasks, a)), Active(Plans(a), defs), def);
    PlannedIfActive(Plans(a), defs, def);
  }

  /** Archiving takes exactly the instances of the definition on which nobody has begun, and nothing of what
      is in progress, finished, another definition's, or gone already. */
  lemma ArchivingTakesWhatIsPending(w: Workspace, def: Id, i: Id)
    requires def in w.defs && i in w.sweep.tasks
    ensures var (before, after) := (w.sweep.tasks[i], Act(w, Archive(def, true)).sweep.tasks);
      i in after && after[i] == if Live(before, def) && before.pending then before.(deleted := true) else before
    ensures Act(w, Archive(def, true)).sweep.tasks.Keys == w.sweep.tasks.Keys
    ensures Act(w, Archive(def, false)).sweep.tasks == w.sweep.tasks
  {
  }

  lemma PreparingAddsNothing(ts: Tasks, a: Action, def: Id)
    ensures LiveDates(Prepared(ts, a), def) <= LiveDates(ts, def)
  {
    match a {
      case Work(_, _, _, _, _, _) => EditingKeepsLive(ts, a);
      case _ =>
        assert forall i, e :: i in ts && Live(Prepared(ts, a)[i], e) ==> Prepared(ts, a)[i] == ts[i];
    }
  }

  predicate IsArchived(w: Workspace, def: Id) {
    def in w.defs && w.defs[def].archived
  }

  /** As long as nobody restores it, an archived definition gains no instance, whatever is swept, and
      however it is edited or its schedule changed. */
  lemma {:induction false} ArchivedGainsNothing(w: Workspace, def: Id, actions: seq<Action>)
    requires Sound(w) && IsArchived(w, def)
    requires forall a :: a in actions && a.Restore? ==> a.def != def
    ensures IsArchived(Perform(w, actions), def)
    ensures LiveDates(Perform(w, actions).sweep.tasks, def) <= LiveDates(w.sweep.tasks, def)
    decreases |actions|
  {
    if actions != [] {
      var front, last := actions[..|actions| - 1], actions[|actions| - 1];
      assert last in actions && forall a :: a in front ==> a in actions;
      ArchivedGainsNothing(w, def, front);
      RunsKeepSound(w, front);
      if Applies(Perform(w, front), last) {
        DatesAfterAct(Perform(w, front), last, def);
        PreparingAddsNothing(Perform(w, front).sweep.tasks, last, def);
      }
    }
  }

  /** The first day computeDatesInWindow looks at. */
  function FirstDay(waterline: Option<Date>, today: Date, window: nat): Date {
    Max((if waterline.None? then today - 1 else waterline.value) + 1, today - window)
  }

  /** A sweep goes on after the waterline, or starts today without one, but looks back no further than the
      window is long. */
  lemma FirstDayRule(waterline: Option<Date>, today: Date, window: nat)
    ensures FirstDay(waterline, today, window) == match waterline
      case None => today
      case Some(last) => if last < today - window then today - window else last + 1
  {
  }

  /** The plan a sweep makes for a definition: every due date of the window, from its waterline on. */
  ghost predicate PlannedFrom(p: Plan, rule: Recurrence.Rule, waterline: Option<Date>, today: Date, window: nat) {
    (set d | d in p.dates) == Recurrence.Due(rule, FirstDay(waterline, today, window), today + window)
  }

  /** Restoring a definition clears its waterline and generates at once. That brings its runs back: it is
      live on every date its rule gives from today to the end of the window, whatever was archived or
      generated before, and keeps what it had. */
  lemma RestoringBringsRunsBack(w: Workspace, def: Id, rule: Recurrence.Rule, today: Date, window: nat,
      plans: seq<Plan>, k: nat)
    requires Sound(w) && DistinctDefs(plans) && def in w.defs
    requires k < |plans| && plans[k].def == def && plans[k].failing == {}
    requires PlannedFrom(plans[k], rule, None, today, window)
    ensures LiveDates(Act(w, Restore(def, plans)).sweep.tasks, def)
         == LiveDates(w.sweep.tasks, def) + Recurrence.Due(rule, today, today + window)
  {
    DatesAfterAct(w, Restore(def, plans), def);
    PlannedOnce(plans, k);
    NothingFails(plans[k]);
  }

  // ----- The preview against the change -----

  datatype Impact = Impact(removed: int, detached: int, created: int)

  function Kept(ts: Tasks, def: Id, cutoff: Date): set<Id> {
    Future(ts, def, cutoff) - Removable(ts, def, cutoff)
  }

  /** GetScheduleChangeImpact: the classification, and the number of dates the new rule gives. */
  function Preview(ts: Tasks, def: Id, today: Date, dates: seq<Date>): Impact {
    Impact(|Removable(ts, def, today)|, |Kept(ts, def, today)|, |dates|)
  }

  /** What ChangeRitualDefinitionSchedule reports: nothing for the rule it already has, else the rows
      affected and everything its sweep created. */
  function Report(w: Workspace, def: Id, rule: string, today: Date, plans: seq<Plan>): Impact {
    if !RuleChanges(w, def, rule) then Impact(0, 0, 0)
    else Impact(|Removable(w.sweep.tasks, def, today)|, |Kept(w.sweep.tasks, def, today)|,
                Act(w, ChangeSchedule(def, rule, today, plans)).sweep.created - w.sweep.created)
  }

  ghost predicate Ascending(dates: seq<Date>) {
    forall i, j :: 0 <= i < j < |dates| ==> dates[i] < dates[j]
  }

  lemma {:induction false} AscendingIsASet(dates: seq<Date>)
    requires Ascending(dates)
    ensures |set d | d in dates| == |dates|
  {
    if dates != [] {
      var front, last := dates[..|dates| - 1], dates[|dates| - 1];
      AscendingIsASet(front);
      assert forall d :: d in dates <==> d in front || d == last;
      assert (set d | d in dates) == (set d | d in front) + {last};
    }
  }

  lemma TodayIsKept(ts: Tasks, def: Id, today: Date)
    ensures today in LiveDates(ClearFuture(ts, def, today), def) <==> today in LiveDates(ts, def)
  {
    var after := ClearFuture(ts, def, today);
    ClearingTheFuture(ts, def, today);
    if today in LiveDates(ts, def) {
      var i :| i in ts && Live(ts[i], def) && ts[i].date == today;
      assert after[i] == ts[i];
    }
  }

  lemma ClearedDates(ts: Tasks, def: Id, cutoff: Date)
    ensures forall d :: d in LiveDates(ClearFuture(ts, def, cutoff), def) ==> d <= cutoff
  {
    ClearingTheFuture(ts, def, cutoff);
  }

  lemma NothingFails(p: Plan)
    requires p.failing == {}
    ensures Wanted(p, p.dates) == set d | d in p.dates
  {
  }

  /** The dates of the new rule that get no new instance: those where a statement fails, and today if there
      is one already. */
  function Withheld(ts: Tasks, p: Plan, today: Date): set<Date> {
    Held(p, LiveDates(ts, p.def), today)
  }

  function Held(p: Plan, live: set<Date>, today: Date): set<Date> {
    set d | d in p.dates && (d in p.failing || (d == today && today in live))
  }

  function DatesOf(p: Plan): set<Date> {
    set d | d in p.dates
  }

  lemma Remainder<T>(all: set<T>, held: set<T>)
    requires held <= all
    ensures |all - held| == |all| - |held|
  {
    assert all == (all - held) + held;
  }

  lemma AllButHeld(p: Plan, live: set<Date>, today: Date)
    requires (forall d :: d in p.dates ==> d >= today) && (forall d :: d in live ==> d <= today)
    ensures Held(p, live, today) <= DatesOf(p)
    ensures Wanted(p, p.dates) - live == DatesOf(p) - Held(p, live, today)
  {
    forall d
      ensures d in Wanted(p, p.dates) - live <==> d in DatesOf(p) - Held(p, live, today)
    {
    }
  }

  lemma GapsAfterClearing(ts: Tasks, p: Plan, today: Date)
    requires Ascending(p.dates) && forall d :: d in p.dates ==> d >= today
    ensures Gaps(ClearFuture(ts, p.def, today), p) == |p.dates| - |Withheld(ts, p, today)|
  {
    var live := LiveDates(ClearFuture(ts, p.def, today), p.def);
    ClearedDates(ts, p.def, today);
    TodayIsKept(ts, p.def, today);
    AllButHeld(p, live, today);
    AscendingIsASet(p.dates);
    Remainder(DatesOf(p), Held(p, live, today));
    assert Withheld(ts, p, today) == Held(p, live, today);
  }

  lemma {:induction false} ActiveAreDistinct(plans: seq<Plan>, defs: map<Id, Definition>)
    requires DistinctDefs(plans)
    ensures DistinctDefs(Active(plans, defs)) && forall p :: p in Active(plans, defs) ==> p in plans
    decreases |plans|
  {
    if plans != [] {
      var front, last := plans[..|plans| - 1], plans[|plans| - 1];
      ActiveAreDistinct(front, defs);
      forall p | p in Active(front, defs)
        ensures p.def != last.def
      {
        var k :| 0 <= k < |front| && front[k] == p;
        assert plans[k].def != last.def;
      }
    }
  }

  /** What the sweep of a change lacks for the other definitions. */
  function OtherGaps(ts: Tasks, plans: seq<Plan>, defs: map<Id, Definition>, def: Id): nat {
    Missing(ts, Active(plans, defs - {def}))
  }

  lemma MissingStep(ts: Tasks, plans: seq<Plan>, defs: map<Id, Definition>)
    requires plans != []
    ensures var (front, last) := (plans[..|plans| - 1], plans[|plans| - 1]);
      Missing(ts, Active(plans, defs))
      == Missing(ts, Active(front, defs)) + if IsActive(defs, last.def) then Gaps(ts, last) else 0
  {
    var front, last := plans[..|plans| - 1], plans[|plans| - 1];
    if IsActive(defs, last.def) {
      assert (Active(front, defs) + [last])[..|Active(front, defs)|] == Active(front, defs);
    }
  }

  lemma {:induction false} OthersAndOwn(ts: Tasks, plans: seq<Plan>, defs: map<Id, Definition>, k: nat)
    requires DistinctDefs(plans) && k < |plans|
    ensures Missing(ts, Active(plans, defs))
         == OtherGaps(ts, plans, defs, plans[k].def) + if IsActive(defs, plans[k].def) then Gaps(ts, plans[k]) else 0
    decreases |plans|
  {
    var n := |plans| - 1;
    if k < n {
      var front, own := plans[..n], plans[k];
      assert front[k] == own && plans[n].def != own.def;
      OthersAndOwn(ts, front, defs, k);
      OthersAndOwnStep(ts, plans, defs, own.def);
    } else {
      OwnIsLast(ts, plans, defs);
    }
  }

  lemma OthersAndOwnStep(ts: Tasks, plans: seq<Plan>, defs: map<Id, Definition>, def: Id)
    requires plans != [] && plans[|plans| - 1].def != def
    ensures var front := plans[..|plans| - 1];
      Missing(ts, Active(plans, defs)) - OtherGaps(ts, plans, defs, def)
      == Missing(ts, Active(front, defs)) - OtherGaps(ts, front, defs, def)
  {
    MissingStep(ts, plans, defs);
    MissingStep(ts, plans, defs - {def});
    assert IsActive(defs - {def}, plans[|plans| - 1].def) <==> IsActive(defs, plans[|plans| - 1].def);
  }

  lemma OwnIsLast(ts: Tasks, plans: seq<Plan>, defs: map<Id, Definition>)
    requires DistinctDefs(plans) && plans != []
    ensures var own := plans[|plans| - 1];
      Missing(ts, Active(plans, defs)) - OtherGaps(ts, plans, defs, own.def)
      == if IsActive(defs, own.def) then Gaps(ts, own) else 0
  {
    var front, own := plans[..|plans| - 1], plans[|plans| - 1];
    MissingStep(ts, plans, defs);
    MissingStep(ts, plans, defs - {own.def});
    OnlyOthers(front, defs, own.def);
  }

  lemma {:induction false} OnlyOthers(plans: seq<Plan>, defs: map<Id, Definition>, def: Id)
    requires forall i :: 0 <= i < |plans| ==> plans[i].def != def
    ensures Active(plans, defs - {def}) == Active(plans, defs)
    decreases |plans|
  {
    if plans != [] {
      OnlyOthers(plans[..|plans| - 1], defs, def);
    }
  }

  lemma CreatedByChange(w: Workspace, def: Id, rule: string, today: Date, plans: seq<Plan>, k: nat)
    requires Sound(w) && DistinctDefs(plans) && RuleChanges(w, def, rule)
    requires k < |plans| && plans[k].def == def && Ascending(plans[k].dates)
    requires forall d :: d in plans[k].dates ==> d >= today
    ensures Report(w, def, rule, today, plans).created
         == OtherGaps(ClearFuture(w.sweep.tasks, def, today), plans, w.defs, def)
            + if w.defs[def].archived then 0 else |plans[k].dates| - |Withheld(w.sweep.tasks, plans[k], today)|
  {
    var a := ChangeSchedule(def, rule, today, plans);
    var cleared, defs := ClearFuture(w.sweep.tasks, def, today), DefsAfter(w.defs, a);
    ActKeepsSound(w, a);
    ActiveAreDistinct(plans, defs);
    SweepCountsTheGaps(w.sweep.(tasks := cleared), Active(plans, defs));
    OthersAndOwn(cleared, plans, defs, k);
    GapsAfterClearing(w.sweep.tasks, plans[k], today);
    assert defs - {def} == w.defs - {def};
    assert OtherGaps(cleared, plans, w.defs, def) == OtherGaps(cleared, plans, defs, def);
  }

  /** The preview is said to be what will be executed. It does not look at the current rule, at whether the
      definition is archived, at today's instance or at other definitions, and the execution does. So, for
      every definition, rule and sweep: removals and detachments agree if and only if the rule changes or
      there are none; and the number of created instances if and only if, for an unchanged rule, it gives no
      date; for a changed one, what the sweep creates for others happens to be what it withholds from this
      definition, which for an archived one is everything. */
  lemma PreviewAgreesIff(w: Workspace, def: Id, rule: string, today: Date, plans: seq<Plan>, k: nat)
    requires Sound(w) && DistinctDefs(plans) && def in w.defs
    requires k < |plans| && plans[k].def == def && Ascending(plans[k].dates)
    requires forall d :: d in plans[k].dates ==> d >= today
    ensures var ts, p := w.sweep.tasks, plans[k];
      var preview, report := Preview(ts, def, today, p.dates), Report(w, def, rule, today, plans);
      && (report.removed == preview.removed <==> RuleChanges(w, def, rule) || Removable(ts, def, today) == {})
      && (report.detached == preview.detached <==> RuleChanges(w, def, rule) || Kept(ts, def, today) == {})
      && (report.created == preview.created <==>
            if !RuleChanges(w, def, rule) then p.dates == []
            else OtherGaps(ClearFuture(ts, def, today), plans, w.defs, def)
                 == if w.defs[def].archived then |p.dates| else |Withheld(ts, p, today)|)
  {
    if RuleChanges(w, def, rule) {
      CreatedByChange(w, def, rule, today, plans, k);
    }
  }

  /** After the whole change to another rule, the definition is live after today on exactly the dates of the
      new rule that did not fail, and on none if it is archived. Asked for the rule it has, it is live where
      it was, whatever that rule says. */
  lemma ChangedScheduleIsTheNewRule(w: Workspace, def: Id, rule: string, today: Date, plans: seq<Plan>, k: nat, d: Date)
    requires Sound(w) && DistinctDefs(plans) && def in w.defs
    requires k < |plans| && plans[k].def == def && d > today
    ensures d in LiveDates(Act(w, ChangeSchedule(def, rule, today, plans)).sweep.tasks, def)
       <==> if RuleChanges(w, def, rule)
            then d in plans[k].dates && d !in plans[k].failing && !w.defs[def].archived
            else d in LiveDates(w.sweep.tasks, def)
  {
    if RuleChanges(w, def, rule) {
      ClearingTheFuture(w.sweep.tasks, def, today);
      DatesAfterAct(w, ChangeSchedule(def, rule, today, plans), def);
      PlannedOnce(plans, k);
    }
  }

  /** Editing a definition replaces its rule and leaves its instances. Asking for that rule as a schedule
      change afterwards is then a request for the rule it has: the instances of the old one all stay. */
  lemma EditThenChangeDoesNothing(w: Workspace, def: Id, rule: string, today: Date, plans: seq<Plan>)
    requires def in w.defs
    ensures Perform(w, [Edit(def, rule), ChangeSchedule(def, rule, today, plans)]).sweep == w.sweep
  {
    var actions := [Edit(def, rule), ChangeSchedule(def, rule, today, plans)];
    assert actions[..1] == [actions[0]] && actions[..1][..0] == [];
    assert Perform(w, actions[..1]) == Act(w, actions[0]);
  }

  lemma {:induction false} PlannedOnce(plans: seq<Plan>, k: nat)
    requires DistinctDefs(plans) && k < |plans|
    ensures Planned(plans, plans[k].def) == Wanted(plans[k], plans[k].dates)
    decreases |plans|
  {
    var n := |plans| - 1;
    if k < n {
      PlannedOnce(plans[..n], k);
      assert plans[k].def != plans[n].def;
    } else {
      NotPlanned(plans[..n], plans[k].def);
    }
  }

  // ----- The tables updated in place -----

  /** classifyScheduleChangeImpact. */
  method Classify(ids: seq<Id>, ts: Tasks) returns (untouched: seq<Id>, touched: seq<Id>)
    requires forall i :: i in ids ==> i in ts
    ensures multiset(untouched) + multiset(touched) == multiset(ids)
    ensures forall i :: i in untouched ==> i in ts && Untouched(ts[i])
    ensures forall i :: i in touched ==> i in ts && !Untouched(ts[i])
  {
    untouched, touched := [], [];
    var n := 0;
    while n < |ids|
      invariant 0 <= n <= |ids|
      invariant multiset(untouched) + multiset(touched) == multiset(ids[..n])
      invariant forall i :: i in untouched ==> i in ts && Untouched(ts[i])
      invariant forall i :: i in touched ==> i in ts && !Untouched(ts[i])
    {
      assert ids[..n + 1] == ids[..n] + [ids[n]];
      assert ids[n] in ids;
      if Untouched(ts[ids[n]]) {
        untouched := untouched + [ids[n]];
      } else {
        touched := touched + [ids[n]];
      }
      n := n + 1;
    }
    assert ids[..n] == ids;
  }

  class RitualTables {
    var tasks: Tasks
    var next: Id

    constructor ()
      ensures tasks == map[] && next == 0
    {
      tasks, next := map[], 0;
    }

    method SoftDeleteTasksByIDs(ids: seq<Id>)
      modifies this
      ensures tasks == SoftDelete(old(tasks), set i: Id | i in ids) && next == old(next)
    {
      var before := tasks;
      var n := 0;
      while n < |ids|
        invariant 0 <= n <= |ids|
        invariant tasks == SoftDelete(before, set i: Id | i in ids[..n]) && next == old(next)
      {
        if ids[n] in tasks {
          tasks := tasks[ids[n] := tasks[ids[n]].(deleted := true)];
        }
        assert forall i :: i in ids[..n + 1] <==> i in ids[..n] || i == ids[n];
        n := n + 1;
      }
      assert ids[..n] == ids;
    }

    method DetachRitualInstancesByIDs(ids: seq<Id>)
      modifies this
      ensures tasks == Detach(old(tasks), set i: Id | i in ids) && next == old(next)
    {
      var before := tasks;
      var n := 0;
      while n < |ids|
        invariant 0 <= n <= |ids|
        invariant tasks == Detach(before, set i: Id | i in ids[..n]) && next == old(next)
      {
        if ids[n] in tasks {
          tasks := tasks[ids[n] := tasks[ids[n]].(def := None, ritual := false, detached := true)];
        }
        assert forall i :: i in ids[..n + 1] <==> i in ids[..n] || i == ids[n];
        n := n + 1;
      }
      assert ids[..n] == ids;
    }

    /** The inner loop of GenerateRitualInstances. */
    method GenerateForDefinition(p: Plan) returns (created: nat)
      modifies this
      ensures Sweep(tasks, next, created) == GenerateDates(Sweep(old(tasks), old(next), 0), p, p.dates)
    {
      created := 0;
      ghost var start := Sweep(tasks, next, 0);
      var n := 0;
      while n < |p.dates|
        invariant 0 <= n <= |p.dates|
        invariant Sweep(tasks, next, created) == GenerateDates(start, p, p.dates[..n])
      {
        var date := p.dates[n];
        assert p.dates[..n + 1][..n] == p.dates[..n];
        var present := exists i :: i in tasks && Live(tasks[i], p.def) && tasks[i].date == date;
        assert present <==> date in LiveDates(tasks, p.def);
        if date !in p.failing && !present {
          tasks := tasks[next := NewInstance(p.def, date, p.pending)];
          next := next + 1;
          created := created + 1;
        }
        n := n + 1;
      }
      assert p.dates[..n] == p.dates;
    }

    method ArchiveRitualDefinition(def: Id)
      modifies this
      ensures tasks.Keys == old(tasks).Keys && next == old(next)
      ensures forall i :: i in tasks ==>
        tasks[i] == if Live(old(tasks)[i], def) && old(tasks)[i].pending
                    then old(tasks)[i].(deleted := true) else old(tasks)[i]
      ensures tasks == SoftDelete(old(tasks), Pending(old(tasks), def))
    {
      tasks := map i | i in tasks :: if Live(tasks[i], def) && tasks[i].pending
        then tasks[i].(deleted := true) else tasks[i];
    }

    /** Steps 1 and 2 of ChangeRitualDefinitionSchedule on the listed future instances, in any order. */
    method ClearFutureInstances(def: Id, cutoff: Date, listed: seq<Id>) returns (removed: nat, detached: nat)
      requires forall i :: i in listed <==> i in Future(tasks, def, cutoff)
      requires |listed| == |Future(tasks, def, cutoff)|
      modifies this
      ensures tasks == ClearFuture(old(tasks), def, cutoff) && next == old(next)
      ensures removed == |Removable(old(tasks), def, cutoff)|
      ensures detached == |Future(old(tasks), def, cutoff) - Removable(old(tasks), def, cutoff)|
    {
      ghost var before := tasks;
      var untouched, touched := Classify(listed, tasks);
      BucketsAreTheSets(before, def, cutoff, listed, untouched, touched);
      SoftDeleteTasksByIDs(untouched);
      DetachRitualInstancesByIDs(touched);
      removed, detached := |untouched|, |touched|;
    }
  }

  lemma {:induction false} NoLargerThanTheList(ids: seq<Id>)
    ensures |set i: Id | i in ids| <= |ids|
  {
    var all := set i: Id | i in ids;
    if ids == [] {
      assert all == {};
    } else {
      var front, last := ids[..|ids| - 1], ids[|ids| - 1];
      NoLargerThanTheList(front);
      assert ids == front + [last];
      var some := set i: Id | i in front;
      assert all == some + {last};
    }
  }

  lemma BucketsAreTheSets(ts: Tasks, def: Id, cutoff: Date, listed: seq<Id>, untouched: seq<Id>, touched: seq<Id>)
    requires forall i :: i in listed <==> i in Future(ts, def, cutoff)
    requires |listed| == |Future(ts, def, cutoff)|
    requires multiset(untouched) + multiset(touched) == multiset(listed)
    requires forall i :: i in untouched ==> i in ts && Untouched(ts[i])
    requires forall i :: i in touched ==> i in ts && !Untouched(ts[i])
    ensures (set i: Id | i in untouched) == Removable(ts, def, cutoff)
    ensures (set i: Id | i in touched) == Future(ts, def, cutoff) - Removable(ts, def, cutoff)
    ensures |untouched| == |Removable(ts, def, cutoff)|
    ensures |touched| == |Future(ts, def, cutoff) - Removable(ts, def, cutoff)|
  {
    assert |multiset(untouched) + multiset(touched)| == |untouched| + |touched|;
    forall i
      ensures i in listed <==> i in untouched || i in touched
    {
      assert i in multiset(listed) <==> i in multiset(untouched) + multiset(touched);
    }
    NoLargerThanTheList(untouched);
    NoLargerThanTheList(touched);
    assert Future(ts, def, cutoff)
           == Removable(ts, def, cutoff) + (Future(ts, def, cutoff) - Removable(ts, def, cutoff));
  }
}
