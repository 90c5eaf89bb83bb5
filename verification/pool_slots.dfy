/** On-shift pool slots: one record per ritual instance and department pool, bound to whoever is on
    shift, followed through swaps, withdrawn, handed over, or escalated. */
module PoolSlots {
  import opened Prelude
  import CompareAndSet

  type Id = nat

  datatype State = AwaitingShift | Resolved | ClosedUnresolved
  datatype Reason = NoRoster | ManualOverride

  /** A ritual_instance_pool_assignment row. */
  datatype Slot = Slot(
    task: Id, pool: Id, state: State, reason: Option<Reason>, assignee: Option<Id>,
    resolveBy: int, resolvedAt: Option<int>, escalatedAt: Option<int>)

  /** The rows by id, and every id handed out so far (uuidv7() never repeats one). */
  datatype Store = Store(slots: map<Id, Slot>, used: set<Id>)

  datatype Stmt =
    | Upsert(id: Id, task: Id, pool: Id, state: State, assignee: Option<Id>, resolveBy: int, resolvedAt: Option<int>)
    | Resolve(id: Id, expected: State, employee: Id, now: int)
    | Close(id: Id, expected: State, reason: Reason, escalatedAt: Option<int>)
    | Withdraw(id: Id)
    | Delete(id: Id)

  predicate Taken(s: Store, task: Id, pool: Id) {
    exists i :: i in s.slots && s.slots[i].task == task && s.slots[i].pool == pool
  }

  predicate InState(s: Store, id: Id, state: State) {
    id in s.slots && s.slots[id].state == state
  }

  /** Whether the statement returns a row (deletes, which return nothing: whether it removes one). */
  predicate Hits(s: Store, q: Stmt) {
    match q
    case Upsert(id, task, pool, _, _, _, _) => !Taken(s, task, pool)
    case Resolve(id, expected, _, _) => InState(s, id, expected)
    case Close(id, expected, _, _) => InState(s, id, expected)
    case Withdraw(id) => InState(s, id, Resolved)
    case Delete(id) => id in s.slots
  }

  /** The row a statement that hits leaves behind. */
  function Row(s: Store, q: Stmt): Slot
    requires Hits(s, q) && !q.Delete?
  {
    match q
    case Upsert(id, task, pool, state, assignee, resolveBy, resolvedAt) =>
      Slot(task, pool, state, None, assignee, resolveBy, resolvedAt, None)
    case Resolve(id, _, employee, now) =>
      s.slots[id].(state := Resolved, assignee := Some(employee), resolvedAt := Some(now), reason := None)
    case Close(id, _, reason, escalatedAt) =>
      s.slots[id].(state := ClosedUnresolved, reason := Some(reason), escalatedAt := escalatedAt)
    case Withdraw(id) =>
      s.slots[id].(state := AwaitingShift, assignee := None, resolvedAt := None)
  }

  function Exec(s: Store, q: Stmt): Store {
    if !Hits(s, q) then s
    else if q.Delete? then s.(slots := s.slots - {q.id})
    else if q.Upsert? then Store(s.slots[q.id := Row(s, q)], s.used + {q.id})
    else s.(slots := s.slots[q.id := Row(s, q)])
  }

  /** The parameters the callers pass: generation and adoption insert, the sweep binds and rebinds,
      escalation closes what waits, an override closes what is bound. A new row gets a new id. */
  predicate Called(s: Store, q: Stmt) {
    match q
    case Upsert(id, _, _, state, assignee, _, resolvedAt) =>
      && id !in s.used
      && (if state.Resolved? then assignee.Some? && resolvedAt.Some?
          else state.AwaitingShift? && assignee.None? && resolvedAt.None?)
    case Resolve(_, expected, _, _) => expected != ClosedUnresolved
    case Close(_, expected, reason, escalatedAt) =>
      if reason.NoRoster? then expected.AwaitingShift? else expected.Resolved? && escalatedAt.None?
    case _ => true
  }

  /** Any interleaving of statements of any number of passes, generations and handovers. */
  ghost predicate Interleaving(s: Store, qs: seq<Stmt>)
    decreases |qs|
  {
    qs != [] ==> Interleaving(s, qs[..|qs| - 1]) && Called(After(s, qs[..|qs| - 1]), qs[|qs| - 1])
  }

  function After(s: Store, qs: seq<Stmt>): Store
    decreases |qs|
  {
    if qs == [] then s else Exec(After(s, qs[..|qs| - 1]), qs[|qs| - 1])
  }

  const EMPTY := Store(map[], {})

  /** One record for each task and pool: once one is made, another is refused for the same task and pool, and
      for no other. */
  lemma OneRecordEach(s: Store, made: Stmt, q: Stmt)
    requires made.Upsert? && q.Upsert? && made.id !in s.slots && Hits(s, made)
    ensures Hits(Exec(s, made), q) <==> Hits(s, q) && !(q.task == made.task && q.pool == made.pool)
  {
    var t := Exec(s, made);
    assert t.slots[made.id].task == made.task && t.slots[made.id].pool == made.pool;
    if Taken(s, q.task, q.pool) {
      var i :| i in s.slots && s.slots[i].task == q.task && s.slots[i].pool == q.pool;
      assert t.slots[i] == s.slots[i];
    }
  }

  // ----- What every record looks like -----

  predicate WellShaped(x: Slot) {
    match x.state
    case AwaitingShift => x.assignee.None? && x.resolvedAt.None? && x.reason.None? && x.escalatedAt.None?
    case Resolved => x.assignee.Some? && x.resolvedAt.Some? && x.reason.None? && x.escalatedAt.None?
    case ClosedUnresolved =>
      && x.reason.Some?
      && (x.reason == Some(NoRoster) ==> x.assignee.None? && x.resolvedAt.None?)
      && (x.reason == Some(ManualOverride) ==> x.assignee.Some? && x.resolvedAt.Some? && x.escalatedAt.None?)
  }

  ghost predicate OnePerPool(s: Store) {
    forall i, j ::
      i in s.slots && j in s.slots && s.slots[i].task == s.slots[j].task && s.slots[i].pool == s.slots[j].pool
      ==> i == j
  }

  ghost predicate Valid(s: Store) {
    && OnePerPool(s)
    && s.slots.Keys <= s.used
    && (forall i :: i in s.slots ==> WellShaped(s.slots[i]))
  }

  lemma ExecKeepsValid(s: Store, q: Stmt)
    requires Valid(s) && Called(s, q)
    ensures Valid(Exec(s, q))
  {
    if Hits(s, q) && !q.Delete? {
      assert q.Upsert? ==> forall i :: i in s.slots ==> !(s.slots[i].task == q.task && s.slots[i].pool == q.pool);
      assert !q.Upsert? ==> WellShaped(s.slots[q.id]);
    }
  }

  /** In every reachable table: one record per instance and pool; an awaiting record has no assignee,
      resolved time, reason or escalation; a resolved one has the first two and not the others; a closed
      one has a reason, and only an unrostered one an escalation. */
  lemma {:induction false} EveryTableIsValid(qs: seq<Stmt>)
    requires Interleaving(EMPTY, qs)
    ensures Valid(After(EMPTY, qs))
    decreases |qs|
  {
    if qs != [] {
      EveryTableIsValid(qs[..|qs| - 1]);
      ExecKeepsValid(After(EMPTY, qs[..|qs| - 1]), qs[|qs| - 1]);
    }
  }

  // ----- Closed is final -----

  /** Whatever follows, a closed record is untouched until somebody deletes it, and never comes back. */
  lemma {:induction false} ClosedIsFinal(s: Store, qs: seq<Stmt>, id: Id)
    requires id in s.used && Interleaving(s, qs) && (id in s.slots ==> s.slots[id].state.ClosedUnresolved?)
    ensures id in After(s, qs).used
    ensures id in After(s, qs).slots ==> id in s.slots && After(s, qs).slots[id] == s.slots[id]
    decreases |qs|
  {
    if qs != [] {
      ClosedIsFinal(s, qs[..|qs| - 1], id);
    }
  }

  // ----- Counting what happened to one record -----

  /** A record without an assignee gets one; it loses it; it is closed. */
  predicate Binds(s: Store, q: Stmt, id: Id) {
    Hits(s, q) && q.id == id && ((q.Upsert? && q.state.Resolved?) || (q.Resolve? && q.expected.AwaitingShift?))
  }

  predicate Withdraws(s: Store, q: Stmt, id: Id) {
    Hits(s, q) && q == Withdraw(id)
  }

  predicate Closes(s: Store, q: Stmt, id: Id) {
    Hits(s, q) && q.Close? && q.id == id
  }

  datatype Tally = Tally(binds: nat, withdrawals: nat, closings: nat)

  function Count(s: Store, qs: seq<Stmt>, id: Id): Tally
    decreases |qs|
  {
    if qs == [] then Tally(0, 0, 0) else
      var t, b, q := Count(s, qs[..|qs| - 1], id), After(s, qs[..|qs| - 1]), qs[|qs| - 1];
      Tally(t.binds + (if Binds(b, q, id) then 1 else 0),
            t.withdrawals + (if Withdraws(b, q, id) then 1 else 0),
            t.closings + (if Closes(b, q, id) then 1 else 0))
  }

  predicate Balanced(s: Store, t: Tally, id: Id) {
    if id in s.slots then
      && t.binds == t.withdrawals + (if s.slots[id].assignee.Some? then 1 else 0)
      && t.closings == if s.slots[id].state.ClosedUnresolved? then 1 else 0
    else if id in s.used then
      t.withdrawals <= t.binds <= t.withdrawals + 1 && t.closings <= 1
    else t == Tally(0, 0, 0)
  }

  lemma StepStaysBalanced(s: Store, t: Tally, q: Stmt, id: Id)
    requires Valid(s) && Called(s, q) && Balanced(s, t, id)
    ensures Balanced(Exec(s, q), Tally(t.binds + (if Binds(s, q, id) then 1 else 0),
                                       t.withdrawals + (if Withdraws(s, q, id) then 1 else 0),
                                       t.closings + (if Closes(s, q, id) then 1 else 0)), id)
  {
    assert id in s.slots ==> WellShaped(s.slots[id]);
  }

  /** Over every interleaving, and every prefix of one: bindings and withdrawals of a record alternate,
      a binding first; it holds an assignee exactly between the two; and it is closed, hence escalated,
      at most once in its life. */
  lemma {:induction false} BindingsAndWithdrawalsAlternate(qs: seq<Stmt>, id: Id)
    requires Interleaving(EMPTY, qs)
    ensures var t, s := Count(EMPTY, qs, id), After(EMPTY, qs);
      && t.withdrawals <= t.binds <= t.withdrawals + 1
      && t.closings <= 1
      && (id in s.slots ==> (s.slots[id].assignee.Some? <==> t.binds == t.withdrawals + 1))
      && (id in s.slots ==> (s.slots[id].state.ClosedUnresolved? <==> t.closings == 1))
    ensures Balanced(After(EMPTY, qs), Count(EMPTY, qs, id), id)
    decreases |qs|
  {
    if qs != [] {
      var before := qs[..|qs| - 1];
      BindingsAndWithdrawalsAlternate(before, id);
      EveryTableIsValid(before);
      StepStaysBalanced(After(EMPTY, before), Count(EMPTY, before, id), qs[|qs| - 1], id);
    }
  }

  // ----- Overlapping passes: the state column as a compare-and-set column -----

  function StateColumn(s: Store): map<Id, State> {
    map i | i in s.slots :: s.slots[i].state
  }

  /** What a pass may decide for a record, from the state it listed. */
  predicate MayMove(from: State, to: State) {
    match from
    case AwaitingShift => to.Resolved? || to.ClosedUnresolved?
    case Resolved => true
    case ClosedUnresolved => false
  }

  const RULE := (id: Id, from: State, to: State) => MayMove(from, to)

  /** Every guarded statement is one Attempt on the column, made from the state it expects. */
  lemma GuardedStatementIsAnAttempt(s: Store, q: Stmt)
    requires Called(s, q) && !q.Upsert? && !q.Delete?
    ensures var (from, to) := match q
        case Resolve(_, e, _, _) => (e, Resolved)
        case Close(_, e, _, _) => (e, ClosedUnresolved)
        case _ => (Resolved, AwaitingShift);
      && MayMove(from, to)
      && (Hits(s, q) <==> CompareAndSet.Lookup(StateColumn(s), q.id) == Some(from))
      && StateColumn(Exec(s, q)) == if Hits(s, q) then StateColumn(s)[q.id := to] else StateColumn(s)
  {
  }

  /** Nobody but the passes writes to a record, except to delete it. */
  ghost predicate OnlyPassesAndDeletion(log: seq<CompareAndSet.Write<State>>, c: Id) {
    forall n :: 0 <= n < |log| && log[n].cell == c && log[n].author.None? ==> log[n].to.None?
  }

  lemma {:induction false} ClosedColumnStaysClosed(cells: map<Id, State>, log: seq<CompareAndSet.Write<State>>,
      c: Id, j: nat, k: nat)
    requires CompareAndSet.Linked(cells, log) && OnlyPassesAndDeletion(log, c)
    requires forall n :: 0 <= n < |log| ==> CompareAndSet.Ruled(RULE, log[n])
    requires j < k <= |log| && log[j].cell == c && log[j].to == Some(ClosedUnresolved)
    ensures CompareAndSet.Value(cells, log[..k], c) in {Some(ClosedUnresolved), None}
    decreases k
  {
    assert log[..k][..k - 1] == log[..k - 1];
    if j < k - 1 {
      ClosedColumnStaysClosed(cells, log, c, j, k - 1);
      assert CompareAndSet.LinkedAt(cells, log, k - 1) && CompareAndSet.Ruled(RULE, log[k - 1]);
    }
  }

  /** Any number of overlapping passes escalate a record once: after the write that closes it no pass
      writes to it again, so there is one write to announce, and EveryRunIsHonest announces it once. */
  lemma OnePassEscalates(cells: map<Id, State>, steps: seq<CompareAndSet.Step<State>>, j: nat, k: nat)
    requires var log := CompareAndSet.Run(RULE, CompareAndSet.Start(cells), steps).log;
      && j < k < |log| && log[j].to == Some(ClosedUnresolved) && OnlyPassesAndDeletion(log, log[j].cell)
      && log[k].author.Some?
    ensures var log := CompareAndSet.Run(RULE, CompareAndSet.Start(cells), steps).log;
      log[k].cell != log[j].cell
  {
    var log := CompareAndSet.Run(RULE, CompareAndSet.Start(cells), steps).log;
    CompareAndSet.EveryRunIsFaithful(RULE, cells, steps);
    ClosedColumnStaysClosed(cells, log, log[j].cell, j, k);
    assert CompareAndSet.LinkedAt(cells, log, k) && CompareAndSet.Ruled(RULE, log[k]);
  }

  /** Any number of overlapping passes bind a waiting record once: two bindings have a withdrawal (or
      another return to waiting) between them. */
  lemma OnePassBinds(cells: map<Id, State>, steps: seq<CompareAndSet.Step<State>>, j: nat, k: nat)
    requires var log := CompareAndSet.Run(RULE, CompareAndSet.Start(cells), steps).log;
      && j < k < |log| && log[j].cell == log[k].cell
      && log[j].to == Some(Resolved) && log[k].from == Some(AwaitingShift)
    ensures CompareAndSet.PutBack(CompareAndSet.Run(RULE, CompareAndSet.Start(cells), steps).log, j, k,
      CompareAndSet.Run(RULE, CompareAndSet.Start(cells), steps).log[k].cell, AwaitingShift)
  {
    CompareAndSet.OneOfManyMakesTheChange(RULE, cells, steps, j, k);
  }

  /** Following a swap is the one move that the guard does not make exclusive, because the record is
      resolved before and after: of any number of passes that see the same swap, however they overlap, all
      write. Of those that decided to bind, withdraw, override or escalate, one does. */
  lemma ExclusiveExceptForSwaps(w: CompareAndSet.World<State>, P: set<Id>, id: Id, from: State, to: State,
    steps: seq<CompareAndSet.Step<State>>)
    requires MayMove(from, to) && CompareAndSet.Racing(w, P, id, from, (p: Id) => to)
    requires CompareAndSet.Undisturbed(RULE, w, P, id, steps)
    requires CompareAndSet.Waiting(CompareAndSet.Run(RULE, w, steps), P) == {}
    ensures |CompareAndSet.NewWrites(w, CompareAndSet.Run(RULE, w, steps), id)|
         == if from.Resolved? && to.Resolved? then |P| else 1
  {
    CompareAndSet.ExclusiveIffTheValueChanges(RULE, w, P, id, from, to, steps);
  }

  /** Exactly one of any number of overlapping passes escalates a waiting record, and alerts once. */
  lemma ExactlyOneEscalates(cells: map<Id, State>, before: seq<CompareAndSet.Step<State>>, P: set<Id>, id: Id,
    steps: seq<CompareAndSet.Step<State>>) returns (n: nat)
    requires var w := CompareAndSet.Run(RULE, CompareAndSet.Start(cells), before);
      && CompareAndSet.Racing(w, P, id, AwaitingShift, (p: Id) => ClosedUnresolved)
      && CompareAndSet.Undisturbed(RULE, w, P, id, steps)
      && CompareAndSet.Diligent(RULE, CompareAndSet.Start(cells), before + steps)
      && (forall p :: p in P ==> CompareAndSet.PhaseOf(CompareAndSet.Run(RULE, w, steps), p).Idle?)
    ensures var w := CompareAndSet.Run(RULE, CompareAndSet.Start(cells), before);
      var v := CompareAndSet.Run(RULE, w, steps);
      && CompareAndSet.NewWrites(w, v, id) == {n} && n < |v.log|
      && v.log[n].author.Some? && v.log[n].author.value in P && CompareAndSet.Times(v.told, n) == 1
      && CompareAndSet.Lookup(v.cells, id) == Some(ClosedUnresolved)
  {
    var w := CompareAndSet.Run(RULE, CompareAndSet.Start(cells), before);
    var target := (p: Id) => ClosedUnresolved;
    n := CompareAndSet.ExactlyOneMakesAndAnnouncesIt(RULE, cells, before, P, id, AwaitingShift, target, steps);
    CompareAndSet.FirstToAttemptHasIt(RULE, w, P, id, AwaitingShift, target, steps);
    assert n in CompareAndSet.NewWrites(w, CompareAndSet.Run(RULE, w, steps), id);
  }

  // ----- Overlapping passes binding one waiting slot: who ends up on the task -----

  /** A pass puts its pick on the task, then records it in the slot if the slot still waits. */
  datatype Move = Place(pass: nat) | Record(pass: nat)

  /** The slot's assignee if bound, the people on the task, whom the passes notified, and the passes that
      have placed their pick and not yet gone on to record it. */
  datatype Race = Race(bound: Option<Id>, seated: set<Id>, notified: seq<Id>, placed: set<nat>, finished: set<nat>)

  function Advance(picks: map<nat, Id>, r: Race, m: Move): Race {
    match m
    case Place(p) =>
      if p in picks && p !in r.placed && p !in r.finished
      then r.(seated := r.seated + {picks[p]}, placed := r.placed + {p}) else r
    case Record(p) =>
      if p !in picks || p !in r.placed then r
      else if r.bound.None?
      then r.(bound := Some(picks[p]), notified := r.notified + [picks[p]],
              placed := r.placed - {p}, finished := r.finished + {p})
      else r.(placed := r.placed - {p}, finished := r.finished + {p})
  }

  function Play(picks: map<nat, Id>, r: Race, moves: seq<Move>): Race
    decreases |moves|
  {
    if moves == [] then r else Advance(picks, Play(picks, r, moves[..|moves| - 1]), moves[|moves| - 1])
  }

  function PicksOf(picks: map<nat, Id>, passes: set<nat>): set<Id> {
    set p | p in passes && p in picks :: picks[p]
  }

  ghost predicate RaceOk(picks: map<nat, Id>, before: set<Id>, r: Race) {
    && r.placed !! r.finished && r.placed + r.finished <= picks.Keys
    && r.seated == before + PicksOf(picks, r.placed + r.finished)
    && (r.bound.None? ==> r.notified == [] && r.finished == {})
    && (r.bound.Some? ==> r.notified == [r.bound.value] && r.bound.value in PicksOf(picks, r.finished))
  }

  lemma AdvanceKeepsRaceOk(picks: map<nat, Id>, before: set<Id>, r: Race, m: Move)
    requires RaceOk(picks, before, r)
    ensures RaceOk(picks, before, Advance(picks, r, m))
  {
    var v := Advance(picks, r, m);
    if m.Place? {
      if v != r {
        assert PicksOf(picks, v.placed + v.finished) == PicksOf(picks, r.placed + r.finished) + {picks[m.pass]};
        assert v.finished == r.finished;
      }
    } else if v != r {
      assert v.placed + v.finished == r.placed + r.finished;
      assert picks[m.pass] in PicksOf(picks, v.finished);
    }
  }

  lemma {:induction false} EveryRaceIsOk(picks: map<nat, Id>, before: set<Id>, moves: seq<Move>)
    ensures RaceOk(picks, before, Play(picks, Race(None, before, [], {}, {}), moves))
    decreases |moves|
  {
    if moves != [] {
      EveryRaceIsOk(picks, before, moves[..|moves| - 1]);
      AdvanceKeepsRaceOk(picks, before, Play(picks, Race(None, before, [], {}, {}), moves[..|moves| - 1]),
                        moves[|moves| - 1]);
    }
  }

  /** Passes that run one after the other: each places its pick and goes on to record it. */
  lemma {:induction false} PassesCanFinish(picks: map<nat, Id>, before: set<Id>, passes: seq<nat>)
      returns (moves: seq<Move>)
    requires forall p :: p in passes ==> p in picks
    ensures var end := Play(picks, Race(None, before, [], {}, {}), moves);
      end.placed == {} && end.finished == set p: nat | p in passes
    decreases |passes|
  {
    if passes == [] {
      moves := [];
    } else {
      var n := |passes| - 1;
      var p := passes[n];
      var some := PassesCanFinish(picks, before, passes[..n]);
      moves := some + [Place(p), Record(p)];
      assert moves[..|moves| - 1] == some + [Place(p)] && (some + [Place(p)])[..|some|] == some;
      assert forall q :: q in passes <==> q in passes[..n] || q == p;
    }
  }

  /** However the passes overlap, one pick is recorded and notified; but the pick of every pass stays on
      the task, recorded or not. So the slot's assignee is the only one added exactly when all passes
      happened to pick the same person. */
  lemma LosersStayOnTheTask(picks: map<nat, Id>, before: set<Id>, moves: seq<Move>)
    requires picks != map[]
    requires Play(picks, Race(None, before, [], {}, {}), moves).finished == picks.Keys
    ensures var end := Play(picks, Race(None, before, [], {}, {}), moves);
      && end.bound.Some? && end.notified == [end.bound.value] && end.bound.value in picks.Values
      && end.seated == before + picks.Values
      && (end.seated == before + {end.bound.value} <==>
            forall p :: p in picks ==> picks[p] == end.bound.value || picks[p] in before)
  {
    EveryRaceIsOk(picks, before, moves);
    var end := Play(picks, Race(None, before, [], {}, {}), moves);
    var p :| p in picks;
    assert p in end.finished;
    assert PicksOf(picks, end.placed + end.finished) == picks.Values by {
      assert end.placed + end.finished == picks.Keys;
      forall e
        ensures e in PicksOf(picks, picks.Keys) <==> e in picks.Values
      {
      }
    }
    forall q | q in picks
      ensures picks[q] in end.seated
    {
      assert picks[q] in picks.Values;
    }
  }

  // ----- Overlapping passes following one bound slot as the rota moves -----

  /** What a pass that read the slot bound to its current holder may decide: the holder is off and somebody
      else is on, nobody is on, or a person has taken the holder off the task. */
  datatype FollowUp = SwapTo(winner: Id) | GiveBack | Override

  /** A pass writes the record if it is still resolved, and then moves people on the task. */
  datatype Turn = Attempt(pass: nat) | Reseat(pass: nat)

  /** The record, the people on the task, the passes in the order of their attempts, those that wrote, and
      those that have moved people since. */
  datatype Rebinding = Rebinding(
    state: State, holder: Option<Id>, seated: set<Id>, order: seq<nat>, won: set<nat>, reseated: set<nat>)

  function Bound(current: Id, seated: set<Id>): Rebinding {
    Rebinding(Resolved, Some(current), seated, [], {}, {})
  }

  function TakeTurn(plans: map<nat, FollowUp>, current: Id, r: Rebinding, t: Turn): Rebinding {
    match t
    case Attempt(p) =>
      if p !in plans || p in r.order then r
      else if !r.state.Resolved? then r.(order := r.order + [p])
      else
        var tried := r.(order := r.order + [p], won := r.won + {p});
        (match plans[p]
         case SwapTo(winner) => tried.(holder := Some(winner))
         case GiveBack => tried.(state := AwaitingShift, holder := None)
         case Override => tried.(state := ClosedUnresolved))
    case Reseat(p) =>
      if p !in plans || p !in r.won || p in r.reseated then r
      else
        var done := r.(reseated := r.reseated + {p});
        (match plans[p]
         case SwapTo(winner) => done.(seated := r.seated + {winner} - {current})
         case GiveBack => done.(seated := r.seated - {current})
         case Override => done)
  }

  function TakeTurns(plans: map<nat, FollowUp>, current: Id, r: Rebinding, turns: seq<Turn>): Rebinding
    decreases |turns|
  {
    if turns == [] then r
    else TakeTurn(plans, current, TakeTurns(plans, current, r, turns[..|turns| - 1]), turns[|turns| - 1])
  }

  /** The swaps that attempt before the first other move. */
  function SwapsFirst(plans: map<nat, FollowUp>, order: seq<nat>): (n: nat)
    requires forall p :: p in order ==> p in plans
    ensures n <= |order|
    decreases |order|
  {
    if order == [] then 0 else
      var front := order[..|order| - 1];
      assert forall p :: p in front ==> p in order;
      var n := SwapsFirst(plans, front);
      if n < |front| then n else if plans[order[|order| - 1]].SwapTo? then |order| else |front|
  }

  /** Whom the swaps among these passes bring in. */
  function BroughtIn(plans: map<nat, FollowUp>, passes: set<nat>): set<Id> {
    set p | p in passes && p in plans && plans[p].SwapTo? :: plans[p].winner
  }

  predicate TakesHolderOff(plans: map<nat, FollowUp>, passes: set<nat>) {
    exists p :: p in passes && p in plans && !plans[p].Override?
  }

  /** The first `n` and, if there is one, the next. */
  function UpToFirstOther(order: seq<nat>, n: nat): set<nat>
    requires n <= |order|
  {
    Passes(if n < |order| then order[..n + 1] else order)
  }

  function Passes(order: seq<nat>): set<nat> {
    set p: nat | p in order
  }

  ghost predicate Distinct(order: seq<nat>) {
    forall i, j :: 0 <= i < j < |order| ==> order[i] != order[j]
  }

  ghost predicate RecordOk(plans: map<nat, FollowUp>, current: Id, r: Rebinding) {
    && Distinct(r.order) && (forall p :: p in r.order ==> p in plans)
    && var n := SwapsFirst(plans, r.order);
    && r.won == UpToFirstOther(r.order, n)
    && if n == |r.order|
       then r.state == Resolved
            && r.holder == if n == 0 then Some(current)
                           else if plans[r.order[n - 1]].SwapTo? then Some(plans[r.order[n - 1]].winner) else None
       else r.state == if plans[r.order[n]].GiveBack? then AwaitingShift else ClosedUnresolved
  }

  ghost predicate SeatsOk(plans: map<nat, FollowUp>, current: Id, before: set<Id>, r: Rebinding) {
    && r.reseated <= r.won
    && r.seated == before + BroughtIn(plans, r.reseated) - if TakesHolderOff(plans, r.reseated) then {current} else {}
  }

  lemma SwapsFirstAppend(plans: map<nat, FollowUp>, order: seq<nat>, p: nat)
    requires (forall q :: q in order ==> q in plans) && p in plans
    ensures forall q :: q in order + [p] ==> q in plans
    ensures var n := SwapsFirst(plans, order);
      SwapsFirst(plans, order + [p]) == if n < |order| then n else if plans[p].SwapTo? then |order| + 1 else |order|
  {
    assert (order + [p])[..|order|] == order;
  }

  lemma {:induction false} SwapsFirstAreSwaps(plans: map<nat, FollowUp>, order: seq<nat>)
    requires forall q :: q in order ==> q in plans
    ensures var n := SwapsFirst(plans, order);
      && (forall i :: 0 <= i < n ==> plans[order[i]].SwapTo?)
      && (n < |order| ==> !plans[order[n]].SwapTo?)
    decreases |order|
  {
    if order != [] {
      var front := order[..|order| - 1];
      assert forall p :: p in front ==> p in order;
      SwapsFirstAreSwaps(plans, front);
    }
  }

  lemma AttemptKeepsRecordOk(plans: map<nat, FollowUp>, current: Id, r: Rebinding, p: nat)
    requires RecordOk(plans, current, r) && p in plans && p !in r.order
    ensures RecordOk(plans, current, TakeTurn(plans, current, r, Attempt(p)))
  {
    var v := TakeTurn(plans, current, r, Attempt(p));
    SwapsFirstAreSwaps(plans, r.order);
    SwapsFirstAppend(plans, r.order, p);
    WritersAppend(plans, r.order, p);
    assert v.order == r.order + [p];
    assert Distinct(v.order);
  }

  lemma PassesAppend(order: seq<nat>, p: nat)
    ensures Passes(order + [p]) == Passes(order) + {p}
  {
    forall q: nat
      ensures q in order + [p] <==> q in order || q == p
    {
    }
  }

  lemma UpToAppend(order: seq<nat>, p: nat, n: nat, m: nat)
    requires n <= |order| && m <= |order| + 1 && (if n < |order| then m == n else m >= |order|)
    ensures UpToFirstOther(order + [p], m) == UpToFirstOther(order, n) + if n == |order| then {p} else {}
  {
    var longer := order + [p];
    if n < |order| {
      assert longer[..n + 1] == order[..n + 1];
    } else {
      assert longer[..|order| + 1] == longer;
      PassesAppend(order, p);
    }
  }

  /** One more attempt writes exactly if only swaps have been attempted before. */
  lemma WritersAppend(plans: map<nat, FollowUp>, order: seq<nat>, p: nat)
    requires (forall q :: q in order ==> q in plans) && p in plans
    ensures forall q :: q in order + [p] ==> q in plans
    ensures var n := SwapsFirst(plans, order);
      UpToFirstOther(order + [p], SwapsFirst(plans, order + [p]))
      == UpToFirstOther(order, n) + if n == |order| then {p} else {}
  {
    SwapsFirstAppend(plans, order, p);
    UpToAppend(order, p, SwapsFirst(plans, order), SwapsFirst(plans, order + [p]));
  }

  lemma AttemptKeepsSeatsOk(plans: map<nat, FollowUp>, current: Id, before: set<Id>, r: Rebinding, p: nat)
    requires SeatsOk(plans, current, before, r)
    ensures SeatsOk(plans, current, before, TakeTurn(plans, current, r, Attempt(p)))
  {
  }

  lemma ReseatKeepsSeatsOk(plans: map<nat, FollowUp>, current: Id, before: set<Id>, r: Rebinding, p: nat)
    requires SeatsOk(plans, current, before, r) && forall q :: q in plans ==> plans[q] != SwapTo(current)
    ensures SeatsOk(plans, current, before, TakeTurn(plans, current, r, Reseat(p)))
  {
    var v := TakeTurn(plans, current, r, Reseat(p));
    if v != r {
      assert BroughtIn(plans, v.reseated)
          == BroughtIn(plans, r.reseated) + if plans[p].SwapTo? then {plans[p].winner} else {};
      assert TakesHolderOff(plans, v.reseated) <==> TakesHolderOff(plans, r.reseated) || !plans[p].Override?;
      assert current !in BroughtIn(plans, v.reseated);
    }
  }

  lemma TurnKeepsOk(plans: map<nat, FollowUp>, current: Id, before: set<Id>, r: Rebinding, t: Turn)
    requires RecordOk(plans, current, r) && SeatsOk(plans, current, before, r)
    requires forall q :: q in plans ==> plans[q] != SwapTo(current)
    ensures var v := TakeTurn(plans, current, r, t);
      RecordOk(plans, current, v) && SeatsOk(plans, current, before, v)
  {
    match t {
      case Attempt(p) =>
        if p in plans && p !in r.order { AttemptKeepsRecordOk(plans, current, r, p); }
        AttemptKeepsSeatsOk(plans, current, before, r, p);
      case Reseat(p) =>
        ReseatKeepsSeatsOk(plans, current, before, r, p);
    }
  }

  lemma {:induction false} EveryRebindingIsOk(plans: map<nat, FollowUp>, current: Id, before: set<Id>, turns: seq<Turn>)
    requires forall q :: q in plans ==> plans[q] != SwapTo(current)
    ensures var r := TakeTurns(plans, current, Bound(current, before), turns);
      RecordOk(plans, current, r) && SeatsOk(plans, current, before, r)
    decreases |turns|
  {
    if turns == [] {
      assert BroughtIn(plans, {}) == {};
    } else {
      EveryRebindingIsOk(plans, current, before, turns[..|turns| - 1]);
      TurnKeepsOk(plans, current, before, TakeTurns(plans, current, Bound(current, before), turns[..|turns| - 1]),
                  turns[|turns| - 1]);
    }
  }

  lemma {:induction false} DistinctSize(order: seq<nat>)
    requires Distinct(order)
    ensures |Passes(order)| == |order|
  {
    if order == [] {
      assert Passes(order) == {};
    } else {
      var front, last := order[..|order| - 1], order[|order| - 1];
      DistinctSize(front);
      assert order == front + [last];
      assert Passes(order) == Passes(front) + {last};
    }
  }

  /** All of several passes that read one bound slot while the rota moved under them, each with its own
      decision, have attempted their write and moved people accordingly. */
  ghost predicate FollowedUp(plans: map<nat, FollowUp>, current: Id, before: set<Id>, end: Rebinding) {
    && RecordOk(plans, current, end) && SeatsOk(plans, current, before, end)
    && Passes(end.order) == plans.Keys && end.reseated == end.won
    && forall q :: q in plans ==> plans[q] != SwapTo(current)
  }

  /** Every interleaving that lets them all finish ends like that. */
  lemma FinishedIsFollowedUp(plans: map<nat, FollowUp>, current: Id, before: set<Id>, turns: seq<Turn>)
    requires forall q :: q in plans ==> plans[q] != SwapTo(current)
    requires var end := TakeTurns(plans, current, Bound(current, before), turns);
      (forall p :: p in plans ==> p in end.order) && end.reseated == end.won
    ensures FollowedUp(plans, current, before, TakeTurns(plans, current, Bound(current, before), turns))
  {
    EveryRebindingIsOk(plans, current, before, turns);
  }

  /** Passes can attempt in any order, and everybody who wrote can then move people: the orders spoken of here
      all happen. */
  lemma {:induction false} AnyOrderCanHappen(plans: map<nat, FollowUp>, current: Id, before: set<Id>, order: seq<nat>)
      returns (turns: seq<Turn>)
    requires Distinct(order) && forall p :: p in order ==> p in plans
    ensures var end := TakeTurns(plans, current, Bound(current, before), turns);
      end.order == order && end.reseated == end.won && end.won <= Passes(order)
    decreases |order|
  {
    if order == [] {
      turns := [];
    } else {
      var n := |order| - 1;
      var p := order[n];
      var some := AnyOrderCanHappen(plans, current, before, order[..n]);
      var r := TakeTurns(plans, current, Bound(current, before), some);
      turns := some + [Attempt(p), Reseat(p)];
      assert turns[..|turns| - 1] == some + [Attempt(p)] && (some + [Attempt(p)])[..|some|] == some;
      assert p !in order[..n] && order == order[..n] + [p];
      PassesAppend(order[..n], p);
      assert r.order == order[..n] && p !in r.won;
    }
  }

  /** The swaps that attempt before the first withdrawal or override all write, and so does that, and nobody
      after it. The slot ends bound if and only if there is none, and then to whom the last swap brought. */
  lemma SwapsAndTheFirstOtherWrite(plans: map<nat, FollowUp>, current: Id, before: set<Id>, end: Rebinding)
    requires FollowedUp(plans, current, before, end)
    ensures var n := SwapsFirst(plans, end.order);
      && |end.won| == n + (if n < |plans| then 1 else 0)
      && (end.state == Resolved <==> n == |plans|)
      && (end.state == Resolved <==> forall p :: p in plans ==> plans[p].SwapTo?)
      && (end.state == Resolved && n > 0 ==>
            end.holder.Some? && plans[end.order[n - 1]] == SwapTo(end.holder.value))
  {
    var order := end.order;
    var n := SwapsFirst(plans, order);
    SwapsFirstAreSwaps(plans, order);
    DistinctSize(order);
    DistinctSize(if n < |order| then order[..n + 1] else order);
    assert |plans| == |plans.Keys| == |order|;
    assert forall p :: p in plans <==> p in Passes(order);
    if n < |order| {
      assert order[n] in plans;
    }
  }

  lemma BroughtInBySwaps(plans: map<nat, FollowUp>, order: seq<nat>)
    requires forall p :: p in order ==> p in plans
    ensures var n := SwapsFirst(plans, order);
      BroughtIn(plans, UpToFirstOther(order, n)) == BroughtIn(plans, Passes(order[..n]))
  {
    var n := SwapsFirst(plans, order);
    SwapsFirstAreSwaps(plans, order);
    if n < |order| {
      assert order[..n + 1] == order[..n] + [order[n]];
      assert Passes(order[..n + 1]) == Passes(order[..n]) + {order[n]};
    } else {
      assert order[..n] == order;
    }
  }

  /** Whoever a swap that wrote brought in stays on the task, while at most one of them holds the slot; after
      a withdrawal or an override nobody does. So the task agrees with the record if and only if those swaps
      brought in nobody but the slot's holder and people who were there before. */
  lemma SwappedInStayOnTheTask(plans: map<nat, FollowUp>, current: Id, before: set<Id>, end: Rebinding)
    requires FollowedUp(plans, current, before, end)
    ensures var came := BroughtIn(plans, Passes(end.order[..SwapsFirst(plans, end.order)]));
      && end.seated == before + came - (if TakesHolderOff(plans, end.won) then {current} else {})
      && (end.seated <= before + (if end.state == Resolved && end.holder.Some? then {end.holder.value} else {}) <==>
            forall e :: e in came && e !in before ==> end.state == Resolved && end.holder == Some(e))
  {
    BroughtInBySwaps(plans, end.order);
    var came := BroughtIn(plans, Passes(end.order[..SwapsFirst(plans, end.order)]));
    assert current !in came;
    assert came <= end.seated;
  }

  // ----- The table updated in place, and one pass over one slot -----

  datatype Seat = Seat(task: Id, employee: Id)

  datatype Notice = Assigned(employee: Id) | Withdrawn(employee: Id) | Unassigned(task: Id)

  /** A ListRitualPoolSlotsForResolution row with the row's slot, if there is one. */
  datatype Listing = Listing(task: Id, pool: Id, onShift: bool, hasEvidence: bool, dayStart: int, slot: Option<Id>)

  const ESCALATION_HORIZON := 7 * 24 * 3600

  class PoolAssignments {
    var store: Store
    var seats: set<Seat>  // task_assignee rows with role assignee
    var notices: seq<Notice>

    constructor ()
      ensures store == EMPTY && seats == {} && notices == []
    {
      store, seats, notices := EMPTY, {}, [];
    }

    method UpsertRitualPoolAssignment(id: Id, task: Id, pool: Id, state: State, assignee: Option<Id>,
        resolveBy: int, resolvedAt: Option<int>)
      returns (row: bool)
      modifies this`store
      ensures row <==> Hits(old(store), Upsert(id, task, pool, state, assignee, resolveBy, resolvedAt))
      ensures store == Exec(old(store), Upsert(id, task, pool, state, assignee, resolveBy, resolvedAt))
    {
      if exists i :: i in store.slots && store.slots[i].task == task && store.slots[i].pool == pool {
        return false;
      }
      store := Store(store.slots[id := Slot(task, pool, state, None, assignee, resolveBy, resolvedAt, None)],
                     store.used + {id});
      return true;
    }

    method ResolveRitualPoolAssignment(id: Id, expected: State, employee: Id, now: int) returns (row: bool)
      modifies this`store
      ensures row <==> Hits(old(store), Resolve(id, expected, employee, now))
      ensures store == Exec(old(store), Resolve(id, expected, employee, now))
    {
      row := id in store.slots && store.slots[id].state == expected;
      if row {
        var x := store.slots[id];
        store := store.(slots := store.slots[id := x.(state := Resolved, assignee := Some(employee),
                   resolvedAt := Some(now), reason := None)]);
      }
    }

    method CloseRitualPoolAssignment(id: Id, expected: State, reason: Reason, escalatedAt: Option<int>)
      returns (row: bool)
      modifies this`store
      ensures row <==> Hits(old(store), Close(id, expected, reason, escalatedAt))
      ensures store == Exec(old(store), Close(id, expected, reason, escalatedAt))
    {
      row := id in store.slots && store.slots[id].state == expected;
      if row {
        var x := store.slots[id];
        store := store.(slots := store.slots[id := x.(state := ClosedUnresolved, reason := Some(reason),
                   escalatedAt := escalatedAt)]);
      }
    }

    method WithdrawRitualPoolAssignment(id: Id) returns (row: bool)
      modifies this`store
      ensures row <==> Hits(old(store), Withdraw(id))
      ensures store == Exec(old(store), Withdraw(id))
    {
      row := id in store.slots && store.slots[id].state == Resolved;
      if row {
        var x := store.slots[id];
        store := store.(slots := store.slots[id := x.(state := AwaitingShift, assignee := None, resolvedAt := None)]);
      }
    }

    method DeleteRitualPoolAssignment(id: Id)
      modifies this`store
      ensures store == Exec(old(store), Delete(id))
    {
      if id in store.slots {
        store := store.(slots := store.slots - {id});
      }
    }

    /** The body of the escalation loop: the alert goes out if the close returned a row and the date is
        within the horizon. */
    method EscalateOne(id: Id, now: int) returns (row: bool)
      modifies this
      ensures row <==> InState(old(store), id, AwaitingShift)
      ensures store == AfterEscalating(old(store), id, now)
      ensures notices == old(notices) + Alert(old(store), id, now) && seats == old(seats)
    {
      row := false;
      if id in store.slots {
        var listed := store.slots[id];
        var alert := now - listed.resolveBy <= ESCALATION_HORIZON;
        row := CloseRitualPoolAssignment(id, AwaitingShift, NoRoster, if alert then Some(now) else None);
        if row && alert {
          notices := notices + [Unassigned(listed.task)];
        }
      }
    }

    /** escalateUnresolvedRitualPoolSlots over the due rows it listed, on its own. */
    method EscalateUnresolved(due: seq<Id>, now: int) returns (escalated: nat)
      modifies this
      ensures store == EscalateAll(old(store), due, now) && seats == old(seats)
      ensures notices == old(notices) + AlertAll(old(store), due, now)
      ensures escalated == CloseCount(old(store), due, now)
    {
      ghost var before, told := store, notices;
      escalated := 0;
      var n := 0;
      while n < |due|
        invariant 0 <= n <= |due|
        invariant store == EscalateAll(before, due[..n], now) && seats == old(seats)
        invariant notices == told + AlertAll(before, due[..n], now)
        invariant escalated == CloseCount(before, due[..n], now)
      {
        assert due[..n + 1][..n] == due[..n];
        var row := EscalateOne(due[n], now);
        if row {
          escalated := escalated + 1;
        }
        n := n + 1;
      }
      assert due[..n] == due;
    }

    /** resolveOnePoolSlot on its own. `cover` is who the rota covers for the date, `pick` the least
        assigned of them, `handover` the pick of the pool's current strategy when that is not on-shift. */
    method ResolveOnePoolSlot(x: Listing, now: int, newId: Id, cover: set<Id>, pick: Option<Id>, handover: Option<Id>)
      requires Valid(store) && newId !in store.used
      requires x.slot.Some? ==> x.slot.value in store.slots && store.slots[x.slot.value].task == x.task
      requires pick.Some? <==> cover != {}
      requires pick.Some? ==> pick.value in cover
      modifies this
      ensures Valid(store)
      ensures forall i :: i in old(store).slots && x.slot != Some(i) ==>
        i in store.slots && store.slots[i] == old(store).slots[i]
      // a pool that left on-shift has no record any more
      ensures !x.onShift ==> store.slots == old(store).slots - (if x.slot.Some? then {x.slot.value} else {})
      ensures !x.onShift ==>
        && notices == old(notices)
        && seats == old(seats) + if x.slot.Some? && InState(old(store), x.slot.value, AwaitingShift) && handover.Some?
                                 then {Seat(x.task, handover.value)} else {}
      // a date that has come, or evidence, freezes the slot
      ensures x.onShift && (now >= x.dayStart || x.hasEvidence) ==>
        store == old(store) && seats == old(seats) && notices == old(notices)
      // otherwise the record agrees with the rota, unless a person has taken over
      ensures Live(x, now) && x.slot.Some? ==> Follows(store, seats, x.slot.value, cover)
      ensures Live(x, now) && x.slot.None? && newId in store.slots ==> Follows(store, seats, newId, cover)
      // a waiting record is bound to the pick as soon as somebody is on, and one that is missing is made first
      ensures Live(x, now) && Bindable(old(store), x) ==>
        var id := if x.slot.Some? then x.slot.value else newId;
        && id in store.slots
        && if cover == {}
           then store.slots[id] == WaitingRecord(old(store), x) && seats == old(seats) && notices == old(notices)
           else store.slots[id] == BoundTo(WaitingRecord(old(store), x), pick.value, now)
                && seats == old(seats) + {Seat(x.task, pick.value)} && notices == old(notices) + [Assigned(pick.value)]
      // a bound one follows the rota
      ensures Live(x, now) && x.slot.Some? && InState(old(store), x.slot.value, Resolved) ==>
        Rebound(Tables(old(store), old(seats), old(notices)), Tables(store, seats, notices), x.slot.value, now, cover,
                pick)
      // a closed one, or one another pass has made, is left alone
      ensures Live(x, now) && !Bindable(old(store), x)
              && !(x.slot.Some? && InState(old(store), x.slot.value, Resolved)) ==>
        store == old(store) && seats == old(seats) && notices == old(notices)
      // nobody is moved off a slot they cover, and nobody who is off keeps one
      ensures Live(x, now) && x.slot.Some? && HeldByCover(old(store), old(seats), x.slot.value, cover) ==>
        store == old(store) && seats == old(seats) && notices == old(notices)
      ensures Live(x, now) && x.slot.Some? && InState(old(store), x.slot.value, Resolved) ==>
        forall e :: old(store).slots[x.slot.value].assignee == Some(e) && e !in cover ==> Seat(x.task, e) !in seats
      // other tasks are not touched, and whoever left or joined this one has been told
      ensures forall st: Seat :: st.task != x.task ==> (st in seats <==> st in old(seats))
      ensures Live(x, now) ==> forall e :: Seat(x.task, e) in seats && Seat(x.task, e) !in old(seats) ==>
        Assigned(e) in notices
      ensures Live(x, now) ==> forall e :: Seat(x.task, e) in old(seats) && Seat(x.task, e) !in seats ==>
        Withdrawn(e) in notices
    {
      if !x.onShift {
        if x.slot.Some? {
          if store.slots[x.slot.value].state.AwaitingShift? && handover.Some? {
            seats := seats + {Seat(x.task, handover.value)};
          }
          ExecKeepsValid(store, Delete(x.slot.value));
          DeleteRitualPoolAssignment(x.slot.value);
        }
        return;
      }
      if now >= x.dayStart || x.hasEvidence {
        return;
      }
      var id := newId;
      if x.slot.Some? {
        id := x.slot.value;
        if store.slots[id].state.Resolved? {
          RebindResolvedPoolSlot(x, id, now, cover, pick);
          return;
        }
        if store.slots[id].state.ClosedUnresolved? {
          return;  // the listing leaves closed records out
        }
      } else {
        var adopt := Upsert(newId, x.task, x.pool, AwaitingShift, None, x.dayStart, None);
        ExecKeepsValid(store, adopt);
        var adopted := UpsertRitualPoolAssignment(newId, x.task, x.pool, AwaitingShift, None, x.dayStart, None);
        if !adopted {
          return;
        }
      }
      if pick.None? {
        return;
      }
      seats := seats + {Seat(x.task, pick.value)};
      ExecKeepsValid(store, Resolve(id, AwaitingShift, pick.value, now));
      var row := ResolveRitualPoolAssignment(id, AwaitingShift, pick.value, now);
      if row {
        notices := notices + [Assigned(pick.value)];
      }
    }

    /** rebindResolvedPoolSlot. */
    method RebindResolvedPoolSlot(x: Listing, id: Id, now: int, cover: set<Id>, pick: Option<Id>)
      requires Valid(store) && InState(store, id, Resolved) && store.slots[id].task == x.task
      requires pick.Some? <==> cover != {}
      requires pick.Some? ==> pick.value in cover
      modifies this
      ensures Valid(store) && store.used == old(store).used
      ensures forall i :: i in old(store).slots && i != id ==> i in store.slots && store.slots[i] == old(store).slots[i]
      ensures Follows(store, seats, id, cover)
      ensures HeldByCover(old(store), old(seats), id, cover) ==>
        store == old(store) && seats == old(seats) && notices == old(notices)
      ensures InState(store, id, ClosedUnresolved) <==> !Held(old(store), old(seats), id)
      ensures InState(store, id, AwaitingShift) <==> Held(old(store), old(seats), id) && cover == {}
      ensures Rebound(Tables(old(store), old(seats), old(notices)), Tables(store, seats, notices), id, now, cover, pick)
      ensures forall e :: old(store).slots[id].assignee == Some(e) && e !in cover ==> Seat(x.task, e) !in seats
      ensures forall st: Seat :: st.task != x.task ==> (st in seats <==> st in old(seats))
      ensures forall e :: Seat(x.task, e) in seats && Seat(x.task, e) !in old(seats) ==> Assigned(e) in notices
      ensures forall e :: Seat(x.task, e) in old(seats) && Seat(x.task, e) !in seats ==> Withdrawn(e) in notices
    {
      assert WellShaped(store.slots[id]);
      var current := store.slots[id].assignee.value;
      if Seat(x.task, current) !in seats {
        ExecKeepsValid(store, Close(id, Resolved, ManualOverride, None));
        var closed := CloseRitualPoolAssignment(id, Resolved, ManualOverride, None);
        return;
      }
      if current in cover {
        return;
      }
      if cover == {} {
        ExecKeepsValid(store, Withdraw(id));
        var withdrawn := WithdrawRitualPoolAssignment(id);
        seats := seats - {Seat(x.task, current)};
        notices := notices + [Withdrawn(current)];
        return;
      }
      ExecKeepsValid(store, Resolve(id, Resolved, pick.value, now));
      var swapped := ResolveRitualPoolAssignment(id, Resolved, pick.value, now);
      seats := seats + {Seat(x.task, pick.value)} - {Seat(x.task, current)};
      notices := notices + [Withdrawn(current), Assigned(pick.value)];
    }
  }

  /** An on-shift slot whose date has not come and whose work has not started. */
  predicate Live(x: Listing, now: int) {
    x.onShift && now < x.dayStart && !x.hasEvidence
  }

  /** The slot has an assignee who is on the task. */
  predicate Held(s: Store, seats: set<Seat>, id: Id) {
    && id in s.slots && s.slots[id].assignee.Some?
    && Seat(s.slots[id].task, s.slots[id].assignee.value) in seats
  }

  function Holder(s: Store, id: Id): Id {
    if id in s.slots && s.slots[id].assignee.Some? then s.slots[id].assignee.value else 0
  }

  /** Records as they read in each state. */
  function Waiting(task: Id, pool: Id, resolveBy: int): Slot {
    Slot(task, pool, AwaitingShift, None, None, resolveBy, None, None)
  }

  function BoundTo(x: Slot, e: Id, now: int): Slot {
    Slot(x.task, x.pool, Resolved, None, Some(e), x.resolveBy, Some(now), None)
  }

  function Overridden(x: Slot): Slot {
    Slot(x.task, x.pool, ClosedUnresolved, Some(ManualOverride), x.assignee, x.resolveBy, x.resolvedAt, None)
  }

  /** What a pass reads and writes. */
  datatype Tables = Tables(store: Store, seats: set<Seat>, notices: seq<Notice>)

  /** A bound record is closed if and only if a person has taken its holder off the task; left alone if the
      holder is on; made to wait if nobody is; and otherwise bound to the pick, who is put on the task.
      Whoever leaves or joins is told. */
  ghost predicate Rebound(s: Tables, t: Tables, id: Id, now: int, cover: set<Id>, pick: Option<Id>)
    requires id in s.store.slots && (pick.Some? <==> cover != {})
  {
    var x, holder := s.store.slots[id], Holder(s.store, id);
    && id in t.store.slots
    && if !Held(s.store, s.seats, id) then
         t.store.slots[id] == Overridden(x) && t.seats == s.seats && t.notices == s.notices
       else if holder in cover then t == s
       else if cover == {} then
         && t.store.slots[id] == Waiting(x.task, x.pool, x.resolveBy)
         && t.seats == s.seats - {Seat(x.task, holder)} && t.notices == s.notices + [Withdrawn(holder)]
       else
         && t.store.slots[id] == BoundTo(x, pick.value, now)
         && t.seats == s.seats + {Seat(x.task, pick.value)} - {Seat(x.task, holder)}
         && t.notices == s.notices + [Withdrawn(holder), Assigned(pick.value)]
  }

  /** A record that waits, or none where one can be made. */
  predicate Bindable(s: Store, x: Listing) {
    if x.slot.Some? then InState(s, x.slot.value, AwaitingShift) else !Taken(s, x.task, x.pool)
  }

  /** Such a record as it waits. */
  function WaitingRecord(s: Store, x: Listing): Slot
    requires x.slot.Some? ==> x.slot.value in s.slots
  {
    if x.slot.Some? then Waiting(x.task, s.slots[x.slot.value].pool, s.slots[x.slot.value].resolveBy)
    else Waiting(x.task, x.pool, x.dayStart)
  }

  /** The slot's assignee is on the task and on shift. */
  predicate HeldByCover(s: Store, seats: set<Seat>, id: Id, cover: set<Id>) {
    && InState(s, id, Resolved) && s.slots[id].assignee.Some?
    && s.slots[id].assignee.value in cover && Seat(s.slots[id].task, s.slots[id].assignee.value) in seats
  }

  /** The record says what the rota says: nobody while nobody is covered, otherwise somebody who is, and
      who is on the task; or it is closed. */
  predicate Follows(s: Store, seats: set<Seat>, id: Id, cover: set<Id>) {
    id in s.slots && match s.slots[id].state
      case AwaitingShift => cover == {}
      case Resolved =>
        s.slots[id].assignee.Some? && s.slots[id].assignee.value in cover
        && Seat(s.slots[id].task, s.slots[id].assignee.value) in seats
      case ClosedUnresolved => true
  }

  predicate Recent(x: Slot, now: int) {
    now - x.resolveBy <= ESCALATION_HORIZON
  }

  /** The close that escalation issues for a due row. */
  function Closing(s: Store, id: Id, now: int): Stmt
    requires id in s.slots
  {
    Close(id, AwaitingShift, NoRoster, if Recent(s.slots[id], now) then Some(now) else None)
  }

  function AfterEscalating(s: Store, id: Id, now: int): Store {
    if id in s.slots then Exec(s, Closing(s, id, now)) else s
  }

  function Alert(s: Store, id: Id, now: int): seq<Notice> {
    if InState(s, id, AwaitingShift) && Recent(s.slots[id], now) then [Unassigned(s.slots[id].task)] else []
  }

  function EscalateAll(s: Store, due: seq<Id>, now: int): Store {
    if due == [] then s else AfterEscalating(EscalateAll(s, due[..|due| - 1], now), due[|due| - 1], now)
  }

  /** The owners are alerted about a slot that still waited, unless its day is more than a week past. */
  lemma AlertedWithinAWeek(s: Store, id: Id, now: int)
    ensures Alert(s, id, now) ==
      if id in s.slots && s.slots[id].state == AwaitingShift && now <= s.slots[id].resolveBy + 604800
      then [Unassigned(s.slots[id].task)] else []
  {
  }

  function AlertAll(s: Store, due: seq<Id>, now: int): seq<Notice> {
    if due == [] then [] else
      AlertAll(s, due[..|due| - 1], now) + Alert(EscalateAll(s, due[..|due| - 1], now), due[|due| - 1], now)
  }

  function CloseCount(s: Store, due: seq<Id>, now: int): nat {
    if due == [] then 0 else
      CloseCount(s, due[..|due| - 1], now)
      + if InState(EscalateAll(s, due[..|due| - 1], now), due[|due| - 1], AwaitingShift) then 1 else 0
  }

  function Escalated(x: Slot, now: int): Slot {
    x.(state := ClosedUnresolved, reason := Some(NoRoster), escalatedAt := if Recent(x, now) then Some(now) else None)
  }

  function WaitingAmong(s: Store, due: seq<Id>): set<Id> {
    set i | i in due && InState(s, i, AwaitingShift)
  }

  /** Escalation, even when the list repeats a row: exactly the listed rows that waited are closed as
      unrostered, each once, with the alert stamped exactly when its date is within the horizon; no other
      row is touched. */
  lemma {:induction false} EscalationClosesWhatWaited(s: Store, due: seq<Id>, now: int)
    ensures var t := EscalateAll(s, due, now);
      && t.used == s.used && t.slots.Keys == s.slots.Keys
      && forall i :: i in s.slots ==>
           t.slots[i] == if i in WaitingAmong(s, due) then Escalated(s.slots[i], now) else s.slots[i]
    ensures CloseCount(s, due, now) == |WaitingAmong(s, due)|
  {
    if due == [] {
      assert WaitingAmong(s, due) == {};
    } else {
      var front, id := due[..|due| - 1], due[|due| - 1];
      EscalationClosesWhatWaited(s, front, now);
      assert forall i :: i in due <==> i in front || i == id;
      var t := EscalateAll(s, front, now);
      if InState(t, id, AwaitingShift) {
        assert id !in WaitingAmong(s, front);
        assert WaitingAmong(s, due) == WaitingAmong(s, front) + {id};
      } else {
        assert InState(s, id, AwaitingShift) ==> id in WaitingAmong(s, front);
        assert WaitingAmong(s, due) == WaitingAmong(s, front);
      }
    }
  }

  /** A second escalation over any list closes and announces nothing that the first already closed. */
  lemma {:induction false} EscalatingAgainIsSilent(s: Store, due: seq<Id>, again: seq<Id>, now: int, later: int)
    requires forall i :: i in again ==> i in due
    ensures var t := EscalateAll(s, due, now);
      EscalateAll(t, again, later) == t && AlertAll(t, again, later) == [] && CloseCount(t, again, later) == 0
    decreases |again|
  {
    if again != [] {
      var t, front, id := EscalateAll(s, due, now), again[..|again| - 1], again[|again| - 1];
      EscalatingAgainIsSilent(s, due, front, now, later);
      EscalationClosesWhatWaited(s, due, now);
      assert id in due && !InState(t, id, AwaitingShift);
    }
  }
}
