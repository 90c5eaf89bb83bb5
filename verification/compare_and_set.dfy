/** Overlapping background passes over a column: each pass reads a row, decides, writes with
    `UPDATE ... WHERE column = $expected`, and announces if and only if the write returned a row.
    Reads, writes and announcements of any number of passes interleave freely with each other and
    with edits by everybody else. */
module CompareAndSet {
  import opened Prelude

  type Id = nat

  /** Where a pass stands: nothing decided, about to write, or owing the announcement of its write. */
  datatype Phase<S> = Idle | Decided(cell: Id, read: S, target: S) | Won(turn: nat)

  /** One effective write: by a pass, or (author None) an edit, insertion or deletion by others. */
  datatype Write<S> = Write(cell: Id, from: Option<S>, to: Option<S>, author: Option<Id>)

  /** The column, the passes, every write so far, and the announcements, each naming its write. */
  datatype World<S> = World(cells: map<Id, S>, phases: map<Id, Phase<S>>, log: seq<Write<S>>, told: seq<nat>)

  datatype Step<S> =
    | Decide(pass: Id, cell: Id, target: S)
    | Attempt(pass: Id)
    | Tell(pass: Id)
    | Quit(pass: Id)
    | Edit(cell: Id, value: Option<S>)

  function Lookup<S>(m: map<Id, S>, c: Id): Option<S> {
    if c in m then Some(m[c]) else None
  }

  function PhaseOf<S>(w: World<S>, p: Id): Phase<S> {
    if p in w.phases then w.phases[p] else Idle
  }

  /** `rule(cell, read, target)` is what a pass may decide from what it read. */
  function Next<S(==)>(rule: (Id, S, S) -> bool, w: World<S>, s: Step<S>): World<S> {
    match s
    case Decide(p, c, t) =>
      if PhaseOf(w, p).Idle? && c in w.cells && rule(c, w.cells[c], t)
      then w.(phases := w.phases[p := Decided(c, w.cells[c], t)]) else w
    case Attempt(p) =>
      (match PhaseOf(w, p)
       case Decided(c, r, t) =>
         if c in w.cells && w.cells[c] == r
         then World(w.cells[c := t], w.phases[p := Won(|w.log|)],
                    w.log + [Write(c, Some(r), Some(t), Some(p))], w.told)
         else w.(phases := w.phases[p := Idle])
       case _ => w)
    case Tell(p) =>
      (match PhaseOf(w, p)
       case Won(n) => w.(phases := w.phases[p := Idle], told := w.told + [n])
       case _ => w)
    case Quit(p) => w.(phases := w.phases[p := Idle])
    case Edit(c, v) =>
      w.(cells := if v.Some? then w.cells[c := v.value] else w.cells - {c},
         log := w.log + [Write(c, Lookup(w.cells, c), v, None)])
  }

  function Run<S(==)>(rule: (Id, S, S) -> bool, w: World<S>, steps: seq<Step<S>>): World<S>
    decreases |steps|
  {
    if steps == [] then w else Next(rule, Run(rule, w, steps[..|steps| - 1]), steps[|steps| - 1])
  }

  function Start<S>(cells: map<Id, S>): World<S> {
    World(cells, map[], [], [])
  }

  // ----- Announcements -----

  /** An announcement names a write of a pass. */
  predicate Announces<S>(w: World<S>, n: nat) {
    n < |w.log| && w.log[n].author.Some?
  }

  /** A pass that owes an announcement owes it for its own write, not announced yet. */
  predicate OwesItsOwn<S>(w: World<S>, p: Id) {
    PhaseOf(w, p).Won? ==>
      var n := PhaseOf(w, p).turn;
      n < |w.log| && w.log[n].author == Some(p) && n !in w.told
  }

  ghost predicate ToldOnce(told: seq<nat>) {
    forall i, j :: 0 <= i < j < |told| ==> told[i] != told[j]
  }

  ghost predicate Honest<S>(w: World<S>) {
    && ToldOnce(w.told)
    && (forall i :: 0 <= i < |w.told| ==> Announces(w, w.told[i]))
    && (forall p: Id :: OwesItsOwn(w, p))
  }

  lemma OwingSurvives<S>(rule: (Id, S, S) -> bool, w: World<S>, s: Step<S>, p: Id)
    requires Honest(w)
    ensures OwesItsOwn(Next(rule, w, s), p)
  {
    assert OwesItsOwn(w, p);
    var v := Next(rule, w, s);
    assert |v.log| >= |w.log| && forall n :: 0 <= n < |w.log| ==> v.log[n] == w.log[n];
    assert forall n :: n in w.told ==> n < |w.log|;
    if s.Tell? && s.pass != p && PhaseOf(w, s.pass).Won? {
      assert OwesItsOwn(w, s.pass);
    }
  }

  lemma AnnouncingSurvives<S>(rule: (Id, S, S) -> bool, w: World<S>, s: Step<S>)
    requires Honest(w)
    ensures ToldOnce(Next(rule, w, s).told)
    ensures forall i :: 0 <= i < |Next(rule, w, s).told| ==> Announces(Next(rule, w, s), Next(rule, w, s).told[i])
  {
    if s.Tell? { assert OwesItsOwn(w, s.pass); }
    var v := Next(rule, w, s);
    forall i | 0 <= i < |v.told|
      ensures Announces(v, v.told[i])
    {
      if i < |w.told| { assert Announces(w, w.told[i]); }
    }
  }

  lemma StepIsHonest<S>(rule: (Id, S, S) -> bool, w: World<S>, s: Step<S>)
    requires Honest(w)
    ensures Honest(Next(rule, w, s))
  {
    AnnouncingSurvives(rule, w, s);
    forall p: Id
      ensures OwesItsOwn(Next(rule, w, s), p)
    {
      OwingSurvives(rule, w, s, p);
    }
  }

  /** Each change made by a pass is announced at most once, by the pass that made it, and nothing else
      is announced: over every interleaving of every number of passes and any edits. */
  lemma {:induction false} EveryRunIsHonest<S>(rule: (Id, S, S) -> bool, cells: map<Id, S>, steps: seq<Step<S>>)
    ensures Honest(Run(rule, Start(cells), steps))
    decreases |steps|
  {
    if steps != [] {
      EveryRunIsHonest(rule, cells, steps[..|steps| - 1]);
      StepIsHonest(rule, Run(rule, Start(cells), steps[..|steps| - 1]), steps[|steps| - 1]);
    }
  }

  /** The write is announced, or the pass that made it still owes the announcement. */
  predicate ToldOrOwed<S>(w: World<S>, n: nat) {
    n < |w.log| && w.log[n].author.Some? ==> n in w.told || PhaseOf(w, w.log[n].author.value) == Won(n)
  }

  ghost predicate Accounted<S>(w: World<S>) {
    forall n: nat :: ToldOrOwed(w, n)
  }

  /** No pass gives up between its write and its announcement. */
  ghost predicate Diligent<S>(rule: (Id, S, S) -> bool, w: World<S>, steps: seq<Step<S>>)
    decreases |steps|
  {
    steps != [] ==>
      var before, s := steps[..|steps| - 1], steps[|steps| - 1];
      Diligent(rule, w, before) && !(s.Quit? && PhaseOf(Run(rule, w, before), s.pass).Won?)
  }

  lemma StepIsAccounted<S>(rule: (Id, S, S) -> bool, w: World<S>, s: Step<S>, n: nat)
    requires Accounted(w) && !(s.Quit? && PhaseOf(w, s.pass).Won?)
    ensures ToldOrOwed(Next(rule, w, s), n)
  {
    assert ToldOrOwed(w, n);
    var v := Next(rule, w, s);
    assert n < |w.log| ==> v.log[n] == w.log[n];
    assert forall k :: k in w.told ==> k in v.told;
    if s.Tell? && PhaseOf(w, s.pass).Won? {
      assert PhaseOf(w, s.pass).turn in v.told by {
        assert v.told[|w.told|] == PhaseOf(w, s.pass).turn;
      }
    }
  }

  lemma {:induction false} EveryRunIsAccounted<S>(rule: (Id, S, S) -> bool, cells: map<Id, S>, steps: seq<Step<S>>)
    requires Diligent(rule, Start(cells), steps)
    ensures Accounted(Run(rule, Start(cells), steps))
    decreases |steps|
  {
    if steps != [] {
      EveryRunIsAccounted(rule, cells, steps[..|steps| - 1]);
      var w := Run(rule, Start(cells), steps[..|steps| - 1]);
      var v := Next(rule, w, steps[|steps| - 1]);
      forall n: nat
        ensures ToldOrOwed(v, n)
      {
        StepIsAccounted(rule, w, steps[|steps| - 1], n);
      }
    }
  }

  /** How often a write has been announced. */
  function Times(told: seq<nat>, n: nat): nat {
    multiset(told)[n]
  }

  lemma {:induction false} OnceIfThere(told: seq<nat>, n: nat)
    requires ToldOnce(told)
    ensures Times(told, n) == if n in told then 1 else 0
  {
    if told != [] {
      assert told == [told[0]] + told[1..];
      assert n in told[1..] ==> told[0] != n;
      OnceIfThere(told[1..], n);
    }
  }

  /** Over every interleaving in which no pass gives up half-way: each change a pass has made is announced
      exactly once, as soon as the pass that made it no longer owes the announcement, and by then at the
      latest when all passes are done. What others wrote is never announced. */
  lemma EveryChangeIsAnnouncedOnce<S>(rule: (Id, S, S) -> bool, cells: map<Id, S>, steps: seq<Step<S>>, n: nat)
    requires Diligent(rule, Start(cells), steps) && n < |Run(rule, Start(cells), steps).log|
    ensures var w := Run(rule, Start(cells), steps);
      Times(w.told, n) ==
        if w.log[n].author.Some? && PhaseOf(w, w.log[n].author.value) != Won(n) then 1 else 0
  {
    var w := Run(rule, Start(cells), steps);
    EveryRunIsHonest(rule, cells, steps);
    EveryRunIsAccounted(rule, cells, steps);
    assert ToldOrOwed(w, n);
    OnceIfThere(w.told, n);
    if n in w.told {
      var i :| 0 <= i < |w.told| && w.told[i] == n;
      assert Announces(w, w.told[i]);
      assert OwesItsOwn(w, w.log[n].author.value);
    }
  }

  // ----- The log is a chain -----

  /** The value the log leaves in a cell. */
  function Value<S>(cells: map<Id, S>, log: seq<Write<S>>, c: Id): Option<S>
    decreases |log|
  {
    if log == [] then Lookup(cells, c)
    else if log[|log| - 1].cell == c then log[|log| - 1].to
    else Value(cells, log[..|log| - 1], c)
  }

  /** Write n starts from what the writes before it left in its cell. */
  ghost predicate LinkedAt<S>(cells: map<Id, S>, log: seq<Write<S>>, n: nat)
    requires n < |log|
  {
    log[n].from == Value(cells, log[..n], log[n].cell)
  }

  ghost predicate Linked<S>(cells: map<Id, S>, log: seq<Write<S>>) {
    forall n :: 0 <= n < |log| ==> LinkedAt(cells, log, n)
  }

  /** What a pass writes is something it may decide from the value it replaces. */
  predicate Ruled<S>(rule: (Id, S, S) -> bool, x: Write<S>) {
    x.author.Some? ==> x.from.Some? && x.to.Some? && rule(x.cell, x.from.value, x.to.value)
  }

  predicate DecidedByRule<S>(rule: (Id, S, S) -> bool, w: World<S>, p: Id) {
    PhaseOf(w, p).Decided? ==> rule(PhaseOf(w, p).cell, PhaseOf(w, p).read, PhaseOf(w, p).target)
  }

  ghost predicate Faithful<S>(rule: (Id, S, S) -> bool, cells: map<Id, S>, w: World<S>) {
    && Linked(cells, w.log)
    && (forall c: Id :: Lookup(w.cells, c) == Value(cells, w.log, c))
    && (forall n :: 0 <= n < |w.log| ==> Ruled(rule, w.log[n]))
    && (forall p: Id :: DecidedByRule(rule, w, p))
  }

  lemma AppendKeepsLinked<S>(cells: map<Id, S>, log: seq<Write<S>>, x: Write<S>)
    requires Linked(cells, log) && x.from == Value(cells, log, x.cell)
    ensures Linked(cells, log + [x])
    ensures forall c: Id :: Value(cells, log + [x], c) == if c == x.cell then x.to else Value(cells, log, c)
  {
    assert (log + [x])[..|log|] == log;
    forall n | 0 <= n < |log + [x]|
      ensures LinkedAt(cells, log + [x], n)
    {
      if n < |log| {
        assert (log + [x])[..n] == log[..n];
        assert LinkedAt(cells, log, n);
      }
    }
  }

  lemma WriteIsFaithful<S>(rule: (Id, S, S) -> bool, cells: map<Id, S>, w: World<S>, v: World<S>, x: Write<S>)
    requires Faithful(rule, cells, w)
    requires v.log == w.log + [x] && x.from == Lookup(w.cells, x.cell) && Ruled(rule, x)
    requires forall c: Id :: Lookup(v.cells, c) == if c == x.cell then x.to else Lookup(w.cells, c)
    requires forall p: Id :: DecidedByRule(rule, v, p)
    ensures Faithful(rule, cells, v)
  {
    AppendKeepsLinked(cells, w.log, x);
  }

  lemma StepIsFaithful<S>(rule: (Id, S, S) -> bool, cells: map<Id, S>, w: World<S>, s: Step<S>)
    requires Faithful(rule, cells, w)
    ensures Faithful(rule, cells, Next(rule, w, s))
  {
    var v := Next(rule, w, s);
    forall p: Id
      ensures DecidedByRule(rule, v, p)
    {
      assert DecidedByRule(rule, w, p);
    }
    match s {
      case Edit(c, value) =>
        WriteIsFaithful(rule, cells, w, v, Write(c, Lookup(w.cells, c), value, None));
      case Attempt(p) =>
        if PhaseOf(w, p).Decided? && Lookup(w.cells, PhaseOf(w, p).cell) == Some(PhaseOf(w, p).read) {
          assert DecidedByRule(rule, w, p);
          WriteIsFaithful(rule, cells, w, v,
            Write(PhaseOf(w, p).cell, Some(PhaseOf(w, p).read), Some(PhaseOf(w, p).target), Some(p)));
        }
      case _ =>
    }
  }

  /** A pass never overwrites a value other than the one it read: over every interleaving, each write of
      a pass starts from the value the cell held, and that is the value its decision was made from. */
  lemma {:induction false} EveryRunIsFaithful<S>(rule: (Id, S, S) -> bool, cells: map<Id, S>, steps: seq<Step<S>>)
    ensures Faithful(rule, cells, Run(rule, Start(cells), steps))
    decreases |steps|
  {
    if steps != [] {
      EveryRunIsFaithful(rule, cells, steps[..|steps| - 1]);
      StepIsFaithful(rule, cells, Run(rule, Start(cells), steps[..|steps| - 1]), steps[|steps| - 1]);
    }
  }

  // ----- Exclusiveness -----

  /** Between writes j and k, some write put `v` back into the cell. */
  ghost predicate PutBack<S>(log: seq<Write<S>>, j: nat, k: nat, c: Id, v: S) {
    exists m: nat :: j < m < k <= |log| && log[m].cell == c && log[m].to == Some(v)
  }

  /** If write j left something else, a later value `v` was put there after j. */
  lemma {:induction false} ValueHasASource<S>(cells: map<Id, S>, log: seq<Write<S>>, j: nat, k: nat, c: Id, v: S)
    requires j < k <= |log| && log[j].cell == c && log[j].to != Some(v)
    requires Value(cells, log[..k], c) == Some(v)
    ensures PutBack(log, j, k, c, v)
    decreases k
  {
    assert log[..k][..k - 1] == log[..k - 1];
    if log[k - 1].cell != c {
      ValueHasASource(cells, log, j, k - 1, c, v);
      var m: nat :| j < m < k - 1 && log[m].cell == c && log[m].to == Some(v);
      assert m < k;
    }
  }

  /** However many passes decide on the same change from the same value, only one of them makes it,
      unless somebody puts the value back in between. */
  lemma OneOfManyMakesTheChange<S>(rule: (Id, S, S) -> bool, cells: map<Id, S>, steps: seq<Step<S>>, j: nat, k: nat)
    requires var log := Run(rule, Start(cells), steps).log;
      && j < k < |log| && log[j].cell == log[k].cell && log[k].from.Some? && log[j].to != log[k].from
    ensures var log := Run(rule, Start(cells), steps).log;
      PutBack(log, j, k, log[k].cell, log[k].from.value)
  {
    EveryRunIsFaithful(rule, cells, steps);
    var log := Run(rule, Start(cells), steps).log;
    assert LinkedAt(cells, log, k);
    ValueHasASource(cells, log, j, k, log[k].cell, log[k].from.value);
  }

  // ----- A race of any number of passes for one cell -----

  /** The passes of P have all read the same value of the cell, and each has decided on a target. */
  predicate Racing<S(==)>(w: World<S>, P: set<Id>, c: Id, read: S, target: Id -> S) {
    && P != {} && Lookup(w.cells, c) == Some(read)
    && forall p :: p in P ==> PhaseOf(w, p) == Decided(c, read, target(p))
  }

  /** Steps of the race: the racing passes attempt and tell in any order; others may do anything that does
      not write to the cell. */
  predicate LeavesRace<S>(w: World<S>, P: set<Id>, c: Id, s: Step<S>) {
    match s
    case Attempt(p) => p in P || !(PhaseOf(w, p).Decided? && PhaseOf(w, p).cell == c)
    case Tell(p) => true
    case Decide(p, _, _) => p !in P
    case Quit(p) => p !in P
    case Edit(x, _) => x != c
  }

  ghost predicate Undisturbed<S>(rule: (Id, S, S) -> bool, w: World<S>, P: set<Id>, c: Id, steps: seq<Step<S>>)
    decreases |steps|
  {
    steps != [] ==>
      var before := steps[..|steps| - 1];
      Undisturbed(rule, w, P, c, before) && LeavesRace(Run(rule, w, before), P, c, steps[|steps| - 1])
  }

  /** Who attempts first. */
  function First<S>(P: set<Id>, steps: seq<Step<S>>): Option<Id>
    decreases |steps|
  {
    if steps == [] then None else
      var sofar, s := First(P, steps[..|steps| - 1]), steps[|steps| - 1];
      if sofar.None? && s.Attempt? && s.pass in P then Some(s.pass) else sofar
  }

  /** The writes to the cell since w. */
  function NewWrites<S>(w: World<S>, v: World<S>, c: Id): set<nat> {
    set m: nat | |w.log| <= m < |v.log| && v.log[m].cell == c
  }

  /** A step adds at most one entry to the log. */
  lemma OneMoreWrite<S>(rule: (Id, S, S) -> bool, w: World<S>, v: World<S>, c: Id, s: Step<S>)
    requires |w.log| <= |v.log|
    ensures var u := Next(rule, v, s);
      && |v.log| <= |u.log| && (forall m :: 0 <= m < |v.log| ==> u.log[m] == v.log[m])
      && NewWrites(w, u, c) == NewWrites(w, v, c) +
         if |u.log| > |v.log| && u.log[|v.log|].cell == c then {|v.log|} else {}
  {
  }

  /** A pass that has not been outrun yet, or is past its attempt. */
  predicate Past<S(==)>(w: World<S>, p: Id, c: Id, read: S, target: Id -> S) {
    PhaseOf(w, p) == Decided(c, read, target(p)) || PhaseOf(w, p).Idle? || PhaseOf(w, p).Won?
  }

  /** Where a race for a change of value stands: nobody has attempted, or the first to attempt has it. */
  ghost predicate Standing<S>(
    w: World<S>, v: World<S>, P: set<Id>, c: Id, read: S, target: Id -> S, first: Option<Id>)
  {
    |w.log| <= |v.log| && match first
    case None => Racing(v, P, c, read, target) && NewWrites(w, v, c) == {}
    case Some(q) =>
      && q in P && Lookup(v.cells, c) == Some(target(q)) && |NewWrites(w, v, c)| == 1
      && (forall m :: m in NewWrites(w, v, c) ==> v.log[m] == Write(c, Some(read), Some(target(q)), Some(q)))
      && forall p :: p in P ==> Past(v, p, c, read, target)
  }

  lemma FirstAttempt<S>(rule: (Id, S, S) -> bool, w: World<S>, v: World<S>, P: set<Id>, c: Id, read: S,
    target: Id -> S, q: Id)
    requires q in P && Standing(w, v, P, c, read, target, None)
    ensures Standing(w, Next(rule, v, Attempt(q)), P, c, read, target, Some(q))
  {
    OneMoreWrite(rule, w, v, c, Attempt(q));
    assert PhaseOf(v, q) == Decided(c, read, target(q));
    assert NewWrites(w, Next(rule, v, Attempt(q)), c) == {|v.log|};
  }

  lemma PastStays<S>(rule: (Id, S, S) -> bool, v: World<S>, P: set<Id>, c: Id, read: S, target: Id -> S,
    s: Step<S>, p: Id)
    requires p in P && Past(v, p, c, read, target) && LeavesRace(v, P, c, s)
    ensures Past(Next(rule, v, s), p, c, read, target)
  {
  }

  /** Once the cell has left the value the racing passes expect, no step of the race writes it. */
  lemma LoserWritesNothing<S>(rule: (Id, S, S) -> bool, w: World<S>, v: World<S>, P: set<Id>, c: Id, read: S,
    target: Id -> S, now: S, s: Step<S>)
    requires |w.log| <= |v.log| && Lookup(v.cells, c) == Some(now) && now != read && LeavesRace(v, P, c, s)
    requires s.Attempt? && s.pass in P ==> Past(v, s.pass, c, read, target)
    ensures Lookup(Next(rule, v, s).cells, c) == Some(now)
    ensures NewWrites(w, Next(rule, v, s), c) == NewWrites(w, v, c)
  {
    OneMoreWrite(rule, w, v, c, s);
  }

  lemma LaterStep<S>(rule: (Id, S, S) -> bool, w: World<S>, v: World<S>, P: set<Id>, c: Id, read: S,
    target: Id -> S, q: Id, s: Step<S>)
    requires target(q) != read && Standing(w, v, P, c, read, target, Some(q)) && LeavesRace(v, P, c, s)
    ensures Standing(w, Next(rule, v, s), P, c, read, target, Some(q))
  {
    OneMoreWrite(rule, w, v, c, s);
    assert s.Attempt? && s.pass in P ==> Past(v, s.pass, c, read, target);
    LoserWritesNothing(rule, w, v, P, c, read, target, target(q), s);
    forall p | p in P
      ensures Past(Next(rule, v, s), p, c, read, target)
    {
      assert Past(v, p, c, read, target);
      PastStays(rule, v, P, c, read, target, s, p);
    }
  }

  lemma {:induction false} RaceStands<S>(rule: (Id, S, S) -> bool, w: World<S>, P: set<Id>, c: Id, read: S,
    target: Id -> S, steps: seq<Step<S>>)
    requires Racing(w, P, c, read, target) && (forall p :: p in P ==> target(p) != read)
    requires Undisturbed(rule, w, P, c, steps)
    ensures Standing(w, Run(rule, w, steps), P, c, read, target, First(P, steps))
    decreases |steps|
  {
    if steps != [] {
      var before, s := steps[..|steps| - 1], steps[|steps| - 1];
      RaceStands(rule, w, P, c, read, target, before);
      var v := Run(rule, w, before);
      match First(P, before) {
        case Some(q) =>
          LaterStep(rule, w, v, P, c, read, target, q, s);
        case None =>
          if s.Attempt? && s.pass in P { FirstAttempt(rule, w, v, P, c, read, target, s.pass); }
          else { OneMoreWrite(rule, w, v, c, s); }
      }
    }
  }

  /** Any number of passes that decided, from one value, on changes of it, each perhaps on its own: over
      every interleaving, exactly one of them writes, and it is whoever attempts first. */
  lemma FirstToAttemptHasIt<S>(rule: (Id, S, S) -> bool, w: World<S>, P: set<Id>, c: Id, read: S,
    target: Id -> S, steps: seq<Step<S>>)
    requires Racing(w, P, c, read, target) && (forall p :: p in P ==> target(p) != read)
    requires Undisturbed(rule, w, P, c, steps)
    ensures var v, first := Run(rule, w, steps), First(P, steps);
      && |NewWrites(w, v, c)| == (if first.Some? then 1 else 0)
      && (first.Some? ==> first.value in P)
      && (forall m :: m in NewWrites(w, v, c) ==> v.log[m].author == first)
      && Lookup(v.cells, c) == Some(if first.Some? then target(first.value) else read)
  {
    RaceStands(rule, w, P, c, read, target, steps);
  }

  /** The racing passes that have not attempted yet. */
  function Waiting<S>(w: World<S>, P: set<Id>): set<Id> {
    set p | p in P && PhaseOf(w, p).Decided?
  }

  /** Once a racing pass is past its attempt, somebody was first. */
  lemma SomebodyWasFirst<S>(rule: (Id, S, S) -> bool, w: World<S>, P: set<Id>, c: Id, read: S,
    target: Id -> S, steps: seq<Step<S>>)
    requires Racing(w, P, c, read, target) && (forall p :: p in P ==> target(p) != read)
    requires Undisturbed(rule, w, P, c, steps) && Waiting(Run(rule, w, steps), P) != P
    ensures First(P, steps).Some?
  {
    RaceStands(rule, w, P, c, read, target, steps);
  }

  /** Where a race stands that does not change the value: everybody who has attempted has written. */
  ghost predicate NobodyOut<S>(w: World<S>, v: World<S>, P: set<Id>, c: Id, read: S) {
    && |w.log| <= |v.log| && Lookup(v.cells, c) == Some(read)
    && (forall p :: p in P ==> PhaseOf(v, p) == Decided(c, read, read) || PhaseOf(v, p).Idle? || PhaseOf(v, p).Won?)
    && |NewWrites(w, v, c)| == |P| - |Waiting(v, P)|
  }

  lemma RacerWrites<S>(rule: (Id, S, S) -> bool, w: World<S>, v: World<S>, P: set<Id>, c: Id, read: S, p: Id)
    requires NobodyOut(w, v, P, c, read) && p in P && PhaseOf(v, p).Decided?
    ensures NobodyOut(w, Next(rule, v, Attempt(p)), P, c, read)
  {
    var u := Next(rule, v, Attempt(p));
    OneMoreWrite(rule, w, v, c, Attempt(p));
    assert p in Waiting(v, P) && Waiting(u, P) == Waiting(v, P) - {p};
    assert |v.log| !in NewWrites(w, v, c);
  }

  lemma OthersKeepPhases<S>(rule: (Id, S, S) -> bool, w: World<S>, v: World<S>, P: set<Id>, c: Id, s: Step<S>)
    requires |w.log| <= |v.log|
    requires LeavesRace(v, P, c, s) && !(s.Attempt? && s.pass in P && PhaseOf(v, s.pass).Decided?)
    ensures Waiting(Next(rule, v, s), P) == Waiting(v, P)
    ensures NewWrites(w, Next(rule, v, s), c) == NewWrites(w, v, c)
    ensures Lookup(Next(rule, v, s).cells, c) == Lookup(v.cells, c) && |w.log| <= |Next(rule, v, s).log|
    ensures forall p :: p in P ==>
      PhaseOf(Next(rule, v, s), p) == PhaseOf(v, p) || (PhaseOf(v, p).Won? && PhaseOf(Next(rule, v, s), p).Idle?)
  {
    OneMoreWrite(rule, w, v, c, s);
  }

  lemma NobodyOutStep<S>(rule: (Id, S, S) -> bool, w: World<S>, v: World<S>, P: set<Id>, c: Id, read: S, s: Step<S>)
    requires NobodyOut(w, v, P, c, read) && LeavesRace(v, P, c, s)
    ensures NobodyOut(w, Next(rule, v, s), P, c, read)
  {
    if s.Attempt? && s.pass in P && PhaseOf(v, s.pass).Decided? {
      RacerWrites(rule, w, v, P, c, read, s.pass);
    } else {
      OthersKeepPhases(rule, w, v, P, c, s);
    }
  }

  lemma {:induction false} NobodyIsOut<S>(rule: (Id, S, S) -> bool, w: World<S>, P: set<Id>, c: Id, read: S,
    steps: seq<Step<S>>)
    requires Racing(w, P, c, read, (p: Id) => read) && Undisturbed(rule, w, P, c, steps)
    ensures NobodyOut(w, Run(rule, w, steps), P, c, read)
    decreases |steps|
  {
    if steps == [] {
      assert Waiting(w, P) == P;
      assert NewWrites(w, w, c) == {};
    } else {
      NobodyIsOut(rule, w, P, c, read, steps[..|steps| - 1]);
      NobodyOutStep(rule, w, Run(rule, w, steps[..|steps| - 1]), P, c, read, steps[|steps| - 1]);
    }
  }

  /** The guard excludes the other passes if and only if the change leaves the expected value. However many
      passes decided to write `target` over the same `read`, and however their steps interleave, once all
      have attempted one has written, if the two differ, and all of them have, if not. */
  lemma ExclusiveIffTheValueChanges<S>(rule: (Id, S, S) -> bool, w: World<S>, P: set<Id>, c: Id, read: S, target: S,
    steps: seq<Step<S>>)
    requires Racing(w, P, c, read, (p: Id) => target) && Undisturbed(rule, w, P, c, steps)
    requires Waiting(Run(rule, w, steps), P) == {}
    ensures |NewWrites(w, Run(rule, w, steps), c)| == if read == target then |P| else 1
  {
    if read == target {
      NobodyIsOut(rule, w, P, c, read, steps);
    } else {
      SomebodyWasFirst(rule, w, P, c, read, (p: Id) => target, steps);
      RaceStands(rule, w, P, c, read, (p: Id) => target, steps);
    }
  }

  lemma {:induction false} RunJoins<S>(rule: (Id, S, S) -> bool, w: World<S>, a: seq<Step<S>>, b: seq<Step<S>>)
    ensures Run(rule, w, a + b) == Run(rule, Run(rule, w, a), b)
    decreases |b|
  {
    if b == [] {
      assert a + b == a;
    } else {
      assert (a + b)[..|a + b| - 1] == a + b[..|b| - 1];
      RunJoins(rule, w, a, b[..|b| - 1]);
    }
  }

  /** Exactly one pass makes the change and announces it: of all passes that decided on it in a run, once
      all have attempted and announced, exactly one has written to the cell, and that write has been
      announced exactly once. */
  lemma ExactlyOneMakesAndAnnouncesIt<S>(rule: (Id, S, S) -> bool, cells: map<Id, S>, before: seq<Step<S>>,
    P: set<Id>, c: Id, read: S, target: Id -> S, steps: seq<Step<S>>) returns (n: nat)
    requires var w := Run(rule, Start(cells), before);
      && Racing(w, P, c, read, target) && (forall p :: p in P ==> target(p) != read)
      && Undisturbed(rule, w, P, c, steps) && Diligent(rule, Start(cells), before + steps)
      && (forall p :: p in P ==> PhaseOf(Run(rule, w, steps), p).Idle?)
    ensures var w := Run(rule, Start(cells), before);
      var v := Run(rule, w, steps);
      && NewWrites(w, v, c) == {n} && First(P, steps).Some? && v.log[n].author == First(P, steps)
      && Times(v.told, n) == 1
  {
    var w := Run(rule, Start(cells), before);
    var v := Run(rule, w, steps);
    RunJoins(rule, Start(cells), before, steps);
    RaceStands(rule, w, P, c, read, target, steps);
    var p :| p in P;
    assert Waiting(v, P) == {} && p !in Waiting(v, P);
    SomebodyWasFirst(rule, w, P, c, read, target, steps);
    n :| n in NewWrites(w, v, c);
    OnlyElement(NewWrites(w, v, c), n);
    EveryChangeIsAnnouncedOnce(rule, cells, before + steps, n);
  }

  lemma OnlyElement(s: set<nat>, n: nat)
    requires |s| == 1 && n in s
    ensures s == {n}
  {
    assert |s - {n}| == 0;
  }

  /** Passes race as soon as they have read the same value: each that is free decides, in any order. */
  lemma {:induction false} ReadersRace<S>(rule: (Id, S, S) -> bool, w: World<S>, passes: seq<Id>, c: Id,
    target: Id -> S)
    requires c in w.cells && forall i :: 0 <= i < |passes| ==>
      PhaseOf(w, passes[i]).Idle? && rule(c, w.cells[c], target(passes[i]))
    requires forall i, j :: 0 <= i < j < |passes| ==> passes[i] != passes[j]
    ensures var v := Run(rule, w, AllDecide(passes, c, target));
      && v.cells == w.cells && v.log == w.log && v.told == w.told
      && (forall p: Id :: PhaseOf(v, p) == if p in passes then Decided(c, w.cells[c], target(p)) else PhaseOf(w, p))
    decreases |passes|
  {
    if passes != [] {
      var front, last := passes[..|passes| - 1], passes[|passes| - 1];
      ReadersRace(rule, w, front, c, target);
      assert AllDecide(passes, c, target)[..|passes| - 1] == AllDecide(front, c, target);
      assert passes == front + [last];
      assert last !in front;
    }
  }

  function AllDecide<S>(passes: seq<Id>, c: Id, target: Id -> S): seq<Step<S>> {
    seq(|passes|, i requires 0 <= i < |passes| => Decide(passes[i], c, target(passes[i])))
  }

  // ----- Progress in one direction -----

  /** Nobody but the passes wrote to the cell. */
  ghost predicate OnlyPasses<S>(log: seq<Write<S>>, c: Id) {
    forall n :: 0 <= n < |log| && log[n].cell == c ==> log[n].author.Some?
  }

  /** A rule that only ever moves a cell up. */
  ghost predicate Climbs<S(!new)>(rule: (Id, S, S) -> bool, rank: S -> nat, c: Id) {
    forall a, b :: rule(c, a, b) ==> rank(a) < rank(b)
  }

  /** With a rule that climbs and no other edits, the value a cell holds is at least that of every write
      to it so far. */
  lemma {:induction false} ValueHasClimbed<S(!new)>(rule: (Id, S, S) -> bool, rank: S -> nat, cells: map<Id, S>,
      log: seq<Write<S>>, c: Id, j: nat, k: nat)
    requires Climbs(rule, rank, c) && Linked(cells, log) && OnlyPasses(log, c)
    requires forall n :: 0 <= n < |log| ==> Ruled(rule, log[n])
    requires j < k <= |log| && log[j].cell == c
    ensures Value(cells, log[..k], c).Some? && log[j].to.Some?
    ensures rank(Value(cells, log[..k], c).value) >= rank(log[j].to.value)
    decreases k
  {
    assert Ruled(rule, log[j]);
    assert log[..k][..k - 1] == log[..k - 1];
    if j < k - 1 {
      ValueHasClimbed(rule, rank, cells, log, c, j, k - 1);
      if log[k - 1].cell == c {
        assert LinkedAt(cells, log, k - 1) && Ruled(rule, log[k - 1]);
      }
    }
  }

  /** ... so the writes to one cell ascend strictly. */
  lemma WritesAscend<S(!new)>(rule: (Id, S, S) -> bool, rank: S -> nat, cells: map<Id, S>, steps: seq<Step<S>>,
      c: Id, j: nat, k: nat)
    requires var log := Run(rule, Start(cells), steps).log;
      && Climbs(rule, rank, c) && OnlyPasses(log, c)
      && j < k < |log| && log[j].cell == c && log[k].cell == c
    ensures var log := Run(rule, Start(cells), steps).log;
      && log[j].to.Some? && log[k].to.Some?
      && rank(log[j].to.value) < rank(log[k].to.value)
  {
    EveryRunIsFaithful(rule, cells, steps);
    var log := Run(rule, Start(cells), steps).log;
    ValueHasClimbed(rule, rank, cells, log, c, j, k);
    assert LinkedAt(cells, log, k) && Ruled(rule, log[k]);
  }
}
