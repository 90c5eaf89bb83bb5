/** The department hierarchy of one organization: the `parent_department_id` column as a table,
    the `WITH RECURSIVE` descendant query, and the guard that keeps the table a forest. */
module DepartmentForest {
  import opened Prelude

  type Id = nat
  type Parents = map<Id, Option<Id>>

  /** fk_department_parent: a parent is a row of the same organization. */
  ghost predicate NoDangling(t: Parents) {
    forall d :: d in t && t[d].Some? ==> t[d].value in t
  }

  /** The department n steps above d, if the chain of parents is that long. */
  function Up(t: Parents, d: Id, n: nat): (u: Option<Id>)
    ensures u.Some? ==> u.value in t
    decreases n
  {
    if d !in t then None
    else if n == 0 then Some(d)
    else if t[d].None? then None
    else Up(t, t[d].value, n - 1)
  }

  ghost predicate NoCycle(t: Parents) {
    forall d: Id, n: nat :: n > 0 ==> Up(t, d, n) != Some(d)
  }

  /** d is a root after exactly n steps. */
  predicate RootedAt(t: Parents, d: Id, n: nat) {
    Up(t, d, n).Some? && t[Up(t, d, n).value].None?
  }

  ghost predicate HasRoot(t: Parents, d: Id) {
    exists n: nat :: RootedAt(t, d, n)
  }

  /** a is x itself or stands above it. */
  ghost predicate Above(t: Parents, a: Id, x: Id) {
    exists n: nat :: Up(t, x, n) == Some(a)
  }

  /** Every department hangs, through parents that exist, below a root. */
  ghost predicate Forest(t: Parents) {
    forall d :: d in t ==> HasRoot(t, d)
  }

  lemma {:induction false} UpComposes(t: Parents, d: Id, m: nat, n: nat)
    requires Up(t, d, m).Some?
    ensures Up(t, d, m + n) == Up(t, Up(t, d, m).value, n)
    decreases m
  {
    if m > 0 {
      UpComposes(t, t[d].value, m - 1, n);
    }
  }

  /** A shorter chain exists wherever a longer one does. */
  lemma UpIsDownClosed(t: Parents, d: Id, m: nat, n: nat)
    requires m <= n && Up(t, d, n).Some?
    ensures Up(t, d, m).Some?
  {
    if m < n {
      var gap := n - m;
      ShorterChain(t, d, m, gap);
    }
  }

  lemma {:induction false} ShorterChain(t: Parents, d: Id, m: nat, gap: nat)
    requires Up(t, d, m + gap).Some?
    ensures Up(t, d, m).Some?
    decreases m
  {
    if m > 0 {
      ShorterChain(t, t[d].value, m - 1, gap);
    }
  }

  // ----- The recursive query -----

  /** How many copies of row `d` the `UNION ALL` recursion of IsDepartmentDescendant, started at
      `start`, holds in its n-th working table. The working table is a bag: round 0 is the row of
      `start`, and each later round joins every row of the table to each copy of its parent. */
  function Copies(t: Parents, start: Id, d: Id, n: nat): nat
    decreases n
  {
    if n == 0 then (if d == start && d in t then 1 else 0)
    else if d in t && t[d].Some? then Copies(t, start, t[d].value, n - 1)
    else 0
  }

  /** The recursion stops at the first empty working table. */
  ghost predicate RoundIsEmpty(t: Parents, start: Id, n: nat) {
    forall d :: Copies(t, start, d, n) == 0
  }

  ghost predicate RecursionEnds(t: Parents, start: Id) {
    exists n: nat :: RoundIsEmpty(t, start, n)
  }

  /** `EXISTS (SELECT 1 FROM descendants d WHERE d.id = target)`. */
  ghost predicate IsDescendant(t: Parents, start: Id, target: Id) {
    exists n: nat :: Copies(t, start, target, n) > 0
  }

  /** A row is in round n exactly when `start` is n steps above it, and then once. */
  lemma {:induction false} CopiesCountTheChain(t: Parents, start: Id, d: Id, n: nat)
    requires NoDangling(t)
    ensures Copies(t, start, d, n) == if Up(t, d, n) == Some(start) then 1 else 0
    decreases n
  {
    if n > 0 && d in t && t[d].Some? {
      CopiesCountTheChain(t, start, t[d].value, n - 1);
    }
  }

  // ----- No cycle = forest -----

  /** The departments met on the first n steps up from d. */
  ghost function Visited(t: Parents, d: Id, n: nat): set<Id>
    requires Up(t, d, n).Some?
  {
    if n == 0 then {d} else
      UpIsDownClosed(t, d, n - 1, n);
      Visited(t, d, n - 1) + {Up(t, d, n).value}
  }

  lemma {:induction false} VisitedMeansOnTheChain(t: Parents, d: Id, n: nat, x: Id)
    requires Up(t, d, n).Some? && x in Visited(t, d, n)
    ensures exists i: nat :: i <= n && Up(t, d, i) == Some(x)
    decreases n
  {
    if n == 0 {
      assert Up(t, d, 0) == Some(x);
    } else if x == Up(t, d, n).value {
    } else {
      UpIsDownClosed(t, d, n - 1, n);
      VisitedMeansOnTheChain(t, d, n - 1, x);
    }
  }

  /** Without a cycle no chain repeats a department, so a chain is shorter than the table. */
  lemma {:induction false} ChainIsShort(t: Parents, d: Id, n: nat)
    requires NoCycle(t) && Up(t, d, n).Some?
    ensures Visited(t, d, n) <= t.Keys && |Visited(t, d, n)| == n + 1
    ensures n < |t|
    decreases n
  {
    if n > 0 {
      UpIsDownClosed(t, d, n - 1, n);
      ChainIsShort(t, d, n - 1);
      var top := Up(t, d, n).value;
      if top in Visited(t, d, n - 1) {
        VisitedMeansOnTheChain(t, d, n - 1, top);
        var i: nat :| i <= n - 1 && Up(t, d, i) == Some(top);
        UpComposes(t, d, i, n - i);
        assert false;
      }
    }
    SubsetSize(Visited(t, d, n), t.Keys);
  }

  /** Climbing from d for up to `n` steps meets a root or is still going. */
  lemma {:induction false} ClimbOrRooted(t: Parents, d: Id, n: nat)
    requires NoDangling(t) && d in t
    ensures Up(t, d, n).Some? || HasRoot(t, d)
  {
    if n > 0 {
      ClimbOrRooted(t, d, n - 1);
      if Up(t, d, n - 1).Some? {
        var top := Up(t, d, n - 1).value;
        UpComposes(t, d, n - 1, 1);
        if t[top].None? {
          assert RootedAt(t, d, n - 1);
        } else {
          assert Up(t, top, 1) == Up(t, t[top].value, 0);
        }
      }
    }
  }

  /** A department on a cycle never reaches a root: the chain can be continued for ever. */
  lemma {:induction false} RootedHasAnEnd(t: Parents, d: Id, n: nat, m: nat)
    requires RootedAt(t, d, n) && m > n
    ensures Up(t, d, m).None?
  {
    UpComposes(t, d, n, m - n);
  }

  lemma {:induction false} CycleRepeats(t: Parents, d: Id, n: nat, times: nat)
    requires n > 0 && Up(t, d, n) == Some(d)
    ensures Up(t, d, n * times) == Some(d)
  {
    if times > 0 {
      CycleRepeats(t, d, n, times - 1);
      UpComposes(t, d, n * (times - 1), n);
      assert n * (times - 1) + n == n * times;
    }
  }

  lemma RootedIsOnNoCycle(t: Parents, d: Id, n: nat)
    requires HasRoot(t, d) && n > 0
    ensures Up(t, d, n) != Some(d)
  {
    if Up(t, d, n) == Some(d) {
      var end: nat :| RootedAt(t, d, end);
      CycleRepeats(t, d, n, end + 1);
      assert n * (end + 1) > end;
      RootedHasAnEnd(t, d, end, n * (end + 1));
    }
  }

  /** The two readings of "the hierarchy is sound" agree. */
  lemma ForestIsAcyclic(t: Parents)
    ensures Forest(t) <==> NoDangling(t) && NoCycle(t)
  {
    if Forest(t) {
      forall d | d in t && t[d].Some?
        ensures t[d].value in t
      {
        assert HasRoot(t, d);
        var n: nat :| RootedAt(t, d, n);
        UpIsDownClosed(t, d, 1, n);
        assert Up(t, d, 1) == Up(t, t[d].value, 0);
      }
      forall d: Id, n: nat | n > 0
        ensures Up(t, d, n) != Some(d)
      {
        if d in t { RootedIsOnNoCycle(t, d, n); }
      }
    }
    if NoDangling(t) && NoCycle(t) {
      forall d | d in t
        ensures HasRoot(t, d)
      {
        ClimbOrRooted(t, d, |t|);
        if Up(t, d, |t|).Some? {
          ChainIsShort(t, d, |t|);
        }
      }
    }
  }

  /** The recursion ends for every starting department exactly when the table has no cycle, and
      then within as many rounds as there are departments. */
  lemma RecursionEndsIffAcyclic(t: Parents)
    requires NoDangling(t)
    ensures (forall start :: RecursionEnds(t, start)) <==> NoCycle(t)
    ensures NoCycle(t) ==> forall start :: RoundIsEmpty(t, start, |t|)
  {
    if NoCycle(t) {
      forall start
        ensures RoundIsEmpty(t, start, |t|) && RecursionEnds(t, start)
      {
        forall d
          ensures Copies(t, start, d, |t|) == 0
        {
          CopiesCountTheChain(t, start, d, |t|);
          if Up(t, d, |t|).Some? { ChainIsShort(t, d, |t|); }
        }
      }
    } else {
      var d: Id, n: nat :| n > 0 && Up(t, d, n) == Some(d);
      forall round: nat
        ensures !RoundIsEmpty(t, d, round)
      {
        RoundsNeverEmptyOnCycle(t, d, n, round);
      }
      assert !RecursionEnds(t, d);
    }
  }

  /** Started on a cycle, no round is ever empty: some row of the cycle is in it. */
  lemma RoundsNeverEmptyOnCycle(t: Parents, d: Id, n: nat, round: nat)
    requires NoDangling(t) && n > 0 && Up(t, d, n) == Some(d)
    ensures !RoundIsEmpty(t, d, round)
  {
    CycleRepeats(t, d, n, round);
    assert n * round >= round;
    var lead: nat := n * round - round;
    UpIsDownClosed(t, d, lead, n * round);
    var x := Up(t, d, lead).value;
    UpComposes(t, d, lead, round);
    CopiesCountTheChain(t, d, x, round);
    assert Copies(t, d, x, round) > 0;
  }

  /** The query answers the question its name asks. */
  lemma DescendantMeansBelow(t: Parents, start: Id, target: Id)
    requires NoDangling(t)
    ensures IsDescendant(t, start, target) <==> Above(t, start, target)
  {
    if IsDescendant(t, start, target) {
      var n: nat :| Copies(t, start, target, n) > 0;
      CopiesCountTheChain(t, start, target, n);
    }
    if Above(t, start, target) {
      var n: nat :| Up(t, target, n) == Some(start);
      CopiesCountTheChain(t, start, target, n);
    }
  }

  // ----- Moving a department -----

  function Move(t: Parents, d: Id, parent: Option<Id>): Parents {
    t[d := parent]
  }

  /** A chain that avoids d is the same before and after d's parent changes. */
  lemma {:induction false} UpAvoidingIsUnchanged(t: Parents, d: Id, parent: Option<Id>, x: Id, n: nat)
    requires d in t
    requires forall i: nat :: i <= n ==> Up(t, x, i) != Some(d)
    ensures Up(Move(t, d, parent), x, n) == Up(t, x, n)
    decreases n
  {
    assert Up(t, x, 0) != Some(d);
    if x in t && n > 0 && t[x].Some? {
      forall i: nat | i <= n - 1
        ensures Up(t, t[x].value, i) != Some(d)
      {
        assert Up(t, x, i + 1) == Up(t, t[x].value, i);
      }
      UpAvoidingIsUnchanged(t, d, parent, t[x].value, n - 1);
    }
  }

  /** From a department outside d's subtree the climb to its root is unaffected by the move. */
  lemma OutsiderStaysRooted(t: Parents, d: Id, parent: Option<Id>, x: Id)
    requires d in t && HasRoot(t, x) && !Above(t, d, x)
    ensures HasRoot(Move(t, d, parent), x)
  {
    var n: nat :| RootedAt(t, x, n);
    UpAvoidingIsUnchanged(t, d, parent, x, n);
    assert RootedAt(Move(t, d, parent), x, n);
  }

  lemma RootedStep(t: Parents, d: Id)
    requires d in t && t[d].Some? && HasRoot(t, t[d].value)
    ensures HasRoot(t, d)
  {
    var n: nat :| RootedAt(t, t[d].value, n);
    assert RootedAt(t, d, n + 1);
  }

  /** Climbing to d from inside its subtree, then on from d, reaches a root after the move. */
  lemma {:induction false} InsiderStaysRooted(t: Parents, d: Id, parent: Option<Id>, x: Id, n: nat)
    requires d in t && Up(t, x, n) == Some(d) && HasRoot(Move(t, d, parent), d)
    ensures HasRoot(Move(t, d, parent), x)
    decreases n
  {
    if x != d {
      InsiderStaysRooted(t, d, parent, t[x].value, n - 1);
      RootedStep(Move(t, d, parent), x);
    }
  }

  /** After a move the whole table is rooted as soon as the moved department is. */
  lemma MovedTableIsRooted(t: Parents, d: Id, parent: Option<Id>)
    requires Forest(t) && d in t && HasRoot(Move(t, d, parent), d)
    ensures Forest(Move(t, d, parent))
  {
    forall x | x in Move(t, d, parent)
      ensures HasRoot(Move(t, d, parent), x)
    {
      assert HasRoot(t, x);
      if Above(t, d, x) {
        var i: nat :| Up(t, x, i) == Some(d);
        InsiderStaysRooted(t, d, parent, x, i);
      } else {
        OutsiderStaysRooted(t, d, parent, x);
      }
    }
  }

  /** Moving a department to root always leaves a forest. */
  lemma MoveToRootIsSafe(t: Parents, d: Id)
    requires Forest(t) && d in t
    ensures Forest(Move(t, d, None))
  {
    assert RootedAt(Move(t, d, None), d, 0);
    MovedTableIsRooted(t, d, None);
  }

  /** The guard is exact: moving d below p keeps the hierarchy a forest if and only if the query
      says p is not a descendant of d. Nothing safe is refused, nothing unsafe let through. */
  lemma MoveIsSafeIffNotDescendant(t: Parents, d: Id, p: Id)
    requires Forest(t) && d in t && p in t
    ensures Forest(Move(t, d, Some(p))) <==> !IsDescendant(t, d, p)
  {
    var u := Move(t, d, Some(p));
    ForestIsAcyclic(t);
    DescendantMeansBelow(t, d, p);
    if Above(t, d, p) {
      var n: nat :| Up(t, p, n) == Some(d);
      DescendantClosesCycle(t, d, p, p, n);
      var k: nat :| Up(u, p, k) == Some(d);
      assert Up(u, d, k + 1) == Some(d);
      ForestIsAcyclic(u);
    } else {
      OutsiderStaysRooted(t, d, Some(p), p);
      RootedStep(u, d);
      MovedTableIsRooted(t, d, Some(p));
    }
  }

  /** Below d, the climb back to d survives the change of d's own parent. */
  lemma {:induction false} DescendantClosesCycle(t: Parents, d: Id, p: Id, x: Id, n: nat)
    requires d in t && Up(t, x, n) == Some(d)
    ensures Above(Move(t, d, Some(p)), d, x)
    decreases n
  {
    var u := Move(t, d, Some(p));
    if x == d {
      assert Up(u, x, 0) == Some(d);
    } else {
      DescendantClosesCycle(t, d, p, t[x].value, n - 1);
      var k: nat :| Up(u, t[x].value, k) == Some(d);
      assert Up(u, x, k + 1) == Some(d);
    }
  }

  // ----- Two moves checked against the same table -----

  /** After d moved below p, what stands above x: the part of its old chain up to d, then p's. */
  lemma {:induction false} AboveAfterMove(t: Parents, d: Id, p: Id, a: Id, x: Id)
    requires Forest(t) && d in t && p in t && !Above(t, d, p)
    ensures Above(t, d, x) && Above(t, a, p) ==> Above(Move(t, d, Some(p)), a, x)
    ensures Above(Move(t, d, Some(p)), a, x) ==> Above(t, a, x) || (Above(t, d, x) && Above(t, a, p))
  {
    var u := Move(t, d, Some(p));
    if Above(t, a, p) {
      var m: nat :| Up(t, p, m) == Some(a);
      UpAvoidingIsUnchanged(t, d, Some(p), p, m);
      assert Up(u, d, m + 1) == Some(a);
      if Above(t, d, x) {
        var n: nat :| Up(t, x, n) == Some(d);
        DescendantClosesCycle(t, d, p, x, n);
        var k: nat :| Up(u, x, k) == Some(d);
        UpComposes(u, x, k, m + 1);
      }
    }
    if Above(u, a, x) {
      var n: nat :| Up(u, x, n) == Some(a);
      AboveBeforeMove(t, d, p, a, x, n);
    }
  }

  lemma {:induction false} AboveBeforeMove(t: Parents, d: Id, p: Id, a: Id, x: Id, n: nat)
    requires d in t && p in t && !Above(t, d, p) && Up(Move(t, d, Some(p)), x, n) == Some(a)
    ensures Above(t, a, x) || (Above(t, d, x) && Above(t, a, p))
    decreases n
  {
    var u := Move(t, d, Some(p));
    if n == 0 {
      assert Up(t, x, 0) == Some(a);
    } else if x == d {
      UpAvoidingIsUnchanged(t, d, Some(p), p, n - 1);
      assert Up(t, p, n - 1) == Some(a);
      assert Up(t, d, 0) == Some(d);
    } else {
      AboveBeforeMove(t, d, p, a, t[x].value, n - 1);
      AboveThroughParent(t, a, x);
      AboveThroughParent(t, d, x);
    }
  }

  lemma AboveThroughParent(t: Parents, a: Id, x: Id)
    requires x in t && t[x].Some?
    ensures Above(t, a, t[x].value) ==> Above(t, a, x)
  {
    if Above(t, a, t[x].value) {
      var n: nat :| Up(t, t[x].value, n) == Some(a);
      assert Up(t, x, n + 1) == Some(a);
    }
  }

  /** The handler checks and moves in separate statements. Two moves that each pass the check on the
      same table spoil the hierarchy exactly when each goes below the other's department. */
  lemma StaleChecksCloseACycleIff(t: Parents, d: Id, p: Id, e: Id, q: Id)
    requires Forest(t) && d != e && {d, p, e, q} <= t.Keys
    requires !IsDescendant(t, d, p) && !IsDescendant(t, e, q)
    ensures Forest(Move(Move(t, d, Some(p)), e, Some(q)))
       <==> !(IsDescendant(t, e, p) && IsDescendant(t, d, q))
  {
    var u := Move(t, d, Some(p));
    ForestIsAcyclic(t);
    MoveIsSafeIffNotDescendant(t, d, p);
    MoveIsSafeIffNotDescendant(u, e, q);
    ForestIsAcyclic(u);
    DescendantMeansBelow(t, d, p);
    DescendantMeansBelow(t, e, q);
    DescendantMeansBelow(t, e, p);
    DescendantMeansBelow(t, d, q);
    DescendantMeansBelow(u, e, q);
    AboveAfterMove(t, d, p, e, q);
  }

  /** Such a pair of moves exists: two root departments, each moved below the other. */
  lemma StaleChecksExample()
    ensures var t: Parents := map[1 := None, 2 := None];
      && Forest(t) && !IsDescendant(t, 1, 2) && !IsDescendant(t, 2, 1)
      && !Forest(Move(Move(t, 1, Some(2)), 2, Some(1)))
  {
    var t: Parents := map[1 := None, 2 := None];
    assert RootedAt(t, 1, 0) && RootedAt(t, 2, 0);
    var u := Move(Move(t, 1, Some(2)), 2, Some(1));
    assert Up(u, 1, 2) == Up(u, 2, 1) == Up(u, 1, 0) == Some(1);
    ForestIsAcyclic(u);
    assert forall n: nat :: Copies(t, 1, 2, n) == 0 && Copies(t, 2, 1, n) == 0;
  }

  // ----- Runs -----

  /** CreateDepartment, MoveDepartment and DeleteDepartment with the checks their callers make. */
  datatype Change =
    | Create(id: Id, parent: Option<Id>)
    | Relocate(id: Id, parent: Option<Id>)
    | Delete(id: Id)

  /** A parent named by the request is looked up first, in CreateDepartment and MoveDepartment. */
  predicate ParentFound(t: Parents, parent: Option<Id>) {
    parent.Some? ==> parent.value in t
  }

  ghost predicate HasChildren(t: Parents, d: Id) {
    exists c :: c in t && t[c] == Some(d)
  }

  ghost function Apply(t: Parents, c: Change): Parents {
    match c
    case Create(id, parent) =>
      if id !in t && ParentFound(t, parent) then t[id := parent] else t
    case Relocate(id, parent) =>
      if id in t && ParentFound(t, parent) && (parent.Some? ==> !IsDescendant(t, id, parent.value))
      then Move(t, id, parent) else t
    case Delete(id) =>
      if HasChildren(t, id) then t else t - {id}
  }

  /** The guards of all three changes are exact: in a forest, a change of what is there goes through if and only
      if it leaves a forest. */
  lemma GuardsAreExact(t: Parents, id: Id, parent: Option<Id>)
    requires Forest(t)
    ensures id !in t ==> Apply(t, Create(id, parent)) == if Forest(t[id := parent]) then t[id := parent] else t
    ensures id in t && ParentFound(t, parent) ==>
      Apply(t, Relocate(id, parent)) == if Forest(t[id := parent]) then t[id := parent] else t
    ensures id in t ==> Apply(t, Delete(id)) == if Forest(t - {id}) then t - {id} else t
  {
    if id !in t {
      CreateGuardIsExact(t, id, parent);
    } else {
      DeleteGuardIsExact(t, id);
      if parent.None? {
        MoveToRootIsSafe(t, id);
      } else if parent.value in t {
        MoveIsSafeIffNotDescendant(t, id, parent.value);
      }
    }
  }

  lemma CreateGuardIsExact(t: Parents, id: Id, parent: Option<Id>)
    requires Forest(t) && id !in t
    ensures Forest(t[id := parent]) <==> ParentFound(t, parent)
  {
    var u := t[id := parent];
    if ParentFound(t, parent) {
      CreateKeepsForest(t, id, parent);
    } else {
      ForestIsAcyclic(u);
      assert u[id] == parent;
      if parent == Some(id) { assert Up(u, id, 1) == Some(id); }
    }
  }

  lemma DeleteGuardIsExact(t: Parents, id: Id)
    requires Forest(t) && id in t
    ensures Forest(t - {id}) <==> !HasChildren(t, id)
  {
    if HasChildren(t, id) {
      var c :| c in t && t[c] == Some(id);
      ForestIsAcyclic(t);
      ForestIsAcyclic(t - {id});
      assert c == id ==> Up(t, id, 1) == Some(id);
      assert c != id ==> (t - {id})[c] == Some(id);
    } else {
      DeleteKeepsForest(t, id);
    }
  }

  ghost function Run(t: Parents, changes: seq<Change>): Parents
    decreases |changes|
  {
    if changes == [] then t else Run(Apply(t, changes[0]), changes[1..])
  }

  lemma {:induction false} UpInLargerTable(t: Parents, u: Parents, d: Id, n: nat)
    requires forall x :: x in t ==> x in u && u[x] == t[x]
    requires Up(t, d, n).Some?
    ensures Up(u, d, n) == Up(t, d, n)
    decreases n
  {
    if n > 0 {
      UpInLargerTable(t, u, t[d].value, n - 1);
    }
  }

  lemma LargerTableKeepsRoots(t: Parents, u: Parents, d: Id)
    requires forall x :: x in t ==> x in u && u[x] == t[x]
    requires HasRoot(t, d)
    ensures HasRoot(u, d)
  {
    var n: nat :| RootedAt(t, d, n);
    UpInLargerTable(t, u, d, n);
    assert RootedAt(u, d, n);
  }

  lemma CreateKeepsForest(t: Parents, id: Id, parent: Option<Id>)
    requires Forest(t) && id !in t && ParentFound(t, parent)
    ensures Forest(t[id := parent])
  {
    var u := t[id := parent];
    forall d | d in t
      ensures HasRoot(u, d)
    {
      LargerTableKeepsRoots(t, u, d);
    }
    if parent.Some? {
      RootedStep(u, id);
    } else {
      assert RootedAt(u, id, 0);
    }
  }

  /** Deleting a department nobody hangs below cuts no chain. */
  lemma DeleteKeepsForest(t: Parents, id: Id)
    requires Forest(t) && !HasChildren(t, id)
    ensures Forest(t - {id})
  {
    forall d | d in t - {id}
      ensures HasRoot(t - {id}, d)
    {
      assert HasRoot(t, d);
      var n: nat :| RootedAt(t, d, n);
      LeafIsOnNoChain(t, id, d, n);
      assert RootedAt(t - {id}, d, n);
    }
  }

  lemma {:induction false} LeafIsOnNoChain(t: Parents, leaf: Id, d: Id, n: nat)
    requires !HasChildren(t, leaf)
    requires d != leaf && Up(t, d, n).Some?
    ensures Up(t, d, n) != Some(leaf) && Up(t - {leaf}, d, n) == Up(t, d, n)
    decreases n
  {
    if n > 0 {
      LeafIsOnNoChain(t, leaf, t[d].value, n - 1);
    }
  }

  lemma StepKeepsForest(t: Parents, c: Change)
    requires Forest(t)
    ensures Forest(Apply(t, c))
  {
    match c {
      case Create(id, parent) =>
        if id !in t && ParentFound(t, parent) { CreateKeepsForest(t, id, parent); }
      case Relocate(id, parent) =>
        if id in t && ParentFound(t, parent) {
          if parent.Some? { MoveIsSafeIffNotDescendant(t, id, parent.value); }
          else { MoveToRootIsSafe(t, id); }
        }
      case Delete(id) =>
        if !HasChildren(t, id) { DeleteKeepsForest(t, id); }
    }
  }

  /** Every run of creations, guarded moves and guarded deletions, from a sound hierarchy, keeps it
      sound: no dangling parent, no cycle, and both recursive queries keep terminating. */
  lemma {:induction false} EveryRunKeepsForest(t: Parents, changes: seq<Change>)
    requires Forest(t)
    ensures Forest(Run(t, changes))
    ensures NoDangling(Run(t, changes)) && NoCycle(Run(t, changes))
    decreases |changes|
  {
    if changes == [] {
      ForestIsAcyclic(t);
    } else {
      StepKeepsForest(t, changes[0]);
      EveryRunKeepsForest(Apply(t, changes[0]), changes[1..]);
    }
  }
}
