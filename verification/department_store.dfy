/** The department tables as the queries update them in place, and DepartmentService on top. */
module DepartmentStore {
  import opened Prelude
  import opened DepartmentForest
  import opened DepartmentCounts
  import opened DepartmentHistory

  /** How a handler answers. */
  datatype Reply = Done | NotFound | Refused

  /** How a move is answered: it needs both departments, and is refused exactly if it would spoil the forest. */
  ghost function MoveReply(t: Parents, id: Id, under: Option<Id>): Reply {
    if id !in t || (under.Some? && under.value !in t) then NotFound
    else if Forest(Move(t, id, under)) then Done else Refused
  }

  lemma MoveOutcome(o: Org, id: Id, under: Option<Id>, f: Faults)
    requires Forest(ParentColumn(o))
    ensures var t := ParentColumn(o);
      && (MoveReply(t, id, under) == Done <==> MoveAllowed(o, id, under))
      && (MoveReply(t, id, under) == Refused <==>
            id in o.depts && under.Some? && under.value in o.depts && IsDescendant(t, id, under.value))
      && (id in o.depts && under.Some? && IsDescendant(t, id, under.value) ==> under.value in o.depts)
      && ParentColumn(HandleRelocate(o, id, under, f))
         == if MoveReply(t, id, under) == Done then Move(t, id, under) else t
  {
    var t := ParentColumn(o);
    if id in t && under.Some? {
      if IsDescendant(t, id, under.value) { DescendantIsARow(t, id, under.value); }
    }
    if id in t && (under.Some? ==> under.value in t) {
      MoveIsAllowedIffSafe(o, id, under);
      RelocateColumn(o, id, under, f);
    }
  }

  class DepartmentTables {
    var departments: map<Id, Dept>
    var members: map<Id, Membership>

    constructor ()
      ensures Rows() == Org(map[], map[])
    {
      departments, members := map[], map[];
    }

    function Rows(): Org
      reads this
    {
      Org(departments, members)
    }

    // ----- Count statements; `fails` is a statement that errors and so changes nothing -----

    method IncrementDepartmentMemberCount(d: Id, isManager: bool, fails: bool)
      modifies this
      ensures Rows() == Unless(fails, IncrementMembers(old(Rows()), d, isManager), old(Rows()))
    {
      if !fails && d in departments {
        var x := departments[d];
        departments := departments[d := x.(memberCount := x.memberCount + 1,
                                           managerCount := x.managerCount + if isManager then 1 else 0)];
      }
    }

    method DecrementDepartmentMemberCount(d: Id, isManager: bool, fails: bool)
      modifies this
      ensures Rows() == Unless(fails, DecrementMembers(old(Rows()), d, isManager), old(Rows()))
    {
      if !fails && d in departments {
        var x := departments[d];
        departments := departments[d := x.(memberCount := Max(x.memberCount - 1, 0),
                                           managerCount := Max(x.managerCount + (if isManager then -1 else 0), 0))];
      }
    }

    method AdjustDepartmentManagerCount(d: Id, delta: int, fails: bool)
      modifies this
      ensures Rows() == Unless(fails, AdjustManagers(old(Rows()), d, delta), old(Rows()))
    {
      if !fails && d in departments {
        departments := departments[d := departments[d].(managerCount := Max(departments[d].managerCount + delta, 0))];
      }
    }

    method IncrementDepartmentChildCount(d: Id, fails: bool)
      modifies this
      ensures Rows() == Unless(fails, IncrementChildren(old(Rows()), d), old(Rows()))
    {
      if !fails && d in departments {
        departments := departments[d := departments[d].(childCount := departments[d].childCount + 1)];
      }
    }

    method DecrementDepartmentChildCount(d: Id, fails: bool)
      modifies this
      ensures Rows() == Unless(fails, DecrementChildren(old(Rows()), d), old(Rows()))
    {
      if !fails && d in departments {
        departments := departments[d := departments[d].(childCount := Max(departments[d].childCount - 1, 0))];
      }
    }

    // ----- The recursive descendant query -----

    /** The descendant query reads the parent column; in a forest its recursion stops. */
    method IsDepartmentDescendant(start: Id, target: Id) returns (found: bool)
      requires Forest(ParentColumn(Rows()))
      ensures found <==> IsDescendant(ParentColumn(Rows()), start, target)
    {
      var t := ParentColumn(Rows());
      ForestEndsRecursion(t, start);
      var descendants := DescendantRounds(t, start);
      found := target in descendants;
    }

    // ----- Handlers -----

    method CreateDepartment(id: Id, under: Option<Id>, f: Faults) returns (reply: Reply)
      requires id !in departments  // uuidv7() is fresh
      modifies this
      ensures Rows() == Handle(old(Rows()), Request.Create(id, under), f)
      ensures reply == Done <==> (under.Some? ==> under.value in old(departments))
    {
      if under.Some? && under.value !in departments {
        return NotFound;
      }
      departments := departments[id := Dept(under, 0, 0, 0)];
      if under.Some? {
        IncrementDepartmentChildCount(under.value, f.inc);
      }
      return Done;
    }

    method MoveDepartment(id: Id, under: Option<Id>, f: Faults) returns (reply: Reply)
      requires Forest(ParentColumn(Rows()))
      modifies this
      ensures Rows() == Handle(old(Rows()), Request.Relocate(id, under), f)
      ensures Forest(ParentColumn(Rows()))
      ensures reply == MoveReply(ParentColumn(old(Rows())), id, under)
      ensures ParentColumn(Rows())
           == if reply == Done then Move(ParentColumn(old(Rows())), id, under) else ParentColumn(old(Rows()))
    {
      MoveOutcome(Rows(), id, under, f);
      HandleKeepsForest(Rows(), Request.Relocate(id, under), f);
      if id !in departments {
        return NotFound;
      }
      if under.Some? {
        var circular := IsDepartmentDescendant(id, under.value);
        if circular {
          return Refused;
        }
        if under.value !in departments {
          return NotFound;
        }
      }
      var oldParent := departments[id].parent;
      departments := departments[id := departments[id].(parent := under)];
      if oldParent.Some? {
        DecrementDepartmentChildCount(oldParent.value, f.dec);
      }
      if under.Some? {
        IncrementDepartmentChildCount(under.value, f.inc);
      }
      return Done;
    }

    method DeleteDepartment(id: Id) returns (reply: Reply)
      modifies this
      ensures Rows() == Handle(old(Rows()), Request.Delete(id), NO_FAULTS)
      ensures reply == Done <==> DeleteGoesThrough(old(Rows()), id)
    {
      if id !in departments {
        return NotFound;
      }
      if departments[id].memberCount != 0 || departments[id].childCount != 0 {
        return Refused;
      }
      if exists c :: c in departments && Names(departments[c].parent, id) {
        return Refused;  // fk_department_parent ON DELETE RESTRICT
      }
      var cascaded := MembersOf(Rows(), id);
      departments, members := departments - {id}, members - cascaded;
      return Done;
    }

    method AssignEmployeeToDepartment(e: Id, to: Id, asManager: bool, f: Faults) returns (reply: Reply)
      modifies this
      ensures Rows() == Handle(old(Rows()), Assign(e, to, asManager), f)
      ensures reply == Done <==> to in old(departments)
    {
      var hasOld := e in members && !f.lookup;
      var was := if e in members then members[e] else Membership(to, asManager);
      if to !in departments {
        return NotFound;
      }
      members := members[e := Membership(to, asManager)];
      if hasOld {
        if was.dept != to {
          DecrementDepartmentMemberCount(was.dept, was.manager, f.dec);
          IncrementDepartmentMemberCount(to, asManager, f.inc);
        } else if was.manager != asManager {
          AdjustDepartmentManagerCount(to, if asManager then 1 else -1, f.inc);
        }
      } else {
        IncrementDepartmentMemberCount(to, asManager, f.inc);
      }
      return Done;
    }

    method RemoveEmployeeFromDepartment(e: Id, f: Faults) returns (reply: Reply)
      modifies this
      ensures Rows() == Handle(old(Rows()), Remove(e), f)
      ensures reply == Done <==> e in old(members)
    {
      if e !in members {
        return NotFound;
      }
      var was := members[e];
      members := members - {e};
      DecrementDepartmentMemberCount(was.dept, was.manager, f.dec);
      return Done;
    }

    method SetDepartmentManager(e: Id, to: Id, f: Faults) returns (reply: Reply)
      modifies this
      ensures Rows() == Handle(old(Rows()), Promote(e, to), f)
      ensures reply == Done <==> PromotionApplies(old(Rows()), e, to)
    {
      if e !in members || members[e].dept != to {
        return Refused;
      }
      if members[e].manager {
        return NotFound;  // the UPDATE matches no row
      }
      members := members[e := Membership(to, true)];
      AdjustDepartmentManagerCount(to, 1, f.inc);
      return Done;
    }

    method ClearDepartmentManager(d: Id, f: Faults)
      modifies this
      ensures Rows() == Handle(old(Rows()), Demote(d), f)
    {
      var demoted := |ManagersOf(Rows(), d)|;
      if demoted > 0 {
        members := DemoteAll(Rows(), d).members;
        AdjustDepartmentManagerCount(d, -demoted, f.dec);
      }
    }
  }

  /** The join of the recursive term: every row whose parent is in the working table. */
  function NextRound(t: Parents, working: set<Id>): set<Id> {
    set d | d in t && t[d].Some? && t[d].value in working
  }

  ghost predicate IsRound(t: Parents, start: Id, n: nat, working: set<Id>) {
    forall d :: d in working <==> Copies(t, start, d, n) > 0
  }

  ghost predicate SeenBefore(t: Parents, start: Id, n: nat, d: Id) {
    exists k: nat :: k < n && Copies(t, start, d, k) > 0
  }

  ghost predicate IsCollected(t: Parents, start: Id, n: nat, ds: set<Id>) {
    forall d :: d in ds <==> SeenBefore(t, start, n, d)
  }

  lemma NonemptyRoundIsEarly(t: Parents, start: Id, n: nat, working: set<Id>)
    requires IsRound(t, start, n, working) && working != {} && n <= |t| && RoundIsEmpty(t, start, |t|)
    ensures n < |t|
  {
    var d :| d in working;
    assert Copies(t, start, d, n) > 0;
  }

  lemma CollectRound(t: Parents, start: Id, n: nat, working: set<Id>, ds: set<Id>)
    requires IsRound(t, start, n, working) && IsCollected(t, start, n, ds)
    ensures IsRound(t, start, n + 1, NextRound(t, working))
    ensures IsCollected(t, start, n + 1, ds + working)
  {
    forall d
      ensures d in ds + working <==> SeenBefore(t, start, n + 1, d)
    {
      if d in working { assert Copies(t, start, d, n) > 0; }
      if SeenBefore(t, start, n + 1, d) {
        var k: nat :| k < n + 1 && Copies(t, start, d, k) > 0;
        if k == n { assert d in working; } else { assert SeenBefore(t, start, n, d); }
      }
    }
  }

  /** Once a round is empty every later one is. */
  lemma {:induction false} LaterRoundsStayEmpty(t: Parents, start: Id, n: nat, k: nat)
    requires RoundIsEmpty(t, start, n) && k >= n
    ensures RoundIsEmpty(t, start, k)
    decreases k
  {
    if k > n {
      LaterRoundsStayEmpty(t, start, n, k - 1);
    }
  }

  lemma CollectedAll(t: Parents, start: Id, n: nat, ds: set<Id>)
    requires IsRound(t, start, n, {}) && IsCollected(t, start, n, ds)
    ensures forall d :: d in ds <==> IsDescendant(t, start, d)
  {
    assert forall d :: d !in {} && Copies(t, start, d, n) == 0;
    forall d
      ensures d in ds <==> IsDescendant(t, start, d)
    {
      if IsDescendant(t, start, d) {
        var k: nat :| Copies(t, start, d, k) > 0;
        if k >= n { LaterRoundsStayEmpty(t, start, n, k); }
        assert SeenBefore(t, start, n, d);
      }
    }
  }

  lemma ForestEndsRecursion(t: Parents, start: Id)
    requires Forest(t)
    ensures RoundIsEmpty(t, start, |t|)
  {
    ForestIsAcyclic(t);
    RecursionEndsIffAcyclic(t);
  }

  lemma FirstRound(t: Parents, start: Id)
    ensures IsRound(t, start, 0, if start in t then {start} else {})
    ensures IsCollected(t, start, 0, {})
  {
  }

  /** The rounds of `WITH RECURSIVE descendants`: the working table is joined to the department table
      until a round adds nothing. */
  method DescendantRounds(t: Parents, start: Id) returns (descendants: set<Id>)
    requires RoundIsEmpty(t, start, |t|)
    ensures forall d :: d in descendants <==> IsDescendant(t, start, d)
  {
    var working := if start in t then {start} else {};
    descendants := {};
    ghost var n: nat := 0;
    FirstRound(t, start);
    while working != {}
      invariant n <= |t|
      invariant IsRound(t, start, n, working)
      invariant IsCollected(t, start, n, descendants)
      decreases |t| - n
    {
      NonemptyRoundIsEarly(t, start, n, working);
      CollectRound(t, start, n, working, descendants);
      descendants := descendants + working;
      working := NextRound(t, working);
      n := n + 1;
    }
    CollectedAll(t, start, n, descendants);
  }

  lemma DescendantIsARow(t: Parents, start: Id, target: Id)
    requires IsDescendant(t, start, target)
    ensures target in t
  {
    var n: nat :| Copies(t, start, target, n) > 0;
  }
}
