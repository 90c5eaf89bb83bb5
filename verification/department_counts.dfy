/** The counts kept on each department row by application code: what every handler does to them, when
    they stay equal to the recomputed counts, and what becomes of them when they do not. */
module DepartmentCounts {
  import opened Prelude
  import opened Tally
  import opened DepartmentForest
  import Transaction

  datatype Dept = Dept(parent: Option<Id>, memberCount: int, managerCount: int, childCount: int)

  /** A department_member row; idx_one_department_per_employee makes the employee its key. */
  datatype Membership = Membership(dept: Id, manager: bool)

  /** The department and department_member rows of one organization. */
  datatype Org = Org(depts: map<Id, Dept>, members: map<Id, Membership>)

  function ParentColumn(o: Org): Parents {
    map d | d in o.depts :: o.depts[d].parent
  }

  /** The foreign keys: a membership names a department, a parent is a department. */
  ghost predicate WellFormed(o: Org) {
    && (forall e :: e in o.members ==> o.members[e].dept in o.depts)
    && (forall d :: d in o.depts && o.depts[d].parent.Some? ==> o.depts[d].parent.value in o.depts)
  }

  predicate Names(parent: Option<Id>, d: Id) {
    parent.Some? && parent.value == d
  }

  // ----- The counts recomputed from the rows -----

  function InDept(d: Id): Membership -> bool { (m: Membership) => m.dept == d }

  function ManagerIn(d: Id): Membership -> bool { (m: Membership) => m.dept == d && m.manager }

  function ChildOf(d: Id): Dept -> bool { (x: Dept) => Names(x.parent, d) }

  /** How far each stored count is above the true one. */
  datatype Drift = Drift(members: int, managers: int, children: int)

  const NONE := Drift(0, 0, 0)

  function Plus(a: Drift, b: Drift): Drift {
    Drift(a.members + b.members, a.managers + b.managers, a.children + b.children)
  }

  ghost function DriftOf(o: Org, d: Id): Drift
    requires d in o.depts
  {
    Drift(o.depts[d].memberCount - Count(o.members, InDept(d)),
          o.depts[d].managerCount - Count(o.members, ManagerIn(d)),
          o.depts[d].childCount - Count(o.depts, ChildOf(d)))
  }

  ghost predicate ExactAt(o: Org, d: Id)
    requires d in o.depts
  {
    DriftOf(o, d) == NONE
  }

  /** Every stored count equals the recomputed one. */
  ghost predicate Exact(o: Org) {
    forall d :: d in o.depts ==> ExactAt(o, d)
  }

  ghost predicate NotShortAt(o: Org, d: Id)
    requires d in o.depts
  {
    DriftOf(o, d).members >= 0 && DriftOf(o, d).managers >= 0 && DriftOf(o, d).children >= 0
  }

  /** No stored count is below the true one. */
  ghost predicate NeverShort(o: Org) {
    forall d :: d in o.depts ==> NotShortAt(o, d)
  }

  // ----- The count statements: no row, no effect -----

  function AddToMembers(o: Org, d: Id, members: int, managers: int): Org {
    if d !in o.depts then o else
      var x := o.depts[d];
      o.(depts := o.depts[d := x.(memberCount := x.memberCount + members,
                                  managerCount := x.managerCount + managers)])
  }

  /** IncrementDepartmentMemberCount. */
  function IncrementMembers(o: Org, d: Id, manager: bool): Org {
    AddToMembers(o, d, 1, (if manager then 1 else 0))
  }

  /** DecrementDepartmentMemberCount, with its GREATEST(..., 0). */
  function DecrementMembers(o: Org, d: Id, manager: bool): Org {
    if d !in o.depts then o else
      var x := o.depts[d];
      o.(depts := o.depts[d := x.(memberCount := Max(x.memberCount - 1, 0),
                                  managerCount := Max(x.managerCount + (if manager then -1 else 0), 0))])
  }

  /** AdjustDepartmentManagerCount. */
  function AdjustManagers(o: Org, d: Id, delta: int): Org {
    if d !in o.depts then o else
      o.(depts := o.depts[d := o.depts[d].(managerCount := Max(o.depts[d].managerCount + delta, 0))])
  }

  /** IncrementDepartmentChildCount. */
  function IncrementChildren(o: Org, d: Id): Org {
    if d !in o.depts then o else
      o.(depts := o.depts[d := o.depts[d].(childCount := o.depts[d].childCount + 1)])
  }

  /** DecrementDepartmentChildCount. */
  function DecrementChildren(o: Org, d: Id): Org {
    if d !in o.depts then o else
      o.(depts := o.depts[d := o.depts[d].(childCount := Max(o.depts[d].childCount - 1, 0))])
  }

  /** A count statement that fails is logged and ignored by the handlers. */
  function Unless(fails: bool, done: Org, skipped: Org): Org {
    if fails then skipped else done
  }

  // ----- The row statements -----

  /** CreateDepartment. */
  function InsertDept(o: Org, id: Id, under: Option<Id>): Org {
    o.(depts := o.depts[id := Dept(under, 0, 0, 0)])
  }

  function WriteMember(o: Org, e: Id, m: Membership): Org {
    o.(members := o.members[e := m])
  }

  function DeleteMember(o: Org, e: Id): Org {
    o.(members := o.members - {e})
  }

  function WriteParent(o: Org, d: Id, parent: Option<Id>): Org
    requires d in o.depts
  {
    o.(depts := o.depts[d := o.depts[d].(parent := parent)])
  }

  function MembersOf(o: Org, d: Id): set<Id> {
    set e | e in o.members && o.members[e].dept == d
  }

  function ManagersOf(o: Org, d: Id): set<Id> {
    set e | e in o.members && o.members[e].dept == d && o.members[e].manager
  }

  /** ClearDepartmentManager's UPDATE. */
  function DemoteAll(o: Org, d: Id): Org {
    o.(members := map e | e in o.members ::
         if o.members[e].dept == d then o.members[e].(manager := false) else o.members[e])
  }

  /** DeleteDepartment: the WHERE clause tests the stored counts, fk_department_parent restricts,
      fk_department_member_department cascades. */
  predicate DeleteGoesThrough(o: Org, d: Id) {
    && d in o.depts && o.depts[d].memberCount == 0 && o.depts[d].childCount == 0
    && forall c :: c in o.depts ==> !Names(o.depts[c].parent, d)
  }

  function DeleteRow(o: Org, d: Id): Org {
    o.(depts := o.depts - {d}, members := o.members - MembersOf(o, d))
  }

  // ----- The handlers of DepartmentService -----

  datatype Request =
    | Create(id: Id, under: Option<Id>)
    | Relocate(id: Id, under: Option<Id>)
    | Delete(id: Id)
    | Assign(employee: Id, to: Id, asManager: bool)
    | Remove(employee: Id)
    | Promote(employee: Id, to: Id)
    | Demote(id: Id)

  /** Which of a handler's secondary statements fail: the lookup of the employee's current department,
      the first decrement, the increment (or adjustment). */
  datatype Faults = Faults(lookup: bool, dec: bool, inc: bool)

  const NO_FAULTS := Faults(false, false, false)

  ghost predicate MoveAllowed(o: Org, d: Id, under: Option<Id>) {
    && d in o.depts
    && (under.Some? ==> under.value in o.depts && !IsDescendant(ParentColumn(o), d, under.value))
  }

  /** In a forest the checks are exact: a move of a department to the root or below a department goes through
      if and only if the result is a forest. */
  lemma MoveIsAllowedIffSafe(o: Org, d: Id, under: Option<Id>)
    requires Forest(ParentColumn(o)) && d in o.depts && (under.Some? ==> under.value in o.depts)
    ensures MoveAllowed(o, d, under) <==> Forest(Move(ParentColumn(o), d, under))
  {
    if under.Some? {
      MoveIsSafeIffNotDescendant(ParentColumn(o), d, under.value);
    } else {
      MoveToRootIsSafe(ParentColumn(o), d);
    }
  }

  predicate PromotionApplies(o: Org, e: Id, d: Id) {
    e in o.members && o.members[e].dept == d && !o.members[e].manager
  }

  function HandleCreate(o: Org, id: Id, under: Option<Id>, f: Faults): Org {
    if id in o.depts || (under.Some? && under.value !in o.depts) then o else
      var made := InsertDept(o, id, under);
      if under.None? then made else Unless(f.inc, IncrementChildren(made, under.value), made)
  }

  ghost function HandleRelocate(o: Org, id: Id, under: Option<Id>, f: Faults): Org {
    if MoveAllowed(o, id, under) then Relocated(o, id, under, f) else o
  }

  function Relocated(o: Org, id: Id, under: Option<Id>, f: Faults): Org
    requires id in o.depts
  {
    JoinParent(LeaveParent(WriteParent(o, id, under), o.depts[id].parent, f), under, f)
  }

  function JoinParent(o: Org, under: Option<Id>, f: Faults): Org {
    if under.None? then o else Unless(f.inc, IncrementChildren(o, under.value), o)
  }

  function LeaveParent(o: Org, was: Option<Id>, f: Faults): Org {
    if was.None? then o else Unless(f.dec, DecrementChildren(o, was.value), o)
  }

  function HandleDelete(o: Org, id: Id): Org {
    if DeleteGoesThrough(o, id) then DeleteRow(o, id) else o
  }

  function HandleAssign(o: Org, e: Id, to: Id, mgr: bool, f: Faults): Org {
    if to !in o.depts then o else
      var written := WriteMember(o, e, Membership(to, mgr));
      if e in o.members && !f.lookup then
        var was := o.members[e];
        if was.dept != to then EnterDept(LeaveDept(written, was, f), to, mgr, f)
        else if was.manager != mgr then
          Unless(f.inc, AdjustManagers(written, to, if mgr then 1 else -1), written)
        else written
      else EnterDept(written, to, mgr, f)
  }

  function LeaveDept(o: Org, was: Membership, f: Faults): Org {
    Unless(f.dec, DecrementMembers(o, was.dept, was.manager), o)
  }

  function EnterDept(o: Org, to: Id, mgr: bool, f: Faults): Org {
    Unless(f.inc, IncrementMembers(o, to, mgr), o)
  }

  function HandleRemove(o: Org, e: Id, f: Faults): Org {
    if e !in o.members then o else
      var was := o.members[e];
      Unless(f.dec, DecrementMembers(DeleteMember(o, e), was.dept, was.manager), DeleteMember(o, e))
  }

  function HandlePromote(o: Org, e: Id, to: Id, f: Faults): Org {
    if !PromotionApplies(o, e, to) then o else
      var written := WriteMember(o, e, Membership(to, true));
      Unless(f.inc, AdjustManagers(written, to, 1), written)
  }

  function HandleDemote(o: Org, id: Id, f: Faults): Org {
    var n := |ManagersOf(o, id)|;
    if n == 0 then o else Unless(f.dec, AdjustManagers(DemoteAll(o, id), id, -n), DemoteAll(o, id))
  }

  ghost function Handle(o: Org, q: Request, f: Faults): Org {
    match q
    case Create(id, under) => HandleCreate(o, id, under, f)
    case Relocate(id, under) => HandleRelocate(o, id, under, f)
    case Delete(id) => HandleDelete(o, id)
    case Assign(e, to, mgr) => HandleAssign(o, e, to, mgr, f)
    case Remove(e) => HandleRemove(o, e, f)
    case Promote(e, to) => HandlePromote(o, e, to, f)
    case Demote(id) => HandleDemote(o, id, f)
  }

  // ----- What each statement does to the drift -----

  /** From one state to the next, the drift at d moves by exactly `change`. */
  ghost predicate Shifts(before: Org, after: Org, d: Id, change: Drift) {
    d in before.depts && d in after.depts && DriftOf(after, d) == Plus(DriftOf(before, d), change)
  }

  /** Rewriting only the count columns of one row. */
  lemma CountWriteShifts(o: Org, at: Id, x: Dept, d: Id)
    requires at in o.depts && d in o.depts && x.parent == o.depts[at].parent
    ensures Shifts(o, o.(depts := o.depts[at := x]), d,
      if d != at then NONE else Drift(x.memberCount - o.depts[at].memberCount,
                                      x.managerCount - o.depts[at].managerCount,
                                      x.childCount - o.depts[at].childCount))
  {
    CountWrite(o.depts, at, x, ChildOf(d));
  }

  function WriteShift(was: Option<Membership>, m: Membership, d: Id): Drift {
    Drift((if was.Some? && was.value.dept == d then 1 else 0) + (if m.dept == d then -1 else 0),
          (if was.Some? && was.value.dept == d && was.value.manager then 1 else 0) +
          (if m.dept == d && m.manager then -1 else 0), 0)
  }

  function DeleteShift(was: Membership, d: Id): Drift {
    Drift((if was.dept == d then 1 else 0), (if was.dept == d && was.manager then 1 else 0), 0)
  }

  function LeaveShift(was: Membership, f: Faults, d: Id): Drift {
    Drift((if !f.dec && d == was.dept then -1 else 0), (if !f.dec && d == was.dept && was.manager then -1 else 0), 0)
  }

  function EnterShift(to: Id, mgr: bool, f: Faults, d: Id): Drift {
    Drift((if !f.inc && d == to then 1 else 0), (if !f.inc && d == to && mgr then 1 else 0), 0)
  }

  lemma MemberWriteShifts(o: Org, e: Id, m: Membership, d: Id)
    requires d in o.depts
    ensures Shifts(o, WriteMember(o, e, m), d, WriteShift(MembershipOf(o, e), m, d))
  {
    CountWrite(o.members, e, m, InDept(d));
    CountWrite(o.members, e, m, ManagerIn(d));
  }

  lemma MemberDeleteShifts(o: Org, e: Id, d: Id)
    requires d in o.depts && e in o.members
    ensures Shifts(o, DeleteMember(o, e), d, DeleteShift(o.members[e], d))
  {
    CountDelete(o.members, e, InDept(d));
    CountDelete(o.members, e, ManagerIn(d));
  }

  lemma ParentWriteShifts(o: Org, at: Id, parent: Option<Id>, d: Id)
    requires at in o.depts && d in o.depts
    ensures Shifts(o, WriteParent(o, at, parent), d, ReparentShift(o.depts[at].parent, parent, d))
  {
    CountWrite(o.depts, at, o.depts[at].(parent := parent), ChildOf(d));
  }

  lemma DemoteShifts(o: Org, at: Id, d: Id)
    requires d in o.depts
    ensures |ManagersOf(o, at)| == Count(o.members, ManagerIn(at))
    ensures Shifts(o, DemoteAll(o, at), d, Drift(0, if d == at then |ManagersOf(o, at)| else 0, 0))
  {
    var after := DemoteAll(o, at).members;
    assert ManagersOf(o, at) == Matching(o.members, ManagerIn(at));
    CountInsensitive(o.members, after, InDept(d));
    if d == at {
      CountZero(after, ManagerIn(d));
    } else {
      CountInsensitive(o.members, after, ManagerIn(d));
    }
  }

  lemma DeleteRowShifts(o: Org, gone: Id, d: Id)
    requires gone in o.depts && d in o.depts && d != gone
    ensures Shifts(o, DeleteRow(o, gone), d, Drift(0, 0, (if Names(o.depts[gone].parent, d) then 1 else 0)))
  {
    CountDelete(o.depts, gone, ChildOf(d));
    CountDeleteOthers(o.members, MembersOf(o, gone), InDept(d));
    CountDeleteOthers(o.members, MembersOf(o, gone), ManagerIn(d));
  }

  lemma CreateRowShifts(o: Org, id: Id, under: Option<Id>, d: Id)
    requires id !in o.depts && d in o.depts
    ensures Shifts(o, InsertDept(o, id, under), d, Drift(0, 0, (if Names(under, d) then -1 else 0)))
  {
    CountWrite(o.depts, id, Dept(under, 0, 0, 0), ChildOf(d));
  }

  /** Nothing refers to d yet. */
  ghost predicate Unused(o: Org, d: Id) {
    && (forall e :: e in o.members ==> o.members[e].dept != d)
    && (forall c :: c in o.depts ==> !Names(o.depts[c].parent, d))
  }

  /** A new department starts without members and children, as its zero counts say. */
  lemma CreatedRowIsExact(o: Org, id: Id, under: Option<Id>)
    requires Unused(o, id) && id !in o.depts && !Names(under, id)
    ensures DriftOf(InsertDept(o, id, under), id) == NONE
  {
    CountWrite(o.depts, id, Dept(under, 0, 0, 0), ChildOf(id));
    CountZero(o.depts, ChildOf(id));
    CountZero(o.members, InDept(id));
    CountZero(o.members, ManagerIn(id));
  }

  // The stored counts a decrement is about to lower, where the employee or the department is.

  ghost predicate CoversMember(o: Org, e: Id) {
    e in o.members ==>
      && o.members[e].dept in o.depts
      && o.depts[o.members[e].dept].memberCount >= 1
      && o.depts[o.members[e].dept].managerCount >= if o.members[e].manager then 1 else 0
  }

  ghost predicate CoversChild(o: Org, c: Id) {
    c in o.depts && o.depts[c].parent.Some? ==>
      && o.depts[c].parent.value in o.depts
      && o.depts[o.depts[c].parent.value].childCount >= 1
  }

  ghost predicate CoversManagers(o: Org, d: Id) {
    d in o.depts ==> o.depts[d].managerCount >= |ManagersOf(o, d)|
  }

  ghost predicate Covered(o: Org) {
    && (forall e :: CoversMember(o, e))
    && (forall c :: CoversChild(o, c))
    && (forall d :: CoversManagers(o, d))
  }

  lemma NotShortCoversMember(o: Org, e: Id)
    requires e in o.members && o.members[e].dept in o.depts && NotShortAt(o, o.members[e].dept)
    ensures CoversMember(o, e)
  {
    var d := o.members[e].dept;
    CountZero(o.members, InDept(d));
    CountZero(o.members, ManagerIn(d));
  }

  lemma NotShortCoversChild(o: Org, c: Id)
    requires c in o.depts && o.depts[c].parent.Some?
    requires o.depts[c].parent.value in o.depts && NotShortAt(o, o.depts[c].parent.value)
    ensures CoversChild(o, c)
  {
    CountZero(o.depts, ChildOf(o.depts[c].parent.value));
  }

  lemma NotShortCoversManagers(o: Org, d: Id)
    requires d in o.depts && NotShortAt(o, d)
    ensures CoversManagers(o, d)
  {
    assert ManagersOf(o, d) == Matching(o.members, ManagerIn(d));
  }

  /** Where no stored count is short, each covers the rows it counts, so GREATEST never clamps. */
  lemma NeverShortCovers(o: Org)
    requires WellFormed(o) && NeverShort(o)
    ensures Covered(o)
  {
    forall e
      ensures CoversMember(o, e)
    {
      if e in o.members {
        assert NotShortAt(o, o.members[e].dept);
        NotShortCoversMember(o, e);
      }
    }
    forall c
      ensures CoversChild(o, c)
    {
      if c in o.depts && o.depts[c].parent.Some? {
        assert NotShortAt(o, o.depts[c].parent.value);
        NotShortCoversChild(o, c);
      }
    }
    forall d
      ensures CoversManagers(o, d)
    {
      if d in o.depts {
        assert NotShortAt(o, d);
        NotShortCoversManagers(o, d);
      }
    }
  }

  // ----- The clamped statements -----

  /** By how much GREATEST(x, 0) raises x. */
  function Short(x: int): int {
    Max(x, 0) - x
  }

  function DecrementShift(o: Org, at: Id, mgr: bool, d: Id): Drift
    requires d in o.depts
  {
    if d != at then NONE
    else Drift(Max(o.depts[d].memberCount - 1, 0) - o.depts[d].memberCount,
               Max(o.depts[d].managerCount + (if mgr then -1 else 0), 0) - o.depts[d].managerCount, 0)
  }

  function AdjustShift(o: Org, at: Id, delta: int, d: Id): Drift
    requires d in o.depts
  {
    if d != at then NONE else Drift(0, Max(o.depts[d].managerCount + delta, 0) - o.depts[d].managerCount, 0)
  }

  function ChildDecrementShift(o: Org, at: Id, d: Id): Drift
    requires d in o.depts
  {
    if d != at then NONE else Drift(0, 0, Max(o.depts[d].childCount - 1, 0) - o.depts[d].childCount)
  }

  // What their clamps swallow at d: nothing where the count is large enough.

  function DecrementClamp(o: Org, at: Id, mgr: bool, d: Id): Drift
    requires d in o.depts
  {
    if d != at then NONE
    else Drift(Short(o.depts[d].memberCount - 1), Short(o.depts[d].managerCount + (if mgr then -1 else 0)), 0)
  }

  function AdjustClamp(o: Org, at: Id, delta: int, d: Id): Drift
    requires d in o.depts
  {
    if d != at then NONE else Drift(0, Short(o.depts[d].managerCount + delta), 0)
  }

  function ChildClamp(o: Org, at: Id, d: Id): Drift
    requires d in o.depts
  {
    if d != at then NONE else Drift(0, 0, Short(o.depts[d].childCount - 1))
  }

  lemma IncrementShifts(o: Org, to: Id, mgr: bool, d: Id)
    requires to in o.depts && d in o.depts
    ensures Shifts(o, IncrementMembers(o, to, mgr), d,
      Drift((if d == to then 1 else 0), (if d == to && mgr then 1 else 0), 0))
  {
    var x := o.depts[to];
    CountWriteShifts(o, to, x.(memberCount := x.memberCount + 1,
                               managerCount := x.managerCount + (if mgr then 1 else 0)), d);
  }

  lemma DecrementShifts(o: Org, at: Id, mgr: bool, d: Id)
    requires d in o.depts
    ensures Shifts(o, DecrementMembers(o, at, mgr), d, DecrementShift(o, at, mgr, d))
  {
    if at in o.depts {
      var x := o.depts[at];
      CountWriteShifts(o, at, x.(memberCount := Max(x.memberCount - 1, 0),
                                 managerCount := Max(x.managerCount + (if mgr then -1 else 0), 0)), d);
    }
  }

  lemma AdjustShifts(o: Org, at: Id, delta: int, d: Id)
    requires d in o.depts
    ensures Shifts(o, AdjustManagers(o, at, delta), d, AdjustShift(o, at, delta, d))
  {
    if at in o.depts {
      CountWriteShifts(o, at, o.depts[at].(managerCount := Max(o.depts[at].managerCount + delta, 0)), d);
    }
  }

  lemma ChildIncrementShifts(o: Org, at: Id, d: Id)
    requires at in o.depts && d in o.depts
    ensures Shifts(o, IncrementChildren(o, at), d, Drift(0, 0, (if d == at then 1 else 0)))
  {
    CountWriteShifts(o, at, o.depts[at].(childCount := o.depts[at].childCount + 1), d);
  }

  lemma ChildDecrementShifts(o: Org, at: Id, d: Id)
    requires d in o.depts
    ensures Shifts(o, DecrementChildren(o, at), d, ChildDecrementShift(o, at, d))
  {
    if at in o.depts {
      CountWriteShifts(o, at, o.depts[at].(childCount := Max(o.depts[at].childCount - 1, 0)), d);
    }
  }

  lemma ShiftsAdd(a: Org, b: Org, c: Org, d: Id, x: Drift, y: Drift)
    requires Shifts(a, b, d, x) && Shifts(b, c, d, y)
    ensures Shifts(a, c, d, Plus(x, y))
  {
  }

  // ----- What each handler does to the drift -----

  // The drift a request leaves at d, over what was there: the part of its bookkeeping that did not
  // happen, because a statement failed or because the handler has no such statement.

  function LeftByCreate(under: Option<Id>, f: Faults, d: Id): Drift {
    Drift(0, 0, (if f.inc && Names(under, d) then -1 else 0))
  }

  function LeftByRelocate(was: Option<Id>, under: Option<Id>, f: Faults, d: Id): Drift {
    Drift(0, 0, (if f.dec && Names(was, d) then 1 else 0) + (if f.inc && Names(under, d) then -1 else 0))
  }

  /** `was` is the employee's membership before, if any. */
  function LeftByAssign(was: Option<Membership>, to: Id, mgr: bool, f: Faults, d: Id): Drift {
    if was.None? then Drift((if f.inc && d == to then -1 else 0), (if f.inc && d == to && mgr then -1 else 0), 0)
    else if was.value.dept == to && !f.lookup then
      Drift(0, if f.inc && d == to then (if was.value.manager then 1 else 0) + (if mgr then -1 else 0) else 0, 0)
    else
      var stays := (f.lookup || f.dec) && d == was.value.dept;
      Drift((if stays then 1 else 0) + (if f.inc && d == to then -1 else 0),
            (if stays && was.value.manager then 1 else 0) + (if f.inc && d == to && mgr then -1 else 0), 0)
  }

  function LeftByDelete(parent: Option<Id>, d: Id): Drift {
    Drift(0, 0, if Names(parent, d) then 1 else 0)
  }

  function LeftByPromote(to: Id, f: Faults, d: Id): Drift {
    Drift(0, if f.inc && d == to then -1 else 0, 0)
  }

  function LeftByDemote(id: Id, n: int, f: Faults, d: Id): Drift {
    Drift(0, if f.dec && d == id then n else 0, 0)
  }

  function LeftByRemove(was: Membership, f: Faults, d: Id): Drift {
    Drift((if f.dec && d == was.dept then 1 else 0), (if f.dec && d == was.dept && was.manager then 1 else 0), 0)
  }

  function MembershipOf(o: Org, e: Id): Option<Membership> {
    if e in o.members then Some(o.members[e]) else None
  }

  // What a request's clamps swallow at d, of the statements that do run.

  function SwallowedByLeavingParent(o: Org, was: Option<Id>, f: Faults, d: Id): Drift
    requires d in o.depts
  {
    if was.Some? && !f.dec then ChildClamp(o, was.value, d) else NONE
  }

  function SwallowedByLeaving(o: Org, was: Membership, f: Faults, d: Id): Drift
    requires d in o.depts
  {
    if !f.dec then DecrementClamp(o, was.dept, was.manager, d) else NONE
  }

  function SwallowedByAssign(o: Org, was: Option<Membership>, to: Id, mgr: bool, f: Faults, d: Id): Drift
    requires d in o.depts
  {
    if was.None? || f.lookup then NONE
    else if was.value.dept != to then SwallowedByLeaving(o, was.value, f, d)
    else if was.value.manager != mgr && !f.inc then AdjustClamp(o, to, if mgr then 1 else -1, d)
    else NONE
  }

  function SwallowedByPromote(o: Org, to: Id, f: Faults, d: Id): Drift
    requires d in o.depts
  {
    if !f.inc then AdjustClamp(o, to, 1, d) else NONE
  }

  function SwallowedByDemote(o: Org, id: Id, n: int, f: Faults, d: Id): Drift
    requires d in o.depts
  {
    if !f.dec then AdjustClamp(o, id, -n, d) else NONE
  }

  /** The two ways a request adds to the drift at d. */
  datatype Debt = Debt(left: Drift, swallowed: Drift)

  const NO_DEBT := Debt(NONE, NONE)

  ghost function Owes(o: Org, q: Request, f: Faults, d: Id): Debt
    requires d in o.depts
  {
    match q
    case Create(id, under) =>
      if id in o.depts then NO_DEBT else Debt(LeftByCreate(under, f, d), NONE)
    case Relocate(id, under) =>
      if !MoveAllowed(o, id, under) then NO_DEBT
      else
        var was := o.depts[id].parent;
        Debt(LeftByRelocate(was, under, f, d), SwallowedByLeavingParent(o, was, f, d))
    case Delete(id) =>
      if DeleteGoesThrough(o, id) then Debt(LeftByDelete(o.depts[id].parent, d), NONE) else NO_DEBT
    case Assign(e, to, mgr) =>
      var was := MembershipOf(o, e);
      if to in o.depts
      then Debt(LeftByAssign(was, to, mgr, f, d), SwallowedByAssign(o, was, to, mgr, f, d))
      else NO_DEBT
    case Remove(e) =>
      if e in o.members
      then Debt(LeftByRemove(o.members[e], f, d), SwallowedByLeaving(o, o.members[e], f, d))
      else NO_DEBT
    case Promote(e, to) =>
      if PromotionApplies(o, e, to) then Debt(LeftByPromote(to, f, d), SwallowedByPromote(o, to, f, d)) else NO_DEBT
    case Demote(id) =>
      var n := |ManagersOf(o, id)|;
      if n > 0 then Debt(LeftByDemote(id, n, f, d), SwallowedByDemote(o, id, n, f, d)) else NO_DEBT
  }

  /** What a request leaves undone, and what its clamps swallow. */
  ghost function Left(o: Org, q: Request, f: Faults, d: Id): Drift
    requires d in o.depts
  {
    Owes(o, q, f, d).left
  }

  ghost function Swallowed(o: Org, q: Request, f: Faults, d: Id): Drift
    requires d in o.depts
  {
    Owes(o, q, f, d).swallowed
  }

  // Each handler moves the drift by exactly the bookkeeping it leaves undone and what its clamps swallow.

  lemma ClampLast(a: Drift, b: Drift, clamp: Drift, c: Drift)
    ensures Plus(Plus(a, Plus(b, clamp)), c) == Plus(Plus(Plus(a, b), c), clamp)
    ensures Plus(a, Plus(b, clamp)) == Plus(Plus(a, b), clamp)
    ensures Plus(a, NONE) == a
  {
  }

  lemma CreateLaw(o: Org, id: Id, under: Option<Id>, f: Faults, d: Id)
    requires d in o.depts && id !in o.depts
    ensures Shifts(o, HandleCreate(o, id, under, f), d, LeftByCreate(under, f, d))
  {
    if under.Some? ==> under.value in o.depts {
      CreateRowShifts(o, id, under, d);
      var made := InsertDept(o, id, under);
      if under.Some? {
        ChildIncrementShifts(made, under.value, d);
      }
    }
  }

  lemma RelocateLaw(o: Org, id: Id, under: Option<Id>, f: Faults, d: Id)
    requires d in o.depts && id in o.depts && (under.Some? ==> under.value in o.depts)
    ensures var was := o.depts[id].parent;
      Shifts(o, Relocated(o, id, under, f), d,
             Plus(Plus(ReparentShift(was, under, d), LeaveParentMoves(o, was, f, d)), JoinParentShift(under, f, d)))
  {
    var was := o.depts[id].parent;
    var moved := WriteParent(o, id, under);
    var left := LeaveParent(moved, was, f);
    var a, b, c := ReparentShift(was, under, d), LeaveParentMoves(o, was, f, d), JoinParentShift(under, f, d);
    ParentWriteShifts(o, id, under, d);
    LeaveShifts(moved, was, f, d);
    JoinShifts(left, under, f, d);
    ShiftsAdd(o, moved, left, d, a, b);
    ShiftsAdd(o, left, JoinParent(left, under, f), d, Plus(a, b), c);
  }

  lemma RelocateAdds(o: Org, id: Id, under: Option<Id>, f: Faults, d: Id)
    requires d in o.depts && id in o.depts
    ensures var was := o.depts[id].parent;
      Plus(Plus(ReparentShift(was, under, d), LeaveParentMoves(o, was, f, d)), JoinParentShift(under, f, d))
      == Plus(LeftByRelocate(was, under, f, d), SwallowedByLeavingParent(o, was, f, d))
  {
    var was := o.depts[id].parent;
    LeaveParentSum(o, was, f, d);
    ClampLast(ReparentShift(was, under, d), LeaveParentShift(was, f, d), SwallowedByLeavingParent(o, was, f, d),
              JoinParentShift(under, f, d));
    RelocateSum(was, under, f, d);
  }

  lemma LeaveParentSum(o: Org, was: Option<Id>, f: Faults, d: Id)
    requires d in o.depts
    ensures LeaveParentMoves(o, was, f, d) == Plus(LeaveParentShift(was, f, d), SwallowedByLeavingParent(o, was, f, d))
  {
  }

  function LeaveParentMoves(o: Org, was: Option<Id>, f: Faults, d: Id): Drift
    requires d in o.depts
  {
    if was.Some? && !f.dec then ChildDecrementShift(o, was.value, d) else NONE
  }

  function ReparentShift(was: Option<Id>, under: Option<Id>, d: Id): Drift {
    Drift(0, 0, (if Names(was, d) then 1 else 0) + (if Names(under, d) then -1 else 0))
  }

  function LeaveParentShift(was: Option<Id>, f: Faults, d: Id): Drift {
    Drift(0, 0, (if !f.dec && Names(was, d) then -1 else 0))
  }

  function JoinParentShift(under: Option<Id>, f: Faults, d: Id): Drift {
    Drift(0, 0, (if !f.inc && Names(under, d) then 1 else 0))
  }

  lemma RelocateSum(was: Option<Id>, under: Option<Id>, f: Faults, d: Id)
    ensures Plus(Plus(ReparentShift(was, under, d), LeaveParentShift(was, f, d)), JoinParentShift(under, f, d))
         == LeftByRelocate(was, under, f, d)
  {
  }

  lemma JoinShifts(o: Org, under: Option<Id>, f: Faults, d: Id)
    requires d in o.depts && (under.Some? ==> under.value in o.depts)
    ensures Shifts(o, JoinParent(o, under, f), d, JoinParentShift(under, f, d))
  {
    if under.Some? && !f.inc {
      ChildIncrementShifts(o, under.value, d);
    }
  }

  lemma LeaveShifts(o: Org, was: Option<Id>, f: Faults, d: Id)
    requires d in o.depts
    ensures Shifts(o, LeaveParent(o, was, f), d, LeaveParentMoves(o, was, f, d))
  {
    if was.Some? && !f.dec {
      ChildDecrementShifts(o, was.value, d);
    }
  }

  /** Somebody without a department, or whose current department the handler failed to look up. */
  lemma NewcomerLaw(o: Org, e: Id, to: Id, mgr: bool, f: Faults, d: Id)
    requires d in o.depts && to in o.depts && (e in o.members ==> f.lookup)
    ensures Shifts(o, HandleAssign(o, e, to, mgr, f), d, LeftByAssign(MembershipOf(o, e), to, mgr, f, d))
  {
    var written := WriteMember(o, e, Membership(to, mgr));
    var done := EnterDept(written, to, mgr, f);
    var a, b := WriteShift(MembershipOf(o, e), Membership(to, mgr), d), EnterShift(to, mgr, f, d);
    MemberWriteShifts(o, e, Membership(to, mgr), d);
    EnterShifts(written, to, mgr, f, d);
    ShiftsAdd(o, written, done, d, a, b);
    assert HandleAssign(o, e, to, mgr, f) == done;
    NewcomerSum(MembershipOf(o, e), to, mgr, f, d);
  }

  lemma NewcomerSum(was: Option<Membership>, to: Id, mgr: bool, f: Faults, d: Id)
    requires was.Some? ==> f.lookup
    ensures Plus(WriteShift(was, Membership(to, mgr), d), EnterShift(to, mgr, f, d)) == LeftByAssign(was, to, mgr, f, d)
  {
  }

  lemma EnterShifts(o: Org, to: Id, mgr: bool, f: Faults, d: Id)
    requires to in o.depts && d in o.depts
    ensures Shifts(o, EnterDept(o, to, mgr, f), d, EnterShift(to, mgr, f, d))
  {
    if !f.inc { IncrementShifts(o, to, mgr, d); }
  }

  lemma LeaveDeptShifts(o: Org, was: Membership, f: Faults, d: Id)
    requires d in o.depts
    ensures Shifts(o, LeaveDept(o, was, f), d, LeaveMoves(o, was, f, d))
  {
    if !f.dec { DecrementShifts(o, was.dept, was.manager, d); }
  }

  function LeaveMoves(o: Org, was: Membership, f: Faults, d: Id): Drift
    requires d in o.depts
  {
    if f.dec then NONE else DecrementShift(o, was.dept, was.manager, d)
  }

  lemma LeaveSum(o: Org, was: Membership, f: Faults, d: Id)
    requires d in o.depts
    ensures LeaveMoves(o, was, f, d) == Plus(LeaveShift(was, f, d), SwallowedByLeaving(o, was, f, d))
  {
  }

  /** A change of role inside the department. */
  lemma RoleLaw(o: Org, e: Id, mgr: bool, f: Faults, d: Id)
    requires d in o.depts && e in o.members && !f.lookup && o.members[e].dept in o.depts
    ensures Shifts(o, HandleAssign(o, e, o.members[e].dept, mgr, f), d, RoleMoves(o, o.members[e], mgr, f, d))
  {
    var to, was := o.members[e].dept, o.members[e];
    var written := WriteMember(o, e, Membership(to, mgr));
    var a := WriteShift(Some(was), Membership(to, mgr), d);
    MemberWriteShifts(o, e, Membership(to, mgr), d);
    if was.manager != mgr && !f.inc {
      var delta := if mgr then 1 else -1;
      AdjustShifts(written, to, delta, d);
      ShiftsAdd(o, written, AdjustManagers(written, to, delta), d, a, AdjustShift(o, to, delta, d));
    }
  }

  function RoleMoves(o: Org, was: Membership, mgr: bool, f: Faults, d: Id): Drift
    requires d in o.depts
  {
    var a := WriteShift(Some(was), Membership(was.dept, mgr), d);
    if was.manager != mgr && !f.inc then Plus(a, AdjustShift(o, was.dept, if mgr then 1 else -1, d)) else a
  }

  function RoleShift(to: Id, delta: int, d: Id): Drift {
    Drift(0, if d == to then delta else 0, 0)
  }

  lemma AdjustSum(o: Org, to: Id, delta: int, d: Id)
    requires d in o.depts
    ensures AdjustShift(o, to, delta, d) == Plus(RoleShift(to, delta, d), AdjustClamp(o, to, delta, d))
  {
  }

  lemma RoleSum(was: Membership, mgr: bool, f: Faults, d: Id)
    requires !f.lookup
    ensures var a := WriteShift(Some(was), Membership(was.dept, mgr), d);
      LeftByAssign(Some(was), was.dept, mgr, f, d) ==
      if was.manager != mgr && !f.inc then Plus(a, RoleShift(was.dept, if mgr then 1 else -1, d)) else a
  {
  }

  lemma RoleAdds(o: Org, was: Membership, mgr: bool, f: Faults, d: Id)
    requires d in o.depts && !f.lookup
    ensures RoleMoves(o, was, mgr, f, d)
         == Plus(LeftByAssign(Some(was), was.dept, mgr, f, d), SwallowedByAssign(o, Some(was), was.dept, mgr, f, d))
  {
    var delta := if mgr then 1 else -1;
    var a := WriteShift(Some(was), Membership(was.dept, mgr), d);
    RoleSum(was, mgr, f, d);
    AdjustSum(o, was.dept, delta, d);
    ClampLast(a, RoleShift(was.dept, delta, d), AdjustClamp(o, was.dept, delta, d), NONE);
  }

  /** A change of department. */
  lemma TransferLaw(o: Org, e: Id, to: Id, mgr: bool, f: Faults, d: Id)
    requires d in o.depts && e in o.members && !f.lookup
    requires to in o.depts && o.members[e].dept != to
    ensures Shifts(o, HandleAssign(o, e, to, mgr, f), d, TransferMoves(o, o.members[e], to, mgr, f, d))
  {
    var was := o.members[e];
    var written := WriteMember(o, e, Membership(to, mgr));
    var left := LeaveDept(written, was, f);
    var done := EnterDept(left, to, mgr, f);
    var a, b, c := WriteShift(MembershipOf(o, e), Membership(to, mgr), d), LeaveMoves(o, was, f, d),
      EnterShift(to, mgr, f, d);
    MemberWriteShifts(o, e, Membership(to, mgr), d);
    LeaveDeptShifts(written, was, f, d);
    EnterShifts(left, to, mgr, f, d);
    ShiftsAdd(o, written, left, d, a, b);
    ShiftsAdd(o, left, done, d, Plus(a, b), c);
    assert HandleAssign(o, e, to, mgr, f) == done;
  }

  function TransferMoves(o: Org, was: Membership, to: Id, mgr: bool, f: Faults, d: Id): Drift
    requires d in o.depts
  {
    Plus(Plus(WriteShift(Some(was), Membership(to, mgr), d), LeaveMoves(o, was, f, d)), EnterShift(to, mgr, f, d))
  }

  lemma TransferSum(was: Membership, to: Id, mgr: bool, f: Faults, d: Id)
    requires !f.lookup && was.dept != to
    ensures Plus(Plus(WriteShift(Some(was), Membership(to, mgr), d), LeaveShift(was, f, d)), EnterShift(to, mgr, f, d))
        == LeftByAssign(Some(was), to, mgr, f, d)
  {
  }

  lemma TransferAdds(o: Org, was: Membership, to: Id, mgr: bool, f: Faults, d: Id)
    requires d in o.depts && !f.lookup && was.dept != to
    ensures TransferMoves(o, was, to, mgr, f, d)
         == Plus(LeftByAssign(Some(was), to, mgr, f, d), SwallowedByAssign(o, Some(was), to, mgr, f, d))
  {
    LeaveSum(o, was, f, d);
    TransferSum(was, to, mgr, f, d);
    ClampLast(WriteShift(Some(was), Membership(to, mgr), d), LeaveShift(was, f, d), SwallowedByLeaving(o, was, f, d),
              EnterShift(to, mgr, f, d));
  }

  lemma RemoveLaw(o: Org, e: Id, f: Faults, d: Id)
    requires d in o.depts && e in o.members
    ensures Shifts(o, HandleRemove(o, e, f), d, Plus(DeleteShift(o.members[e], d), LeaveMoves(o, o.members[e], f, d)))
  {
    var was, gone := o.members[e], DeleteMember(o, e);
    MemberDeleteShifts(o, e, d);
    LeaveDeptShifts(gone, was, f, d);
    ShiftsAdd(o, gone, LeaveDept(gone, was, f), d, DeleteShift(was, d), LeaveMoves(o, was, f, d));
    assert HandleRemove(o, e, f) == LeaveDept(gone, was, f);
  }

  lemma RemoveSum(was: Membership, f: Faults, d: Id)
    ensures Plus(DeleteShift(was, d), LeaveShift(was, f, d)) == LeftByRemove(was, f, d)
  {
  }

  lemma RemoveAdds(o: Org, was: Membership, f: Faults, d: Id)
    requires d in o.depts
    ensures Plus(DeleteShift(was, d), LeaveMoves(o, was, f, d))
         == Plus(LeftByRemove(was, f, d), SwallowedByLeaving(o, was, f, d))
  {
    LeaveSum(o, was, f, d);
    RemoveSum(was, f, d);
    ClampLast(DeleteShift(was, d), LeaveShift(was, f, d), SwallowedByLeaving(o, was, f, d), NONE);
  }

  lemma PromoteLaw(o: Org, e: Id, to: Id, f: Faults, d: Id)
    requires d in o.depts && PromotionApplies(o, e, to)
    ensures Shifts(o, HandlePromote(o, e, to, f), d, RoleMoves(o, o.members[e], true, f, d))
  {
    var written := WriteMember(o, e, Membership(to, true));
    MemberWriteShifts(o, e, Membership(to, true), d);
    if !f.inc {
      AdjustShifts(written, to, 1, d);
      ShiftsAdd(o, written, AdjustManagers(written, to, 1), d,
                WriteShift(Some(o.members[e]), Membership(to, true), d), AdjustShift(o, to, 1, d));
    }
  }

  lemma PromoteSum(was: Membership, to: Id, f: Faults, d: Id)
    requires was.dept == to && !was.manager
    ensures var a := WriteShift(Some(was), Membership(to, true), d);
      LeftByPromote(to, f, d) == if f.inc then a else Plus(a, RoleShift(to, 1, d))
  {
  }

  lemma PromoteAdds(o: Org, was: Membership, f: Faults, d: Id)
    requires d in o.depts && !was.manager
    ensures RoleMoves(o, was, true, f, d)
         == Plus(LeftByPromote(was.dept, f, d), SwallowedByPromote(o, was.dept, f, d))
  {
    var a := WriteShift(Some(was), Membership(was.dept, true), d);
    PromoteSum(was, was.dept, f, d);
    AdjustSum(o, was.dept, 1, d);
    ClampLast(a, RoleShift(was.dept, 1, d), AdjustClamp(o, was.dept, 1, d), NONE);
  }

  lemma DemoteLaw(o: Org, id: Id, f: Faults, d: Id)
    requires d in o.depts && ManagersOf(o, id) != {}
    ensures var n := |ManagersOf(o, id)|;
      Shifts(o, HandleDemote(o, id, f), d, DemoteMoves(o, id, n, f, d))
  {
    var n := |ManagersOf(o, id)|;
    DemoteShifts(o, id, d);
    if !f.dec {
      AdjustShifts(DemoteAll(o, id), id, -n, d);
      ShiftsAdd(o, DemoteAll(o, id), HandleDemote(o, id, f), d, RoleShift(id, n, d), AdjustShift(o, id, -n, d));
    }
  }

  lemma DemoteSum(id: Id, n: int, f: Faults, d: Id)
    ensures LeftByDemote(id, n, f, d)
         == if f.dec then RoleShift(id, n, d) else Plus(RoleShift(id, n, d), RoleShift(id, -n, d))
  {
  }

  lemma DemoteAdds(o: Org, id: Id, n: int, f: Faults, d: Id)
    requires d in o.depts
    ensures DemoteMoves(o, id, n, f, d) == Plus(LeftByDemote(id, n, f, d), SwallowedByDemote(o, id, n, f, d))
  {
    if f.dec {
      FailedDemotion(o, id, n, f, d);
    } else {
      DoneDemotion(o, id, n, f, d);
    }
  }

  lemma PlusNone(a: Drift, b: Drift, none: Drift)
    requires a == b && none == NONE
    ensures a == Plus(b, none)
  {
  }

  lemma FailedDemotion(o: Org, id: Id, n: int, f: Faults, d: Id)
    requires d in o.depts && f.dec
    ensures DemoteMoves(o, id, n, f, d) == Plus(LeftByDemote(id, n, f, d), SwallowedByDemote(o, id, n, f, d))
  {
    PlusNone(DemoteMoves(o, id, n, f, d), LeftByDemote(id, n, f, d), SwallowedByDemote(o, id, n, f, d));
  }

  lemma DoneDemotion(o: Org, id: Id, n: int, f: Faults, d: Id)
    requires d in o.depts && !f.dec
    ensures DemoteMoves(o, id, n, f, d) == Plus(LeftByDemote(id, n, f, d), SwallowedByDemote(o, id, n, f, d))
  {
    DemoteSum(id, n, f, d);
    AdjustSum(o, id, -n, d);
    MovesWithClamp(DemoteMoves(o, id, n, f, d), RoleShift(id, n, d), RoleShift(id, -n, d), AdjustShift(o, id, -n, d),
                   LeftByDemote(id, n, f, d), SwallowedByDemote(o, id, n, f, d));
  }

  lemma MovesWithClamp(moves: Drift, a: Drift, b: Drift, adjusted: Drift, left: Drift, clamp: Drift)
    requires moves == Plus(a, adjusted) && adjusted == Plus(b, clamp) && left == Plus(a, b)
    ensures moves == Plus(left, clamp)
  {
  }

  function DemoteMoves(o: Org, id: Id, n: int, f: Faults, d: Id): Drift
    requires d in o.depts
  {
    if f.dec then RoleShift(id, n, d) else Plus(RoleShift(id, n, d), AdjustShift(o, id, -n, d))
  }

  /** The drift at d moves by such a debt. */
  ghost predicate Incurs(before: Org, after: Org, d: Id, debt: Debt) {
    Shifts(before, after, d, Plus(debt.left, debt.swallowed))
  }

  lemma IncursSum(before: Org, after: Org, d: Id, moves: Drift, left: Drift, swallowed: Drift)
    requires Shifts(before, after, d, moves) && moves == Plus(left, swallowed)
    ensures Incurs(before, after, d, Debt(left, swallowed))
  {
  }

  lemma IncursLeft(before: Org, after: Org, d: Id, left: Drift)
    requires Shifts(before, after, d, left)
    ensures Incurs(before, after, d, Debt(left, NONE))
  {
    ClampLast(left, NONE, NONE, NONE);
  }

  lemma AssignCase(o: Org, e: Id, to: Id, mgr: bool, f: Faults, d: Id)
    requires d in o.depts && to in o.depts
    ensures var was := MembershipOf(o, e);
      Incurs(o, HandleAssign(o, e, to, mgr, f), d,
             Debt(LeftByAssign(was, to, mgr, f, d), SwallowedByAssign(o, was, to, mgr, f, d)))
  {
    var was := MembershipOf(o, e);
    var after := HandleAssign(o, e, to, mgr, f);
    var left, swallowed := LeftByAssign(was, to, mgr, f, d), SwallowedByAssign(o, was, to, mgr, f, d);
    if e !in o.members || f.lookup {
      NewcomerLaw(o, e, to, mgr, f, d);
      IncursLeft(o, after, d, left);
    } else if o.members[e].dept == to {
      RoleLaw(o, e, mgr, f, d);
      RoleAdds(o, o.members[e], mgr, f, d);
      IncursSum(o, after, d, RoleMoves(o, o.members[e], mgr, f, d), left, swallowed);
    } else {
      TransferLaw(o, e, to, mgr, f, d);
      TransferAdds(o, o.members[e], to, mgr, f, d);
      IncursSum(o, after, d, TransferMoves(o, o.members[e], to, mgr, f, d), left, swallowed);
    }
  }

  lemma RelocateCase(o: Org, id: Id, under: Option<Id>, f: Faults, d: Id)
    requires d in o.depts && id in o.depts && (under.Some? ==> under.value in o.depts)
    ensures var was := o.depts[id].parent;
      Incurs(o, Relocated(o, id, under, f), d,
             Debt(LeftByRelocate(was, under, f, d), SwallowedByLeavingParent(o, was, f, d)))
  {
    var was := o.depts[id].parent;
    RelocateLaw(o, id, under, f, d);
    RelocateAdds(o, id, under, f, d);
    IncursSum(o, Relocated(o, id, under, f), d,
      Plus(Plus(ReparentShift(was, under, d), LeaveParentMoves(o, was, f, d)), JoinParentShift(under, f, d)),
      LeftByRelocate(was, under, f, d), SwallowedByLeavingParent(o, was, f, d));
  }

  lemma RemoveCase(o: Org, e: Id, f: Faults, d: Id)
    requires d in o.depts && e in o.members
    ensures Incurs(o, HandleRemove(o, e, f), d,
                   Debt(LeftByRemove(o.members[e], f, d), SwallowedByLeaving(o, o.members[e], f, d)))
  {
    var was := o.members[e];
    RemoveLaw(o, e, f, d);
    RemoveAdds(o, was, f, d);
    IncursSum(o, HandleRemove(o, e, f), d, Plus(DeleteShift(was, d), LeaveMoves(o, was, f, d)),
              LeftByRemove(was, f, d), SwallowedByLeaving(o, was, f, d));
  }

  lemma PromoteCase(o: Org, e: Id, to: Id, f: Faults, d: Id)
    requires d in o.depts && PromotionApplies(o, e, to)
    ensures Incurs(o, HandlePromote(o, e, to, f), d, Debt(LeftByPromote(to, f, d), SwallowedByPromote(o, to, f, d)))
  {
    PromoteLaw(o, e, to, f, d);
    PromoteAdds(o, o.members[e], f, d);
    IncursSum(o, HandlePromote(o, e, to, f), d, RoleMoves(o, o.members[e], true, f, d),
              LeftByPromote(to, f, d), SwallowedByPromote(o, to, f, d));
  }

  lemma DemoteCase(o: Org, id: Id, f: Faults, d: Id)
    requires d in o.depts && |ManagersOf(o, id)| > 0
    ensures var n := |ManagersOf(o, id)|;
      Incurs(o, HandleDemote(o, id, f), d, Debt(LeftByDemote(id, n, f, d), SwallowedByDemote(o, id, n, f, d)))
  {
    var n := |ManagersOf(o, id)|;
    DemoteLaw(o, id, f, d);
    DemoteAdds(o, id, n, f, d);
    IncursSum(o, HandleDemote(o, id, f), d,
              DemoteMoves(o, id, n, f, d),
              LeftByDemote(id, n, f, d), SwallowedByDemote(o, id, n, f, d));
  }

  lemma DeleteCase(o: Org, id: Id, d: Id)
    requires DeleteGoesThrough(o, id) && d in o.depts && d != id
    ensures Incurs(o, HandleDelete(o, id), d, Debt(LeftByDelete(o.depts[id].parent, d), NONE))
  {
    DeleteRowShifts(o, id, d);
    IncursLeft(o, HandleDelete(o, id), d, LeftByDelete(o.depts[id].parent, d));
  }

  lemma CreateCase(o: Org, id: Id, under: Option<Id>, f: Faults, d: Id)
    requires d in o.depts && id !in o.depts
    ensures Incurs(o, HandleCreate(o, id, under, f), d, Debt(LeftByCreate(under, f, d), NONE))
  {
    CreateLaw(o, id, under, f, d);
    IncursLeft(o, HandleCreate(o, id, under, f), d, LeftByCreate(under, f, d));
  }

  lemma NothingOwed(o: Org, d: Id)
    requires d in o.depts
    ensures Incurs(o, o, d, NO_DEBT)
  {
    ClampLast(DriftOf(o, d), NONE, NONE, NONE);
    IncursLeft(o, o, d, NONE);
  }

  /** The law of all handlers, in any state and with any statements failing: a request moves the drift by
      what it leaves undone and what its clamps swallow. */
  lemma HandlerLaw(o: Org, q: Request, f: Faults, d: Id)
    requires d in o.depts && d in Handle(o, q, f).depts
    ensures Incurs(o, Handle(o, q, f), d, Owes(o, q, f, d))
  {
    NothingOwed(o, d);
    match q {
      case Create(id, under) =>
        if id !in o.depts { CreateCase(o, id, under, f, d); }
      case Relocate(id, under) =>
        if MoveAllowed(o, id, under) { RelocateCase(o, id, under, f, d); }
      case Delete(id) =>
        if DeleteGoesThrough(o, id) { DeleteCase(o, id, d); }
      case Assign(e, to, mgr) =>
        if to in o.depts { AssignCase(o, e, to, mgr, f, d); }
      case Remove(e) =>
        if e in o.members { RemoveCase(o, e, f, d); }
      case Promote(e, to) =>
        if PromotionApplies(o, e, to) { PromoteCase(o, e, to, f, d); }
      case Demote(id) =>
        if |ManagersOf(o, id)| > 0 { DemoteCase(o, id, f, d); }
    }
  }

  /** Clamps only ever raise a count. */
  lemma ClampsOnlyRaise(o: Org, q: Request, f: Faults, d: Id)
    requires d in o.depts
    ensures var swallowed := Swallowed(o, q, f, d);
      swallowed.members >= 0 && swallowed.managers >= 0 && swallowed.children >= 0
  {
  }

  /** Where the counts cover the rows, they do not do that either. */
  lemma CoveredSwallowsNothing(o: Org, q: Request, f: Faults, d: Id)
    requires Covered(o) && d in o.depts
    ensures Swallowed(o, q, f, d) == NONE
  {
    match q {
      case Relocate(id, under) => assert CoversChild(o, id);
      case Assign(e, to, mgr) => assert CoversMember(o, e) && CoversManagers(o, to);
      case Remove(e) => assert CoversMember(o, e);
      case Promote(e, to) => assert CoversManagers(o, to);
      case Demote(id) => assert CoversManagers(o, id);
      case _ =>
    }
  }

  lemma IncursOnlyLeft(before: Org, after: Org, d: Id, debt: Debt)
    requires Incurs(before, after, d, debt) && debt.swallowed == NONE
    ensures Shifts(before, after, d, debt.left)
  {
    ClampLast(debt.left, NONE, NONE, NONE);
  }

  /** From counts that cover their rows, the drift moves by what is left undone alone. */
  lemma CoveredLaw(o: Org, q: Request, f: Faults, d: Id)
    requires Covered(o) && d in o.depts && d in Handle(o, q, f).depts
    ensures Shifts(o, Handle(o, q, f), d, Left(o, q, f, d))
  {
    HandlerLaw(o, q, f, d);
    CoveredSwallowsNothing(o, q, f, d);
    IncursOnlyLeft(o, Handle(o, q, f), d, Owes(o, q, f, d));
  }

  lemma HandleKeepsWellFormed(o: Org, q: Request, f: Faults)
    requires WellFormed(o)
    ensures WellFormed(Handle(o, q, f))
  {
    match q {
      case Create(id, under) =>
      case Relocate(id, under) => RelocateKeepsWellFormed(o, id, under, f);
      case Delete(id) => DeleteKeepsWellFormed(o, id);
      case _ => AboutPeopleKeepsWellFormed(o, q, f);
    }
  }

  lemma RelocateKeepsWellFormed(o: Org, id: Id, under: Option<Id>, f: Faults)
    requires WellFormed(o)
    ensures WellFormed(HandleRelocate(o, id, under, f))
  {
  }

  lemma DeleteKeepsWellFormed(o: Org, id: Id)
    requires WellFormed(o)
    ensures WellFormed(HandleDelete(o, id))
  {
  }

  lemma AboutPeopleKeepsWellFormed(o: Org, q: Request, f: Faults)
    requires WellFormed(o) && (q.Assign? || q.Remove? || q.Promote? || q.Demote?)
    ensures WellFormed(Handle(o, q, f))
  {
  }

  lemma OnlyCreateAddsDepartments(o: Org, q: Request, f: Faults, d: Id)
    requires d !in o.depts && d in Handle(o, q, f).depts
    ensures q.Create? && q.id == d && (q.under.Some? ==> q.under.value in o.depts)
  {
  }

  /** The row a creation inserts, with its parent told. */
  lemma CreatedUnderIsExact(o: Org, id: Id, under: Id)
    requires Unused(o, id) && id !in o.depts && under in o.depts
    ensures DriftOf(IncrementChildren(InsertDept(o, id, Some(under)), under), id) == NONE
  {
    CreatedRowIsExact(o, id, Some(under));
    ChildIncrementShifts(InsertDept(o, id, Some(under)), under, id);
  }

  lemma CreationCases(o: Org, id: Id, under: Option<Id>, f: Faults)
    requires id !in o.depts && (under.Some? ==> under.value in o.depts)
    ensures HandleCreate(o, id, under, f) ==
      if under.None? || f.inc then InsertDept(o, id, under)
      else IncrementChildren(InsertDept(o, id, under), under.value)
  {
  }

  /** A department that a request creates starts exact, whatever happens to its parent's count. */
  lemma NewDepartmentIsExact(o: Org, id: Id, under: Option<Id>, f: Faults)
    requires Unused(o, id) && id !in o.depts && (under.Some? ==> under.value in o.depts)
    ensures DriftOf(HandleCreate(o, id, under, f), id) == NONE
  {
    CreationCases(o, id, under, f);
    if under.Some? && !f.inc {
      CreatedUnderIsExact(o, id, under.value);
    } else {
      CreatedRowIsExact(o, id, under);
    }
  }

  lemma ShiftFromExact(before: Org, after: Org, d: Id, change: Drift)
    requires Shifts(before, after, d, change) && ExactAt(before, d)
    ensures ExactAt(after, d) <==> change == NONE
  {
    PlusFromNone(DriftOf(before, d), DriftOf(after, d), change);
  }

  lemma PlusFromNone(a: Drift, b: Drift, change: Drift)
    requires a == NONE && b == Plus(a, change)
    ensures b == NONE <==> change == NONE
  {
  }

  /** A request leaves exact counts exact at d unless it leaves something undone there. */
  lemma ExactAtAfter(o: Org, q: Request, f: Faults, d: Id)
    requires Covered(o) && d in o.depts && d in Handle(o, q, f).depts && ExactAt(o, d)
    ensures ExactAt(Handle(o, q, f), d) <==> Left(o, q, f, d) == NONE
  {
    CoveredLaw(o, q, f, d);
    ShiftFromExact(o, Handle(o, q, f), d, Left(o, q, f, d));
  }

  lemma ExactAtNew(o: Org, q: Request, f: Faults, d: Id)
    requires WellFormed(o) && d !in o.depts && d in Handle(o, q, f).depts
    ensures ExactAt(Handle(o, q, f), d)
  {
    OnlyCreateAddsDepartments(o, q, f, d);
    assert Unused(o, d);
    NewDepartmentIsExact(o, d, q.under, f);
  }

  // ----- When the counts survive -----

  /** Whether a request whose secondary statements fare as in `f` keeps exact counts exact. */
  ghost predicate CountsSurvive(o: Org, q: Request, f: Faults) {
    match q
    case Create(id, under) =>
      id in o.depts || under.None? || under.value !in o.depts || !f.inc
    case Relocate(id, under) =>
      MoveAllowed(o, id, under) ==>
        var was := o.depts[id].parent;
        (was == under && f.dec == f.inc) || ((was.Some? ==> !f.dec) && (under.Some? ==> !f.inc))
    case Delete(id) =>
      DeleteGoesThrough(o, id) ==> o.depts[id].parent.None?
    case Assign(e, to, mgr) =>
      to in o.depts ==>
        if e !in o.members then !f.inc
        else if o.members[e].dept != to then !f.lookup && !f.dec && !f.inc
        else if f.lookup then f.inc && o.members[e].manager == mgr
        else !f.inc || o.members[e].manager == mgr
    case Remove(e) =>
      e in o.members ==> !f.dec
    case Promote(e, to) =>
      PromotionApplies(o, e, to) ==> !f.inc
    case Demote(id) =>
      ManagersOf(o, id) != {} ==> !f.dec
  }

  /** Departments of the result at which a request leaves something undone. */
  ghost predicate LeavesNothing(o: Org, q: Request, f: Faults) {
    forall d :: d in o.depts && d in Handle(o, q, f).depts ==> Left(o, q, f, d) == NONE
  }

  lemma SurviveMeansNothingLeft(o: Org, q: Request, f: Faults)
    requires WellFormed(o)
    ensures CountsSurvive(o, q, f) <==> LeavesNothing(o, q, f)
  {
    if !CountsSurvive(o, q, f) {
      var d := match q
        case Create(_, under) => under.value
        case Relocate(id, under) =>
          if o.depts[id].parent.Some? && f.dec && !(f.inc && under == o.depts[id].parent) then o.depts[id].parent.value
          else if under.Some? then under.value else 0
        case Delete(id) => o.depts[id].parent.value
        case Assign(e, to, _) =>
          if e in o.members && o.members[e].dept != to && (f.lookup || f.dec) then o.members[e].dept else to
        case Remove(e) => o.members[e].dept
        case Promote(_, to) => to
        case Demote(id) => id;
      assert d in o.depts && d in Handle(o, q, f).depts;
      assert Left(o, q, f, d) != NONE;
    }
  }

  lemma ExactIsCovered(o: Org)
    requires WellFormed(o) && Exact(o)
    ensures Covered(o)
  {
    forall d | d in o.depts
      ensures NotShortAt(o, d)
    {
      assert ExactAt(o, d);
    }
    NeverShortCovers(o);
  }

  /** From exact counts, the counts after a request are exact if and only if CountsSurvive. */
  lemma ExactIff(o: Org, q: Request, f: Faults)
    requires WellFormed(o) && Exact(o)
    ensures Exact(Handle(o, q, f)) <==> CountsSurvive(o, q, f)
  {
    ExactIsCovered(o);
    SurviveMeansNothingLeft(o, q, f);
    forall d | d in Handle(o, q, f).depts
      ensures ExactAt(Handle(o, q, f), d) <==> (d in o.depts ==> Left(o, q, f, d) == NONE)
    {
      if d in o.depts {
        assert ExactAt(o, d);
        ExactAtAfter(o, q, f, d);
      } else {
        ExactAtNew(o, q, f, d);
      }
    }
  }
}
