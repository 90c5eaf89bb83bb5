/** Histories of department requests: under transactions that follow the query comments, and as the
    handlers run them, one autocommitted statement after the other. */
module DepartmentHistory {
  import opened Prelude
  import opened Tally
  import opened DepartmentForest
  import opened DepartmentCounts
  import opened Transaction

  // ----- Reading the counts -----

  lemma ChildrenByColumn(o: Org, d: Id)
    ensures HasChildren(ParentColumn(o), d) <==> exists c :: c in o.depts && Names(o.depts[c].parent, d)
  {
    if HasChildren(ParentColumn(o), d) {
      var c :| c in ParentColumn(o) && ParentColumn(o)[c] == Some(d);
      assert Names(o.depts[c].parent, d);
    }
    if exists c :: c in o.depts && Names(o.depts[c].parent, d) {
      var c :| c in o.depts && Names(o.depts[c].parent, d);
      assert ParentColumn(o)[c] == Some(d);
    }
  }

  lemma ZeroMeansNone(o: Org, d: Id)
    requires d in o.depts && ExactAt(o, d)
    ensures o.depts[d].memberCount == 0 <==> MembersOf(o, d) == {}
    ensures o.depts[d].childCount == 0 <==> forall c :: c in o.depts ==> !Names(o.depts[c].parent, d)
  {
    CountZero(o.members, InDept(d));
    CountZero(o.depts, ChildOf(d));
    assert MembersOf(o, d) == Matching(o.members, InDept(d));
  }

  /** With exact counts the WHERE clause of DeleteDepartment tests what it is meant to test. */
  lemma DeleteTakesOnlyEmptyDepartments(o: Org, d: Id)
    requires Exact(o)
    ensures DeleteGoesThrough(o, d) <==>
      d in o.depts && MembersOf(o, d) == {} && !HasChildren(ParentColumn(o), d)
  {
    ChildrenByColumn(o, d);
    if d in o.depts {
      assert ExactAt(o, d);
      ZeroMeansNone(o, d);
    }
  }

  /** A deletion that goes through takes memberships with it exactly when the member count is short. */
  lemma DeleteLosesPeopleIffShort(o: Org, d: Id)
    requires DeleteGoesThrough(o, d)
    ensures HandleDelete(o, d).members != o.members <==> DriftOf(o, d).members < 0
  {
    CountZero(o.members, InDept(d));
    if MembersOf(o, d) == {} {
      assert HandleDelete(o, d).members == o.members;
    } else {
      var e :| e in MembersOf(o, d);
      assert e !in HandleDelete(o, d).members;
    }
  }

  /** It can happen: the count of a new member was lost, and the department is deleted under them. */
  lemma LostIncrementLosesPeople()
    ensures var o := Org(map[1 := Dept(None, 0, 0, 0)], map[]);
      var hired := Handle(o, Assign(7, 1, false), Faults(false, false, true));
      7 in hired.members && 7 !in Handle(hired, Request.Delete(1), NO_FAULTS).members
  {
  }

  ghost function MemberTotal(o: Org, ds: set<Id>): int
    requires ds <= o.depts.Keys
    decreases |ds|
  {
    if ds == {} then 0 else o.depts[Pick(ds)].memberCount + MemberTotal(o, ds - {Pick(ds)})
  }

  ghost function Pick(ds: set<Id>): (d: Id)
    requires ds != {}
    ensures d in ds
  {
    var d :| d in ds;
    d
  }

  function PeopleIn(o: Org, ds: set<Id>): set<Id> {
    set e | e in o.members && o.members[e].dept in ds
  }

  lemma PeopleSplit(o: Org, ds: set<Id>, d: Id)
    requires d in ds
    requires MemberCountIs(o, d)
    ensures |PeopleIn(o, ds)| == |PeopleIn(o, ds - {d})| + o.depts[d].memberCount
  {
    assert PeopleIn(o, ds) == PeopleIn(o, ds - {d}) + Matching(o.members, InDept(d));
  }

  lemma NobodyInNoDepartment(o: Org)
    ensures |PeopleIn(o, {})| == 0
  {
    assert PeopleIn(o, {}) == {};
  }

  /** The counts of `ds` alone. */
  ghost predicate ExactOn(o: Org, ds: set<Id>) {
    ds <= o.depts.Keys && forall d :: d in ds ==> MemberCountIs(o, d)
  }

  ghost predicate MemberCountIs(o: Org, d: Id) {
    d in o.depts && o.depts[d].memberCount == Count(o.members, InDept(d))
  }

  lemma {:induction false} TotalCountsPeople(o: Org, ds: set<Id>)
    requires ExactOn(o, ds)
    ensures MemberTotal(o, ds) == |PeopleIn(o, ds)|
    decreases |ds|
  {
    if ds == {} {
      NobodyInNoDepartment(o);
    } else {
      var d := Pick(ds);
      assert MemberCountIs(o, d);
      TotalCountsPeople(o, ds - {d});
      PeopleSplit(o, ds, d);
    }
  }

  /** Summed over the organization, member_count is the number of assigned employees. */
  lemma TotalIsHeadcount(o: Org)
    requires WellFormed(o) && Exact(o)
    ensures MemberTotal(o, o.depts.Keys) == |o.members|
  {
    forall d | d in o.depts
      ensures MemberCountIs(o, d)
    {
      assert ExactAt(o, d);
    }
    TotalCountsPeople(o, o.depts.Keys);
    assert PeopleIn(o, o.depts.Keys) == o.members.Keys;
  }

  // ----- The hierarchy -----

  lemma CreateColumn(o: Org, id: Id, under: Option<Id>, f: Faults)
    ensures ParentColumn(HandleCreate(o, id, under, f)) ==
      if id !in o.depts && ParentFound(ParentColumn(o), under) then ParentColumn(o)[id := under] else ParentColumn(o)
  {
  }

  lemma RelocateColumn(o: Org, id: Id, under: Option<Id>, f: Faults)
    requires id in o.depts
    ensures ParentColumn(Relocated(o, id, under, f)) == Move(ParentColumn(o), id, under)
  {
  }

  lemma DeleteColumn(o: Org, id: Id)
    requires DeleteGoesThrough(o, id)
    ensures ParentColumn(HandleDelete(o, id)) == ParentColumn(o) - {id} && !HasChildren(ParentColumn(o), id)
  {
    ChildrenByColumn(o, id);
  }

  /** Requests about people do not touch the hierarchy. */
  lemma MembershipColumn(o: Org, q: Request, f: Faults)
    requires q.Assign? || q.Remove? || q.Promote? || q.Demote?
    ensures ParentColumn(Handle(o, q, f)) == ParentColumn(o)
  {
  }

  /** Whatever secondary statements fail, a request changes the parent column the way the guarded
      change it stands for does, or not at all. */
  lemma HandleKeepsForest(o: Org, q: Request, f: Faults)
    requires Forest(ParentColumn(o))
    ensures Forest(ParentColumn(Handle(o, q, f)))
  {
    var t := ParentColumn(o);
    match q {
      case Create(id, under) =>
        CreateColumn(o, id, under, f);
        if id !in o.depts && ParentFound(t, under) { CreateKeepsForest(t, id, under); }
      case Relocate(id, under) =>
        if MoveAllowed(o, id, under) {
          RelocateColumn(o, id, under, f);
          StepKeepsForest(t, Change.Relocate(id, under));
        }
      case Delete(id) =>
        if DeleteGoesThrough(o, id) {
          DeleteColumn(o, id);
          DeleteKeepsForest(t, id);
        }
      case _ =>
        MembershipColumn(o, q, f);
    }
  }

  /** Whichever secondary statements fail, the memberships end as the request asks: only the counts suffer. */
  lemma MembershipsAreAsAsked(o: Org, q: Request, f: Faults)
    ensures Handle(o, q, f).members == match q
      case Assign(e, to, mgr) => if to in o.depts then o.members[e := Membership(to, mgr)] else o.members
      case Remove(e) => o.members - {e}
      case Promote(e, to) =>
        if e in o.members && o.members[e].dept == to then o.members[e := Membership(to, true)] else o.members
      case Demote(id) =>
        map e | e in o.members :: Membership(o.members[e].dept, o.members[e].manager && o.members[e].dept != id)
      case Delete(id) =>
        if DeleteGoesThrough(o, id) then map e | e in o.members && o.members[e].dept != id :: o.members[e]
        else o.members
      case Create(_, _) => o.members
      case Relocate(_, _) => o.members
  {
    if q.Promote? && q.employee in o.members && o.members[q.employee] == Membership(q.to, true) {
      assert o.members[q.employee := Membership(q.to, true)] == o.members;
    }
    if q.Demote? { DemotedMembers(o, q.id, f); }
  }

  lemma DemotedMembers(o: Org, id: Id, f: Faults)
    ensures HandleDemote(o, id, f).members == map e | e in o.members ::
      Membership(o.members[e].dept, o.members[e].manager && o.members[e].dept != id)
  {
    if |ManagersOf(o, id)| == 0 {
      assert forall e :: e in o.members && o.members[e].dept == id ==> e !in ManagersOf(o, id);
    }
  }

  /** And so does the hierarchy. */
  lemma ParentsAreAsAsked(o: Org, q: Request, f: Faults)
    requires Forest(ParentColumn(o))
    ensures var t := ParentColumn(o);
      ParentColumn(Handle(o, q, f)) == match q
        case Create(id, under) => if id !in t && ParentFound(t, under) then t[id := under] else t
        case Relocate(id, under) =>
          if id in t && ParentFound(t, under) && Forest(t[id := under]) then t[id := under] else t
        case Delete(id) => if DeleteGoesThrough(o, id) then t - {id} else t
        case _ => t
  {
    match q {
      case Create(id, under) => CreateColumn(o, id, under, f);
      case Relocate(id, under) =>
        if id in o.depts && ParentFound(ParentColumn(o), under) {
          MoveIsAllowedIffSafe(o, id, under);
          RelocateColumn(o, id, under, f);
        }
      case Delete(id) =>
        if DeleteGoesThrough(o, id) { DeleteColumn(o, id); }
      case _ => MembershipColumn(o, q, f);
    }
  }

  // ----- The discipline of the query comments, in transactions -----

  /** The request with every statement the comments prescribe: deleting a department also decrements
      the child count of its parent. */
  ghost function Prescribed(o: Org, q: Request): Org {
    if q.Delete? && DeleteGoesThrough(o, q.id)
    then LeaveParent(DeleteRow(o, q.id), o.depts[q.id].parent, NO_FAULTS)
    else Handle(o, q, NO_FAULTS)
  }

  lemma PrescribedDeleteShifts(o: Org, id: Id, d: Id)
    requires DeleteGoesThrough(o, id) && CoversChild(o, id) && d in o.depts && d != id
    ensures Shifts(o, Prescribed(o, Request.Delete(id)), d, NONE)
  {
    var was, gone := o.depts[id].parent, DeleteRow(o, id);
    DeleteRowShifts(o, id, d);
    if was.Some? {
      assert was.value != id;
      ChildDecrementShifts(gone, was.value, d);
      ShiftsAdd(o, gone, DecrementChildren(gone, was.value), d,
                Drift(0, 0, if Names(was, d) then 1 else 0), ChildDecrementShift(gone, was.value, d));
      assert Prescribed(o, Request.Delete(id)) == DecrementChildren(gone, was.value);
    }
  }

  lemma PrescribedDeleteAt(o: Org, id: Id, d: Id)
    requires DeleteGoesThrough(o, id) && CoversChild(o, id) && d in o.depts && d != id && ExactAt(o, d)
    ensures d in Prescribed(o, Request.Delete(id)).depts && ExactAt(Prescribed(o, Request.Delete(id)), d)
  {
    PrescribedDeleteShifts(o, id, d);
    ShiftFromExact(o, Prescribed(o, Request.Delete(id)), d, NONE);
  }

  lemma PrescribedDeleteRows(o: Org, id: Id)
    requires DeleteGoesThrough(o, id)
    ensures Prescribed(o, Request.Delete(id)).depts.Keys == o.depts.Keys - {id}
    ensures ParentColumn(Prescribed(o, Request.Delete(id))) == ParentColumn(HandleDelete(o, id))
    ensures Prescribed(o, Request.Delete(id)).members == HandleDelete(o, id).members
  {
  }

  lemma PrescribedDeleteKeepsExact(o: Org, id: Id)
    requires WellFormed(o) && Exact(o) && DeleteGoesThrough(o, id)
    ensures Exact(Prescribed(o, Request.Delete(id)))
  {
    ExactIsCovered(o);
    assert CoversChild(o, id);
    PrescribedDeleteRows(o, id);
    forall d | d in Prescribed(o, Request.Delete(id)).depts
      ensures ExactAt(Prescribed(o, Request.Delete(id)), d)
    {
      assert ExactAt(o, d);
      PrescribedDeleteAt(o, id, d);
    }
  }

  lemma SameRowsSameKeys(o: Org, p: Org)
    requires WellFormed(o) && ParentColumn(p) == ParentColumn(o) && p.members == o.members
    ensures WellFormed(p)
  {
    assert p.depts.Keys == ParentColumn(p).Keys == ParentColumn(o).Keys == o.depts.Keys;
    assert forall d :: d in p.depts ==> p.depts[d].parent == ParentColumn(p)[d] == o.depts[d].parent;
  }

  ghost predicate Sound(o: Org) {
    WellFormed(o) && Exact(o) && Forest(ParentColumn(o))
  }

  lemma PrescribedKeepsSound(o: Org, q: Request)
    requires Sound(o)
    ensures Sound(Prescribed(o, q))
  {
    HandleKeepsWellFormed(o, q, NO_FAULTS);
    HandleKeepsForest(o, q, NO_FAULTS);
    if q.Delete? && DeleteGoesThrough(o, q.id) {
      PrescribedDeleteKeepsExact(o, q.id);
      PrescribedDeleteRows(o, q.id);
      SameRowsSameKeys(HandleDelete(o, q.id), Prescribed(o, q));
    } else {
      ExactIff(o, q, NO_FAULTS);
      if q.Delete? { assert CountsSurvive(o, q, NO_FAULTS); }
    }
  }

  /** One request run through WithTxn: which request, how its body ends, what it has written by then
      when it does not end well, and how begin and commit fare. */
  datatype Attempt = Attempt(request: Request, ending: Ending, halfway: Org, beginOk: bool, fate: CommitFate)

  ghost function BodyOf(a: Attempt): Org -> Work<Org> {
    (o: Org) => Work(if a.ending.Returned? then Prescribed(o, a.request) else a.halfway, a.ending)
  }

  ghost function CallOf(a: Attempt): Call<Org> {
    Call(BodyOf(a), a.beginOk, a.fate)
  }

  /** Whatever requests arrive and at whatever point any of them fails, panics or loses its commit: the
      committed organization always has a sound hierarchy and exact counts. */
  lemma CommittedStateIsSound(o: Org, attempts: seq<Attempt>)
    requires Sound(o)
    ensures Sound(Replay(o, seq(|attempts|, i requires 0 <= i < |attempts| => CallOf(attempts[i]))))
  {
    var calls := seq(|attempts|, i requires 0 <= i < |attempts| => CallOf(attempts[i]));
    var inv := (s: Org) => Sound(s);
    forall i | 0 <= i < |calls|
      ensures Keeps(inv, calls[i].body)
    {
      forall s | inv(s) && calls[i].body(s).ending.Returned?
        ensures inv(calls[i].body(s).state)
      {
        PrescribedKeepsSound(s, attempts[i].request);
      }
    }
    HistoryKeeps(inv, o, calls);
  }

  // ----- The handlers as they run, whichever statements fail -----

  /** A request, and which of its secondary statements failed. */
  datatype Served = Served(request: Request, faults: Faults)

  ghost function Shipped(o: Org, served: seq<Served>): Org
    decreases |served|
  {
    if served == [] then o else
      var last := served[|served| - 1];
      Handle(Shipped(o, served[..|served| - 1]), last.request, last.faults)
  }

  lemma OneMoreServed(o: Org, served: seq<Served>, x: Served)
    ensures Shipped(o, served + [x]) == Handle(Shipped(o, served), x.request, x.faults)
  {
    assert (served + [x])[..|served|] == served;
  }

  lemma {:induction false} ShippedAgain(o: Org, served: seq<Served>, more: seq<Served>)
    ensures Shipped(o, served + more) == Shipped(Shipped(o, served), more)
    decreases |more|
  {
    if more == [] {
      assert served + more == served;
    } else {
      var less, last := more[..|more| - 1], more[|more| - 1];
      ShippedAgain(o, served, less);
      assert served + more == served + less + [last] && more == less + [last];
      OneMoreServed(o, served + less, last);
    }
  }

  lemma {:induction false} ShippedKeepsWellFormed(o: Org, served: seq<Served>)
    requires WellFormed(o)
    ensures WellFormed(Shipped(o, served))
    decreases |served|
  {
    if served != [] {
      var last := served[|served| - 1];
      ShippedKeepsWellFormed(o, served[..|served| - 1]);
      HandleKeepsWellFormed(Shipped(o, served[..|served| - 1]), last.request, last.faults);
    }
  }

  /** The running account of a department: from the drift it began with, or none for a department created
      on the way, what each request left undone there and what its clamps swallowed. */
  ghost function Account(o: Org, served: seq<Served>, d: Id): Drift
    decreases |served|
  {
    if served == [] then (if d in o.depts then DriftOf(o, d) else NONE) else
      var (front, last) := (served[..|served| - 1], served[|served| - 1]);
      var before := Shipped(o, front);
      if d !in before.depts then NONE
      else
        var debt := Owes(before, last.request, last.faults, d);
        Plus(Account(o, front, d), Plus(debt.left, debt.swallowed))
  }

  /** Over any history of the handlers, whichever of their secondary statements fail and wherever it begins,
      the drift of a department is its account. */
  lemma {:induction false} HistoryFollowsTheAccount(o: Org, served: seq<Served>, d: Id)
    requires WellFormed(o) && d in Shipped(o, served).depts
    ensures DriftOf(Shipped(o, served), d) == Account(o, served, d)
    decreases |served|
  {
    if served != [] {
      var front, last := served[..|served| - 1], served[|served| - 1];
      var before := Shipped(o, front);
      if d in before.depts {
        HistoryFollowsTheAccount(o, front, d);
        HandlerLaw(before, last.request, last.faults, d);
      } else {
        ShippedKeepsWellFormed(o, front);
        ExactAtNew(before, last.request, last.faults, d);
      }
    }
  }

  // ----- Histories in which no increment is lost -----

  /** The failing statement was to raise a count: a department's children, a newcomer's members or managers,
      a role. Where the decrement of the same count failed too, or a manager was to be counted out, nothing
      is lost. */
  ghost predicate LosesIncrement(o: Org, q: Request, f: Faults) {
    f.inc && match q
      case Create(id, under) => id !in o.depts && under.Some? && under.value in o.depts
      case Relocate(id, under) => MoveAllowed(o, id, under) && under.Some? && !(f.dec && o.depts[id].parent == under)
      case Assign(e, to, mgr) =>
        && to in o.depts
        && (e in o.members && o.members[e].dept == to ==> mgr && !o.members[e].manager)
      case Promote(e, to) => to in o.depts && PromotionApplies(o, e, to)
      case _ => false
  }

  ghost predicate Lowers(o: Org, q: Request, f: Faults, d: Id)
    requires d in o.depts
  {
    var left := Left(o, q, f, d);
    left.members < 0 || left.managers < 0 || left.children < 0
  }

  /** Those are exactly the failures that leave some count too low. */
  lemma LosesIncrementIff(o: Org, q: Request, f: Faults)
    ensures LosesIncrement(o, q, f) <==> exists d :: d in o.depts && Lowers(o, q, f, d)
  {
    if LosesIncrement(o, q, f) {
      var d := match q
        case Create(_, under) => under.value
        case Relocate(_, under) => under.value
        case Assign(_, to, _) => to
        case Promote(_, to) => to;
      assert d in o.depts && Lowers(o, q, f, d);
    }
  }

  ghost predicate NoLostIncrement(o: Org, served: seq<Served>)
    decreases |served|
  {
    served != [] ==>
      var (front, last) := (served[..|served| - 1], served[|served| - 1]);
      NoLostIncrement(o, front) && !LosesIncrement(Shipped(o, front), last.request, last.faults)
  }

  ghost predicate Faultless(served: seq<Served>) {
    forall x :: x in served ==> x.faults == NO_FAULTS
  }

  /** Whether a request deletes a department from under d. */
  ghost predicate DeletesBelow(o: Org, q: Request, d: Id) {
    q.Delete? && DeleteGoesThrough(o, q.id) && Names(o.depts[q.id].parent, d)
  }

  /** A lost decrement or lookup, and a deletion, only leave a count too high. */
  lemma OnlyLostIncrementsLower(o: Org, q: Request, f: Faults, d: Id)
    requires d in o.depts && !LosesIncrement(o, q, f)
    ensures var left := Left(o, q, f, d);
      left.members >= 0 && left.managers >= 0 && left.children >= if DeletesBelow(o, q, d) then 1 else 0
  {
  }

  /** Without failing statements the only bookkeeping left undone is the parent's, on deletion. */
  lemma OnlyDeletionLeavesDrift(o: Org, q: Request, d: Id)
    requires d in o.depts
    ensures Left(o, q, NO_FAULTS, d) == Drift(0, 0, if DeletesBelow(o, q, d) then 1 else 0)
  {
  }

  /** `b` is nowhere below `a`, and its children are above by at least `n`. */
  predicate RisesBy(a: Drift, b: Drift, n: int) {
    b.members >= a.members && b.managers >= a.managers && b.children >= a.children + n
  }

  lemma PlusRises(a: Drift, left: Drift, swallowed: Drift, n: int)
    requires left.members >= 0 && left.managers >= 0 && left.children >= n
    requires swallowed.members >= 0 && swallowed.managers >= 0 && swallowed.children >= 0
    ensures RisesBy(a, Plus(a, Plus(left, swallowed)), n)
  {
  }

  lemma DriftRises(o: Org, q: Request, f: Faults, d: Id)
    requires d in o.depts && d in Handle(o, q, f).depts && !LosesIncrement(o, q, f)
    ensures RisesBy(DriftOf(o, d), DriftOf(Handle(o, q, f), d), if DeletesBelow(o, q, d) then 1 else 0)
  {
    HandlerLaw(o, q, f, d);
    ClampsOnlyRaise(o, q, f, d);
    OnlyLostIncrementsLower(o, q, f, d);
    PlusRises(DriftOf(o, d), Left(o, q, f, d), Swallowed(o, q, f, d), if DeletesBelow(o, q, d) then 1 else 0);
  }

  /** How many deletions of the history removed a department whose parent was d. */
  ghost function DeletedBelow(o: Org, served: seq<Served>, d: Id): nat
    decreases |served|
  {
    if served == [] then 0 else
      var front := served[..|served| - 1];
      DeletedBelow(o, front, d)
      + if DeletesBelow(Shipped(o, front), served[|served| - 1].request, d) then 1 else 0
  }

  /** No count is short; child_count is above the true number of children by at least the children deleted
      so far, and if nothing failed by exactly those, the other counts being exact. */
  ghost predicate LedgerAt(o: Org, served: seq<Served>, d: Id) {
    if d in Shipped(o, served).depts then
      && NotShortAt(Shipped(o, served), d) && DriftOf(Shipped(o, served), d).children >= DeletedBelow(o, served, d)
      && (Exact(o) && Faultless(served) ==>
            DriftOf(Shipped(o, served), d) == Drift(0, 0, DeletedBelow(o, served, d)))
    else DeletedBelow(o, served, d) == 0
  }

  ghost predicate Ledger(o: Org, served: seq<Served>) {
    forall d :: LedgerAt(o, served, d)
  }

  lemma LedgerIsNotShort(o: Org, served: seq<Served>)
    requires Ledger(o, served)
    ensures NeverShort(Shipped(o, served))
  {
    forall d | d in Shipped(o, served).depts
      ensures NotShortAt(Shipped(o, served), d)
    {
      assert LedgerAt(o, served, d);
    }
  }

  lemma AddDrift(a: Drift, b: Drift, n: int, k: int)
    requires a == Drift(0, 0, n) && b == Plus(a, Drift(0, 0, k))
    ensures b == Drift(0, 0, n + k)
  {
  }

  /** A department with children deleted from under it cannot be deleted: its count stays up. */
  lemma DeletedBelowBlocksDeletion(o: Org, served: seq<Served>, d: Id)
    requires LedgerAt(o, served, d) && DeletedBelow(o, served, d) > 0
    ensures d in Shipped(o, served).depts && DriftOf(Shipped(o, served), d).children > 0
    ensures !DeleteGoesThrough(Shipped(o, served), d)
  {
  }

  lemma LedgerStepFaultless(s: Org, q: Request, d: Id, n: nat)
    requires Covered(s) && d in s.depts && d in Handle(s, q, NO_FAULTS).depts && DriftOf(s, d) == Drift(0, 0, n)
    ensures DriftOf(Handle(s, q, NO_FAULTS), d) == Drift(0, 0, n + if DeletesBelow(s, q, d) then 1 else 0)
  {
    CoveredLaw(s, q, NO_FAULTS, d);
    OnlyDeletionLeavesDrift(s, q, d);
    AddDrift(DriftOf(s, d), DriftOf(Handle(s, q, NO_FAULTS), d), n, if DeletesBelow(s, q, d) then 1 else 0);
  }

  lemma LedgerStepOld(o: Org, before: seq<Served>, x: Served, d: Id)
    requires Covered(Shipped(o, before)) && LedgerAt(o, before, d)
    requires !LosesIncrement(Shipped(o, before), x.request, x.faults)
    requires d in Shipped(o, before).depts && d in Shipped(o, before + [x]).depts
    ensures LedgerAt(o, before + [x], d)
  {
    var s := Shipped(o, before);
    var after := before + [x];
    assert after[..|before|] == before;
    DriftRises(s, x.request, x.faults, d);
    if Exact(o) && Faultless(after) {
      assert x in after && forall y :: y in before ==> y in after;
      LedgerStepFaultless(s, x.request, d, DeletedBelow(o, before, d));
    }
  }

  lemma LedgerStepNew(o: Org, before: seq<Served>, x: Served, d: Id)
    requires WellFormed(Shipped(o, before)) && LedgerAt(o, before, d)
    requires d !in Shipped(o, before).depts && d in Shipped(o, before + [x]).depts
    ensures LedgerAt(o, before + [x], d)
  {
    var s := Shipped(o, before);
    assert (before + [x])[..|before|] == before;
    ExactAtNew(s, x.request, x.faults, d);
    OnlyCreateAddsDepartments(s, x.request, x.faults, d);
  }

  /** A deleted department had no deletions below it, so an id that is gone carries no debt. */
  lemma LedgerStepGone(o: Org, before: seq<Served>, x: Served, d: Id)
    requires WellFormed(Shipped(o, before)) && LedgerAt(o, before, d) && d !in Shipped(o, before + [x]).depts
    ensures LedgerAt(o, before + [x], d)
  {
    var s := Shipped(o, before);
    assert (before + [x])[..|before|] == before;
    if d in s.depts {
      OnlyDeleteRemoves(s, x.request, x.faults, d);
      if DeletedBelow(o, before, d) > 0 { DeletedBelowBlocksDeletion(o, before, d); }
    } else if x.request.Delete? && DeleteGoesThrough(s, x.request.id) {
      assert !Names(s.depts[x.request.id].parent, d);
    }
  }

  lemma OnlyDeleteRemoves(o: Org, q: Request, f: Faults, d: Id)
    requires d in o.depts && d !in Handle(o, q, f).depts
    ensures q == Request.Delete(d) && DeleteGoesThrough(o, d)
  {
  }

  lemma LedgerAtTheStart(o: Org)
    requires NeverShort(o)
    ensures Ledger(o, [])
  {
    forall d
      ensures LedgerAt(o, [], d)
    {
      if d in o.depts {
        assert NotShortAt(o, d);
        if Exact(o) { assert ExactAt(o, d); }
      }
    }
  }

  lemma LedgerStep(o: Org, before: seq<Served>, x: Served)
    requires WellFormed(Shipped(o, before)) && Ledger(o, before)
    requires !LosesIncrement(Shipped(o, before), x.request, x.faults)
    ensures Ledger(o, before + [x])
  {
    LedgerIsNotShort(o, before);
    NeverShortCovers(Shipped(o, before));
    forall d
      ensures LedgerAt(o, before + [x], d)
    {
      assert LedgerAt(o, before, d);
      if d !in Shipped(o, before + [x]).depts { LedgerStepGone(o, before, x, d); }
      else if d in Shipped(o, before).depts { LedgerStepOld(o, before, x, d); }
      else { LedgerStepNew(o, before, x, d); }
    }
  }

  /** Every history of the handlers in which no increment is lost, whatever else fails: no count is ever
      short, and each department's child_count is above the truth by at least the children deleted from
      under it. If nothing fails that is all there is, department by department. */
  lemma {:induction false} HistoryFollowsTheLedger(o: Org, served: seq<Served>)
    requires WellFormed(o) && NeverShort(o) && NoLostIncrement(o, served)
    ensures Ledger(o, served)
    decreases |served|
  {
    if served == [] {
      LedgerAtTheStart(o);
    } else {
      var before, x := served[..|served| - 1], served[|served| - 1];
      assert before + [x] == served;
      HistoryFollowsTheLedger(o, before);
      ShippedKeepsWellFormed(o, before);
      LedgerStep(o, before, x);
    }
  }

  /** So nobody's membership goes with a deleted department: only a lost increment can do that. */
  lemma NobodyIsLost(o: Org, served: seq<Served>, d: Id)
    requires WellFormed(o) && NeverShort(o) && NoLostIncrement(o, served)
    ensures HandleDelete(Shipped(o, served), d).members == Shipped(o, served).members
  {
    HistoryFollowsTheLedger(o, served);
    LedgerIsNotShort(o, served);
    if DeleteGoesThrough(Shipped(o, served), d) {
      assert NotShortAt(Shipped(o, served), d);
      DeleteLosesPeopleIffShort(Shipped(o, served), d);
    }
  }

  /** A member or child count that is too high. */
  ghost predicate OverCounted(o: Org, d: Id) {
    d in o.depts && (DriftOf(o, d).members > 0 || DriftOf(o, d).children > 0)
  }

  lemma OverCountedBlocksDeletion(o: Org, d: Id)
    requires OverCounted(o, d)
    ensures !DeleteGoesThrough(o, d)
  {
  }

  /** A department that is counted too high, because a decrement failed or a child was deleted, is there for
      good: whatever is requested afterwards, and even after its last child and last member have left, no
      deletion of it goes through, as long as no increment is lost to make up for it. */
  lemma {:induction false} OverCountedIsNeverDeletable(o: Org, served: seq<Served>, d: Id)
    requires OverCounted(o, d) && NoLostIncrement(o, served)
    ensures OverCounted(Shipped(o, served), d) && !DeleteGoesThrough(Shipped(o, served), d)
    decreases |served|
  {
    if served != [] {
      var front, last := served[..|served| - 1], served[|served| - 1];
      OverCountedIsNeverDeletable(o, front, d);
      var s := Shipped(o, front);
      if d !in Handle(s, last.request, last.faults).depts {
        OnlyDeleteRemoves(s, last.request, last.faults, d);
        assert false;
      }
      DriftRises(s, last.request, last.faults, d);
    }
    OverCountedBlocksDeletion(Shipped(o, served), d);
  }

  /** In particular a department that ever lost a child to deletion. */
  lemma NeverDeletableAgain(o: Org, served: seq<Served>, more: seq<Served>, d: Id)
    requires WellFormed(o) && NeverShort(o) && NoLostIncrement(o, served)
    requires NoLostIncrement(Shipped(o, served), more)
    requires DeletedBelow(o, served, d) > 0
    ensures d in Shipped(o, served + more).depts && !DeleteGoesThrough(Shipped(o, served + more), d)
  {
    HistoryFollowsTheLedger(o, served);
    assert LedgerAt(o, served, d);
    DeletedBelowBlocksDeletion(o, served, d);
    OverCountedIsNeverDeletable(Shipped(o, served), more, d);
    ShippedAgain(o, served, more);
  }
}
